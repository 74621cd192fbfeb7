/** unpv13e/libgai: ga_clone, ga_port and ga_serv on the linked list itself, which they edit in place. */
module AddrInfoList {
  import opened SeqFacts
  import opened AddrInfoSpec

  class SockAddr {
    var host: int
    var port: int

    constructor (h: int, p: int)
      ensures host == h && port == p
    {
      host, port := h, p;
    }
  }

  class AddrInfo {
    var clone: bool
    var family: Family
    var socktype: int
    var protocol: int
    var addr: SockAddr
    var next: AddrInfo?

    constructor (e: Info, a: SockAddr, n: AddrInfo?)
      ensures clone == e.clone && family == e.family && socktype == e.socktype && protocol == e.protocol
      ensures addr == a && next == n
    {
      clone, family, socktype, protocol, addr, next := e.clone, e.family, e.socktype, e.protocol, a, n;
    }

    function Value(): Info
      reads this, addr
    {
      Info(clone, family, socktype, protocol, addr.host, addr.port)
    }
  }

  // ----- the list -----

  /** What the i-th node must point to. */
  ghost function After(nodes: seq<AddrInfo>, i: nat): AddrInfo?
    requires i < |nodes|
  {
    if i + 1 < |nodes| then nodes[i + 1] else null
  }

  /** Each node points to the next one, the last to null. */
  ghost predicate Linked(nodes: seq<AddrInfo>)
    reads nodes
  {
    forall i :: 0 <= i < |nodes| ==> nodes[i].next == After(nodes, i)
  }

  /** No two nodes share address storage. */
  ghost predicate Unshared(nodes: seq<AddrInfo>)
    reads nodes`addr
  {
    forall i, j :: 0 <= i < j < |nodes| ==> nodes[i].addr != nodes[j].addr
  }

  ghost predicate IsList(head: AddrInfo?, nodes: seq<AddrInfo>)
    reads nodes
  {
    && Distinct(nodes) && Linked(nodes) && Unshared(nodes)
    && head == if nodes == [] then null else nodes[0]
  }

  ghost function Addrs(nodes: seq<AddrInfo>): set<SockAddr>
    reads nodes
  {
    set n | n in nodes :: n.addr
  }

  ghost function Values(nodes: seq<AddrInfo>): (v: seq<Info>)
    reads nodes, Addrs(nodes)
    ensures |v| == |nodes| && forall i :: 0 <= i < |v| ==> v[i] == nodes[i].Value()
  {
    seq(|nodes|, i requires 0 <= i < |nodes| reads nodes, Addrs(nodes) => nodes[i].Value())
  }

  /** ga_clone: a copy with its own address storage, linked in right behind ai. */
  method GaClone(ai: AddrInfo) returns (n: AddrInfo)
    modifies ai`next
    ensures fresh(n) && fresh(n.addr) && n.next == old(ai.next) && ai.next == n
    ensures n.Value() == ai.Value().(clone := false)
  {
    var a := new SockAddr(ai.addr.host, ai.addr.port);
    n := new AddrInfo(ai.Value().(clone := false), a, ai.next);
    ai.next := n;
  }

  function Inserted<T>(s: seq<T>, k: nat, x: T): (r: seq<T>)
    requires k < |s|
    ensures |r| == |s| + 1
    ensures forall i :: 0 <= i < |r| ==> r[i] == if i <= k then s[i] else if i == k + 1 then x else s[i - 1]
  {
    s[..k + 1] + [x] + s[k + 1..]
  }

  lemma {:induction false} InsertedLinked(nodes: seq<AddrInfo>, k: nat, n: AddrInfo)
    requires k < |nodes| && nodes[k].next == n && n.next == After(nodes, k)
    requires forall i :: 0 <= i < |nodes| && i != k ==> nodes[i].next == After(nodes, i)
    ensures Linked(Inserted(nodes, k, n)) && n.next == After(Inserted(nodes, k, n), k + 1)
  {
    var r := Inserted(nodes, k, n);
    forall i | 0 <= i < |r| ensures r[i].next == After(r, i) {
      if i > k + 1 {
        assert r[i] == nodes[i - 1] && nodes[i - 1].next == After(nodes, i - 1) == After(r, i);
      } else if i == k + 1 {
        assert r[i] == n && After(nodes, k) == After(r, i);
      } else if i < k {
        assert r[i] == nodes[i] && After(nodes, i) == After(r, i);
      }
    }
  }

  lemma {:induction false} InsertedApart(nodes: seq<AddrInfo>, k: nat, n: AddrInfo)
    requires Distinct(nodes) && Unshared(nodes) && k < |nodes|
    requires forall i :: 0 <= i < |nodes| ==> n != nodes[i] && n.addr != nodes[i].addr
    ensures Distinct(Inserted(nodes, k, n)) && Unshared(Inserted(nodes, k, n))
  {
    var r := Inserted(nodes, k, n);
    forall i, j | 0 <= i < j < |r| ensures r[i] != r[j] && r[i].addr != r[j].addr {
      var i', j' := if i <= k then i else i - 1, if j <= k then j else j - 1;
      assert i != k + 1 ==> r[i] == nodes[i'];
      assert j != k + 1 ==> r[j] == nodes[j'];
    }
  }

  /** Setting the socket type, and the port of an IP address (ga_port.c:47-62). */
  method Assign(ai: AddrInfo, port: int, socktype: int) returns (found: nat)
    modifies ai`socktype, ai.addr`port
    ensures ai.Value() == Assigned(old(ai.Value()), port, socktype)
    ensures found == if ai.family.OtherFamily? then 0 else 1
  {
    ai.socktype := socktype;
    found := 0;
    match ai.family
    case Inet =>
      ai.addr.port := port;
      found := 1;
    case Inet6 =>
      ai.addr.port := port;
      found := 1;
    case OtherFamily =>
  }

  /** One element of a sequence replaced by one or two. */
  function Replaced<T>(s: seq<T>, d: nat, r: seq<T>): seq<T>
    requires d < |s|
  {
    s[..d] + r + s[d + 1..]
  }

  lemma {:induction false} SelfReplaced(vs: seq<Info>, vs': seq<Info>, d: nat, x: Info)
    requires |vs| == |vs'| && d < |vs| && vs'[d] == x && forall i :: 0 <= i < |vs| && i != d ==> vs'[i] == vs[i]
    ensures vs' == Replaced(vs, d, [x])
  {
  }

  lemma {:induction false} CloneReplaced(vs: seq<Info>, vs': seq<Info>, d: nat, y: Info)
    requires d < |vs| && vs' == Inserted(vs, d, y)
    ensures vs' == Replaced(vs, d, [vs[d], y])
  {
  }

  lemma {:induction false} FirstStays(head: AddrInfo?, all: seq<AddrInfo>, d: nat, n: AddrInfo)
    requires d < |all| && head == all[0]
    requires var r := Inserted(all, d, n); Distinct(r) && Linked(r) && Unshared(r)
    ensures IsList(head, Inserted(all, d, n))
  {
  }

  lemma {:induction false} ListParts(head: AddrInfo?, all: seq<AddrInfo>, d: nat)
    requires IsList(head, all) && d < |all|
    ensures Distinct(all) && Unshared(all) && head == all[0] && all[d].next == After(all, d)
    ensures forall i :: 0 <= i < |all| && i != d ==> all[i] != all[d] && all[i].next == After(all, i)
  {
  }

  /** An original that already has a type: its clone gets the new one. */
  method CloneBehind(ai: AddrInfo, port: int, socktype: int, ghost head: AddrInfo?, ghost all: seq<AddrInfo>, ghost d: nat)
    returns (n: AddrInfo, found: nat)
    requires IsList(head, all) && d < |all| && ai == all[d]
    modifies ai`next
    ensures IsList(head, Inserted(all, d, n)) && fresh(n) && fresh(n.addr) && n.next == After(Inserted(all, d, n), d + 1)
    ensures n.Value() == Assigned(ai.Value().(clone := false), port, socktype) && ai.Value() == old(ai.Value())
    ensures found == if ai.family.OtherFamily? then 0 else 1
  {
    hide Assigned, IsList, Linked, Unshared, Distinct, After, Inserted;
    ListParts(head, all, d);
    n := GaClone(ai);
    found := Assign(n, port, socktype);
    InsertedLinked(all, d, n);
    InsertedApart(all, d, n);
    FirstStays(head, all, d, n);
  }

  method VisitClone(ai: AddrInfo, port: int, socktype: int, ghost head: AddrInfo?, ghost all: seq<AddrInfo>, ghost d: nat)
    returns (n: AddrInfo, found: nat)
    requires IsList(head, all) && d < |all| && ai == all[d]
    modifies ai`next
    ensures IsList(head, Inserted(all, d, n)) && fresh(n) && fresh(n.addr) && n.next == After(Inserted(all, d, n), d + 1)
    ensures var e := old(ai.Value());
            Values(Inserted(all, d, n)) == Replaced(old(Values(all)), d, [e, Assigned(e.(clone := false), port, socktype)])
    ensures found == if old(ai.family).OtherFamily? then 0 else 1
  {
    hide Assigned, Linked, Unshared, After;
    ghost var vs := Values(all);
    n, found := CloneBehind(ai, port, socktype, head, all, d);
    ghost var all' := Inserted(all, d, n);
    forall i | 0 <= i < |all'| ensures all'[i].Value() == Inserted(vs, d, n.Value())[i] {
      if i < d {
        assert all'[i] == all[i] != ai;
      } else if i > d + 1 {
        assert all'[i] == all[i - 1] != ai;
      }
    }
    assert Values(all') == Inserted(vs, d, n.Value());
    CloneReplaced(vs, Values(all'), d, n.Value());
  }

  lemma {:induction false} OthersApart(head: AddrInfo?, all: seq<AddrInfo>, d: nat)
    requires IsList(head, all) && d < |all|
    ensures forall i :: 0 <= i < |all| && i != d ==> all[i] != all[d] && all[i].addr != all[d].addr
  {
  }

  /** An entry that takes the type itself. */
  method VisitSelf(ai: AddrInfo, port: int, socktype: int, ghost head: AddrInfo?, ghost all: seq<AddrInfo>, ghost d: nat)
    returns (found: nat)
    requires IsList(head, all) && d < |all| && ai == all[d]
    modifies ai`socktype, ai.addr`port
    ensures IsList(head, all) && ai.next == After(all, d)
    ensures Values(all) == Replaced(old(Values(all)), d, [Assigned(old(ai.Value()), port, socktype)])
    ensures found == if old(ai.family).OtherFamily? then 0 else 1
  {
    hide Assigned, After;
    ghost var vs := Values(all);
    OthersApart(head, all, d);
    found := Assign(ai, port, socktype);
    assert IsList(head, all) && ai.next == After(all, d);
    hide IsList, Distinct, Linked, Unshared;
    forall i | 0 <= i < |all| && i != d ensures all[i].Value() == vs[i] {
    }
    SelfReplaced(vs, Values(all), d, ai.Value());
  }

  /** Every node and its address storage belong to `mine`. */
  ghost predicate Within(nodes: seq<AddrInfo>, mine: set<object>)
    reads nodes
  {
    forall i :: 0 <= i < |nodes| ==> nodes[i] in mine && nodes[i].addr in mine
  }

  lemma {:induction false} InsertedWithin(all: seq<AddrInfo>, d: nat, n: AddrInfo, mine: set<object>)
    requires d < |all| && Within(all, mine)
    ensures Within(Inserted(all, d, n), mine + {n, n.addr})
  {
  }

  /** The body of the loop in ga_port for one entry; `last` is where the loop goes on from. */
  method Visit(ai: AddrInfo, port: int, socktype: int, ghost head: AddrInfo?, ghost all: seq<AddrInfo>, ghost d: nat,
               ghost mine: set<object>)
    returns (last: AddrInfo, found: nat, ghost all': seq<AddrInfo>, ghost mine': set<object>)
    requires IsList(head, all) && d < |all| && ai == all[d] && Within(all, mine)
    modifies ai, ai.addr
    ensures IsList(head, all') && Within(all', mine') && mine <= mine' && fresh(mine' - mine)
    ensures var r := Visited(old(ai.Value()), port, socktype);
            Values(all') == Replaced(old(Values(all)), d, r) && last.next == After(all', d + |r| - 1)
    ensures found == Found(old(ai.Value()), socktype)
  {
    hide Assigned, IsList, Replaced, After, Inserted;
    all', last, mine' := all, ai, mine;
    if ai.clone {
      if ai.socktype != 0 {
        last, found := VisitClone(ai, port, socktype, head, all, d);
        all', mine' := Inserted(all, d, last), mine + {last, last.addr};
        InsertedWithin(all, d, last, mine);
      } else {
        found := VisitSelf(ai, port, socktype, head, all, d);
      }
    } else if ai.socktype != socktype {
      found := 0;
      Unvisited(all, d, head);
    } else {
      found := VisitSelf(ai, port, socktype, head, all, d);
    }
  }

  lemma {:induction false} Unvisited(all: seq<AddrInfo>, d: nat, head: AddrInfo?)
    requires IsList(head, all) && d < |all|
    ensures all[d].next == After(all, d) && Values(all) == Replaced(Values(all), d, [all[d].Value()])
  {
    SelfReplaced(Values(all), Values(all), d, all[d].Value());
  }

  lemma {:induction false} ReplacedFront(p: seq<Info>, rest: seq<Info>, r: seq<Info>)
    requires rest != []
    ensures Replaced(p + rest, |p|, r) == (p + r) + rest[1..] && (p + rest)[|p|] == rest[0]
  {
  }

  /** The values after k entries have been visited. */
  lemma {:induction false} PortStep(es: seq<Info>, k: nat, port: int, socktype: int, vs: seq<Info>)
    requires k < |es| && vs == Port(es[..k], port, socktype) + es[k..]
    ensures var d, r := |Port(es[..k], port, socktype)|, Visited(es[k], port, socktype);
            && d < |vs| && vs[d] == es[k]
            && |Port(es[..k + 1], port, socktype)| == d + |r|
            && Replaced(vs, d, r) == Port(es[..k + 1], port, socktype) + es[k + 1..]
    ensures FoundIn(es[..k + 1], socktype) == FoundIn(es[..k], socktype) + Found(es[k], socktype)
  {
    assert es[..k + 1][..k] == es[..k];
    ReplacedFront(Port(es[..k], port, socktype), es[k..], Visited(es[k], port, socktype));
    assert es[k..][1..] == es[k + 1..];
  }

  /** The values of the list when k of the entries es have been visited, and the next to visit. */
  ghost predicate Reached(all: seq<AddrInfo>, ai: AddrInfo?, es: seq<Info>, k: nat, port: int, socktype: int)
    reads all, Addrs(all)
  {
    && k <= |es|
    && Values(all) == Port(es[..k], port, socktype) + es[k..]
    && ai == var d := |Port(es[..k], port, socktype)|; if d < |all| then all[d] else null
  }

  /** The body of the loop and its step to the next entry. */
  method Advance(ai: AddrInfo, port: int, socktype: int, ghost head: AddrInfo?, ghost all: seq<AddrInfo>,
                 ghost mine: set<object>, ghost es: seq<Info>, ghost k: nat)
    returns (next: AddrInfo?, found: nat, ghost all': seq<AddrInfo>, ghost mine': set<object>)
    requires IsList(head, all) && Within(all, mine) && Reached(all, ai, es, k, port, socktype)
    modifies ai, ai.addr
    ensures k < |es| && IsList(head, all') && Reached(all', next, es, k + 1, port, socktype)
    ensures Within(all', mine') && mine <= mine' && fresh(mine' - mine)
    ensures FoundIn(es[..k + 1], socktype) == FoundIn(es[..k], socktype) + found
  {
    hide Port, Visited, Found, FoundIn, IsList, Replaced, Within;
    ghost var d := |Port(es[..k], port, socktype)|;
    assert d < |all| && k < |es| && |Values(all)| == |all|;
    PortStep(es, k, port, socktype, Values(all));
    assert ai.Value() == Values(all)[d] == es[k];
    var last;
    last, found, all', mine' := Visit(ai, port, socktype, head, all, d, mine);
    next := last.next;
    assert |Values(all')| == |all'|;
  }

  /** ga_port: walks the list, inserting clones behind entries that already have a type. The list
      afterwards is Port of the list before; every node still has address storage of its own. */
  method GaPort(aihead: AddrInfo?, port: int, socktype: int, ghost nodes: seq<AddrInfo>, ghost mine: set<object>)
    returns (nfound: nat, ghost nodes': seq<AddrInfo>, ghost mine': set<object>)
    requires IsList(aihead, nodes) && Within(nodes, mine)
    modifies mine
    ensures IsList(aihead, nodes') && Within(nodes', mine') && mine <= mine' && fresh(mine' - mine)
    ensures Values(nodes') == Port(old(Values(nodes)), port, socktype)
    ensures nfound == FoundIn(old(Values(nodes)), socktype)
  {
    hide IsList, Reached, Port, FoundIn, Values, Within;
    nfound := 0;
    nodes', mine' := nodes, mine;
    ghost var es, k := Values(nodes), 0;
    var ai := aihead;
    ReachedStart(aihead, nodes, port, socktype);
    while ai != null
      invariant IsList(aihead, nodes') && Within(nodes', mine') && mine <= mine' && fresh(mine' - mine)
      invariant 0 <= k <= |es| && Reached(nodes', ai, es, k, port, socktype)
      invariant nfound == FoundIn(es[..k], socktype)
      decreases |es| - k
    {
      ReachedMember(nodes', mine', ai, es, k, port, socktype);
      var rc;
      ai, rc, nodes', mine' := Advance(ai, port, socktype, aihead, nodes', mine', es, k);
      nfound := nfound + rc;
      k := k + 1;
    }
    ReachedEnd(nodes', es, k, port, socktype);
  }

  lemma {:induction false} ReachedStart(head: AddrInfo?, nodes: seq<AddrInfo>, port: int, socktype: int)
    requires IsList(head, nodes)
    ensures Reached(nodes, head, Values(nodes), 0, port, socktype) && FoundIn(Values(nodes)[..0], socktype) == 0
  {
    var es := Values(nodes);
    assert es[..0] == [] && es[0..] == es;
  }

  lemma {:induction false} ReachedMember(all: seq<AddrInfo>, mine: set<object>, ai: AddrInfo, es: seq<Info>,
                                         k: nat, port: int, socktype: int)
    requires Reached(all, ai, es, k, port, socktype) && Within(all, mine)
    ensures ai in mine && ai.addr in mine
  {
  }

  lemma {:induction false} ReachedEnd(all: seq<AddrInfo>, es: seq<Info>, k: nat, port: int, socktype: int)
    requires Reached(all, null, es, k, port, socktype)
    ensures es[..k] == es && Values(all) == Port(es, port, socktype)
  {
    assert |Values(all)| == |all|;
    assert es[..|es|] == es && es[|es|..] == [];
  }

  /** ga_serv: the calls for a port number or for a service name, and the error when they found nothing. */
  method GaServ(aihead: AddrInfo?, hint: int, serv: Service, ghost nodes: seq<AddrInfo>, ghost mine: set<object>)
    returns (rc: Outcome, ghost nodes': seq<AddrInfo>, ghost mine': set<object>)
    requires IsList(aihead, nodes) && Within(nodes, mine)
    modifies mine
    ensures IsList(aihead, nodes') && Within(nodes', mine') && mine <= mine' && fresh(mine' - mine)
    ensures Values(nodes') == Calls(old(Values(nodes)), Wanted(serv, hint))
    ensures rc == if FoundByCalls(old(Values(nodes)), Wanted(serv, hint)) > 0 then Success
                  else if hint == 0 then NoName else NoService
  {
    hide IsList, Within, Values, Port, FoundIn, Calls, FoundByCalls;
    ghost var es := Values(nodes);
    NoCalls(es);
    var nfound, n := 0, 0;
    nodes', mine' := nodes, mine;
    ghost var made: seq<Call> := [];
    match serv {
      case Number(port) =>
        if hint != 0 {
          n, nodes', mine' := GaPort(aihead, port, hint, nodes', mine');
          nfound, made := nfound + n, OneMore(es, made, Call(port, hint));
        } else {
          n, nodes', mine' := GaPort(aihead, port, STREAM, nodes', mine');
          nfound, made := nfound + n, OneMore(es, made, Call(port, STREAM));
          n, nodes', mine' := GaPort(aihead, port, DATAGRAM, nodes', mine');
          nfound, made := nfound + n, OneMore(es, made, Call(port, DATAGRAM));
        }
      case Name(tcp, udp) =>
        if hint == 0 || hint == STREAM {
          if tcp.Known? {
            n, nodes', mine' := GaPort(aihead, tcp.port, STREAM, nodes', mine');
            nfound, made := nfound + n, OneMore(es, made, Call(tcp.port, STREAM));
          }
        }
        if hint == 0 || hint == DATAGRAM {
          if udp.Known? {
            n, nodes', mine' := GaPort(aihead, udp.port, DATAGRAM, nodes', mine');
            nfound, made := nfound + n, OneMore(es, made, Call(udp.port, DATAGRAM));
          }
        }
    }
    assert made == Wanted(serv, hint);
    if nfound == 0 {
      rc := if hint == 0 then NoName else NoService;
    } else {
      rc := Success;
    }
  }

  lemma {:induction false} NoCalls(es: seq<Info>)
    ensures Calls(es, []) == es && FoundByCalls(es, []) == 0
  {
  }

  ghost function OneMore(es: seq<Info>, calls: seq<Call>, c: Call): (r: seq<Call>)
    ensures Calls(es, r) == Port(Calls(es, calls), c.port, c.socktype)
    ensures FoundByCalls(es, r) == FoundByCalls(es, calls) + FoundIn(Calls(es, calls), c.socktype)
  {
    var r := calls + [c];
    assert r[..|r| - 1] == calls;
    r
  }
}
