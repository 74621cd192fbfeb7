/** unpv13e/libgai/ga_port.c on values: what one call, and any sequence of calls, makes of the list. */
module AddrInfoSpec {

  datatype Family = Inet | Inet6 | OtherFamily

  /** One addrinfo entry with the socket address it points to. `clone` is the AI_CLONE flag. */
  datatype Info = Info(clone: bool, family: Family, socktype: int, protocol: int, host: int, port: int)

  /** Socket type and, for an IP address, port (ga_port.c:47-62). */
  function Assigned(e: Info, port: int, socktype: int): Info {
    e.(socktype := socktype, port := if e.family.OtherFamily? then e.port else port)
  }

  /** The entries that stand in the place of e after a call. */
  function Visited(e: Info, port: int, socktype: int): (r: seq<Info>)
    ensures 1 <= |r| <= 2
  {
    if e.clone then
      if e.socktype != 0 then [e, Assigned(e.(clone := false), port, socktype)]
      else [Assigned(e, port, socktype)]
    else if e.socktype != socktype then [e]
    else [Assigned(e, port, socktype)]
  }

  /** Entries of e's place that were counted in nfound. */
  function Found(e: Info, socktype: int): nat {
    if !e.family.OtherFamily? && (e.clone || e.socktype == socktype) then 1 else 0
  }

  function Port(es: seq<Info>, port: int, socktype: int): seq<Info> {
    if es == [] then [] else Port(es[..|es| - 1], port, socktype) + Visited(es[|es| - 1], port, socktype)
  }

  function FoundIn(es: seq<Info>, socktype: int): nat {
    if es == [] then 0 else FoundIn(es[..|es| - 1], socktype) + Found(es[|es| - 1], socktype)
  }

  // ----- any number of calls -----

  datatype Call = Call(port: int, socktype: int)

  function Calls(es: seq<Info>, calls: seq<Call>): seq<Info> {
    if calls == [] then es
    else
      var last := calls[|calls| - 1];
      Port(Calls(es, calls[..|calls| - 1]), last.port, last.socktype)
  }

  /** Distinct nonzero socket types. */
  predicate DistinctTypes(calls: seq<Call>) {
    && (forall i :: 0 <= i < |calls| ==> calls[i].socktype != 0)
    && (forall i, j :: 0 <= i < j < |calls| ==> calls[i].socktype != calls[j].socktype)
  }

  /** A fresh entry of the host search with AI_CLONE set. */
  predicate Cloneable(e: Info) {
    e.clone && e.socktype == 0 && !e.family.OtherFamily?
  }

  /** The entries of one address: the original with the first type, then the others, latest first. */
  function Group(e: Info, calls: seq<Call>): (g: seq<Info>)
    ensures |g| == if calls == [] then 1 else |calls|
  {
    if calls == [] then [e]
    else if |calls| == 1 then [Assigned(e, calls[0].port, calls[0].socktype)]
    else
      var last := calls[|calls| - 1];
      var before := Group(e, calls[..|calls| - 1]);
      [before[0]] + [Assigned(e.(clone := false), last.port, last.socktype)] + before[1..]
  }

  function Groups(es: seq<Info>, calls: seq<Call>): seq<Info> {
    if es == [] then [] else Groups(es[..|es| - 1], calls) + Group(es[|es| - 1], calls)
  }

  lemma {:induction false} PortAppend(a: seq<Info>, b: seq<Info>, port: int, socktype: int)
    ensures Port(a + b, port, socktype) == Port(a, port, socktype) + Port(b, port, socktype)
  {
    hide Visited;
    if b == [] {
      assert a + b == a;
    } else {
      var n := |b| - 1;
      assert (a + b)[..|a + b| - 1] == a + b[..n];
      PortAppend(a, b[..n], port, socktype);
    }
  }

  lemma {:induction false} PortOne(e: Info, port: int, socktype: int)
    ensures Port([e], port, socktype) == Visited(e, port, socktype)
  {
    assert [e][..0] == [];
  }

  /** How many entries of a list gain a clone: the originals that already have a type. */
  function Clones(es: seq<Info>): nat {
    if es == [] then 0
    else Clones(es[..|es| - 1]) + (if es[|es| - 1].clone && es[|es| - 1].socktype != 0 then 1 else 0)
  }

  /** The port of an entry after a call that reaches it: only IP addresses have one. */
  function PortFor(e: Info, port: int): int {
    if e.family == Inet || e.family == Inet6 then port else e.port
  }

  /** One call on any list, entry by entry: entry i stands behind the clones made before it. An original
      that has a type is left alone and followed by a clone with the new type and port; an original
      without a type, or an entry of that type, takes both itself; any other is left alone. */
  lemma {:induction false} PortAt(es: seq<Info>, port: int, socktype: int, i: nat)
    requires i < |es|
    ensures |Port(es, port, socktype)| == |es| + Clones(es)
    ensures StandsAt(Port(es, port, socktype), i + Clones(es[..i]), es[i], port, socktype)
  {
    var n := |es| - 1;
    PortSize(es, port, socktype);
    PortSize(es[..n], port, socktype);
    if i < n {
      PortAt(es[..n], port, socktype, i);
      assert es[..n][..i] == es[..i];
      hide StandsAt, Visited, Clones;
      StillStands(Port(es[..n], port, socktype), Visited(es[n], port, socktype), i + Clones(es[..i]), es[i], port, socktype);
    } else {
      hide Port, Clones;
      StandsBehind(Port(es[..n], port, socktype), es[n], port, socktype);
    }
  }

  /** What entry e has become, at this place of the list r. */
  predicate StandsAt(r: seq<Info>, at: nat, e: Info, port: int, socktype: int) {
    && at < |r|
    && if e.clone && e.socktype != 0 then
         && r[at] == e && at + 1 < |r|
         && r[at + 1] == Info(false, e.family, socktype, e.protocol, e.host, PortFor(e, port))
       else if e.clone || e.socktype == socktype then
         r[at] == Info(e.clone, e.family, socktype, e.protocol, e.host, PortFor(e, port))
       else r[at] == e
  }

  lemma {:induction false} StillStands(r: seq<Info>, more: seq<Info>, at: nat, e: Info, port: int, socktype: int)
    requires StandsAt(r, at, e, port, socktype)
    ensures StandsAt(r + more, at, e, port, socktype)
  {
  }

  lemma {:induction false} StandsBehind(r: seq<Info>, e: Info, port: int, socktype: int)
    ensures StandsAt(r + Visited(e, port, socktype), |r|, e, port, socktype)
  {
  }

  lemma {:induction false} PortSize(es: seq<Info>, port: int, socktype: int)
    ensures |Port(es, port, socktype)| == |es| + Clones(es)
  {
    if es != [] {
      PortSize(es[..|es| - 1], port, socktype);
    }
  }

  /** Entries that are no originals and have other types are left alone. */
  lemma {:induction false} PortSkips(es: seq<Info>, port: int, socktype: int)
    requires forall i :: 0 <= i < |es| ==> !es[i].clone && es[i].socktype != socktype
    ensures Port(es, port, socktype) == es
  {
    if es != [] {
      PortSkips(es[..|es| - 1], port, socktype);
    }
  }

  /** The shape of a group: an original that keeps its flag, and clones of it that have the later types. */
  lemma {:induction false} GroupShape(e: Info, calls: seq<Call>)
    requires Cloneable(e) && DistinctTypes(calls) && calls != []
    ensures var g := Group(e, calls);
            && g[0] == Assigned(e, calls[0].port, calls[0].socktype)
            && (forall i :: 1 <= i < |g| ==>
                  g[i] == Assigned(e.(clone := false), calls[|calls| - i].port, calls[|calls| - i].socktype))
  {
    if |calls| > 1 {
      GroupShape(e, calls[..|calls| - 1]);
    }
  }

  /** How a group meets a call with a new type. */
  lemma {:induction false} GroupMeets(e: Info, calls: seq<Call>, port: int, socktype: int)
    requires Cloneable(e) && DistinctTypes(calls) && calls != []
    requires forall i :: 0 <= i < |calls| ==> calls[i].socktype != socktype
    ensures var g := Group(e, calls);
            && Visited(g[0], port, socktype) == [g[0], Assigned(e.(clone := false), port, socktype)]
            && forall i :: 0 <= i < |g[1..]| ==> !g[1..][i].clone && g[1..][i].socktype != socktype
  {
    GroupShape(e, calls);
    hide Group;
  }

  /** One more call adds one clone right after the original. */
  lemma {:induction false} GroupStep(e: Info, calls: seq<Call>)
    requires Cloneable(e) && DistinctTypes(calls) && calls != []
    ensures var last := calls[|calls| - 1];
            Port(Group(e, calls[..|calls| - 1]), last.port, last.socktype) == Group(e, calls)
  {
    var before, last := calls[..|calls| - 1], calls[|calls| - 1];
    if before == [] {
      PortOne(e, last.port, last.socktype);
    } else {
      var g := Group(e, before);
      GroupMeets(e, before, last.port, last.socktype);
      hide Port, Visited, DistinctTypes, Assigned;
      assert g == [g[0]] + g[1..];
      PortAppend([g[0]], g[1..], last.port, last.socktype);
      PortOne(g[0], last.port, last.socktype);
      PortSkips(g[1..], last.port, last.socktype);
      assert [g[0]] + [Assigned(e.(clone := false), last.port, last.socktype)]
          == [g[0], Assigned(e.(clone := false), last.port, last.socktype)];
    }
  }

  lemma {:induction false} GroupsStep(es: seq<Info>, calls: seq<Call>)
    requires (forall i :: 0 <= i < |es| ==> Cloneable(es[i])) && DistinctTypes(calls) && calls != []
    ensures var last := calls[|calls| - 1];
            Port(Groups(es, calls[..|calls| - 1]), last.port, last.socktype) == Groups(es, calls)
  {
    hide Group, Visited, Cloneable, DistinctTypes;
    if es != [] {
      var n, last := |es| - 1, calls[|calls| - 1];
      GroupsStep(es[..n], calls);
      GroupStep(es[n], calls);
      PortAppend(Groups(es[..n], calls[..|calls| - 1]), Group(es[n], calls[..|calls| - 1]), last.port, last.socktype);
    }
  }

  lemma {:induction false} GroupsNone(es: seq<Info>)
    ensures Groups(es, []) == es
  {
    if es != [] {
      GroupsNone(es[..|es| - 1]);
    }
  }

  /** Calling ga_port once for each of m distinct types replaces every original by its group of m. */
  lemma {:induction false} CallsMakeGroups(es: seq<Info>, calls: seq<Call>)
    requires (forall i :: 0 <= i < |es| ==> Cloneable(es[i])) && DistinctTypes(calls)
    ensures Calls(es, calls) == Groups(es, calls)
  {
    if calls == [] {
      GroupsNone(es);
    } else {
      CallsMakeGroups(es, calls[..|calls| - 1]);
      GroupsStep(es, calls);
    }
  }

  lemma {:induction false} GroupsSize(es: seq<Info>, calls: seq<Call>)
    requires calls != []
    ensures |Groups(es, calls)| == |es| * |calls|
  {
    hide Group;
    if es != [] {
      var n, m := |es| - 1, |calls|;
      GroupsSize(es[..n], calls);
      assert (n + 1) * m == n * m + m;
    }
  }

  lemma {:induction false} GroupsAt(es: seq<Info>, calls: seq<Call>, i: nat, k: nat)
    requires calls != [] && i < |es| && k < |calls|
    ensures i * |calls| + k < |Groups(es, calls)| && Groups(es, calls)[i * |calls| + k] == Group(es[i], calls)[k]
  {
    hide Group;
    var n := |es| - 1;
    GroupsSize(es[..n], calls);
    if i < n {
      GroupsAt(es[..n], calls, i, k);
    }
  }

  /** k cloneable entries and m distinct types give exactly k*m entries: for address i and type j one
      entry with that host, type and port, addresses in their original order, the first type on the
      original and the later ones behind it, latest first. */
  lemma {:induction false} OnePerAddressAndType(es: seq<Info>, calls: seq<Call>, i: nat, j: nat)
    requires (forall a :: 0 <= a < |es| ==> Cloneable(es[a])) && DistinctTypes(calls)
    requires i < |es| && j < |calls|
    ensures |Calls(es, calls)| == |es| * |calls|
    ensures var at := i * |calls| + (if j == 0 then 0 else |calls| - j);
            && 0 <= at < |es| * |calls|
            && Calls(es, calls)[at]
            == Info(j == 0, es[i].family, calls[j].socktype, es[i].protocol, es[i].host, calls[j].port)
  {
    hide *;
    CallsMakeGroups(es, calls);
    GroupsSize(es, calls);
    GroupAt(es[i], calls, j);
    GroupsAt(es, calls, i, if j == 0 then 0 else |calls| - j);
  }

  /** Where type j stands in a group. */
  lemma {:induction false} GroupAt(e: Info, calls: seq<Call>, j: nat)
    requires Cloneable(e) && DistinctTypes(calls) && j < |calls|
    ensures Group(e, calls)[if j == 0 then 0 else |calls| - j]
         == Info(j == 0, e.family, calls[j].socktype, e.protocol, e.host, calls[j].port)
  {
    GroupShape(e, calls);
    assert e.(clone := true) == e;
  }

  // ----- the documented case -----

  /** Two addresses, SOCK_STREAM then SOCK_DGRAM: the four entries in the order ga_port.c promises. */
  lemma {:induction false} StreamThenDatagram(a: Info, b: Info, stream: Call, dgram: Call)
    requires Cloneable(a) && Cloneable(b) && DistinctTypes([stream, dgram])
    ensures Calls([a, b], [stream, dgram]) ==
            [Info(true, a.family, stream.socktype, a.protocol, a.host, stream.port),
             Info(false, a.family, dgram.socktype, a.protocol, a.host, dgram.port),
             Info(true, b.family, stream.socktype, b.protocol, b.host, stream.port),
             Info(false, b.family, dgram.socktype, b.protocol, b.host, dgram.port)]
  {
    var es, calls := [a, b], [stream, dgram];
    forall i | 0 <= i < 2 ensures Cloneable(es[i]) {
    }
    OnePerAddressAndType(es, calls, 0, 0);
    OnePerAddressAndType(es, calls, 0, 1);
    OnePerAddressAndType(es, calls, 1, 0);
    OnePerAddressAndType(es, calls, 1, 1);
    hide *;
  }

  // ----- ga_serv -----

  /** What the service string stands for: its number in network byte order, or what getservbyname
      answers for "tcp" and for "udp". */
  datatype Service = Number(port: int) | Name(tcp: Lookup, udp: Lookup)
  datatype Lookup = Unknown | Known(port: int)

  datatype Outcome = Success | NoName | NoService

  const STREAM := 1
  const DATAGRAM := 2

  function Answer(l: Lookup, socktype: int): seq<Call> {
    if l.Known? then [Call(l.port, socktype)] else []
  }

  /** The calls of ga_port that a service asks for, under the socket type of the hints. */
  function Wanted(serv: Service, hint: int): seq<Call> {
    match serv
    case Number(port) => if hint != 0 then [Call(port, hint)] else [Call(port, STREAM), Call(port, DATAGRAM)]
    case Name(tcp, udp) =>
      (if hint == 0 || hint == STREAM then Answer(tcp, STREAM) else []) +
      (if hint == 0 || hint == DATAGRAM then Answer(udp, DATAGRAM) else [])
  }

  /** Entries counted over all calls. */
  function FoundByCalls(es: seq<Info>, calls: seq<Call>): nat {
    if calls == [] then 0
    else
      var before := calls[..|calls| - 1];
      FoundByCalls(es, before) + FoundIn(Calls(es, before), calls[|calls| - 1].socktype)
  }

  predicate AllIP(es: seq<Info>) {
    forall i :: 0 <= i < |es| ==> !es[i].family.OtherFamily?
  }

  /** A call that counts nothing leaves a list of IP addresses as it was. */
  lemma {:induction false} NothingFound(es: seq<Info>, port: int, socktype: int)
    requires AllIP(es) && FoundIn(es, socktype) == 0
    ensures Port(es, port, socktype) == es
  {
    if es != [] {
      NothingFound(es[..|es| - 1], port, socktype);
    }
  }

  /** An error of ga_serv means that the list is untouched. */
  lemma {:induction false} ErrorLeavesList(es: seq<Info>, calls: seq<Call>)
    requires AllIP(es) && FoundByCalls(es, calls) == 0
    ensures Calls(es, calls) == es
  {
    if calls != [] {
      ErrorLeavesList(es, calls[..|calls| - 1]);
      NothingFound(es, calls[|calls| - 1].port, calls[|calls| - 1].socktype);
    }
  }

  lemma {:induction false} WantedDistinct(serv: Service, hint: int)
    ensures DistinctTypes(Wanted(serv, hint))
  {
  }

  lemma {:induction false} FoundFirst(es: seq<Info>, socktype: int)
    requires es != [] && Found(es[0], socktype) == 1
    ensures FoundIn(es, socktype) > 0
  {
    if |es| > 1 {
      FoundFirst(es[..|es| - 1], socktype);
    }
  }

  /** The protocols under which a service is known. */
  predicate IsKnown(serv: Service) {
    serv.Number? || serv.tcp.Known? || serv.udp.Known?
  }

  /** Without a socket type in the hints, on the originals that the host search leaves: ga_serv succeeds
      exactly when there is an address and the service is known, and every address then has one entry
      for every type, each with the port of its own protocol. */
  lemma {:induction false} ServWithoutHint(es: seq<Info>, serv: Service)
    requires forall i :: 0 <= i < |es| ==> Cloneable(es[i])
    ensures FoundByCalls(es, Wanted(serv, 0)) > 0 <==> es != [] && IsKnown(serv)
    ensures Calls(es, Wanted(serv, 0)) == Groups(es, Wanted(serv, 0))
  {
    var calls := Wanted(serv, 0);
    WantedDistinct(serv, 0);
    CallsMakeGroups(es, calls);
    assert calls != [] <==> IsKnown(serv);
    hide Wanted, IsKnown, Groups, Calls, FoundByCalls;
    if es == [] {
      NoneFound(calls);
    } else if calls != [] {
      SomeFound(es, calls);
    } else {
      NoCallFindsNothing(es);
    }
  }

  /** The entry of an address for a socket type and port. */
  predicate Serves(r: Info, e: Info, socktype: int, port: int) {
    && r.socktype == socktype && r.port == port
    && r.host == e.host && r.family == e.family && r.protocol == e.protocol
  }

  /** The entries of address i in full: a number goes to a STREAM and a DATAGRAM entry, a name known under
      both protocols to a STREAM entry with the TCP port and a DATAGRAM entry with the UDP port, a name
      known under one to one entry; for a name known under none the list stays as it was. */
  lemma {:induction false} ServEntries(es: seq<Info>, serv: Service, i: nat)
    requires (forall k :: 0 <= k < |es| ==> Cloneable(es[k])) && i < |es|
    ensures var r := Calls(es, Wanted(serv, 0));
            match serv
            case Number(port) =>
              |r| == 2 * |es| && Serves(r[2 * i], es[i], STREAM, port) && Serves(r[2 * i + 1], es[i], DATAGRAM, port)
            case Name(Known(tcp), Known(udp)) =>
              |r| == 2 * |es| && Serves(r[2 * i], es[i], STREAM, tcp) && Serves(r[2 * i + 1], es[i], DATAGRAM, udp)
            case Name(Known(tcp), Unknown) => |r| == |es| && Serves(r[i], es[i], STREAM, tcp)
            case Name(Unknown, Known(udp)) => |r| == |es| && Serves(r[i], es[i], DATAGRAM, udp)
            case Name(Unknown, Unknown) => r == es
  {
    var calls := Wanted(serv, 0);
    WantedDistinct(serv, 0);
    NoCallFindsNothing(es);
    if calls != [] {
      OnePerAddressAndType(es, calls, i, 0);
      if |calls| == 2 {
        OnePerAddressAndType(es, calls, i, 1);
      }
    }
    hide Calls;
  }

  lemma {:induction false} NoCallFindsNothing(es: seq<Info>)
    ensures FoundByCalls(es, []) == 0 && Calls(es, []) == es
  {
  }

  /** An entry of the host search when the hints give a socket type. */
  predicate Typed(e: Info, hint: int) {
    !e.clone && e.socktype == hint && !e.family.OtherFamily?
  }

  lemma {:induction false} PortOnTyped(es: seq<Info>, port: int, hint: int)
    requires forall i :: 0 <= i < |es| ==> Typed(es[i], hint)
    ensures |Port(es, port, hint)| == |es| && FoundIn(es, hint) == |es|
    ensures forall i :: 0 <= i < |es| ==> Port(es, port, hint)[i] == es[i].(port := port)
  {
    if es != [] {
      var n := |es| - 1;
      PortOnTyped(es[..n], port, hint);
      assert Typed(es[n], hint);
      assert Visited(es[n], port, hint) == [es[n].(port := port)];
    }
  }

  /** With a socket type in the hints, no entry is added: each gets the port of the one call there is to
      make, and ga_serv succeeds exactly when there is one and an address. */
  lemma {:induction false} ServWithHint(es: seq<Info>, serv: Service, hint: int)
    requires hint != 0 && forall i :: 0 <= i < |es| ==> Typed(es[i], hint)
    ensures var r, found := Calls(es, Wanted(serv, hint)), FoundByCalls(es, Wanted(serv, hint)) > 0;
            match serv
            case Number(port) => IsGiven(r, es, port) && (found <==> es != [])
            case Name(tcp, udp) =>
              if hint == STREAM && tcp.Known? then IsGiven(r, es, tcp.port) && (found <==> es != [])
              else if hint == DATAGRAM && udp.Known? then IsGiven(r, es, udp.port) && (found <==> es != [])
              else r == es && !found
  {
    NoCallFindsNothing(es);
    match serv {
      case Number(port) => OneCall(es, port, hint);
      case Name(tcp, udp) =>
        if hint == STREAM && tcp.Known? {
          OneCall(es, tcp.port, hint);
          assert Wanted(serv, hint) == [Call(tcp.port, hint)];
        } else if hint == DATAGRAM && udp.Known? {
          OneCall(es, udp.port, hint);
          assert Wanted(serv, hint) == [Call(udp.port, hint)];
        }
    }
    hide Calls, FoundByCalls, IsGiven;
  }

  /** The one call there is to make. */
  lemma {:induction false} OneCall(es: seq<Info>, port: int, hint: int)
    requires forall i :: 0 <= i < |es| ==> Typed(es[i], hint)
    ensures IsGiven(Calls(es, [Call(port, hint)]), es, port) && FoundByCalls(es, [Call(port, hint)]) == |es|
  {
    var calls := [Call(port, hint)];
    assert calls[..0] == [];
    PortOnTyped(es, port, hint);
    NoCallFindsNothing(es);
    hide Port, FoundIn;
  }

  /** The same entries, each with that port. */
  predicate IsGiven(r: seq<Info>, es: seq<Info>, port: int) {
    |r| == |es| && forall i :: 0 <= i < |es| ==> r[i] == es[i].(port := port)
  }

  lemma {:induction false} NoneFound(calls: seq<Call>)
    ensures Calls([], calls) == [] && FoundByCalls([], calls) == 0
  {
    if calls != [] {
      NoneFound(calls[..|calls| - 1]);
    }
  }

  lemma {:induction false} SomeFound(es: seq<Info>, calls: seq<Call>)
    requires es != [] && calls != [] && Cloneable(es[0])
    ensures FoundByCalls(es, calls) > 0
  {
    if |calls| == 1 {
      assert calls[..0] == [];
      FoundFirst(es, calls[0].socktype);
    } else {
      SomeFound(es, calls[..|calls| - 1]);
    }
  }
}
