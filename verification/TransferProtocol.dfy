/** The np-lab6 client and server over a network that loses, duplicates, reorders and shortens
    datagrams: a transition system, its invariant, and what every run does. */
module TransferProtocol {
  import opened TransferText
  import opened TransferServer
  import opened TransferClient
  import opened TransferTables

  /** Scanning: about to look at fragment (file, frag). Awaiting: sent it, not yet received. */
  datatype Phase = Scanning | Awaiting | Exited

  /** Both programs and every datagram ever sent. A datagram stays in its set for ever: the network
      delivers any of them any number of times, or never. */
  datatype World = World(
    tables: Tables,
    book: Book,
    file: nat,
    frag: nat,
    phase: Phase,
    toServer: set<string>,
    toClient: set<string>)

  function Start(c: Config): World {
    World(InitTables(c.fileNum), EMPTY_BOOK, 0, 0, Scanning, {}, {})
  }

  function Datagram(c: Config, s: nat, o: nat): string
    requires ValidConfig(c) && IsFragment(c, s, o)
  {
    Message(PacketOf(c, s, o))
  }

  /** The client's loops: next fragment, next file, next pass. */
  function After(c: Config, s: nat, o: nat): (r: (nat, nat))
    requires IsFragment(c, s, o)
    ensures IsFragment(c, r.0, r.1)
  {
    if o + 1 < |Frags(c, s)| then (s, o + 1) else if s + 1 < |c.files| then (s + 1, 0) else (0, 0)
  }

  function Moved(c: Config, w: World): World
    requires IsFragment(c, w.file, w.frag)
  {
    w.(file := After(c, w.file, w.frag).0, frag := After(c, w.file, w.frag).1, phase := Scanning)
  }

  // ----- steps -----

  /** client.cpp:141-147: skip an acknowledged fragment, send any other. */
  ghost predicate ClientLooks(c: Config, w: World, w': World)
    requires ValidConfig(c)
  {
    && w.phase.Scanning? && IsFragment(c, w.file, w.frag)
    && var looked := w.(book := Looked(w.book, w.file, w.frag));
       if IsAcked(w.book, w.file, w.frag) then w' == Moved(c, looked)
       else w' == looked.(phase := Awaiting, toServer := w.toServer + {Datagram(c, w.file, w.frag)})
  }

  /** client.cpp:150-166: nothing, or any prefix of any datagram sent to the client. */
  ghost predicate ClientHears(c: Config, w: World, text: string, w': World)
    requires ValidConfig(c)
  {
    && w.phase.Awaiting? && IsFragment(c, w.file, w.frag)
    && (text == [] || exists m :: m in w.toClient && text <= m)
    && var heard := w.(book := Heard(w.book, w.file, w.frag, Datagram(c, w.file, w.frag), text));
       if heard.book.termFlag then w' == heard.(phase := Exited) else w' == Moved(c, heard)
  }

  ghost predicate Delivered(w: World, text: string) {
    exists m :: m in w.toServer && Shortened(m, text)
  }

  /** server.cpp:166-227 on one received datagram. */
  ghost predicate ServerReceives(c: Config, w: World, text: string, w': World)
    requires ValidConfig(c)
  {
    && w.tables.finished < c.fileNum && Delivered(w, text)
    && ParsePacket(text).Some? && InRange(w.tables, c.fileNum, ParsePacket(text).value)
    && var p := ParsePacket(text).value;
       w' == w.(tables := Handle(w.tables, c.fileNum, p),
                toClient := w.toClient + set m | m in Replies(w.tables, c.fileNum, p))
  }

  /** server.cpp:228-233. */
  ghost predicate ServerTerminates(c: Config, w: World, w': World) {
    w.tables.finished >= c.fileNum && w' == w.(toClient := w.toClient + {TERMINATE})
  }

  ghost predicate Next(c: Config, w: World, w': World)
    requires ValidConfig(c)
  {
    || ClientLooks(c, w, w')
    || (exists text :: ClientHears(c, w, text, w'))
    || (exists text :: ServerReceives(c, w, text, w'))
    || ServerTerminates(c, w, w')
  }

  ghost predicate IsRun(c: Config, run: seq<World>)
    requires ValidConfig(c)
  {
    |run| > 0 && forall i :: 0 <= i < |run| - 1 ==> Next(c, run[i], run[i + 1])
  }

  ghost predicate Reaches(c: Config, w: World, w': World)
    requires ValidConfig(c)
  {
    exists run :: IsRun(c, run) && run[0] == w && run[|run| - 1] == w'
  }

  // ----- invariant -----

  ghost predicate NetInv(c: Config, w: World)
    requires ValidConfig(c)
  {
    forall m :: m in w.toServer ==> exists s: nat, o: nat :: IsFragment(c, s, o) && m == Datagram(c, s, o)
  }

  ghost predicate IsRecorded(c: Config, t: Tables, s: int, o: int) {
    IsFragment(c, s, o) && s < |t.recordList| && o in t.recordList[s]
  }

  ghost predicate ReplyInv(c: Config, w: World) {
    forall m :: m in w.toClient ==>
      || (m == TERMINATE && w.tables.finished >= c.fileNum)
      || exists s: nat, o: nat :: IsRecorded(c, w.tables, s, o) && m == AckText(s, o)
  }

  ghost predicate BookInv(c: Config, w: World) {
    && w.book.sendFailed == map[]
    && (w.book.termFlag <==> w.phase.Exited?)
    && (w.book.termFlag ==> w.tables.finished >= c.fileNum)
    && (w.phase.Awaiting? ==> (w.file, w.frag) in w.book.acked && !IsAcked(w.book, w.file, w.frag))
    && (forall s, o :: IsAcked(w.book, s, o) ==> IsRecorded(c, w.tables, s, o))
  }

  ghost predicate CursorInv(c: Config, w: World) {
    c.files != [] ==> IsFragment(c, w.file, w.frag)
  }

  ghost predicate Inv(c: Config, w: World)
    requires ValidConfig(c)
  {
    TableInv(c, w.tables) && NetInv(c, w) && ReplyInv(c, w) && BookInv(c, w) && CursorInv(c, w)
  }

  lemma {:induction false} StartInv(c: Config)
    requires ValidConfig(c)
    ensures Inv(c, Start(c))
  {
    InitTableInv(c);
  }

  lemma {:induction false} ClientLooksInv(c: Config, w: World, w': World)
    requires ValidConfig(c) && Inv(c, w) && ClientLooks(c, w, w')
    ensures Inv(c, w')
  {
    assert forall s, o :: IsAcked(w'.book, s, o) == IsAcked(w.book, s, o);
    if !IsAcked(w.book, w.file, w.frag) {
      forall m | m in w'.toServer
        ensures exists s: nat, o: nat :: IsFragment(c, s, o) && m == Datagram(c, s, o)
      {
        if m == Datagram(c, w.file, w.frag) {
          assert IsFragment(c, w.file, w.frag);
        } else {
          assert m in w.toServer;
        }
      }
    }
  }

  /** What a datagram for the client can say. */
  lemma {:induction false} HeardReply(c: Config, w: World, text: string)
    requires ValidConfig(c) && Inv(c, w)
    requires text == [] || exists m :: m in w.toClient && text <= m
    ensures var r := ParseReply(text);
            && (r.Some? && r.value.word == "terminate" ==> w.tables.finished >= c.fileNum)
            && (r.Some? && r.value.word == "ACK" ==> IsRecorded(c, w.tables, r.value.seqNum, r.value.offset))
  {
    if text != [] {
      var m :| m in w.toClient && text <= m;
      if m == TERMINATE && w.tables.finished >= c.fileNum {
        TerminateIsNoAck(text);
      } else {
        var s: nat, o: nat :| IsRecorded(c, w.tables, s, o) && m == AckText(s, o);
        AckReadsAsSent(s, o, text);
      }
    }
  }

  lemma {:induction false} ClientHearsInv(c: Config, w: World, text: string, w': World)
    requires ValidConfig(c) && Inv(c, w) && ClientHears(c, w, text, w')
    ensures Inv(c, w')
  {
    HeardReply(c, w, text);
    var r := ParseReply(text);
    var b := w'.book;
    assert b.sendFailed == map[];
    forall s, o | IsAcked(b, s, o) ensures IsRecorded(c, w.tables, s, o) {
      if !IsAcked(w.book, s, o) {
        assert r.Some? && r.value.word == "ACK" && (s, o) == (r.value.seqNum, r.value.offset);
      }
    }
  }

  /** Every datagram the network can hand to the server parses, is in range for every table, and
      is a fragment of the client with at most the tail of its payload missing. */
  lemma {:induction false} DeliveredParses(c: Config, w: World, text: string)
    requires ValidConfig(c) && Inv(c, w) && Delivered(w, text)
    ensures ParsePacket(text).Some? && IsCut(c, ParsePacket(text).value)
    ensures InRange(w.tables, c.fileNum, ParsePacket(text).value)
  {
    var m :| m in w.toServer && Shortened(m, text);
    var s: nat, o: nat :| IsFragment(c, s, o) && m == Datagram(c, s, o);
    ParseShortened(PacketOf(c, s, o), text);
    CutInRange(c, w.tables, ParsePacket(text).value);
  }

  lemma {:induction false} ServerReceivesInv(c: Config, w: World, text: string, w': World)
    requires ValidConfig(c) && Inv(c, w) && ServerReceives(c, w, text, w')
    ensures Inv(c, w')
  {
    DeliveredParses(c, w, text);
    var p := ParsePacket(text).value;
    HandleInv(c, w.tables, p);
    HandleMonotone(c, w.tables, p);
    forall m | m in w'.toClient
      ensures || (m == TERMINATE && w'.tables.finished >= c.fileNum)
              || exists s: nat, o: nat :: IsRecorded(c, w'.tables, s, o) && m == AckText(s, o)
    {
      if m in w.toClient {
        if !(m == TERMINATE && w.tables.finished >= c.fileNum) {
          var s: nat, o: nat :| IsRecorded(c, w.tables, s, o) && m == AckText(s, o);
          assert IsRecorded(c, w'.tables, s, o);
        }
      } else {
        assert IsRecorded(c, w'.tables, p.seqNum, p.offset);
      }
    }
  }

  /** Records and finished files are never taken back. */
  lemma {:induction false} HandleMonotone(c: Config, t: Tables, p: Packet)
    requires ValidConfig(c) && TableInv(c, t) && IsCut(c, p) && InRange(t, c.fileNum, p)
    ensures forall s, o :: IsRecorded(c, t, s, o) ==> IsRecorded(c, Handle(t, c.fileNum, p), s, o)
    ensures Handle(t, c.fileNum, p).finished >= t.finished
  {
    HandleInv(c, t, p);
  }

  lemma {:induction false} NextInv(c: Config, w: World, w': World)
    requires ValidConfig(c) && Inv(c, w) && Next(c, w, w')
    ensures Inv(c, w')
  {
    if ClientLooks(c, w, w') {
      ClientLooksInv(c, w, w');
    } else if text :| ClientHears(c, w, text, w') {
      ClientHearsInv(c, w, text, w');
    } else if text :| ServerReceives(c, w, text, w') {
      ServerReceivesInv(c, w, text, w');
    } else {
      assert ServerTerminates(c, w, w');
    }
  }

  /** The invariant holds in every state of every run. */
  lemma {:induction false} RunInv(c: Config, run: seq<World>, i: nat)
    requires ValidConfig(c) && IsRun(c, run) && Inv(c, run[0]) && i < |run|
    ensures Inv(c, run[i])
  {
    if i > 0 {
      RunInv(c, run, i - 1);
      NextInv(c, run[i - 1], run[i]);
    }
  }
}
