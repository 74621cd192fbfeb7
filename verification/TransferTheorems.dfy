/** What the np-lab6 transfer guarantees in every run, and the one promise it does not keep. */
module TransferTheorems {
  import opened SeqFacts
  import opened Wrappers
  import opened SetFacts
  import opened TransferText
  import opened TransferServer
  import opened TransferClient
  import opened TransferTables
  import opened TransferProtocol

  // ----- safety -----

  /** Everything in the store directory is one of the client's files with the client's bytes. */
  ghost predicate StoredFaithfully(c: Config, t: Tables) {
    forall n :: n in t.store ==>
      exists s :: 0 <= s < |c.files| && c.files[s].name == n && t.store[n] == c.files[s].content
  }

  /** The store directory holds every file of the client. */
  ghost predicate StoredCompletely(c: Config, t: Tables) {
    forall s :: 0 <= s < |c.files| ==>
      c.files[s].name in t.store && t.store[c.files[s].name] == c.files[s].content
  }

  lemma {:induction false} FaithfulStore(c: Config, t: Tables)
    requires ValidConfig(c) && TableInv(c, t)
    ensures StoredFaithfully(c, t)
  {
    forall n | n in t.store
      ensures exists s :: 0 <= s < |c.files| && c.files[s].name == n && t.store[n] == c.files[s].content
    {
      var s :| 0 <= s < |c.files| && s in t.log && c.files[s].name == n;
      assert FileInv(c, t, s);
    }
  }

  lemma {:induction false} DistinctSize(log: seq<int>)
    requires Distinct(log)
    ensures |set k | k in log| == |log|
  {
    if log != [] {
      var last := log[|log| - 1];
      var rest := log[..|log| - 1];
      DistinctSize(rest);
      assert (set k | k in log) == (set k | k in rest) + {last};
    }
  }

  /** When as many files are finished as the server was told to expect, every file of the client
      has been written and there were that many. */
  lemma {:induction false} AllWritten(c: Config, t: Tables)
    requires ValidConfig(c) && TableInv(c, t) && t.finished >= c.fileNum
    ensures |c.files| == c.fileNum == t.finished
    ensures forall s :: 0 <= s < |c.files| ==> Written(c, t, s)
    ensures forall s :: 0 <= s < |c.files| ==> t.receivedList[s]
    ensures StoredCompletely(c, t)
  {
    var done := set k | k in t.log;
    DistinctSize(t.log);
    forall k | k in done ensures k in Range(|c.files|) {
      assert FileInv(c, t, k);
    }
    assert done <= Range(|c.files|);
    SubsetSize(done, Range(|c.files|));
    if done < Range(|c.files|) {
      ProperSubsetSize(done, Range(|c.files|));
    }
    forall s | 0 <= s < |c.files|
      ensures Written(c, t, s) && t.receivedList[s]
      ensures c.files[s].name in t.store && t.store[c.files[s].name] == c.files[s].content
    {
      assert s in done;
      assert FileInv(c, t, s);
    }
  }

  /** In every state of every run: the store holds only exact copies, no file was written twice,
      and once "terminate" is on the network, or the client has exited, the store is complete. */
  lemma {:induction false} TransferIsSafe(c: Config, run: seq<World>, i: nat)
    requires ValidConfig(c) && IsRun(c, run) && run[0] == Start(c) && i < |run|
    ensures StoredFaithfully(c, run[i].tables)
    ensures Distinct(run[i].tables.log)
    ensures TERMINATE in run[i].toClient || run[i].phase.Exited? ==> StoredCompletely(c, run[i].tables)
  {
    StartInv(c);
    RunInv(c, run, i);
    var w := run[i];
    FaithfulStore(c, w.tables);
    if TERMINATE in w.toClient || w.phase.Exited? {
      assert w.tables.finished >= c.fileNum by {
        if TERMINATE in w.toClient {
          TerminateIsNoAckText();
        }
      }
      AllWritten(c, w.tables);
    }
  }

  lemma TerminateIsNoAckText()
    ensures forall s: nat, o: nat :: AckText(s, o) != TERMINATE
  {
    forall s: nat, o: nat ensures AckText(s, o) != TERMINATE {
      assert 't' in TERMINATE by {
        assert TERMINATE[6] == 't';
      }
      AckHasNoLetterT(s, o);
    }
  }

  /** In every state of every run: a fragment the client counts as acknowledged is held by the server
      with its exact bytes or its file is already written; the open-file counter is the number of open
      files and at most 301; and the resend table stays empty, so only the outer loop resends. */
  lemma {:induction false} AcknowledgedIsHeld(c: Config, run: seq<World>, i: nat, s: int, o: int)
    requires ValidConfig(c) && IsRun(c, run) && run[0] == Start(c) && i < |run|
    ensures var w := run[i];
            && w.tables.fCount == |OpenFiles(w.tables)| <= 301
            && w.book.sendFailed == map[]
            && (IsAcked(w.book, s, o) ==>
                  && IsFragment(c, s, o) && Sized(w.tables, c.fileNum)
                  && (|| Written(c, w.tables, s)
                      || (&& Open(c, w.tables, s) && o in w.tables.recordList[s]
                          && w.tables.fcntList[s][o] == Frags(c, s)[o])))
  {
    StartInv(c);
    RunInv(c, run, i);
    var w := run[i];
    if IsAcked(w.book, s, o) {
      assert IsRecorded(c, w.tables, s, o);
      assert FileInv(c, w.tables, s);
    }
  }

  // ----- progress -----

  /** Fragments of the first k files that are not yet recorded. */
  ghost function Missing(c: Config, t: Tables, k: nat): int
    requires k <= |c.files| && |c.files| <= |t.recordList|
  {
    if k == 0 then 0 else Missing(c, t, k - 1) + |Frags(c, k - 1)| - |t.recordList[k - 1]|
  }

  lemma {:induction false} MissingNonNegative(c: Config, t: Tables, k: nat)
    requires ValidConfig(c) && TableInv(c, t) && k <= |c.files|
    ensures Missing(c, t, k) >= 0
  {
    if k > 0 {
      MissingNonNegative(c, t, k - 1);
      assert FileInv(c, t, k - 1);
      SubsetSize(t.recordList[k - 1], Range(|Frags(c, k - 1)|));
    }
  }

  lemma {:induction false} MissingDrops(c: Config, t: Tables, t': Tables, s: nat, o: int, k: nat)
    requires s < |c.files| && k <= |c.files| && |c.files| <= |t.recordList|
    requires RecordsGrow(t, t', s, o) && o !in t.recordList[s]
    ensures Missing(c, t', k) == Missing(c, t, k) - (if s < k then 1 else 0)
  {
    if k > 0 {
      MissingDrops(c, t, t', s, o, k - 1);
    }
  }

  /** A fragment that the server lacks and would record, and that the client still sends. */
  ghost predicate Wanted(c: Config, w: World, s: nat, o: nat) {
    && IsFragment(c, s, o) && Sized(w.tables, c.fileNum) && s < c.fileNum
    && o !in w.tables.recordList[s] && !Refused(w.tables, s) && !IsAcked(w.book, s, o)
  }

  /** An open file always lacks a fragment. */
  lemma {:induction false} OpenFileWants(c: Config, w: World, s: nat) returns (o: nat)
    requires ValidConfig(c) && Inv(c, w) && s < |c.files| && Open(c, w.tables, s)
    ensures Wanted(c, w, s, o)
  {
    ProperWitness(w.tables.recordList[s], Range(|Frags(c, s)|));
    o :| o in Range(|Frags(c, s)|) && o !in w.tables.recordList[s];
  }

  /** The open-file limit never deadlocks: while a file is unwritten, some fragment is wanted. */
  lemma {:induction false} SomethingWanted(c: Config, w: World, u: nat) returns (s: nat, o: nat)
    requires ValidConfig(c) && Inv(c, w) && u < |c.files| && !w.tables.receivedList[u]
    ensures Wanted(c, w, s, o)
  {
    var t := w.tables;
    assert FileInv(c, t, u);
    if Open(c, t, u) {
      s := u;
      o := OpenFileWants(c, w, s);
    } else if t.fCount <= MAX_OPEN {
      s, o := u, 0;
    } else {
      Nonempty(OpenFiles(t));
      s :| s in OpenFiles(t);
      assert FileInv(c, t, s);
      o := OpenFileWants(c, w, s);
    }
  }

  /** When a wanted fragment arrives whole, the server records it and one fragment fewer is missing;
      no other datagram ever raises the count. */
  lemma {:induction false} WantedIsRecorded(c: Config, w: World, s: nat, o: nat)
    requires ValidConfig(c) && Inv(c, w) && Wanted(c, w, s, o)
    ensures var p := PacketOf(c, s, o);
            && InRange(w.tables, c.fileNum, p) && Accepts(w.tables, c.fileNum, p)
            && Missing(c, Handle(w.tables, c.fileNum, p), |c.files|) == Missing(c, w.tables, |c.files|) - 1
            && RecordsGrow(w.tables, Handle(w.tables, c.fileNum, p), s, o)
  {
    var p := PacketOf(c, s, o);
    assert IsCut(c, p);
    DecomposeInv(c, w.tables, p);
    HandleInv(c, w.tables, p);
    MissingDrops(c, w.tables, Handle(w.tables, c.fileNum, p), s, o, |c.files|);
  }

  lemma {:induction false} HandleMissing(c: Config, t: Tables, p: Packet)
    requires ValidConfig(c) && TableInv(c, t) && IsCut(c, p) && InRange(t, c.fileNum, p)
    ensures Missing(c, Handle(t, c.fileNum, p), |c.files|) <= Missing(c, t, |c.files|)
  {
    HandleInv(c, t, p);
    var t' := Handle(t, c.fileNum, p);
    var k, o := p.seqNum, p.offset;
    if Accepts(t, c.fileNum, p) && o !in t.recordList[k] {
      MissingDrops(c, t, t', k, o, |c.files|);
    } else {
      assert o in t.recordList[k] ==> t.recordList[k] + {o} == t.recordList[k];
      SameRecords(c, t, t', |c.files|);
    }
  }

  lemma {:induction false} MissingNeverGrows(c: Config, w: World, w': World)
    requires ValidConfig(c) && Inv(c, w) && Next(c, w, w')
    ensures |c.files| <= |w'.tables.recordList|
    ensures Missing(c, w'.tables, |c.files|) <= Missing(c, w.tables, |c.files|)
  {
    if w'.tables == w.tables {
      SameRecords(c, w.tables, w'.tables, |c.files|);
    } else {
      var text :| ServerReceives(c, w, text, w');
      DeliveredParses(c, w, text);
      HandleMissing(c, w.tables, ParsePacket(text).value);
    }
  }

  lemma {:induction false} SameRecords(c: Config, t: Tables, t': Tables, k: nat)
    requires k <= |c.files| && |c.files| <= |t.recordList| && t'.recordList == t.recordList
    ensures Missing(c, t', k) == Missing(c, t, k)
  {
    if k > 0 {
      SameRecords(c, t, t', k - 1);
    }
  }

  // ----- runs -----

  lemma {:induction false} Stays(c: Config, w: World)
    requires ValidConfig(c)
    ensures Reaches(c, w, w)
  {
    assert IsRun(c, [w]);
  }

  lemma {:induction false} Then(c: Config, w: World, w1: World, w2: World)
    requires ValidConfig(c) && Reaches(c, w, w1) && Next(c, w1, w2)
    ensures Reaches(c, w, w2)
  {
    hide Next;
    var run :| IsRun(c, run) && run[0] == w && run[|run| - 1] == w1;
    var longer := run + [w2];
    assert longer[0] == w && longer[|longer| - 1] == w2;
    forall i | 0 <= i < |longer| - 1 ensures Next(c, longer[i], longer[i + 1]) {
      assert i < |run| - 1 ==> longer[i] == run[i] && longer[i + 1] == run[i + 1];
    }
  }

  lemma {:induction false} Along(c: Config, w: World, run: seq<World>, i: nat)
    requires ValidConfig(c) && IsRun(c, run) && Reaches(c, w, run[0]) && i < |run|
    ensures Reaches(c, w, run[i])
  {
    if i > 0 {
      Along(c, w, run, i - 1);
      Then(c, w, run[i - 1], run[i]);
    }
  }

  lemma {:induction false} Joined(c: Config, w: World, w1: World, w2: World)
    requires ValidConfig(c) && Reaches(c, w, w1) && Reaches(c, w1, w2)
    ensures Reaches(c, w, w2)
  {
    var run :| IsRun(c, run) && run[0] == w1 && run[|run| - 1] == w2;
    Along(c, w, run, |run| - 1);
  }

  lemma {:induction false} ReachesInv(c: Config, w: World, w': World)
    requires ValidConfig(c) && Inv(c, w) && Reaches(c, w, w')
    ensures Inv(c, w')
  {
    var run :| IsRun(c, run) && run[0] == w && run[|run| - 1] == w';
    RunInv(c, run, |run| - 1);
  }

  // ----- driving the client to a chosen fragment -----

  /** The same server, the same acknowledgements, no fewer datagrams. */
  ghost predicate Quietly(w: World, w': World) {
    && w'.tables == w.tables && w.toServer <= w'.toServer && w'.toClient == w.toClient
    && forall s, o :: IsAcked(w'.book, s, o) == IsAcked(w.book, s, o)
  }

  lemma {:induction false} HearNothing(c: Config, w: World) returns (w': World)
    requires ValidConfig(c) && Inv(c, w) && w.phase.Awaiting? && c.files != []
    ensures Next(c, w, w') && Inv(c, w') && Quietly(w, w') && w' == Moved(c, w)
  {
    w' := Moved(c, w);
    assert ParseReply([]) == None;
    assert ClientHears(c, w, [], w');
    NextInv(c, w, w');
  }

  /** Looking at the current fragment, and when it is sent, hearing nothing. */
  lemma {:induction false} Advance(c: Config, w: World) returns (w': World)
    requires ValidConfig(c) && Inv(c, w) && w.phase.Scanning? && c.files != []
    ensures Reaches(c, w, w') && Inv(c, w') && Quietly(w, w') && w'.phase.Scanning?
    ensures (w'.file, w'.frag) == After(c, w.file, w.frag)
    ensures !IsAcked(w.book, w.file, w.frag) ==> Datagram(c, w.file, w.frag) in w'.toServer
  {
    CursorFacts(c, w);
    hide Reaches, Inv, ValidConfig, Next, Quietly, After, IsAcked;
    Stays(c, w);
    if IsAcked(w.book, w.file, w.frag) {
      w' := Skipped(c, w);
      Then(c, w, w, w');
    } else {
      var w1 := Sent(c, w);
      Then(c, w, w, w1);
      w' := HearNothing(c, w1);
      Then(c, w, w1, w');
      QuietlyTwice(w, w1, w');
      QuietlyKeeps(w1, w', Datagram(c, w.file, w.frag));
    }
  }

  lemma {:induction false} Skipped(c: Config, w: World) returns (w': World)
    requires ValidConfig(c) && Inv(c, w) && w.phase.Scanning? && c.files != [] && IsFragment(c, w.file, w.frag)
    requires IsAcked(w.book, w.file, w.frag)
    ensures Next(c, w, w') && Inv(c, w') && Quietly(w, w') && w'.phase.Scanning?
    ensures (w'.file, w'.frag) == After(c, w.file, w.frag)
  {
    w' := Moved(c, w.(book := Looked(w.book, w.file, w.frag)));
    assert ClientLooks(c, w, w');
    NextInv(c, w, w');
    hide Inv, Next;
  }

  lemma {:induction false} QuietlyKeeps(w: World, w': World, m: string)
    requires Quietly(w, w') && m in w.toServer
    ensures m in w'.toServer
  {
  }

  lemma {:induction false} FinishPass(c: Config, w: World) returns (w': World)
    requires ValidConfig(c) && Inv(c, w) && w.phase.Scanning? && c.files != []
    ensures Reaches(c, w, w') && Inv(c, w') && Quietly(w, w') && w'.phase.Scanning?
    ensures w'.file == 0 && w'.frag == 0
    decreases |c.files| - w.file, |Frags(c, w.file)| - w.frag
  {
    w' := Advance(c, w);
    if (w'.file, w'.frag) != (0, 0) {
      var w1 := w';
      w' := FinishPass(c, w1);
      Joined(c, w, w1, w');
    }
  }

  lemma {:induction false} MoveForward(c: Config, w: World, s: nat, o: nat) returns (w': World)
    requires ValidConfig(c) && Inv(c, w) && w.phase.Scanning? && IsFragment(c, s, o)
    requires w.file < s || (w.file == s && w.frag <= o)
    ensures Reaches(c, w, w') && Inv(c, w') && Quietly(w, w') && w'.phase.Scanning?
    ensures w'.file == s && w'.frag == o
    decreases s - w.file, |Frags(c, w.file)| - w.frag
  {
    hide Reaches, Inv, ValidConfig, Quietly, After, IsAcked;
    if (w.file, w.frag) == (s, o) {
      w' := w;
      Stays(c, w);
      StaysQuiet(w);
    } else {
      CursorFacts(c, w);
      var w1 := Advance(c, w);
      w' := MoveForward(c, w1, s, o);
      Joined(c, w, w1, w');
      QuietlyTwice(w, w1, w');
    }
  }

  lemma {:induction false} StaysQuiet(w: World)
    ensures Quietly(w, w)
  {
  }

  lemma {:induction false} QuietlyTwice(w: World, w1: World, w2: World)
    requires Quietly(w, w1) && Quietly(w1, w2)
    ensures Quietly(w, w2)
  {
  }

  /** The client's place is a fragment, and what comes after it. */
  lemma {:induction false} CursorFacts(c: Config, w: World)
    requires ValidConfig(c) && Inv(c, w) && c.files != []
    ensures IsFragment(c, w.file, w.frag) && w.file < |c.files| && w.frag < |Frags(c, w.file)|
    ensures var (s, o) := After(c, w.file, w.frag);
            || (s == w.file && o == w.frag + 1 < |Frags(c, w.file)|)
            || (w.frag + 1 == |Frags(c, w.file)| && o == 0 && (s == w.file + 1 < |c.files| || (s == 0 && w.file + 1 == |c.files|)))
  {
  }

  /** The client's outer loop comes to every fragment again. */
  lemma {:induction false} MoveTo(c: Config, w: World, s: nat, o: nat) returns (w': World)
    requires ValidConfig(c) && Inv(c, w) && w.phase.Scanning? && IsFragment(c, s, o)
    ensures Reaches(c, w, w') && Inv(c, w') && Quietly(w, w') && w'.phase.Scanning?
    ensures w'.file == s && w'.frag == o
  {
    var w1 := FinishPass(c, w);
    w' := MoveForward(c, w1, s, o);
    Joined(c, w, w1, w');
  }

  // ----- completion -----

  /** Sending a wanted fragment and letting it arrive. */
  lemma {:induction false} SendAndRecord(c: Config, w: World, s: nat, o: nat) returns (w': World)
    requires ValidConfig(c) && Inv(c, w) && w.phase.Scanning? && Wanted(c, w, s, o)
    requires w.tables.finished < c.fileNum
    ensures Reaches(c, w, w') && Inv(c, w') && w'.phase.Awaiting? && w'.file == s && w'.frag == o
    ensures Missing(c, w'.tables, |c.files|) == Missing(c, w.tables, |c.files|) - 1
    ensures RecordsGrow(w.tables, w'.tables, s, o) && AckText(s, o) in w'.toClient
    ensures forall a, b :: IsAcked(w'.book, a, b) == IsAcked(w.book, a, b)
  {
    var w1 := MoveTo(c, w, s, o);
    var w2 := Sent(c, w1);
    Then(c, w, w1, w2);
    w' := Arrived(c, w2, s, o);
    Then(c, w, w2, w');
  }

  lemma {:induction false} Sent(c: Config, w: World) returns (w': World)
    requires ValidConfig(c) && Inv(c, w) && w.phase.Scanning? && IsFragment(c, w.file, w.frag)
    requires !IsAcked(w.book, w.file, w.frag)
    ensures Next(c, w, w') && Inv(c, w') && Quietly(w, w') && w'.phase.Awaiting?
    ensures w'.file == w.file && w'.frag == w.frag && Datagram(c, w.file, w.frag) in w'.toServer
  {
    w' := w.(book := Looked(w.book, w.file, w.frag), phase := Awaiting,
             toServer := w.toServer + {Datagram(c, w.file, w.frag)});
    assert ClientLooks(c, w, w');
    NextInv(c, w, w');
  }

  /** The server receives a wanted fragment as it was sent. */
  lemma {:induction false} Arrived(c: Config, w: World, s: nat, o: nat) returns (w': World)
    requires ValidConfig(c) && Inv(c, w) && Wanted(c, w, s, o) && w.tables.finished < c.fileNum
    requires Datagram(c, s, o) in w.toServer
    ensures Next(c, w, w') && Inv(c, w') && w' == w.(tables := w'.tables, toClient := w'.toClient)
    ensures Missing(c, w'.tables, |c.files|) == Missing(c, w.tables, |c.files|) - 1
    ensures RecordsGrow(w.tables, w'.tables, s, o) && AckText(s, o) in w'.toClient
  {
    var p := PacketOf(c, s, o);
    var text := Message(p);
    assert Shortened(text, text) by {
      assert text[|text| - |p.payload| - 1] == '>';
    }
    assert Delivered(w, text);
    ParseMessage(p);
    DeliveredParses(c, w, text);
    WantedIsRecorded(c, w, s, o);
    var replies := Replies(w.tables, c.fileNum, p);
    w' := w.(tables := Handle(w.tables, c.fileNum, p), toClient := w.toClient + set m | m in replies);
    assert replies[0] == AckText(s, o);
    assert ServerReceives(c, w, text, w');
    NextInv(c, w, w');
  }

  /** Why resending helps: when a fragment arrives again whole, because its acknowledgements were lost, the
      server acknowledges it again as long as its file is not written. */
  lemma {:induction false} ResentIsAcknowledged(c: Config, w: World, w': World, s: nat, o: nat)
    requires ValidConfig(c) && Inv(c, w) && IsRecorded(c, w.tables, s, o) && !w.tables.receivedList[s]
    requires ServerReceives(c, w, Datagram(c, s, o), w')
    ensures var p := ParsePacket(Datagram(c, s, o)).value;
            p == PacketOf(c, s, o) && AckText(s, o) in Replies(w.tables, c.fileNum, p)
    ensures AckText(s, o) in w'.toClient
  {
    var p := PacketOf(c, s, o);
    ParseMessage(p);
    assert IsCut(c, p);
    RepliesExactly(c, w.tables, p);
    assert IsOpened(w.tables, s) by {
      assert FileInv(c, w.tables, s);
    }
    assert Replies(w.tables, c.fileNum, p)[0] == AckText(s, o);
  }

  lemma {:induction false} AllReceivedIsFinished(c: Config, t: Tables)
    requires ValidConfig(c) && TableInv(c, t)
    requires forall u :: 0 <= u < |c.files| ==> t.receivedList[u]
    ensures t.finished >= |c.files|
  {
    var done := set k | k in t.log;
    DistinctSize(t.log);
    forall u | u in Range(|c.files|) ensures u in done {
      assert t.receivedList[u];
    }
    SubsetSize(Range(|c.files|), done);
  }

  lemma {:induction false} UnreceivedIsUnfinished(c: Config, t: Tables, u: nat)
    requires ValidConfig(c) && TableInv(c, t) && u < |c.files| && !t.receivedList[u]
    ensures t.finished < c.fileNum
  {
    if t.finished >= c.fileNum {
      AllWritten(c, t);
    }
  }

  /** From every state of every run in which the client still runs, the transfer can be completed,
      without even delivering an acknowledgement. */
  lemma {:induction false} CanFinish(c: Config, w: World) returns (w': World)
    requires ValidConfig(c) && |c.files| == c.fileNum && Inv(c, w) && w.phase.Scanning?
    ensures Reaches(c, w, w') && Inv(c, w') && w'.phase.Scanning? && w'.tables.finished >= c.fileNum
    ensures StoredCompletely(c, w'.tables)
    ensures forall a, b :: IsAcked(w'.book, a, b) == IsAcked(w.book, a, b)
    decreases (MissingNonNegative(c, w.tables, |c.files|); Missing(c, w.tables, |c.files|))
  {
    MissingNonNegative(c, w.tables, |c.files|);
    if u: nat :| u < |c.files| && !w.tables.receivedList[u] {
      UnreceivedIsUnfinished(c, w.tables, u);
      var s, o := SomethingWanted(c, w, u);
      var w1 := SendAndRecord(c, w, s, o);
      var w2 := HearNothing(c, w1);
      Then(c, w, w1, w2);
      w' := CanFinish(c, w2);
      Joined(c, w, w2, w');
    } else {
      w' := w;
      Stays(c, w);
      AllReceivedIsFinished(c, w.tables);
      AllWritten(c, w.tables);
    }
  }

  // ----- the promise that is not kept: the client does not always exit -----

  /** Every fragment is acknowledged: the client's loops skip them all, never send and so never
      call recvfrom again, and cannot learn that the server is done. */
  ghost predicate Hung(c: Config, w: World) {
    !w.phase.Exited? && forall s, o :: IsFragment(c, s, o) ==> IsAcked(w.book, s, o)
  }

  lemma {:induction false} HungStays(c: Config, w: World, w': World)
    requires ValidConfig(c) && Inv(c, w) && Hung(c, w) && Next(c, w, w')
    ensures Hung(c, w') && w'.toServer == w.toServer && w'.book == w.book
  {
    if text :| ClientHears(c, w, text, w') {
      assert false;
    } else if ClientLooks(c, w, w') {
      assert IsAcked(w.book, w.file, w.frag);
      assert forall s, o :: IsAcked(w.book, s, o) ==> IsAcked(w'.book, s, o);
    }
  }

  /** From then on the client sends nothing and hears nothing: its bookkeeping never changes again. */
  lemma {:induction false} HungForever(c: Config, run: seq<World>, i: nat)
    requires ValidConfig(c) && IsRun(c, run) && Inv(c, run[0]) && Hung(c, run[0]) && i < |run|
    ensures Hung(c, run[i]) && run[i].toServer == run[0].toServer && run[i].book == run[0].book
  {
    if i > 0 {
      HungForever(c, run, i - 1);
      RunInv(c, run, i - 1);
      HungStays(c, run[i - 1], run[i]);
    }
  }

  /** A client that still sends can be told to terminate once the server is done. */
  lemma {:induction false} HearTerminate(c: Config, w: World) returns (w': World)
    requires ValidConfig(c) && Inv(c, w) && w.phase.Awaiting? && c.files != []
    requires TERMINATE in w.toClient
    ensures Next(c, w, w') && w'.phase.Exited?
  {
    ParseTerminate();
    w' := w.(book := w.book.(termFlag := true), phase := Exited);
    assert ClientHears(c, w, TERMINATE, w');
  }

  lemma {:induction false} CanExit(c: Config, w: World, s: nat, o: nat) returns (w': World)
    requires ValidConfig(c) && |c.files| == c.fileNum && Inv(c, w) && w.phase.Scanning?
    requires IsFragment(c, s, o) && !IsAcked(w.book, s, o)
    ensures Reaches(c, w, w') && w'.phase.Exited?
  {
    var w1 := CanFinish(c, w);
    var w2 := w1.(toClient := w1.toClient + {TERMINATE});
    assert ServerTerminates(c, w1, w2);
    Then(c, w, w1, w2);
    NextInv(c, w1, w2);
    var w3 := MoveTo(c, w2, s, o);
    Joined(c, w, w2, w3);
    var w4 := Sent(c, w3);
    Then(c, w, w3, w4);
    w' := HearTerminate(c, w4);
    Then(c, w, w4, w');
  }

  /** In any reachable state the client can still come to its exit if and only if the server expects no
      more files than the client has, and the client has exited or some fragment is unacknowledged. */
  lemma {:induction false} ClientCanExitIff(c: Config, w: World)
    requires ValidConfig(c) && Reaches(c, Start(c), w)
    ensures (exists w' :: Reaches(c, w, w') && w'.phase.Exited?) <==> |c.files| == c.fileNum && !Hung(c, w)
  {
    StartInv(c);
    ReachesInv(c, Start(c), w);
    forall w' | Reaches(c, w, w') && w'.phase.Exited? ensures |c.files| == c.fileNum && !Hung(c, w) {
      ReachesInv(c, w, w');
      ExitedIsComplete(c, w');
      var run :| IsRun(c, run) && run[0] == w && run[|run| - 1] == w';
      if Hung(c, w) {
        HungForever(c, run, |run| - 1);
      }
    }
    if w.phase.Exited? {
      Stays(c, w);
    } else if |c.files| == c.fileNum && !Hung(c, w) {
      var s, o :| IsFragment(c, s, o) && !IsAcked(w.book, s, o);
      var w' := ExitFrom(c, w, s, o);
    }
  }

  lemma {:induction false} ExitedIsComplete(c: Config, w: World)
    requires ValidConfig(c) && Inv(c, w) && w.phase.Exited?
    ensures |c.files| == c.fileNum
  {
    AllWritten(c, w.tables);
  }

  lemma {:induction false} ExitFrom(c: Config, w: World, s: nat, o: nat) returns (w': World)
    requires ValidConfig(c) && |c.files| == c.fileNum && Inv(c, w) && !w.phase.Exited?
    requires IsFragment(c, s, o) && !IsAcked(w.book, s, o)
    ensures Reaches(c, w, w') && w'.phase.Exited?
  {
    if w.phase.Awaiting? {
      var w1 := HearNothing(c, w);
      Stays(c, w);
      Then(c, w, w, w1);
      w' := CanExit(c, w1, s, o);
      Joined(c, w, w1, w');
    } else {
      w' := CanExit(c, w, s, o);
    }
  }

  lemma {:induction false} HearAck(c: Config, w: World) returns (w': World)
    requires ValidConfig(c) && Inv(c, w) && w.phase.Awaiting? && c.files != []
    requires AckText(w.file, w.frag) in w.toClient
    ensures Next(c, w, w') && Inv(c, w') && w'.phase.Scanning? && w'.tables == w.tables
    ensures forall s, o :: IsAcked(w'.book, s, o) <==> IsAcked(w.book, s, o) || (s, o) == (w.file, w.frag)
  {
    ParseAck(w.file, w.frag, "ACK");
    w' := Moved(c, w.(book := w.book.(acked := w.book.acked[(w.file, w.frag) := 1])));
    assert ClientHears(c, w, AckText(w.file, w.frag), w');
    NextInv(c, w, w');
  }

  /** When each recorded fragment is acknowledged at once, the run ends with a hung client. */
  lemma {:induction false} CanHang(c: Config, w: World) returns (w': World)
    requires ValidConfig(c) && Inv(c, w) && w.phase.Scanning?
    requires forall s, o :: IsRecorded(c, w.tables, s, o) ==> IsAcked(w.book, s, o)
    ensures Reaches(c, w, w') && Hung(c, w')
    decreases (MissingNonNegative(c, w.tables, |c.files|); Missing(c, w.tables, |c.files|))
  {
    MissingNonNegative(c, w.tables, |c.files|);
    if u: nat :| u < |c.files| && !w.tables.receivedList[u] {
      UnreceivedIsUnfinished(c, w.tables, u);
      var s, o := SomethingWanted(c, w, u);
      var w1 := SendAndAck(c, w, s, o);
      w' := CanHang(c, w1);
      Joined(c, w, w1, w');
    } else {
      w' := w;
      Stays(c, w);
      AllAckedIsHung(c, w);
    }
  }

  /** Sending a wanted fragment, letting it arrive, and hearing its acknowledgement. */
  lemma {:induction false} SendAndAck(c: Config, w: World, s: nat, o: nat) returns (w': World)
    requires ValidConfig(c) && Inv(c, w) && w.phase.Scanning? && Wanted(c, w, s, o)
    requires w.tables.finished < c.fileNum
    requires forall a, b :: IsRecorded(c, w.tables, a, b) ==> IsAcked(w.book, a, b)
    ensures Reaches(c, w, w') && Inv(c, w') && w'.phase.Scanning?
    ensures Missing(c, w'.tables, |c.files|) == Missing(c, w.tables, |c.files|) - 1
    ensures forall a, b :: IsRecorded(c, w'.tables, a, b) ==> IsAcked(w'.book, a, b)
  {
    var w1 := SendAndRecord(c, w, s, o);
    w' := HearAck(c, w1);
    Then(c, w, w1, w');
    assert forall a, b :: IsRecorded(c, w'.tables, a, b) ==> IsRecorded(c, w.tables, a, b) || (a, b) == (s, o);
  }

  lemma {:induction false} AllAckedIsHung(c: Config, w: World)
    requires ValidConfig(c) && Inv(c, w) && w.phase.Scanning?
    requires forall a, b :: IsRecorded(c, w.tables, a, b) ==> IsAcked(w.book, a, b)
    requires forall u :: 0 <= u < |c.files| ==> w.tables.receivedList[u]
    ensures Hung(c, w)
  {
    forall s, o | IsFragment(c, s, o) ensures IsAcked(w.book, s, o) {
      assert FileInv(c, w.tables, s);
      assert IsRecorded(c, w.tables, s, o);
    }
  }

  lemma {:induction false} FreshIsAcked(c: Config)
    requires ValidConfig(c)
    ensures Start(c).phase.Scanning?
    ensures forall s, o :: IsRecorded(c, Start(c).tables, s, o) ==> IsAcked(Start(c).book, s, o)
  {
  }

  /** Every transfer has a run, without any loss, that leaves the client looping for ever. */
  lemma {:induction false} EveryTransferCanHang(c: Config)
    requires ValidConfig(c)
    ensures exists w :: Reaches(c, Start(c), w) && Hung(c, w)
  {
    StartInv(c);
    FreshIsAcked(c);
    hide *;
    var w := CanHang(c, Start(c));
  }

  /** For instance with the single file "a" holding "x". */
  lemma HangExample()
    ensures var c := Config([File("a", "x")], 1);
            ValidConfig(c) && exists w :: Reaches(c, Start(c), w) && Hung(c, w)
  {
    var c := Config([File("a", "x")], 1);
    assert ValidConfig(c);
    EveryTransferCanHang(c);
  }
}
