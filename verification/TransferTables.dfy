/** What the server's tables say about the client's files, and that every datagram of the client,
    shortened or not, keeps it that way. */
module TransferTables {
  import opened SeqFacts
  import opened SetFacts
  import opened TransferText
  import opened TransferServer
  import opened TransferClient

  /** The client's directory and the file count both programs were started with. */
  datatype Config = Config(files: seq<File>, fileNum: nat)

  predicate ValidConfig(c: Config) {
    && |c.files| <= c.fileNum <= MAX_INT
    && (forall s :: 0 <= s < |c.files| ==> ValidName(c.files[s].name) && |Fragments(c.files[s].content)| <= MAX_INT)
    && (forall s, r :: 0 <= s < r < |c.files| ==> c.files[s].name != c.files[r].name)
  }

  function Frags(c: Config, s: nat): (f: seq<string>)
    requires s < |c.files|
    ensures |f| > 0
  {
    FragmentsConcat(c.files[s].content);
    Fragments(c.files[s].content)
  }

  predicate IsFragment(c: Config, s: int, o: int) {
    0 <= s < |c.files| && 0 <= o < |Frags(c, s)|
  }

  /** The packet the client sends for fragment o of file s. */
  function PacketOf(c: Config, s: nat, o: nat): (p: Packet)
    requires ValidConfig(c) && IsFragment(c, s, o)
    ensures Sendable(p) && p.size == |p.payload|
  {
    FragmentsConcat(c.files[s].content);
    Packet(s, |Frags(c, s)|, o, |Frags(c, s)[o]|, c.files[s].name, Frags(c, s)[o])
  }

  /** The same packet with part of the payload cut off. */
  ghost predicate IsCut(c: Config, p: Packet)
    requires ValidConfig(c)
  {
    && IsFragment(c, p.seqNum, p.offset)
    && p == PacketOf(c, p.seqNum, p.offset).(payload := p.payload)
    && p.payload <= Frags(c, p.seqNum)[p.offset]
  }

  // ----- one file -----

  ghost predicate Idle(t: Tables, s: nat)
    requires s < |t.receivedList| && s < |t.recordList| && s < |t.fcntList|
  {
    !t.receivedList[s] && !IsOpened(t, s) && t.recordList[s] == {} && t.fcntList[s] == []
  }

  /** The file is being received: every recorded fragment holds the client's bytes. */
  ghost predicate Open(c: Config, t: Tables, s: nat)
    requires s < |c.files| && Sized(t, c.fileNum) && |c.files| <= c.fileNum
  {
    && !t.receivedList[s] && IsOpened(t, s)
    && t.packetList[s] == |Frags(c, s)| == |t.fcntList[s]|
    && t.recordList[s] < Range(|Frags(c, s)|)
    && forall o :: o in t.recordList[s] ==> 0 <= o < |Frags(c, s)| && t.fcntList[s][o] == Frags(c, s)[o]
  }

  /** The file has been written with the client's content. */
  ghost predicate Written(c: Config, t: Tables, s: nat)
    requires s < |c.files| && Sized(t, c.fileNum) && |c.files| <= c.fileNum
  {
    && t.receivedList[s] && IsOpened(t, s) && t.fcntList[s] == []
    && t.recordList[s] == Range(|Frags(c, s)|)
    && c.files[s].name in t.store && t.store[c.files[s].name] == c.files[s].content
  }

  ghost predicate FileInv(c: Config, t: Tables, s: nat)
    requires Sized(t, c.fileNum) && |c.files| <= c.fileNum && s < c.fileNum
  {
    Idle(t, s) || (s < |c.files| && (Open(c, t, s) || Written(c, t, s)))
  }

  // ----- all files -----

  function OpenFiles(t: Tables): set<int> {
    set k | 0 <= k < |t.receivedList| && IsOpened(t, k) && !t.receivedList[k]
  }

  ghost predicate LogInv(t: Tables) {
    && t.finished == |t.log| && Distinct(t.log)
    && forall k :: k in t.log <==> 0 <= k < |t.receivedList| && t.receivedList[k]
  }

  ghost predicate StoreInv(c: Config, t: Tables) {
    forall n :: n in t.store ==> exists s :: 0 <= s < |c.files| && s in t.log && c.files[s].name == n
  }

  ghost predicate CountInv(t: Tables) {
    t.fCount == |OpenFiles(t)| <= MAX_OPEN + 1
  }

  ghost predicate AllFilesInv(c: Config, t: Tables)
    requires Sized(t, c.fileNum) && |c.files| <= c.fileNum
  {
    forall s :: 0 <= s < c.fileNum ==> FileInv(c, t, s)
  }

  ghost predicate TableInv(c: Config, t: Tables)
    requires |c.files| <= c.fileNum
  {
    Sized(t, c.fileNum) && AllFilesInv(c, t) && CountInv(t) && LogInv(t) && StoreInv(c, t)
  }

  lemma {:induction false} InitTableInv(c: Config)
    requires |c.files| <= c.fileNum
    ensures TableInv(c, InitTables(c.fileNum))
  {
    var t := InitTables(c.fileNum);
    assert OpenFiles(t) == {};
  }

  // ----- steps of the server -----

  lemma {:induction false} CountPacketInv(c: Config, t: Tables, p: Packet)
    requires ValidConfig(c) && TableInv(c, t) && IsCut(c, p)
    ensures TableInv(c, t.(packetList := t.packetList[p.seqNum := p.total]))
  {
    var t1 := t.(packetList := t.packetList[p.seqNum := p.total]);
    forall s | 0 <= s < c.fileNum ensures FileInv(c, t1, s) {
      assert FileInv(c, t, s);
    }
    assert OpenFiles(t1) == OpenFiles(t);
  }

  lemma {:induction false} NowOpen(c: Config, t: Tables, k: nat)
    requires |c.files| <= c.fileNum && Sized(t, c.fileNum) && k < |c.files|
    requires t.packetList[k] == |Frags(c, k)| && Idle(t, k)
    ensures Open(c, Opened(t, k, |Frags(c, k)|), k)
  {
    assert 0 in Range(|Frags(c, k)|);
  }

  /** A file whose own entries are untouched keeps its state. */
  lemma {:induction false} SameFileInv(c: Config, t: Tables, t1: Tables, s: nat)
    requires |c.files| <= c.fileNum && Sized(t, c.fileNum) && Sized(t1, c.fileNum) && s < c.fileNum
    requires t1.packetList[s] == t.packetList[s] && t1.receivedList[s] == t.receivedList[s]
    requires t1.recordList[s] == t.recordList[s] && t1.fcntList[s] == t.fcntList[s]
    requires IsOpened(t1, s) == IsOpened(t, s)
    requires s < |c.files| && c.files[s].name in t.store ==>
               c.files[s].name in t1.store && t1.store[c.files[s].name] == t.store[c.files[s].name]
    requires AllFilesInv(c, t)
    ensures FileInv(c, t1, s)
  {
    assert FileInv(c, t, s);
  }

  lemma {:induction false} OpenedInv(c: Config, t: Tables, k: nat)
    requires |c.files| <= c.fileNum && TableInv(c, t)
    requires k < |c.files| && t.packetList[k] == |Frags(c, k)| && !Refused(t, k)
    ensures TableInv(c, Opened(t, k, |Frags(c, k)|))
    ensures Open(c, Opened(t, k, |Frags(c, k)|), k)
  {
    var t1 := Opened(t, k, |Frags(c, k)|);
    assert FileInv(c, t, k);
    if t.fcntList[k] == [] {
      NowOpen(c, t, k);
      forall s | 0 <= s < c.fileNum ensures FileInv(c, t1, s) {
        if s != k {
          SameFileInv(c, t, t1, s);
        }
      }
      hide FileInv, Open, Frags;
      assert OpenFiles(t1) == OpenFiles(t) + {k};
    }
  }

  lemma {:induction false} KeptInv(c: Config, t: Tables, k: nat, o: int, payload: string)
    requires |c.files| <= c.fileNum && TableInv(c, t)
    requires k < |c.files| && Open(c, t, k) && 0 <= o < |Frags(c, k)|
    ensures TableInv(c, Kept(t, k, o, payload))
    ensures Open(c, Kept(t, k, o, payload), k)
  {
    var t1 := Kept(t, k, o, payload);
    assert Open(c, t1, k);
    forall s | 0 <= s < c.fileNum ensures FileInv(c, t1, s) {
      if s != k {
        SameFileInv(c, t, t1, s);
      }
    }
    assert OpenFiles(t1) == OpenFiles(t);
  }

  /** Adding the last missing fragment makes the record complete, any other leaves it incomplete. */
  lemma {:induction false} RecordCompletes(record: set<int>, o: int, n: nat)
    requires record < Range(n) && 0 <= o < n
    ensures |record + {o}| == n <==> record + {o} == Range(n)
    ensures record + {o} <= Range(n)
  {
    assert record + {o} <= Range(n);
    if record + {o} != Range(n) {
      ProperSubsetSize(record + {o}, Range(n));
    }
  }

  /** Recording a fragment that does not complete its file. */
  lemma {:induction false} RecordedOpenInv(c: Config, t: Tables, k: nat, o: int, name: string)
    requires |c.files| <= c.fileNum && TableInv(c, t)
    requires k < |c.files| && Open(c, t, k) && 0 <= o < |Frags(c, k)| && t.fcntList[k][o] == Frags(c, k)[o]
    requires t.recordList[k] + {o} != Range(|Frags(c, k)|)
    ensures TableInv(c, Recorded(t, k, o, name)) && Open(c, Recorded(t, k, o, name), k)
  {
    RecordCompletes(t.recordList[k], o, |Frags(c, k)|);
    var t1 := Recorded(t, k, o, name);
    assert t1 == t.(recordList := t.recordList[k := t.recordList[k] + {o}]);
    assert Open(c, t1, k);
    forall s | 0 <= s < c.fileNum ensures FileInv(c, t1, s) {
      if s != k {
        SameFileInv(c, t, t1, s);
      }
    }
    assert OpenFiles(t1) == OpenFiles(t);
  }

  lemma {:induction false} MergedContent(c: Config, t: Tables, k: nat, o: int)
    requires |c.files| <= c.fileNum && Sized(t, c.fileNum)
    requires k < |c.files| && Open(c, t, k) && 0 <= o < |Frags(c, k)| && t.fcntList[k][o] == Frags(c, k)[o]
    requires t.recordList[k] + {o} == Range(|Frags(c, k)|)
    ensures Concat(t.fcntList[k]) == c.files[k].content
  {
    forall i | 0 <= i < |Frags(c, k)| ensures t.fcntList[k][i] == Frags(c, k)[i] {
      assert i in Range(|Frags(c, k)|);
    }
    assert t.fcntList[k] == Frags(c, k);
    FragmentsConcat(c.files[k].content);
  }

  /** The tables after the last fragment of file k, spelled out. */
  function Closed(c: Config, t: Tables, k: nat, o: int): Tables
    requires Sized(t, c.fileNum) && k < |c.files| <= c.fileNum
  {
    t.(recordList := t.recordList[k := t.recordList[k] + {o}],
       receivedList := t.receivedList[k := true], finished := t.finished + 1,
       fcntList := t.fcntList[k := []], fCount := t.fCount - 1,
       store := t.store[c.files[k].name := c.files[k].content], log := t.log + [k])
  }

  lemma {:induction false} ClosedFilesInv(c: Config, t: Tables, k: nat, o: int)
    requires ValidConfig(c) && TableInv(c, t)
    requires k < |c.files| && Open(c, t, k) && t.recordList[k] + {o} == Range(|Frags(c, k)|)
    ensures AllFilesInv(c, Closed(c, t, k, o)) && Written(c, Closed(c, t, k, o), k)
  {
    var t1 := Closed(c, t, k, o);
    assert Written(c, t1, k);
    forall s | 0 <= s < c.fileNum ensures FileInv(c, t1, s) {
      if s != k {
        SameFileInv(c, t, t1, s);
      }
    }
  }

  lemma {:induction false} ClosedCountsInv(c: Config, t: Tables, k: nat, o: int)
    requires ValidConfig(c) && TableInv(c, t)
    requires k < |c.files| && Open(c, t, k)
    ensures CountInv(Closed(c, t, k, o)) && LogInv(Closed(c, t, k, o))
    ensures StoreInv(c, Closed(c, t, k, o))
  {
    var t1 := Closed(c, t, k, o);
    assert OpenFiles(t) == OpenFiles(t1) + {k};
    assert k !in t.log;
    forall j ensures j in t1.log <==> 0 <= j < |t1.receivedList| && t1.receivedList[j] {
      assert j in t1.log <==> j in t.log || j == k;
    }
    forall n | n in t1.store ensures exists s :: 0 <= s < |c.files| && s in t1.log && c.files[s].name == n {
      if n == c.files[k].name {
        assert k in t1.log;
      } else {
        var s :| 0 <= s < |c.files| && s in t.log && c.files[s].name == n;
        assert s in t1.log;
      }
    }
  }

  /** Recording the fragment that completes its file. */
  lemma {:induction false} RecordedLastInv(c: Config, t: Tables, k: nat, o: int)
    requires ValidConfig(c) && TableInv(c, t)
    requires k < |c.files| && Open(c, t, k) && 0 <= o < |Frags(c, k)| && t.fcntList[k][o] == Frags(c, k)[o]
    requires t.recordList[k] + {o} == Range(|Frags(c, k)|)
    ensures TableInv(c, Recorded(t, k, o, c.files[k].name)) && Written(c, Recorded(t, k, o, c.files[k].name), k)
  {
    RecordCompletes(t.recordList[k], o, |Frags(c, k)|);
    MergedContent(c, t, k, o);
    assert Recorded(t, k, o, c.files[k].name) == Closed(c, t, k, o);
    ClosedFilesInv(c, t, k, o);
    ClosedCountsInv(c, t, k, o);
  }

  lemma {:induction false} RecordedInv(c: Config, t: Tables, k: nat, o: int)
    requires ValidConfig(c) && TableInv(c, t)
    requires k < |c.files| && Open(c, t, k) && 0 <= o < |Frags(c, k)| && t.fcntList[k][o] == Frags(c, k)[o]
    ensures TableInv(c, Recorded(t, k, o, c.files[k].name))
  {
    if t.recordList[k] + {o} == Range(|Frags(c, k)|) {
      RecordedLastInv(c, t, k, o);
    } else {
      RecordedOpenInv(c, t, k, o, c.files[k].name);
    }
  }

  /** No datagram of the client makes the server index outside its tables. */
  lemma {:induction false} CutInRange(c: Config, t: Tables, p: Packet)
    requires ValidConfig(c) && TableInv(c, t) && IsCut(c, p)
    ensures InRange(t, c.fileNum, p)
  {
    assert FileInv(c, t, p.seqNum);
  }

  /** After `decompose`, the tables are consistent, and an accepted fragment has the client's bytes. */
  lemma {:induction false} DecomposeInv(c: Config, t: Tables, p: Packet)
    requires ValidConfig(c) && TableInv(c, t) && IsCut(c, p)
    ensures InRange(t, c.fileNum, p)
    ensures TableInv(c, Decompose(t, c.fileNum, p))
    ensures Accepts(t, c.fileNum, p) ==>
              var t1 := Decompose(t, c.fileNum, p);
              Open(c, t1, p.seqNum) && t1.fcntList[p.seqNum][p.offset] == Frags(c, p.seqNum)[p.offset]
    ensures Accepts(t, c.fileNum, p) ==> !Refused(t, p.seqNum)
    ensures !Refused(t, p.seqNum) && |p.payload| == p.size ==> Accepts(t, c.fileNum, p)
    ensures Decompose(t, c.fileNum, p).recordList == t.recordList
    ensures Decompose(t, c.fileNum, p).receivedList == t.receivedList
    ensures Decompose(t, c.fileNum, p).finished == t.finished
  {
    CutInRange(c, t, p);
    var k := p.seqNum;
    var t1 := t.(packetList := t.packetList[k := p.total]);
    CountPacketInv(c, t, p);
    assert Refused(t1, k) == Refused(t, k);
    if !Refused(t, k) {
      OpenedInv(c, t1, k);
      var t2 := Opened(t1, k, p.total);
      KeptInv(c, t2, k, p.offset, p.payload);
      var t3 := Kept(t2, k, p.offset, p.payload);
      assert Decompose(t, c.fileNum, p) == t3;
      if p.offset !in t2.recordList[k] {
        assert t3.fcntList[k][p.offset] == p.payload;
      }
    } else {
      assert FileInv(c, t1, k);
    }
  }

  /** The records grow by exactly the accepted fragment. */
  ghost predicate RecordsGrow(t: Tables, t1: Tables, k: nat, o: int)
    requires k < |t.recordList|
  {
    t1.recordList == t.recordList[k := t.recordList[k] + {o}]
  }

  lemma {:induction false} HandleInv(c: Config, t: Tables, p: Packet)
    requires ValidConfig(c) && TableInv(c, t) && IsCut(c, p)
    ensures InRange(t, c.fileNum, p) && TableInv(c, Handle(t, c.fileNum, p))
    ensures Accepts(t, c.fileNum, p) ==> RecordsGrow(t, Handle(t, c.fileNum, p), p.seqNum, p.offset)
    ensures !Accepts(t, c.fileNum, p) ==> Handle(t, c.fileNum, p).recordList == t.recordList
    ensures !Accepts(t, c.fileNum, p) ==> Handle(t, c.fileNum, p).finished == t.finished
  {
    DecomposeInv(c, t, p);
    if Accepts(t, c.fileNum, p) {
      RecordedInv(c, Decompose(t, c.fileNum, p), p.seqNum, p.offset);
    }
  }

  /** The server answers exactly when the file is unfinished, open or within the limit of 300, and the
      fragment is already recorded or arrived whole: five acknowledgements that name it, also when it was
      sent again because earlier ones were lost. Any other datagram gets no answer. */
  lemma {:induction false} RepliesExactly(c: Config, t: Tables, p: Packet)
    requires ValidConfig(c) && TableInv(c, t) && IsCut(c, p)
    ensures InRange(t, c.fileNum, p)
    ensures var s, o := p.seqNum, p.offset;
            var replies := Replies(t, c.fileNum, p);
            if && !t.receivedList[s] && (IsOpened(t, s) || t.fCount <= 300)
               && (o in t.recordList[s] || p.payload == Frags(c, s)[o])
            then |replies| == 5 && forall i :: 0 <= i < 5 ==> replies[i] == AckText(s, o)
            else replies == []
  {
    DecomposeInv(c, t, p);
    if !Refused(t, p.seqNum) {
      RecordedIsAccepted(c, t, p);
    }
    hide Decompose, Frags, Replies, TableInv;
    assert p.size == |Frags(c, p.seqNum)[p.offset]|;
    assert |p.payload| == p.size ==> p.payload == Frags(c, p.seqNum)[p.offset];
    RepliesIf(t, c.fileNum, p);
  }

  lemma {:induction false} RepliesIf(t: Tables, fileNum: nat, p: Packet)
    requires InRange(t, fileNum, p)
    ensures var replies := Replies(t, fileNum, p);
            if Accepts(t, fileNum, p)
            then |replies| == 5 && forall i :: 0 <= i < 5 ==> replies[i] == AckText(p.seqNum, p.offset)
            else replies == []
  {
  }

  /** A fragment whose bytes are held is accepted whatever its payload has lost, one that is not held
      only when it is whole. */
  lemma {:induction false} RecordedIsAccepted(c: Config, t: Tables, p: Packet)
    requires ValidConfig(c) && TableInv(c, t) && IsCut(c, p) && InRange(t, c.fileNum, p) && !Refused(t, p.seqNum)
    ensures Accepts(t, c.fileNum, p) <==> p.offset in t.recordList[p.seqNum] || |p.payload| == p.size
  {
    var k := p.seqNum;
    CountPacketInv(c, t, p);
    var t1 := t.(packetList := t.packetList[k := p.total]);
    OpenedInv(c, t1, k);
    KeptInv(c, Opened(t1, k, p.total), k, p.offset, p.payload);
  }
}
