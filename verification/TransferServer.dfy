/** np-lab6/server.cpp: the tables, what one received datagram does to them, and the class that
    updates them in place. */
module TransferServer {
  import opened TransferText

  /** The global tables of server.cpp, the loop counter `i` of main as `finished`, the files
      written to the store directory, and the order in which they were written. */
  datatype Tables = Tables(
    packetList: seq<int>,
    receivedList: seq<bool>,
    recordList: seq<set<int>>,
    fcntList: seq<seq<string>>,
    fStat: map<int, bool>,
    fCount: int,
    finished: int,
    store: map<string, string>,
    log: seq<int>)

  const MAX_OPEN := 300

  predicate Sized(t: Tables, fileNum: nat) {
    |t.packetList| == |t.receivedList| == |t.recordList| == |t.fcntList| == fileNum
  }

  function InitTables(fileNum: nat): (t: Tables)
    ensures Sized(t, fileNum)
  {
    Tables(seq(fileNum, _ => 0), seq(fileNum, _ => false), seq(fileNum, _ => {}), seq(fileNum, _ => []),
           FreshFlags(fileNum), 0, 0, map[], [])
  }

  /** `f_stat[1..n]` set to false. */
  function FreshFlags(n: nat): (m: map<int, bool>)
    ensures forall k :: k in m ==> !m[k]
  {
    if n == 0 then map[] else FreshFlags(n - 1)[n := false]
  }

  /** `f_stat[k]` on a map whose missing keys read as false. */
  predicate IsOpened(t: Tables, k: int) {
    k in t.fStat && t.fStat[k]
  }

  /** Every vector index that the server uses while handling p is in range. */
  predicate InRange(t: Tables, fileNum: nat, p: Packet) {
    && Sized(t, fileNum)
    && 0 <= p.seqNum < fileNum
    && 0 <= p.offset < p.total
    && (t.fcntList[p.seqNum] != [] ==> p.offset < |t.fcntList[p.seqNum]|)
  }

  /** The file is finished, or it is not open and too many others are (server.cpp:79-92). */
  predicate Refused(t: Tables, k: int)
    requires 0 <= k < |t.receivedList|
  {
    t.receivedList[k] || (!IsOpened(t, k) && t.fCount > MAX_OPEN)
  }

  /** Opening a file's content list on its first accepted fragment (server.cpp:95-101). */
  function Opened(t: Tables, k: nat, total: nat): (r: Tables)
    requires k < |t.fcntList|
  {
    if t.fcntList[k] == [] then
      t.(fCount := t.fCount + 1, fStat := t.fStat[k := true], fcntList := t.fcntList[k := seq(total, _ => "")])
    else t
  }

  /** Keeping the fragment unless it was already recorded (server.cpp:104-105). */
  function Kept(t: Tables, k: nat, offset: int, payload: string): Tables
    requires k < |t.fcntList| == |t.recordList| && 0 <= offset < |t.fcntList[k]|
  {
    if offset in t.recordList[k] then t
    else t.(fcntList := t.fcntList[k := t.fcntList[k][offset := payload]])
  }

  /** What `decompose` does to the tables. */
  function Decompose(t: Tables, fileNum: nat, p: Packet): (r: Tables)
    requires InRange(t, fileNum, p)
    ensures Sized(r, fileNum)
  {
    var t1 := t.(packetList := t.packetList[p.seqNum := p.total]);
    if Refused(t1, p.seqNum) then t1
    else Kept(Opened(t1, p.seqNum, p.total), p.seqNum, p.offset, p.payload)
  }

  function Concat(fragments: seq<string>): string {
    if fragments == [] then [] else fragments[0] + Concat(fragments[1..])
  }

  /** Finishing a file: merge, clear, close and write (server.cpp:206-226). */
  function Finished(t: Tables, k: nat, name: string): Tables
    requires k < |t.receivedList| == |t.fcntList|
  {
    t.(receivedList := t.receivedList[k := true], finished := t.finished + 1,
       fcntList := t.fcntList[k := []], fCount := t.fCount - 1,
       store := t.store[name := Concat(t.fcntList[k])], log := t.log + [k])
  }

  /** Recording an accepted fragment, and finishing the file when it was the last one. */
  function Recorded(t: Tables, k: nat, offset: int, name: string): Tables
    requires k < |t.receivedList| == |t.fcntList| == |t.recordList| == |t.packetList|
  {
    var t1 := t.(recordList := t.recordList[k := t.recordList[k] + {offset}]);
    if |t1.recordList[k]| == t1.packetList[k] && !t1.receivedList[k] then Finished(t1, k, name) else t1
  }

  /** The fragment held for p after `decompose` passes both early exits and the size test. */
  predicate Accepts(t: Tables, fileNum: nat, p: Packet)
    requires InRange(t, fileNum, p)
  {
    var t1 := Decompose(t, fileNum, p);
    && !t1.receivedList[p.seqNum] && IsOpened(t1, p.seqNum)
    && 0 <= p.offset < |t1.fcntList[p.seqNum]|
    && |t1.fcntList[p.seqNum][p.offset]| == p.size
  }

  /** One turn of the receive loop in main. */
  function Handle(t: Tables, fileNum: nat, p: Packet): (r: Tables)
    requires InRange(t, fileNum, p)
    ensures Sized(r, fileNum)
  {
    var t1 := Decompose(t, fileNum, p);
    if Accepts(t, fileNum, p) then Recorded(t1, p.seqNum, p.offset, p.name) else t1
  }

  /** The acknowledgements sent in that turn. */
  function Replies(t: Tables, fileNum: nat, p: Packet): seq<string>
    requires InRange(t, fileNum, p)
  {
    if Accepts(t, fileNum, p) then seq(5, _ => AckText(p.seqNum, p.offset)) else []
  }

  /** What `decompose` hands back to main; on the early exits only the sequence number is set. */
  datatype Decomposed = Partial(seqIdx: nat) | Complete(seqIdx: nat, offset: nat, fragSize: int, name: string)

  lemma {:induction false} ConcatAppend(a: seq<string>, f: string)
    ensures Concat(a + [f]) == Concat(a) + f
  {
    if a == [] {
      assert a + [f] == [f];
      assert Concat([f]) == f + Concat([f][1..]);
    } else {
      assert (a + [f])[1..] == a[1..] + [f];
      ConcatAppend(a[1..], f);
    }
  }

  /** The server process: its globals, updated in place by each received datagram. */
  class Server {
    const fileNum: nat
    var packetList: seq<int>
    var receivedList: seq<bool>
    var recordList: seq<set<int>>
    var fcntList: seq<seq<string>>
    var fStat: map<int, bool>
    var fCount: int
    var finished: int
    var store: map<string, string>
    var log: seq<int>

    ghost function View(): Tables
      reads this
    {
      Tables(packetList, receivedList, recordList, fcntList, fStat, fCount, finished, store, log)
    }

    constructor (n: nat)
      ensures fileNum == n && View() == InitTables(n)
    {
      fileNum := n;
      packetList := seq(n, _ => 0);
      receivedList := seq(n, _ => false);
      recordList := seq(n, _ => {});
      fcntList := seq(n, _ => []);
      var flags: map<int, bool> := map[];
      for i := 0 to n
        invariant flags == FreshFlags(i)
      {
        flags := flags[i + 1 := false];
      }
      fStat := flags;
      fCount, finished := 0, 0;
      store, log := map[], [];
    }

    method MergePackets(idx: nat) returns (cnt: string)
      requires idx < |fcntList|
      modifies this`fcntList, this`fCount
      ensures cnt == Concat(old(fcntList)[idx])
      ensures fcntList == old(fcntList)[idx := []] && fCount == old(fCount) - 1
    {
      cnt := "";
      var frags := fcntList[idx];
      for i := 0 to |frags|
        invariant cnt == Concat(frags[..i])
        invariant unchanged(this)
      {
        ConcatAppend(frags[..i], frags[i]);
        assert frags[..i + 1] == frags[..i] + [frags[i]];
        cnt := cnt + frags[i];
      }
      assert frags[..|frags|] == frags;
      fcntList := fcntList[idx := []];
      fCount := fCount - 1;
    }

    method DecomposePacket(p: Packet) returns (d: Decomposed)
      requires InRange(View(), fileNum, p)
      modifies this`packetList, this`fcntList, this`fStat, this`fCount
      ensures View() == Decompose(old(View()), fileNum, p)
      ensures d.seqIdx == p.seqNum
      ensures d.Partial? ==> receivedList[p.seqNum] || !IsOpened(View(), p.seqNum)
      ensures d.Complete? ==> d == Complete(p.seqNum, p.offset, p.size, p.name) && p.offset < |fcntList[p.seqNum]|
    {
      var k := p.seqNum;
      packetList := packetList[k := p.total];
      if receivedList[k] {
        return Partial(k);
      }
      if !(k in fStat && fStat[k]) && fCount > MAX_OPEN {
        return Partial(k);
      }
      if fcntList[k] == [] {
        fCount := fCount + 1;
        fStat := fStat[k := true];
        fcntList := fcntList[k := seq(p.total, _ => "")];
      }
      if p.offset !in recordList[k] {
        fcntList := fcntList[k := fcntList[k][p.offset := p.payload]];
      }
      return Complete(k, p.offset, p.size, p.name);
    }

    /** The part of the loop body after the acknowledgements. */
    method RecordFragment(k: nat, offset: nat, name: string)
      requires Sized(View(), fileNum) && k < fileNum
      modifies this
      ensures View() == Recorded(old(View()), k, offset, name)
    {
      if offset !in recordList[k] {
        recordList := recordList[k := recordList[k] + {offset}];
      } else {
        assert recordList[k] + {offset} == recordList[k];
        assert recordList[k := recordList[k]] == recordList;
      }
      if |recordList[k]| == packetList[k] && !receivedList[k] {
        finished := finished + 1;
        receivedList := receivedList[k := true];
        var cnt := MergePackets(k);
        store := store[name := cnt];
        log := log + [k];
      }
    }

    /** One iteration of the loop in main on the datagram `text`. */
    method Receive(text: string) returns (replies: seq<string>)
      requires ParsePacket(text).Some? && InRange(View(), fileNum, ParsePacket(text).value)
      modifies this
      ensures View() == Handle(old(View()), fileNum, ParsePacket(text).value)
      ensures replies == Replies(old(View()), fileNum, ParsePacket(text).value)
    {
      replies := [];
      var d := DecomposePacket(ParsePacket(text).value);
      if receivedList[d.seqIdx] {
        return;
      }
      if !(d.seqIdx in fStat && fStat[d.seqIdx]) {
        return;
      }
      if |fcntList[d.seqIdx][d.offset]| != d.fragSize {
        return;
      }
      replies := seq(5, _ => AckText(d.seqIdx, d.offset));
      RecordFragment(d.seqIdx, d.offset, d.name);
    }
  }
}
