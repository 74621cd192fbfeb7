/** unpv13e/nonblock/strclinonb.c on values: what one round of the copy loop does, and what every run keeps. */
module CopySpec {
  import opened Numbers
  import opened SeqFacts
  import opened Unp

  /** The part of a buffer between the out and the in pointer, and the offset of the out pointer. */
  datatype Buf = Buf(pos: nat, pending: seq<char>)

  /** One thing that goes out on the socket. */
  datatype Out = Data(c: char) | Fin

  datatype Outcome = Running | Returned | Quit

  datatype State = State(to: Buf, fr: Buf, eof: bool, outcome: Outcome,
                         taken: seq<char>, sent: seq<char>, wire: seq<Out>,
                         received: seq<char>, printed: seq<char>)

  /** What the kernel answers to a read of some length: at most that much of `bytes`, or end of file if
      there are none. */
  datatype ReadResult = ReadBlocks | ReadFails | Bytes(bytes: seq<char>)
  /** What it answers to a write: it takes at most the given number of bytes. */
  datatype WriteResult = WriteBlocks | WriteFails | Takes(count: nat)

  /** One round: which of the four descriptors select reports, and how the calls end. */
  datatype Round = Round(stdin: bool, sockIn: bool, stdout: bool, sockOut: bool,
                         fromStdin: ReadResult, fromSock: ReadResult, toStdout: WriteResult, toSock: WriteResult)

  const INIT := State(Buf(0, []), Buf(0, []), false, Running, [], [], [], [], [])

  function Room(b: Buf): int {
    MAX_LINE - b.pos - |b.pending|
  }

  /** What a read of the room in b returns of some bytes. */
  function ReadOf(b: Buf, bytes: seq<char>): seq<char>
    requires Room(b) >= 0
  {
    bytes[..Min(|bytes|, Room(b))]
  }

  function Filled(b: Buf, bytes: seq<char>): Buf {
    b.(pending := b.pending + bytes)
  }

  /** A buffer after n bytes were written from it: back to the beginning when it is empty. */
  function Drained(b: Buf, n: nat): Buf
    requires n <= |b.pending|
  {
    if n == |b.pending| then Buf(0, []) else Buf(b.pos + n, b.pending[n..])
  }

  function AsData(s: seq<char>): (d: seq<Out>)
    ensures |d| == |s| && forall i :: 0 <= i < |s| ==> d[i] == Data(s[i])
  {
    seq(|s|, i requires 0 <= i < |s| => Data(s[i]))
  }

  // ----- the sets passed to select -----

  predicate AsksStdin(s: State) {
    !s.eof && Room(s.to) > 0
  }

  predicate AsksSockIn(s: State) {
    Room(s.fr) > 0
  }

  predicate AsksSockOut(s: State) {
    s.to.pending != []
  }

  predicate AsksStdout(s: State) {
    s.fr.pending != []
  }

  // ----- the four parts of a round -----

  predicate Fits(s: State) {
    Room(s.to) >= 0 && Room(s.fr) >= 0
  }

  function StdinPart(s: State, r: Round): State
    requires Fits(s)
  {
    if !(r.stdin && AsksStdin(s)) || r.fromStdin.ReadBlocks? then s
    else if r.fromStdin.ReadFails? then s.(outcome := Quit)
    else if r.fromStdin.bytes == [] then
      s.(eof := true, wire := if s.to.pending == [] then s.wire + [Fin] else s.wire)
    else
      var got := ReadOf(s.to, r.fromStdin.bytes);
      s.(to := Filled(s.to, got), taken := s.taken + got)
  }

  function SockInPart(s: State, r: Round): State
    requires Fits(s)
  {
    if !(r.sockIn && AsksSockIn(s)) || r.fromSock.ReadBlocks? then s
    else if r.fromSock.ReadFails? then s.(outcome := Quit)
    else if r.fromSock.bytes == [] then s.(outcome := if s.eof then Returned else Quit)
    else
      var got := ReadOf(s.fr, r.fromSock.bytes);
      s.(fr := Filled(s.fr, got), received := s.received + got)
  }

  function StdoutPart(s: State, asked: bool, r: Round): State {
    if !asked || s.fr.pending == [] || r.toStdout.WriteBlocks? then s
    else if r.toStdout.WriteFails? then s.(outcome := Quit)
    else
      var n := Min(r.toStdout.count, |s.fr.pending|);
      s.(fr := Drained(s.fr, n), printed := s.printed + s.fr.pending[..n])
  }

  function SockOutPart(s: State, asked: bool, r: Round): State {
    if !asked || s.to.pending == [] || r.toSock.WriteBlocks? then s
    else if r.toSock.WriteFails? then s.(outcome := Quit)
    else SentSome(s, Min(r.toSock.count, |s.to.pending|))
  }

  /** A write to the socket that took n bytes. */
  function SentSome(s: State, n: nat): State
    requires n <= |s.to.pending|
  {
    var out := s.to.pending[..n];
    s.(to := Drained(s.to, n), sent := s.sent + out,
       wire := s.wire + AsData(out) + (if n == |s.to.pending| && s.eof then [Fin] else []))
  }

  /** One round of the loop. A read that brought data makes the write below it go ahead unasked. */
  function Turn(s: State, r: Round): State
    requires Fits(s)
  {
    if s.outcome != Running then s
    else
      var s1 := StdinPart(s, r);
      if s1.outcome != Running then s1
      else
        assert Fits(s1);
        var s2 := SockInPart(s1, r);
        if s2.outcome != Running then s2
        else
          var s3 := StdoutPart(s2, (r.stdout && AsksStdout(s)) || |s2.received| > |s.received|, r);
          if s3.outcome != Running then s3
          else SockOutPart(s3, (r.sockOut && AsksSockOut(s)) || |s1.taken| > |s.taken|, r)
  }

  // ----- the invariant -----

  ghost predicate BufInv(b: Buf) {
    Room(b) >= 0 && (b.pending == [] ==> b.pos == 0)
  }

  /** FIN is out exactly when stdin has ended and everything is flushed. */
  predicate FinDue(s: State) {
    s.eof && s.to.pending == []
  }

  /** Conservation in both directions: what came in is what went out followed by what is pending. */
  ghost predicate Conserved(s: State) {
    s.taken == s.sent + s.to.pending && s.received == s.printed + s.fr.pending
  }

  /** The socket carries the data sent and then at most one FIN. */
  ghost predicate WireInv(s: State) {
    s.wire == AsData(s.sent) + (if FinDue(s) then [Fin] else [])
  }

  ghost predicate Inv(s: State) {
    BufInv(s.to) && BufInv(s.fr) && Conserved(s) && WireInv(s)
  }

  lemma {:induction false} StdinInv(s: State, r: Round)
    requires Inv(s)
    ensures Inv(StdinPart(s, r))
  {
    hide AsData;
    var s' := StdinPart(s, r);
    if s'.taken != s.taken {
      var got := ReadOf(s.to, r.fromStdin.bytes);
      assert s'.taken == s.sent + (s.to.pending + got);
    }
  }

  lemma {:induction false} SockInInv(s: State, r: Round)
    requires Inv(s)
    ensures Inv(SockInPart(s, r))
  {
    hide AsData;
    var s' := SockInPart(s, r);
    if s'.received != s.received {
      var got := ReadOf(s.fr, r.fromSock.bytes);
      assert s'.received == s.printed + (s.fr.pending + got);
    }
  }

  /** Draining keeps the bytes: written ones followed by the rest. */
  lemma {:induction false} DrainedKeeps(b: Buf, done: seq<char>, n: nat)
    requires BufInv(b) && n <= |b.pending|
    ensures BufInv(Drained(b, n)) && done + b.pending == (done + b.pending[..n]) + Drained(b, n).pending
    ensures Drained(b, n).pending == [] <==> n == |b.pending|
  {
    assert b.pending == b.pending[..n] + b.pending[n..];
  }

  lemma {:induction false} StdoutInv(s: State, asked: bool, r: Round)
    requires Inv(s)
    ensures Inv(StdoutPart(s, asked, r))
  {
    hide AsData;
    if r.toStdout.Takes? {
      DrainedKeeps(s.fr, s.printed, Min(r.toStdout.count, |s.fr.pending|));
    }
    hide Drained;
  }

  lemma {:induction false} AsDataAppend(a: seq<char>, b: seq<char>)
    ensures AsData(a + b) == AsData(a) + AsData(b)
  {
  }

  lemma {:induction false} SockOutInv(s: State, asked: bool, r: Round)
    requires Inv(s)
    ensures Inv(SockOutPart(s, asked, r))
  {
    if r.toSock.Takes? {
      var n := Min(r.toSock.count, |s.to.pending|);
      DrainedKeeps(s.to, s.sent, n);
      AsDataAppend(s.sent, s.to.pending[..n]);
    }
    hide Drained, AsData;
  }

  lemma {:induction false} TurnInv(s: State, r: Round)
    requires Inv(s)
    ensures Inv(Turn(s, r))
  {
    hide Inv, StdinPart, SockInPart, StdoutPart, SockOutPart, AsksStdin, AsksSockIn, AsksStdout, AsksSockOut;
    InvFits(s);
    StdinInv(s, r);
    var s1 := StdinPart(s, r);
    InvFits(s1);
    SockInInv(s1, r);
    var s2 := SockInPart(s1, r);
    var stdout := (r.stdout && AsksStdout(s)) || |s2.received| > |s.received|;
    StdoutInv(s2, stdout, r);
    SockOutInv(StdoutPart(s2, stdout, r), (r.sockOut && AsksSockOut(s)) || |s1.taken| > |s.taken|, r);
  }

  lemma {:induction false} InvFits(s: State)
    requires Inv(s)
    ensures Fits(s)
  {
  }

  // ----- every run -----

  ghost function Run(s: State, rounds: seq<Round>): (s': State)
    requires Inv(s)
    ensures Inv(s')
    decreases |rounds|
  {
    if rounds == [] then s
    else
      TurnInv(s, rounds[0]);
      Run(Turn(s, rounds[0]), rounds[1..])
  }

  /** What every run keeps, in the words of the copy loop: no byte is lost, changed or reordered; the
      bytes of stdin go out unchanged with FIN after the last one, once, exactly when stdin has ended and
      nothing is pending; select always has something to wait for; a descriptor is only read when there
      is room for the data. */
  lemma {:induction false} CopyIsSafe(rounds: seq<Round>)
    ensures Inv(INIT)
    ensures var s := Run(INIT, rounds);
            && s.sent + s.to.pending == s.taken && s.printed + s.fr.pending == s.received
            && s.wire == AsData(s.sent) + (if FinDue(s) then [Fin] else [])
            && (AsksSockIn(s) || AsksStdout(s))
  {
  }

  predicate FinSent(s: State) {
    Fin in s.wire
  }

  lemma {:induction false} FinSentIff(s: State)
    requires Inv(s)
    ensures FinSent(s) <==> FinDue(s)
  {
    var data := AsData(s.sent);
    assert Fin !in data;
    if FinDue(s) {
      assert s.wire[|data|] == Fin;
    }
  }

  lemma {:induction false} StaysFinished(s: State, r: Round)
    requires Inv(s) && FinDue(s)
    ensures FinDue(Turn(s, r)) && Turn(s, r).wire == s.wire && Turn(s, r).taken == s.taken
  {
    hide AsData, WireInv;
  }

  /** After FIN nothing more is sent and stdin is not read again. */
  lemma {:induction false} NothingAfterFin(s: State, rounds: seq<Round>)
    requires Inv(s) && FinSent(s)
    ensures Run(s, rounds).wire == s.wire && Run(s, rounds).taken == s.taken
    decreases |rounds|
  {
    if rounds != [] {
      FinSentIff(s);
      StaysFinished(s, rounds[0]);
      TurnInv(s, rounds[0]);
      NothingAfterFin(Turn(s, rounds[0]), rounds[1..]);
    }
  }

  // ----- how the loop ends -----

  /** The round in which the socket reports end of file: nothing is written any more. */
  predicate Ends(s: State, r: Round)
    requires Fits(s)
  {
    s.outcome == Running && Turn(s, r).outcome == Returned
  }

  /** When the function returns normally, stdout has everything the server sent exactly if `fr` was
      empty at the round's start, and the server has everything from stdin, and FIN, exactly if `to` was. */
  lemma {:induction false} ReturnIsCompleteIff(s: State, r: Round)
    requires Inv(s) && Ends(s, r)
    ensures var s' := Turn(s, r);
            && s'.received == s.received && s'.printed == s.printed
            && (s'.printed == s'.received <==> s.fr.pending == [])
            && (FinSent(s') && s'.sent == s'.taken <==> s.to.pending == [])
  {
    TurnInv(s, r);
    FinSentIff(Turn(s, r));
    EndsAtRead(s, r);
    hide Turn, FinSent, WireInv, Ends;
    if s.fr.pending != [] {
      assert |s.received| == |s.printed| + |s.fr.pending|;
    }
  }

  lemma {:induction false} EndsAtRead(s: State, r: Round)
    requires Inv(s) && Ends(s, r)
    ensures Turn(s, r) == StdinPart(s, r).(outcome := Returned) && Turn(s, r).to == s.to
  {
    NoDataAtEof(s, r);
    hide AsData, WireInv, Conserved, StdinPart;
    assert Fits(StdinPart(s, r)) by {
      StdinInv(s, r);
    }
  }

  lemma {:induction false} NoDataAtEof(s: State, r: Round)
    requires Fits(s)
    ensures StdinPart(s, r).eof ==> StdinPart(s, r).to == s.to
  {
  }

  const IDLE := Round(false, false, false, false, ReadBlocks, ReadBlocks, WriteBlocks, WriteBlocks)

  /** Stdin ends, the server answers while stdout is blocked, then closes: the answer is lost. */
  lemma LostAnswerExample()
    ensures var rounds := [IDLE.(stdin := true, fromStdin := Bytes([])),
                           IDLE.(sockIn := true, fromSock := Bytes(['x'])),
                           IDLE.(sockIn := true, fromSock := Bytes([]))];
            var s := Run(INIT, rounds);
            s.outcome == Returned && s.received == ['x'] && s.printed == []
  {
    var r0 := IDLE.(stdin := true, fromStdin := Bytes([]));
    var r1 := IDLE.(sockIn := true, fromSock := Bytes(['x']));
    var r2 := IDLE.(sockIn := true, fromSock := Bytes([]));
    var s0 := Turn(INIT, r0);
    assert ['x'][..1] == ['x'];
    var s1 := Turn(s0, r1);
    assert s1.received == ['x'] && s1.fr == Buf(0, ['x']);
    RunThree(INIT, r0, r1, r2);
  }

  /** Stdin ends while its data cannot be sent, and the server closes: a normal return without FIN. */
  lemma UnsentInputExample()
    ensures var rounds := [IDLE.(stdin := true, fromStdin := Bytes(['x'])),
                           IDLE.(stdin := true, fromStdin := Bytes([])),
                           IDLE.(sockIn := true, fromSock := Bytes([]))];
            var s := Run(INIT, rounds);
            s.outcome == Returned && s.taken == ['x'] && s.wire == []
  {
    var r0 := IDLE.(stdin := true, fromStdin := Bytes(['x']));
    var r1 := IDLE.(stdin := true, fromStdin := Bytes([]));
    var r2 := IDLE.(sockIn := true, fromSock := Bytes([]));
    assert ['x'][..1] == ['x'];
    var s0 := Turn(INIT, r0);
    assert s0.taken == ['x'] && s0.to == Buf(0, ['x']);
    RunThree(INIT, r0, r1, r2);
  }

  lemma {:induction false} RunThree(s: State, r0: Round, r1: Round, r2: Round)
    requires Inv(s)
    ensures Inv(Turn(s, r0)) && Inv(Turn(Turn(s, r0), r1))
    ensures Run(s, [r0, r1, r2]) == Turn(Turn(Turn(s, r0), r1), r2)
  {
    var s1, rounds := Turn(s, r0), [r0, r1, r2];
    TurnInv(s, r0);
    TurnInv(s1, r1);
    var s2 := Turn(s1, r1);
    TurnInv(s2, r2);
    assert rounds[1..] == [r1, r2] && [r1, r2][1..] == [r2] && [r2][1..] == [];
    hide Turn, Inv;
    assert Run(s2, [r2]) == Run(Turn(s2, r2), []);
    assert Run(s1, [r1, r2]) == Run(s2, [r2]);
  }

  /** Stdout takes whatever it is given. */
  predicate Eager(r: Round) {
    r.toStdout.Takes? && r.toStdout.count >= MAX_LINE
  }

  lemma {:induction false} EagerTurn(s: State, r: Round)
    requires Inv(s) && s.fr.pending == [] && Eager(r)
    ensures Turn(s, r).outcome != Quit ==> Turn(s, r).fr.pending == []
  {
    hide AsData, WireInv;
    TurnInv(s, r);
  }

  /** If stdout never holds back, a run that has not failed has printed everything it received. */
  lemma {:induction false} EagerLosesNothing(s: State, rounds: seq<Round>)
    requires Inv(s) && s.fr.pending == [] && forall i :: 0 <= i < |rounds| ==> Eager(rounds[i])
    ensures Run(s, rounds).outcome != Quit ==> Run(s, rounds).printed == Run(s, rounds).received
    decreases |rounds|
  {
    if rounds != [] {
      TurnInv(s, rounds[0]);
      EagerTurn(s, rounds[0]);
      var s' := Turn(s, rounds[0]);
      if s'.outcome == Quit {
        StaysOver(s', rounds[1..]);
      } else {
        EagerLosesNothing(s', rounds[1..]);
      }
    }
  }

  lemma {:induction false} StaysOver(s: State, rounds: seq<Round>)
    requires Inv(s) && s.outcome != Running
    ensures Run(s, rounds) == s
    decreases |rounds|
  {
    if rounds != [] {
      StaysOver(s, rounds[1..]);
    }
  }

  /** A round in which both sides bring data and both outputs take all of it. */
  predicate Smooth(r: Round) {
    && r.stdin && r.fromStdin.Bytes? && 0 < |r.fromStdin.bytes| <= 4096
    && r.sockIn && r.fromSock.Bytes? && 0 < |r.fromSock.bytes| <= 4096
    && r.toStdout.Takes? && r.toStdout.count >= 4096 && r.toSock.Takes? && r.toSock.count >= 4096
  }

  /** With empty buffers such a round passes everything on, both ways, without waiting for select to
      report the outputs. */
  lemma {:induction false} PassesThrough(s: State, r: Round)
    requires Inv(s) && s.outcome == Running && !s.eof && s.to == Buf(0, []) && s.fr == Buf(0, []) && Smooth(r)
    ensures var up, down := r.fromStdin.bytes, r.fromSock.bytes;
            Turn(s, r) == s.(taken := s.taken + up, sent := s.sent + up, wire := s.wire + AsData(up),
                             received := s.received + down, printed := s.printed + down)
  {
    hide AsData, WireInv;
    var up, down := r.fromStdin.bytes, r.fromSock.bytes;
    assert ReadOf(s.to, up) == up && [] + up == up && ReadOf(s.fr, down) == down && [] + down == down;
    assert up[..|up|] == up && down[..|down|] == down;
    assert s.wire + AsData(up) + [] == s.wire + AsData(up);
  }

  function FromStdin(rounds: seq<Round>): seq<char>
    requires forall i :: 0 <= i < |rounds| ==> Smooth(rounds[i])
  {
    if rounds == [] then [] else assert Smooth(rounds[0]); rounds[0].fromStdin.bytes + FromStdin(rounds[1..])
  }

  function FromServer(rounds: seq<Round>): seq<char>
    requires forall i :: 0 <= i < |rounds| ==> Smooth(rounds[i])
  {
    if rounds == [] then [] else assert Smooth(rounds[0]); rounds[0].fromSock.bytes + FromServer(rounds[1..])
  }

  /** Over smooth rounds the loop is a pipe in both directions, however the data is cut into rounds. */
  lemma {:induction false} SmoothRunIsPipe(s: State, rounds: seq<Round>)
    requires Inv(s) && s.outcome == Running && !s.eof && s.to == Buf(0, []) && s.fr == Buf(0, [])
    requires forall i :: 0 <= i < |rounds| ==> Smooth(rounds[i])
    ensures var s' := Run(s, rounds);
            && s'.sent == s.sent + FromStdin(rounds) && s'.printed == s.printed + FromServer(rounds)
            && s'.outcome == Running && s'.to == Buf(0, []) && s'.fr == Buf(0, [])
    decreases |rounds|
  {
    hide Turn, Inv, Smooth, FromStdin, FromServer, AsData;
    if rounds == [] {
      NoRounds(s);
    } else {
      var r := rounds[0];
      TurnInv(s, r);
      PassesThrough(s, r);
      OneMoreRound(rounds);
      var s1, up, down := Turn(s, r), FromStdin(rounds[1..]), FromServer(rounds[1..]);
      assert s1.sent == s.sent + r.fromStdin.bytes && s1.printed == s.printed + r.fromSock.bytes;
      SmoothRunIsPipe(s1, rounds[1..]);
      Regroup(s.sent, r.fromStdin.bytes, up);
      Regroup(s.printed, r.fromSock.bytes, down);
    }
  }

  lemma {:induction false} NoRounds(s: State)
    requires Inv(s)
    ensures Run(s, []) == s && s.sent + FromStdin([]) == s.sent && s.printed + FromServer([]) == s.printed
  {
  }

  lemma {:induction false} OneMoreRound(rounds: seq<Round>)
    requires rounds != [] && forall i :: 0 <= i < |rounds| ==> Smooth(rounds[i])
    ensures rounds[0].fromStdin.Bytes? && rounds[0].fromSock.Bytes?
    ensures FromStdin(rounds) == rounds[0].fromStdin.bytes + FromStdin(rounds[1..])
    ensures FromServer(rounds) == rounds[0].fromSock.bytes + FromServer(rounds[1..])
  {
  }

  predicate AllBlock(r: Round) {
    r.fromStdin.ReadBlocks? && r.fromSock.ReadBlocks? && r.toStdout.WriteBlocks? && r.toSock.WriteBlocks?
  }

  /** Calls that would block change nothing; any of the four that fails ends the program. */
  lemma {:induction false} OnlyFailuresQuit(s: State, r: Round)
    requires Inv(s) && s.outcome == Running
    ensures AllBlock(r) ==> Turn(s, r) == s
    ensures r.stdin && AsksStdin(s) && r.fromStdin.ReadFails? ==> Turn(s, r) == s.(outcome := Quit)
    ensures !r.stdin && r.sockIn && AsksSockIn(s) && r.fromSock.ReadFails? ==> Turn(s, r) == s.(outcome := Quit)
    ensures !r.stdin && !r.sockIn && r.stdout && s.fr.pending != [] && r.toStdout.WriteFails? ==>
              Turn(s, r) == s.(outcome := Quit)
    ensures !r.stdin && !r.sockIn && !r.stdout && r.sockOut && s.to.pending != [] && r.toSock.WriteFails? ==>
              Turn(s, r) == s.(outcome := Quit)
  {
    hide AsData, WireInv;
  }

  /** The socket takes at least one byte. */
  predicate Accepting(r: Round) {
    r.sockOut && r.toSock.Takes? && r.toSock.count > 0
  }

  lemma {:induction false} AcceptingTurn(s: State, r: Round)
    requires Inv(s) && s.eof && Accepting(r) && Turn(s, r).outcome == Running
    ensures Turn(s, r).eof
    ensures s.to.pending == [] ==> Turn(s, r).to.pending == []
    ensures s.to.pending != [] ==> |Turn(s, r).to.pending| < |s.to.pending|
  {
    hide AsData, WireInv;
  }

  /** Once stdin has ended, as many accepting rounds as there are bytes pending bring out the FIN. */
  lemma {:induction false} FinComesOut(s: State, rounds: seq<Round>)
    requires Inv(s) && s.eof && |s.to.pending| <= |rounds| && forall i :: 0 <= i < |rounds| ==> Accepting(rounds[i])
    requires Run(s, rounds).outcome == Running
    ensures FinSent(Run(s, rounds)) && Run(s, rounds).sent == s.taken
    decreases |rounds|
  {
    if rounds == [] {
      FinSentIff(s);
    } else {
      var s' := Turn(s, rounds[0]);
      TurnInv(s, rounds[0]);
      if s'.outcome != Running {
        StaysOver(s', rounds[1..]);
      }
      AcceptingTurn(s, rounds[0]);
      TakenStays(s, rounds[0]);
      FinComesOut(s', rounds[1..]);
    }
  }

  lemma {:induction false} TakenStays(s: State, r: Round)
    requires Inv(s) && s.eof
    ensures Turn(s, r).taken == s.taken
  {
    hide AsData, WireInv;
  }
}
