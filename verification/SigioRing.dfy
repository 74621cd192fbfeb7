/** unpv13e/sigio/dgecho01.c: the echo loop and the SIGIO handler that interrupts it, sharing a ring of
    eight datagrams; every interleaving that the signal mask allows. */
module SigioRing {

  const QSIZE := 8

  /** One element of dg[]: the datagram, its length, the peer and the length of its address. */
  datatype Dg = Dg(data: seq<int>, len: int, sa: int, salen: int)

  /** Where the main loop is (dgecho01.c:56-73). */
  datatype Main =
    | Setup                // the handler is installed and SIGIO not yet blocked
    | Test                 // while (nqueue == 0); SIGIO blocked
    | Suspend              // sigsuspend; SIGIO let in
    | Unblock              // sigprocmask(SIG_SETMASK); still blocked
    | Send                 // Sendto of dg[iget]; unblocked from here ...
    | Increment            // ++iget
    | Wrap                 // if (iget >= QSIZE) iget = 0
    | Block                // sigprocmask(SIG_BLOCK); ... to here
    | Decrement            // nqueue--; blocked

  /** Where the handler is (dgecho01.c:85-107), when it runs. */
  datatype Handler =
    | Idle
    | Checking(nread: nat)              // if (nqueue >= QSIZE) err_quit
    | Receiving(nread: nat)             // recvfrom into dg[iput]
    | Storing(nread: nat, len: int)     // dg_len, nread++, nqueue++, ++iput
    | Counting(nread: nat)              // cntread[nread]++
    | Overflow                          // err_quit

  datatype State = State(
    dg: seq<Dg>,
    cntread: seq<nat>,
    iget: int,
    iput: int,
    nqueue: int,
    main: Main,
    handler: Handler,
    received: seq<Dg>,
    sent: seq<Dg>)

  ghost predicate Init(s: State) {
    && |s.dg| == QSIZE && s.cntread == seq(QSIZE + 1, _ => 0)
    && s.iget == 0 && s.iput == 0 && s.nqueue == 0
    && s.main == Setup && s.handler == Idle && s.received == [] && s.sent == []
  }

  // ----- steps -----

  /** SIGIO can be delivered. */
  predicate Unblocked(m: Main) {
    m.Setup? || m.Suspend? || m.Send? || m.Increment? || m.Wrap? || m.Block?
  }

  ghost predicate MainStep(s: State, s': State) {
    && s.handler == Idle
    && match s.main
       case Setup => s' == s.(main := Test)            // sigprocmask(SIG_BLOCK)
       case Test => s' == s.(main := if s.nqueue == 0 then Suspend else Unblock)
       case Suspend => s' == s.(main := Test)          // another signal ended sigsuspend
       case Unblock => s' == s.(main := Send)
       case Send => 0 <= s.iget < |s.dg| && s' == s.(sent := s.sent + [s.dg[s.iget]], main := Increment)
       case Increment => s' == s.(iget := s.iget + 1, main := Wrap)
       case Wrap => s' == s.(iget := if s.iget >= QSIZE then 0 else s.iget, main := Block)
       case Block => s' == s.(main := Decrement)
       case Decrement => s' == s.(nqueue := s.nqueue - 1, main := Test)
  }

  /** recvfrom found nothing, or filled everything but dg_len. */
  ghost predicate Receives(s: State, nread: nat, s': State) {
    && 0 <= s.iput < |s.dg|
    && (|| (exists clilen :: s' == s.(dg := s.dg[s.iput := s.dg[s.iput].(salen := clilen)], handler := Counting(nread)))
        || (exists d: Dg :: d.len == s.dg[s.iput].len
              && s' == s.(dg := s.dg[s.iput := d], handler := Storing(nread, |d.data|))))
  }

  ghost predicate HandlerStep(s: State, s': State) {
    match s.handler
    case Idle => Unblocked(s.main) && s' == s.(handler := Checking(0))
    case Checking(n) => s' == s.(handler := if s.nqueue >= QSIZE then Overflow else Receiving(n))
    case Receiving(n) => Receives(s, n, s')
    case Storing(n, len) =>
      && 0 <= s.iput < |s.dg|
      && var d := s.dg[s.iput].(len := len);
         s' == s.(dg := s.dg[s.iput := d], nqueue := s.nqueue + 1,
                  iput := if s.iput + 1 >= QSIZE then 0 else s.iput + 1,
                  handler := Checking(n + 1), received := s.received + [d])
    case Counting(n) =>
      && n < |s.cntread|
      && s' == s.(cntread := s.cntread[n := s.cntread[n] + 1], handler := Idle,
                  main := if s.main.Suspend? then Test else s.main)
    case Overflow => false
  }

  ghost predicate Next(s: State, s': State) {
    s.handler != Overflow && (MainStep(s, s') || HandlerStep(s, s'))
  }

  ghost predicate IsRun(run: seq<State>) {
    |run| > 0 && Init(run[0]) && forall i :: 0 <= i < |run| - 1 ==> Next(run[i], run[i + 1])
  }

  // ----- the ring -----

  /** 1 from the moment the front has been sent until nqueue is decremented. */
  function Shift(s: State): int {
    if s.main.Increment? || s.main.Wrap? || s.main.Block? || s.main.Decrement? then 1 else 0
  }

  /** The slot of the next datagram to send. */
  function Front(s: State): int {
    var i := if s.main.Increment? then s.iget + 1 else s.iget;
    if i >= QSIZE then 0 else i
  }

  function Length(s: State): int {
    s.nqueue - Shift(s)
  }

  function Slot(front: int, k: int): int {
    if front + k < QSIZE then front + k else front + k - QSIZE
  }

  predicate Shape(s: State) {
    && |s.dg| == QSIZE && |s.cntread| == QSIZE + 1
    && 0 <= s.iget <= QSIZE && (s.iget == QSIZE ==> s.main.Wrap?)
    && 0 <= s.iput < QSIZE && Shift(s) <= s.nqueue <= QSIZE
  }

  function Waiting(s: State): (q: seq<Dg>)
    requires Shape(s)
    ensures |q| == Length(s)
    ensures forall k :: 0 <= k < |q| ==> q[k] == s.dg[Slot(Front(s), k)]
  {
    seq(Length(s), k requires 0 <= k < Length(s) => s.dg[Slot(Front(s), k)])
  }

  /** Datagrams read in all finished handler runs together. */
  function Tally(cntread: seq<nat>): nat {
    if cntread == [] then 0
    else Tally(cntread[..|cntread| - 1]) + (|cntread| - 1) * cntread[|cntread| - 1]
  }

  function InProgress(h: Handler): nat {
    match h
    case Checking(n) => n
    case Receiving(n) => n
    case Storing(n, _) => n
    case Counting(n) => n
    case _ => 0
  }

  // ----- invariant -----

  /** iput is where the next datagram goes, up to the shift between ++iget and nqueue--. */
  ghost predicate RingInv(s: State)
    requires Shape(s)
  {
    s.iput == Slot(Front(s), Length(s))
  }

  /** Sent and waiting datagrams together are those received, in order. */
  ghost predicate OrderInv(s: State)
    requires Shape(s)
  {
    s.received == s.sent + Waiting(s)
  }

  ghost predicate HandlerInv(s: State) {
    && (s.handler != Idle ==> Unblocked(s.main))
    && (s.handler.Receiving? || s.handler.Storing? || s.handler.Counting? ==> s.nqueue < QSIZE)
    && InProgress(s.handler) <= s.nqueue
    && (s.handler.Overflow? ==> s.nqueue == QSIZE)
  }

  /** Send, and what follows it, happens with something queued; sleeping happens with nothing queued. */
  ghost predicate MainInv(s: State) {
    && (s.main.Unblock? || s.main.Send? ==> s.nqueue >= 1)
    && (s.main.Suspend? && s.handler == Idle ==> s.nqueue == 0)
  }

  ghost predicate TallyInv(s: State) {
    |s.cntread| == QSIZE + 1 && s.cntread[QSIZE] == 0
    && (!s.handler.Overflow? ==> Tally(s.cntread) + InProgress(s.handler) == |s.received|)
  }

  ghost predicate Inv(s: State) {
    Shape(s) && RingInv(s) && OrderInv(s) && HandlerInv(s) && MainInv(s) && TallyInv(s)
  }

  lemma ZeroTally(n: nat)
    ensures Tally(seq(n, _ => 0)) == 0
  {
    if n > 0 {
      assert seq(n, _ => 0)[..n - 1] == seq(n - 1, _ => 0);
      ZeroTally(n - 1);
    }
  }

  lemma {:induction false} InitInv(s: State)
    requires Init(s)
    ensures Inv(s)
  {
    ZeroTally(QSIZE + 1);
  }

  // ----- the main loop keeps it -----

  lemma {:induction false} SendInv(s: State, s': State)
    requires Inv(s) && s.main.Send? && MainStep(s, s')
    ensures Inv(s') && s'.sent == s.sent + [Waiting(s)[0]]
  {
    assert Waiting(s) == [Waiting(s)[0]] + Waiting(s');
    assert s.sent + ([Waiting(s)[0]] + Waiting(s')) == s'.sent + Waiting(s');
  }

  lemma {:induction false} MainInvKept(s: State, s': State)
    requires Inv(s) && MainStep(s, s')
    ensures Inv(s')
  {
    if s.main.Send? {
      SendInv(s, s');
    } else {
      assert Waiting(s') == Waiting(s);
    }
  }

  // ----- the handler keeps it -----

  /** With room in the ring, the slot that is filled is not waiting and not being sent. */
  lemma {:induction false} FreeSlot(s: State)
    requires Shape(s) && RingInv(s) && s.nqueue < QSIZE && Unblocked(s.main)
    ensures forall k :: 0 <= k < Length(s) ==> Slot(Front(s), k) != s.iput
  {
  }

  lemma {:induction false} ReceiveInv(s: State, s': State)
    requires Inv(s) && s.handler.Receiving? && HandlerStep(s, s')
    ensures Inv(s')
  {
    FreeSlot(s);
    assert Waiting(s') == Waiting(s);
  }

  lemma {:induction false} StoreInv(s: State, s': State)
    requires Inv(s) && s.handler.Storing? && HandlerStep(s, s')
    ensures Inv(s')
  {
    FreeSlot(s);
    var d := s.dg[s.iput].(len := s.handler.len);
    assert Slot(Front(s), Length(s)) == s.iput;
    assert Waiting(s') == Waiting(s) + [d];
    assert s.sent + (Waiting(s) + [d]) == s.received + [d];
  }

  lemma {:induction false} TallyUpdate(c: seq<nat>, n: nat)
    requires n < |c|
    ensures Tally(c[n := c[n] + 1]) == Tally(c) + n
  {
    var last := |c| - 1;
    if n == last {
      assert c[n := c[n] + 1][..last] == c[..last];
      assert last * (c[n] + 1) == last * c[n] + last;
    } else {
      assert c[n := c[n] + 1][..last] == c[..last][n := c[n] + 1];
      TallyUpdate(c[..last], n);
    }
  }

  lemma {:induction false} CountInv(s: State, s': State)
    requires Inv(s) && s.handler.Counting? && HandlerStep(s, s')
    ensures Inv(s')
  {
    TallyUpdate(s.cntread, s.handler.nread);
    assert Waiting(s') == Waiting(s);
  }

  lemma {:induction false} HandlerInvKept(s: State, s': State)
    requires Inv(s) && HandlerStep(s, s')
    ensures Inv(s')
  {
    if s.handler.Receiving? {
      ReceiveInv(s, s');
    } else if s.handler.Storing? {
      StoreInv(s, s');
    } else if s.handler.Counting? {
      CountInv(s, s');
    } else {
      assert Waiting(s') == Waiting(s);
    }
  }

  lemma {:induction false} RunInv(run: seq<State>, n: nat)
    requires IsRun(run) && n < |run|
    ensures Inv(run[n])
  {
    if n == 0 {
      InitInv(run[0]);
    } else {
      RunInv(run, n - 1);
      if MainStep(run[n - 1], run[n]) {
        MainInvKept(run[n - 1], run[n]);
      } else {
        HandlerInvKept(run[n - 1], run[n]);
      }
    }
  }

  // ----- what every run guarantees -----

  /** The echoed datagrams are a prefix, in order, of the received ones, at most eight behind; outside
      the window between the send and nqueue--, iput is (iget + nqueue) mod 8, inside it one less. */
  lemma {:induction false} EchoedInOrder(run: seq<State>, n: nat)
    requires IsRun(run) && n < |run|
    ensures var s := run[n];
            && s.sent <= s.received && |s.received| - |s.sent| == s.nqueue - Shift(s) <= 8
            && 0 <= s.iput < QSIZE && (s.main.Wrap? || s.iget < QSIZE)
            && s.iput == (s.iget + s.nqueue - (if s.main.Increment? then 0 else Shift(s))) % 8
  {
    RunInv(run, n);
    var s := run[n];
    assert s.received == s.sent + Waiting(s);
  }

  /** While the front is being sent its slot holds the oldest unsent datagram, whatever the handler does,
      and the handler's slot is another one. */
  lemma {:induction false} SlotBeingSentIsSafe(run: seq<State>, n: nat)
    requires IsRun(run) && n < |run| && run[n].main.Send?
    ensures var s := run[n];
            && 0 <= s.iget < |s.dg| && |s.sent| < |s.received| && s.dg[s.iget] == s.received[|s.sent|]
            && (s.handler.Receiving? || s.handler.Storing? ==> s.iput != s.iget)
  {
    RunInv(run, n);
    var s := run[n];
    assert Waiting(s)[0] == s.dg[s.iget];
    if s.nqueue < QSIZE {
      FreeSlot(s);
      assert Slot(Front(s), 0) == s.iget;
    }
  }

  /** The histogram is never indexed out of bounds, its last element stays zero, and it accounts for
      every datagram received by the finished handler runs. */
  lemma {:induction false} HistogramIsExact(run: seq<State>, n: nat)
    requires IsRun(run) && n < |run|
    ensures var s := run[n];
            && |s.cntread| == QSIZE + 1 && s.cntread[QSIZE] == 0
            && (s.handler.Counting? ==> s.handler.nread < QSIZE)
            && (s.handler == Idle ==> Tally(s.cntread) == |s.received|)
  {
    RunInv(run, n);
  }

  /** The main loop never sleeps while a datagram waits. */
  lemma {:induction false} NeverSleepsOnWork(run: seq<State>, n: nat)
    requires IsRun(run) && n < |run| && run[n].main.Suspend? && run[n].handler == Idle
    ensures run[n].sent == run[n].received
  {
    RunInv(run, n);
    assert Waiting(run[n]) == [];
  }

  /** "receive overflow" is declared with eight datagrams unsent, or with seven when the main loop has
      sent the eighth but not yet lowered nqueue. */
  lemma {:induction false} OverflowMeansFull(run: seq<State>, n: nat)
    requires IsRun(run) && n < |run| && run[n].handler.Overflow?
    ensures |run[n].received| - |run[n].sent| == if Shift(run[n]) == 1 then 7 else 8
  {
    RunInv(run, n);
    assert run[n].received == run[n].sent + Waiting(run[n]);
  }

  /** Received datagrams carry their own length, and the handler stores that of the one it has read. */
  ghost predicate LengthInv(s: State) {
    && (forall k :: 0 <= k < |s.received| ==> s.received[k].len == |s.received[k].data|)
    && (s.handler.Storing? ==> 0 <= s.iput < |s.dg| && s.handler.len == |s.dg[s.iput].data|)
  }

  lemma {:induction false} LengthKept(s: State, s': State)
    requires LengthInv(s) && Next(s, s')
    ensures LengthInv(s')
  {
  }

  /** Every datagram is echoed with the length it was received with. */
  lemma {:induction false} EchoedInFull(run: seq<State>, n: nat)
    requires IsRun(run) && n < |run|
    ensures LengthInv(run[n])
    ensures forall k :: 0 <= k < |run[n].sent| ==> run[n].sent[k].len == |run[n].sent[k].data|
  {
    hide Next;
    if n > 0 {
      EchoedInFull(run, n - 1);
      LengthKept(run[n - 1], run[n]);
    }
    EchoedInOrder(run, n);
    assert forall k :: 0 <= k < |run[n].sent| ==> run[n].sent[k] == run[n].received[k];
  }

  // ----- a run to the overflow with only seven unsent -----

  function Last(run: seq<State>): State
    requires |run| > 0
  {
    run[|run| - 1]
  }

  lemma {:induction false} Extended(run: seq<State>, s: State) returns (run': seq<State>)
    requires IsRun(run) && Next(Last(run), s)
    ensures IsRun(run') && Last(run') == s
  {
    hide Next, Init;
    run' := run + [s];
    forall i | 0 <= i < |run'| - 1 ensures Next(run'[i], run'[i + 1]) {
      assert i < |run| - 1 ==> run'[i] == run[i] && run'[i + 1] == run[i + 1];
    }
  }

  /** The handler enters where the signal is let in. */
  lemma {:induction false} Interrupted(run: seq<State>) returns (run': seq<State>)
    requires IsRun(run) && Last(run).handler == Idle && Unblocked(Last(run).main)
    ensures IsRun(run') && Last(run') == Last(run).(handler := Checking(0))
  {
    run' := Extended(run, Last(run).(handler := Checking(0)));
  }

  /** With room in the ring, the handler can read one more datagram. */
  lemma {:induction false} ReceiveOne(run: seq<State>) returns (run': seq<State>)
    requires IsRun(run) && Last(run).handler.Checking? && Last(run).nqueue < QSIZE
    ensures IsRun(run') && |Last(run').received| == |Last(run).received| + 1
    ensures var s, s' := Last(run), Last(run');
            s'.main == s.main && s'.sent == s.sent && s'.nqueue == s.nqueue + 1 && s'.handler.Checking?
  {
    RunInv(run, |run| - 1);
    var s := Last(run);
    var n := s.handler.nread;
    var s1 := s.(handler := Receiving(n));
    var run1 := Extended(run, s1);
    var d := s.dg[s.iput].(data := []);
    var s2 := s1.(dg := s1.dg[s1.iput := d], handler := Storing(n, |d.data|));
    assert Receives(s1, n, s2);
    var run2 := Extended(run1, s2);
    var e := s2.dg[s2.iput].(len := 0);
    run' := Extended(run2, s2.(dg := s2.dg[s2.iput := e], nqueue := s2.nqueue + 1,
                               iput := if s2.iput + 1 >= QSIZE then 0 else s2.iput + 1,
                               handler := Checking(n + 1), received := s2.received + [e]));
  }

  lemma {:induction false} ReceiveMany(run: seq<State>, k: nat) returns (run': seq<State>)
    requires IsRun(run) && Last(run).handler.Checking? && Last(run).nqueue + k <= QSIZE
    ensures IsRun(run') && |Last(run').received| == |Last(run).received| + k
    ensures var s, s' := Last(run), Last(run');
            s'.main == s.main && s'.sent == s.sent && s'.nqueue == s.nqueue + k && s'.handler.Checking?
  {
    run' := run;
    if k > 0 {
      run' := ReceiveMany(run, k - 1);
      run' := ReceiveOne(run');
    }
  }

  /** The handler finds nothing more to read and returns. */
  lemma {:induction false} HandlerReturns(run: seq<State>) returns (run': seq<State>)
    requires IsRun(run) && Last(run).handler.Checking? && Last(run).nqueue < QSIZE && !Last(run).main.Suspend?
    ensures IsRun(run') && Last(run').handler == Idle
    ensures var s, s' := Last(run), Last(run');
            s'.main == s.main && s'.sent == s.sent && s'.nqueue == s.nqueue && s'.received == s.received
  {
    RunInv(run, |run| - 1);
    var s := Last(run);
    var n := s.handler.nread;
    var s1 := s.(handler := Receiving(n));
    var run1 := Extended(run, s1);
    var clilen := s.dg[s.iput].salen;
    var s2 := s1.(dg := s1.dg[s1.iput := s1.dg[s1.iput].(salen := clilen)], handler := Counting(n));
    assert Receives(s1, n, s2);
    var run2 := Extended(run1, s2);
    run' := Extended(run2, s2.(cntread := s2.cntread[n := s2.cntread[n] + 1], handler := Idle));
  }

  /** One step of the main loop while the handler is idle. */
  lemma {:induction false} MainGoes(run: seq<State>, s': State) returns (run': seq<State>)
    requires IsRun(run) && MainStep(Last(run), s')
    ensures IsRun(run') && Last(run') == s'
  {
    run' := Extended(run, s');
  }

  /** Seven datagrams arrive, one is sent, an eighth arrives before nqueue is lowered: the program gives
      up although only seven are unsent. */
  lemma OverflowWithSevenExample() returns (run: seq<State>)
    ensures IsRun(run) && Last(run).handler.Overflow?
    ensures |Last(run).received| - |Last(run).sent| == QSIZE - 1
  {
    var empty := Dg([], 0, 0, 0);
    var s := State(seq(QSIZE, _ => empty), seq(QSIZE + 1, _ => 0), 0, 0, 0, Setup, Idle, [], []);
    run := [s];
    assert IsRun(run);
    run := Interrupted(run);
    run := ReceiveMany(run, QSIZE - 1);
    run := HandlerReturns(run);
    run := MainGoes(run, Last(run).(main := Test));
    run := MainGoes(run, Last(run).(main := Unblock));
    run := MainGoes(run, Last(run).(main := Send));
    RunInv(run, |run| - 1);
    s := Last(run);
    run := MainGoes(run, s.(sent := s.sent + [s.dg[s.iget]], main := Increment));
    run := Interrupted(run);
    run := ReceiveMany(run, 1);
    run := Extended(run, Last(run).(handler := Overflow));
  }
}
