/** unpv13e/server/serv08.c and pthread08.c: one acceptor and n workers around the ring clifd, one
    mutex and one condition variable, one step per statement, under every interleaving. */
module WorkQueue {
  const MAXNCLI := 32

  /** Where the acceptor is in the loop of serv08.c:35-47. */
  datatype Acceptor =
    | Accepting
    | Locking(connfd: int)
    | Storing(connfd: int)      // clifd[iput] = connfd
    | Advancing                 // if (++iput == MAXNCLI) iput = 0
    | Testing                   // if (iput == iget) err_quit
    | Signaling                 // pthread_cond_signal
    | Unlocking
    | Quit

  /** Where a worker is in the loop of pthread08.c:20-32. */
  datatype Worker =
    | Entering                  // about to lock the mutex
    | Checking                  // holds the mutex, about to test iget == iput
    | Sleeping                  // inside pthread_cond_wait, mutex released
    | Woken                     // signaled or woken spuriously, wants the mutex back
    | Taking                    // connfd = clifd[iget]
    | Moving(connfd: int)       // if (++iget == MAXNCLI) iget = 0
    | Leaving(connfd: int)      // unlock
    | Serving(connfd: int)      // thread_count++, web_child, close

  datatype Owner = Free | ByAcceptor | ByWorker(i: nat)

  /** Shared memory, both kinds of threads, and the history of accepted and taken connections. */
  datatype State = State(
    clifd: seq<int>,
    iget: int,
    iput: int,
    mutex: Owner,
    acceptor: Acceptor,
    workers: seq<Worker>,
    threadCount: seq<nat>,
    accepted: seq<int>,
    taken: seq<(nat, int)>)

  ghost predicate Init(s: State) {
    && |s.clifd| == MAXNCLI && s.iget == 0 && s.iput == 0 && s.mutex == Free && s.acceptor == Accepting
    && (forall i :: 0 <= i < |s.workers| ==> s.workers[i] == Entering)
    && s.threadCount == seq(|s.workers|, _ => 0)
    && s.accepted == [] && s.taken == []
  }

  function Wrap(i: int): int {
    if i + 1 == MAXNCLI then 0 else i + 1
  }

  // ----- steps -----

  ghost predicate AcceptorStep(s: State, s': State) {
    match s.acceptor
    case Accepting =>
      exists fd :: s' == s.(acceptor := Locking(fd))
    case Locking(fd) =>
      s.mutex == Free && s' == s.(mutex := ByAcceptor, acceptor := Storing(fd))
    case Storing(fd) =>
      && 0 <= s.iput < |s.clifd|
      && s' == s.(clifd := s.clifd[s.iput := fd], acceptor := Advancing, accepted := s.accepted + [fd])
    case Advancing =>
      s' == s.(iput := Wrap(s.iput), acceptor := Testing)
    case Testing =>
      s' == s.(acceptor := if s.iput == s.iget then Quit else Signaling)
    case Signaling =>
      exists woken: set<int> :: Signals(s, woken, s')
    case Unlocking =>
      s' == s.(mutex := Free, acceptor := Accepting)
    case Quit => false
  }

  ghost predicate SomeSleeper(s: State) {
    exists i :: 0 <= i < |s.workers| && s.workers[i].Sleeping?
  }

  ghost predicate AllAsleep(workers: seq<Worker>, woken: set<int>) {
    forall i :: i in woken ==> 0 <= i < |workers| && workers[i].Sleeping?
  }

  /** pthread_cond_signal wakes at least one sleeper if there is one, possibly several. */
  ghost predicate Signals(s: State, woken: set<int>, s': State) {
    && AllAsleep(s.workers, woken) && (SomeSleeper(s) ==> exists i :: i in woken)
    && s' == s.(acceptor := Unlocking, workers := Wake(s.workers, woken))
  }

  ghost function Wake(workers: seq<Worker>, woken: set<int>): (r: seq<Worker>)
    ensures |r| == |workers|
    ensures forall i :: 0 <= i < |r| ==> r[i] == if i in woken then Woken else workers[i]
  {
    seq(|workers|, i requires 0 <= i < |workers| => if i in woken then Woken else workers[i])
  }

  function Go(s: State, i: nat, w: Worker): State
    requires i < |s.workers|
  {
    s.(workers := s.workers[i := w])
  }

  ghost predicate WorkerStep(s: State, i: nat, s': State)
    requires i < |s.workers|
  {
    match s.workers[i]
    case Entering =>
      s.mutex == Free && s' == Go(s, i, Checking).(mutex := ByWorker(i))
    case Checking =>
      if s.iget == s.iput then s' == Go(s, i, Sleeping).(mutex := Free)
      else s' == Go(s, i, Taking)
    case Sleeping =>
      s' == Go(s, i, Woken)                      // spurious wakeup
    case Woken =>
      s.mutex == Free && s' == Go(s, i, Checking).(mutex := ByWorker(i))
    case Taking =>
      0 <= s.iget < |s.clifd| && s' == Go(s, i, Moving(s.clifd[s.iget]))
    case Moving(fd) =>
      s' == Go(s, i, Leaving(fd)).(iget := Wrap(s.iget), taken := s.taken + [(i, fd)])
    case Leaving(fd) =>
      s' == Go(s, i, Serving(fd)).(mutex := Free)
    case Serving(fd) =>
      && i < |s.threadCount|
      && s' == Go(s, i, Entering).(threadCount := s.threadCount[i := s.threadCount[i] + 1])
  }

  /** err_quit ends the whole process. */
  ghost predicate Next(s: State, s': State) {
    && !s.acceptor.Quit?
    && (AcceptorStep(s, s') || exists i: nat :: i < |s.workers| && WorkerStep(s, i, s'))
  }

  ghost predicate IsRun(run: seq<State>) {
    |run| > 0 && Init(run[0]) && forall i :: 0 <= i < |run| - 1 ==> Next(run[i], run[i + 1])
  }

  // ----- the queue in the ring -----

  /** The put that fills the last slot makes the indices equal; err_quit is then the next statement. */
  predicate Full(s: State) {
    (s.acceptor.Testing? || s.acceptor.Quit?) && s.iput == s.iget
  }

  /** Connections between iget and iput. */
  function Length(s: State): int {
    if Full(s) then MAXNCLI
    else if s.iput >= s.iget then s.iput - s.iget
    else s.iput - s.iget + MAXNCLI
  }

  /** The slot of the k-th waiting connection. */
  function Slot(iget: int, k: int): int {
    if iget + k < MAXNCLI then iget + k else iget + k - MAXNCLI
  }

  predicate ShapeInv(s: State) {
    |s.clifd| == MAXNCLI && 0 <= s.iget < MAXNCLI && 0 <= s.iput < MAXNCLI && |s.threadCount| == |s.workers|
  }

  function Queue(s: State): (q: seq<int>)
    requires ShapeInv(s)
    ensures |q| == Length(s)
    ensures forall k :: 0 <= k < |q| ==> q[k] == s.clifd[Slot(s.iget, k)]
  {
    seq(Length(s), k requires 0 <= k < Length(s) => s.clifd[Slot(s.iget, k)])
  }

  /** What has been stored but not yet counted in iput. */
  function Pending(s: State): seq<int>
    requires ShapeInv(s)
  {
    if s.acceptor.Advancing? then [s.clifd[s.iput]] else []
  }

  function Fds(taken: seq<(nat, int)>): (r: seq<int>)
    ensures |r| == |taken| && forall i :: 0 <= i < |r| ==> r[i] == taken[i].1
  {
    seq(|taken|, i requires 0 <= i < |taken| => taken[i].1)
  }

  /** How many connections worker i has taken. */
  function TakenBy(taken: seq<(nat, int)>, i: nat): nat {
    if taken == [] then 0
    else TakenBy(taken[..|taken| - 1], i) + if taken[|taken| - 1].0 == i then 1 else 0
  }

  // ----- invariant -----

  predicate HoldsMutex(w: Worker) {
    w.Checking? || w.Taking? || w.Moving? || w.Leaving?
  }

  predicate AcceptorHolds(a: Acceptor) {
    a.Storing? || a.Advancing? || a.Testing? || a.Signaling? || a.Unlocking? || a.Quit?
  }

  ghost predicate MutexInv(s: State) {
    && (AcceptorHolds(s.acceptor) <==> s.mutex == ByAcceptor)
    && (forall i :: 0 <= i < |s.workers| ==> (HoldsMutex(s.workers[i]) <==> s.mutex == ByWorker(i)))
    && (s.mutex.ByWorker? ==> s.mutex.i < |s.workers|)
  }

  /** A worker that found the queue nonempty still does, and has read its front. */
  ghost predicate TakeInv(s: State)
    requires ShapeInv(s)
  {
    && (forall i :: 0 <= i < |s.workers| ==>
          && (s.workers[i].Taking? ==> s.iget != s.iput)
          && (s.workers[i].Moving? ==> s.iget != s.iput && s.workers[i].connfd == s.clifd[s.iget]))
    && (s.acceptor.Quit? ==> s.iput == s.iget)
  }

  /** First in, first out: what was taken, is queued and is being put is what was accepted, in order. */
  ghost predicate FifoInv(s: State)
    requires ShapeInv(s)
  {
    s.accepted == Fds(s.taken) + Queue(s) + Pending(s)
  }

  ghost predicate CountInv(s: State)
    requires ShapeInv(s)
  {
    forall i :: 0 <= i < |s.workers| ==>
      TakenBy(s.taken, i) == s.threadCount[i] + if s.workers[i].Leaving? || s.workers[i].Serving? then 1 else 0
  }

  /** How many workers were woken and have not looked at the queue again. */
  function WokenCount(workers: seq<Worker>): nat {
    if workers == [] then 0
    else WokenCount(workers[..|workers| - 1]) + if workers[|workers| - 1].Woken? then 1 else 0
  }

  /** The one thread inside the critical section that will still wake or take. */
  ghost predicate Committed(s: State) {
    || s.acceptor.Testing? || s.acceptor.Signaling? || s.acceptor.Quit?
    || exists i :: 0 <= i < |s.workers| && (s.workers[i].Checking? || s.workers[i].Taking? || s.workers[i].Moving?)
  }

  /** No wakeup is lost: while somebody sleeps, every queued connection has a woken worker that has not
      yet looked again, but for the one that the thread in the critical section accounts for. */
  ghost predicate WakeInv(s: State) {
    SomeSleeper(s) ==> Length(s) <= WokenCount(s.workers) + if Committed(s) then 1 else 0
  }

  ghost predicate Inv(s: State) {
    ShapeInv(s) && MutexInv(s) && TakeInv(s) && FifoInv(s) && CountInv(s) && WakeInv(s)
  }

  lemma {:induction false} InitInv(s: State)
    requires Init(s)
    ensures Inv(s)
  {
  }

  // ----- the acceptor keeps it -----

  /** Storing never touches a slot that is still waiting: the queue is the same afterwards. */
  lemma {:induction false} LiveSlotUntouched(s: State, s': State)
    requires ShapeInv(s) && s.acceptor.Storing? && AcceptorStep(s, s')
    ensures ShapeInv(s') && Queue(s') == Queue(s)
    ensures forall k :: 0 <= k < Length(s) ==> Slot(s.iget, k) != s.iput
  {
    assert Length(s') == Length(s);
  }

  lemma {:induction false} StoreInv(s: State, s': State)
    requires Inv(s) && s.acceptor.Storing? && AcceptorStep(s, s')
    ensures Inv(s')
  {
    LiveSlotUntouched(s, s');
    assert Pending(s) == [] && Pending(s') == [s.acceptor.connfd];
    assert s'.accepted == Fds(s'.taken) + Queue(s') + Pending(s');
  }

  lemma {:induction false} AdvanceInv(s: State, s': State)
    requires Inv(s) && s.acceptor.Advancing? && AcceptorStep(s, s')
    ensures Inv(s') && Length(s') == Length(s) + 1
  {
    assert Length(s') == Length(s) + 1;
    assert Slot(s.iget, Length(s)) == s.iput;
    assert Queue(s') == Queue(s) + [s.clifd[s.iput]];
    assert Pending(s) == [s.clifd[s.iput]] && Pending(s') == [];
    assert Fds(s.taken) + Queue(s) + Pending(s) == Fds(s'.taken) + Queue(s') + Pending(s');
  }

  lemma {:induction false} SignalInv(s: State, s': State)
    requires Inv(s) && s.acceptor.Signaling? && AcceptorStep(s, s')
    ensures Inv(s')
  {
    var woken: set<int> :| Signals(s, woken, s');
    assert Queue(s') == Queue(s);
    SignalWakes(s, s', woken);
  }

  /** Waking only adds woken workers, and one at i. */
  lemma {:induction false} MoreWoken(a: seq<Worker>, b: seq<Worker>, i: int)
    requires |a| == |b| && forall j :: 0 <= j < |a| && a[j].Woken? ==> b[j].Woken?
    ensures WokenCount(b) >= WokenCount(a)
    ensures 0 <= i < |a| && !a[i].Woken? && b[i].Woken? ==> WokenCount(b) > WokenCount(a)
  {
    if a != [] {
      MoreWoken(a[..|a| - 1], b[..|a| - 1], i);
    }
  }

  lemma {:induction false} FindWoken(workers: seq<Worker>)
    requires WokenCount(workers) > 0
    ensures exists i :: 0 <= i < |workers| && workers[i].Woken?
  {
    var n := |workers| - 1;
    if !workers[n].Woken? {
      FindWoken(workers[..n]);
      var i :| 0 <= i < n && workers[..n][i].Woken?;
      assert workers[i].Woken?;
    }
  }

  lemma {:induction false} SignalWakes(s: State, s': State, woken: set<int>)
    requires Inv(s) && s.acceptor.Signaling? && Signals(s, woken, s')
    ensures WakeInv(s')
  {
    if SomeSleeper(s') {
      var j :| 0 <= j < |s'.workers| && s'.workers[j].Sleeping?;
      assert s.workers[j].Sleeping?;
      var i :| i in woken;
      MoreWoken(s.workers, s'.workers, i);
    }
  }

  lemma {:induction false} AcceptorInv(s: State, s': State)
    requires Inv(s) && AcceptorStep(s, s') && !s.acceptor.Quit?
    ensures Inv(s')
  {
    if s.acceptor.Storing? {
      StoreInv(s, s');
    } else if s.acceptor.Advancing? {
      AdvanceInv(s, s');
    } else if s.acceptor.Signaling? {
      SignalInv(s, s');
    } else {
      assert Queue(s') == Queue(s) && Pending(s') == Pending(s);
    }
  }

  // ----- the workers keep it -----

  /** Only the worker that holds the mutex moves iget, and then nobody else is committed. */
  lemma {:induction false} MoveInv(s: State, i: nat, s': State)
    requires Inv(s) && i < |s.workers| && s.workers[i].Moving? && WorkerStep(s, i, s')
    ensures ShapeInv(s') && Length(s') == Length(s) - 1
    ensures FifoInv(s')
  {
    var fd := s.workers[i].connfd;
    assert Queue(s)[0] == fd;
    assert Queue(s) == [fd] + Queue(s');
    assert Fds(s'.taken) == Fds(s.taken) + [fd];
    assert Fds(s.taken) + ([fd] + Queue(s')) == Fds(s'.taken) + Queue(s');
  }

  lemma {:induction false} TakenSnoc(taken: seq<(nat, int)>, i: nat, fd: int, j: nat)
    ensures TakenBy(taken + [(i, fd)], j) == TakenBy(taken, j) + if i == j then 1 else 0
  {
    assert (taken + [(i, fd)])[..|taken|] == taken;
  }

  lemma {:induction false} WorkerCountInv(s: State, i: nat, s': State)
    requires Inv(s) && i < |s.workers| && WorkerStep(s, i, s')
    ensures ShapeInv(s') && CountInv(s')
  {
    if s.workers[i].Moving? {
      forall j | 0 <= j < |s.workers| ensures TakenBy(s'.taken, j) == TakenBy(s.taken, j) + if i == j then 1 else 0 {
        TakenSnoc(s.taken, i, s.workers[i].connfd, j);
      }
    }
  }

  lemma {:induction false} WorkerFifoInv(s: State, i: nat, s': State)
    requires Inv(s) && i < |s.workers| && WorkerStep(s, i, s')
    ensures ShapeInv(s') && FifoInv(s')
  {
    if s.workers[i].Moving? {
      MoveInv(s, i, s');
    } else {
      assert Queue(s') == Queue(s) && Pending(s') == Pending(s) && s'.taken == s.taken;
    }
  }

  lemma {:induction false} WorkerMutexInv(s: State, i: nat, s': State)
    requires Inv(s) && i < |s.workers| && WorkerStep(s, i, s')
    ensures ShapeInv(s') && MutexInv(s')
  {
    hide TakeInv, FifoInv, CountInv, WakeInv;
  }

  lemma {:induction false} WorkerTakeInv(s: State, i: nat, s': State)
    requires Inv(s) && i < |s.workers| && WorkerStep(s, i, s')
    ensures ShapeInv(s') && TakeInv(s')
  {
    hide FifoInv, CountInv, WakeInv;
  }

  /** One worker's move changes the number of woken ones by at most itself. */
  lemma {:induction false} WokenChange(workers: seq<Worker>, i: nat, w: Worker)
    requires i < |workers|
    ensures WokenCount(workers[i := w]) ==
            WokenCount(workers) + (if w.Woken? then 1 else 0) - (if workers[i].Woken? then 1 else 0)
  {
    var n := |workers| - 1;
    if i == n {
      assert workers[i := w][..n] == workers[..n];
    } else {
      assert workers[i := w][..n] == workers[..n][i := w];
      WokenChange(workers[..n], i, w);
    }
  }

  lemma {:induction false} CommittedAfter(s: State, i: nat, s': State)
    requires Inv(s) && i < |s.workers| && WorkerStep(s, i, s')
    ensures Committed(s') ==
            if HoldsMutex(s'.workers[i]) then !s'.workers[i].Leaving?
            else if HoldsMutex(s.workers[i]) then false else Committed(s)
  {
    if HoldsMutex(s'.workers[i]) && !s'.workers[i].Leaving? {
      assert s'.workers[i].Checking? || s'.workers[i].Taking? || s'.workers[i].Moving?;
    }
    if !HoldsMutex(s'.workers[i]) && !HoldsMutex(s.workers[i]) {
      assert forall j :: 0 <= j < |s.workers| && HoldsMutex(s.workers[j]) ==> s'.workers[j] == s.workers[j];
      if j :| 0 <= j < |s.workers| && (s.workers[j].Checking? || s.workers[j].Taking? || s.workers[j].Moving?) {
        assert s'.workers[j] == s.workers[j];
      }
    }
  }

  lemma {:induction false} WorkerWakeInv(s: State, i: nat, s': State)
    requires Inv(s) && i < |s.workers| && WorkerStep(s, i, s')
    ensures WakeInv(s')
  {
    hide TakeInv, FifoInv, CountInv;
    WokenChange(s.workers, i, s'.workers[i]);
    CommittedAfter(s, i, s');
    assert s'.workers == s.workers[i := s'.workers[i]];
    if s.workers[i].Moving? {
      MoveInv(s, i, s');
      assert Committed(s);
    } else {
      assert Length(s') == Length(s);
    }
    if SomeSleeper(s') {
      var j :| 0 <= j < |s'.workers| && s'.workers[j].Sleeping?;
      if j != i {
        assert s.workers[j].Sleeping?;
      }
    }
    if HoldsMutex(s.workers[i]) && !s.workers[i].Leaving? {
      assert Committed(s);
    }
  }

  lemma {:induction false} NextInv(s: State, s': State)
    requires Inv(s) && Next(s, s')
    ensures Inv(s')
  {
    hide ShapeInv, MutexInv, TakeInv, FifoInv, CountInv, WakeInv;
    if AcceptorStep(s, s') {
      AcceptorInv(s, s');
    } else {
      var i: nat :| i < |s.workers| && WorkerStep(s, i, s');
      WorkerMutexInv(s, i, s');
      WorkerTakeInv(s, i, s');
      WorkerFifoInv(s, i, s');
      WorkerCountInv(s, i, s');
      WorkerWakeInv(s, i, s');
    }
  }

  lemma {:induction false} RunInv(run: seq<State>, n: nat)
    requires IsRun(run) && n < |run|
    ensures Inv(run[n])
  {
    if n == 0 {
      InitInv(run[0]);
    } else {
      RunInv(run, n - 1);
      NextInv(run[n - 1], run[n]);
    }
  }

  // ----- what every run guarantees -----

  /** Each connection is taken by exactly one worker and in the order of acceptance: the k-th take is
      of the k-th accepted connection, and the rest is still in the ring or being put there. */
  lemma {:induction false} TakenInOrder(run: seq<State>, n: nat)
    requires IsRun(run) && n < |run|
    ensures var s := run[n];
            && ShapeInv(s)
            && |s.accepted| == |s.taken| + Length(s) + |Pending(s)|
            && (forall k :: 0 <= k < |s.taken| ==> s.taken[k].1 == s.accepted[k])
            && (forall k :: 0 <= k < Length(s) ==> s.clifd[Slot(s.iget, k)] == s.accepted[|s.taken| + k])
            && (forall i :: 0 <= i < |s.workers| && s.workers[i].Entering? ==> s.threadCount[i] == TakenBy(s.taken, i))
  {
    hide *;
    RunInv(run, n);
    QueuedInOrder(run[n]);
  }

  lemma {:induction false} QueuedInOrder(s: State)
    requires Inv(s)
    ensures ShapeInv(s) && |s.accepted| == |s.taken| + Length(s) + |Pending(s)|
    ensures forall k :: 0 <= k < |s.taken| ==> s.taken[k].1 == s.accepted[k]
    ensures forall k :: 0 <= k < Length(s) ==> s.clifd[Slot(s.iget, k)] == s.accepted[|s.taken| + k]
    ensures forall i :: 0 <= i < |s.workers| && s.workers[i].Entering? ==> s.threadCount[i] == TakenBy(s.taken, i)
  {
    var fds, queue := Fds(s.taken), Queue(s);
    assert s.accepted == fds + queue + Pending(s);
    forall k | 0 <= k < |s.taken| ensures s.taken[k].1 == s.accepted[k] {
      assert s.accepted[k] == fds[k];
    }
    forall k | 0 <= k < Length(s) ensures s.clifd[Slot(s.iget, k)] == s.accepted[|s.taken| + k] {
      assert s.accepted[|fds| + k] == queue[k];
    }
  }

  /** While a worker sleeps and nobody is in the critical section, there are at least as many woken
      workers that have not looked again as there are queued connections. */
  lemma {:induction false} NoLostWakeup(run: seq<State>, n: nat)
    requires IsRun(run) && n < |run|
    ensures var s := run[n];
            SomeSleeper(s) && s.mutex == Free ==> Length(s) <= WokenCount(s.workers)
  {
    RunInv(run, n);
    var s := run[n];
    if s.mutex == Free {
      assert !Committed(s);
    }
  }

  /** A waiting connection is never left with all workers asleep. */
  lemma {:induction false} NeverAllAsleep(run: seq<State>, n: nat)
    requires IsRun(run) && n < |run| && run[n].workers != [] && run[n].mutex == Free && Length(run[n]) > 0
    ensures exists i :: 0 <= i < |run[n].workers| && !run[n].workers[i].Sleeping?
  {
    NoLostWakeup(run, n);
    var s := run[n];
    if s.workers[0].Sleeping? {
      FindWoken(s.workers);
    }
  }

  /** "iput = iget" is reported exactly when a 32nd connection is accepted while 31 wait. */
  lemma {:induction false} QuitsExactlyWhenFull(run: seq<State>, n: nat)
    requires IsRun(run) && n < |run| && run[n].acceptor.Testing?
    ensures Length(run[n]) >= 1
    ensures run[n].iput == run[n].iget <==> Length(run[n]) == 32
    ensures run[n].iput == run[n].iget ==> |run[n].accepted| - |run[n].taken| == 32
  {
    TakenInOrder(run, n);
  }

  /** The last connection that worker i has taken is fd. */
  ghost predicate LastTaken(taken: seq<(nat, int)>, i: nat, fd: int) {
    exists k :: 0 <= k < |taken| && taken[k] == (i, fd) && forall m :: k < m < |taken| ==> taken[m].0 != i
  }

  predicate Holds(w: Worker) {
    w.Leaving? || w.Serving?
  }

  lemma {:induction false} LastTakenNext(taken: seq<(nat, int)>, i: nat, fd: int, j: nat, gd: int)
    ensures LastTaken(taken + [(i, fd)], i, fd)
    ensures i != j && LastTaken(taken, j, gd) ==> LastTaken(taken + [(i, fd)], j, gd)
  {
    var more := taken + [(i, fd)];
    assert more[|taken|] == (i, fd);
    if i != j && LastTaken(taken, j, gd) {
      var k :| 0 <= k < |taken| && taken[k] == (j, gd) && forall m :: k < m < |taken| ==> taken[m].0 != j;
      assert more[k] == (j, gd);
    }
  }

  /** What a step does to a worker that has a connection, and to the list of those taken. */
  lemma {:induction false} HoldingStep(s: State, s': State, i: nat)
    requires Next(s, s') && i < |s'.workers|
    ensures |s'.workers| == |s.workers|
    ensures || (s'.taken == s.taken && (Holds(s'.workers[i]) ==> Holds(s.workers[i]) && s'.workers[i].connfd == s.workers[i].connfd))
            || exists j: nat, fd :: Takes(s, s', i, j, fd)
  {
    if !AcceptorStep(s, s') {
      var j: nat :| j < |s.workers| && WorkerStep(s, j, s');
      if s.workers[j].Moving? {
        assert Takes(s, s', i, j, s.workers[j].connfd);
      }
    }
  }

  /** Worker j takes fd; worker i is that one or stays as it is. */
  ghost predicate Takes(s: State, s': State, i: nat, j: nat, fd: int) {
    && i < |s.workers| == |s'.workers| && s'.taken == s.taken + [(j, fd)]
    && if i == j then s'.workers[i] == Leaving(fd) else s'.workers[i] == s.workers[i]
  }

  lemma {:induction false} HoldingKept(s: State, s': State, i: nat)
    requires Next(s, s') && i < |s'.workers|
    requires i < |s.workers| && Holds(s.workers[i]) ==> LastTaken(s.taken, i, s.workers[i].connfd)
    ensures |s'.workers| == |s.workers|
    ensures Holds(s'.workers[i]) ==> LastTaken(s'.taken, i, s'.workers[i].connfd)
  {
    HoldingStep(s, s', i);
    hide Next, LastTaken;
    if j: nat, fd :| Takes(s, s', i, j, fd) {
      var gd := if Holds(s.workers[i]) then s.workers[i].connfd else 0;
      LastTakenNext(s.taken, j, fd, i, gd);
    }
  }

  /** A worker serves and closes the very connection that it took last. */
  lemma {:induction false} ServesWhatItTook(run: seq<State>, n: nat, i: nat)
    requires IsRun(run) && n < |run| && i < |run[n].workers|
    ensures Holds(run[n].workers[i]) ==> LastTaken(run[n].taken, i, run[n].workers[i].connfd)
  {
    hide LastTaken, Next;
    if n > 0 {
      if i < |run[n - 1].workers| {
        ServesWhatItTook(run, n - 1, i);
      }
      HoldingKept(run[n - 1], run[n], i);
    }
  }
}
