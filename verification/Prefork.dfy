/** unpv13e/server/serv05.c and child05.c: a parent that accepts connections and passes their
    descriptors to n children over stream pipes, under every interleaving. Connections are numbered in
    the order of accept. */
module Prefork {

  datatype Work = Waiting | Serving(conn: nat)

  /** One child: the parent's record of it, its pipe in both directions, and the child itself. */
  datatype Slot = Slot(
    busy: bool,              // child_status
    count: nat,              // child_count
    down: seq<nat>,          // descriptors in the pipe to the child
    work: Work,
    up: nat,                 // ready bytes in the pipe to the parent
    done: seq<nat>)          // connections served and closed

  /** Where the parent is in the loop of serv05.c:43-81; `ready` are the children whose pipe is in rset. */
  datatype Parent =
    | Selecting
    | Accepting(ready: set<int>, nsel: int)
    | Choosing(conn: nat, i: nat, ready: set<int>, nsel: int)
    | Scanning(i: nat, ready: set<int>, nsel: int)
    | NoAvailable

  /** `owner[k]` is the child that connection k was passed to. */
  datatype State = State(slots: seq<Slot>, navail: int, parent: Parent, owner: seq<int>)

  ghost predicate Init(s: State) {
    && (forall i :: 0 <= i < |s.slots| ==> s.slots[i] == Slot(false, 0, [], Waiting, 0, []))
    && s.navail == |s.slots| && s.parent == Selecting && s.owner == []
  }

  // ----- steps -----

  /** select: some nonempty part of what is ready; the listening socket only when a child is available. */
  ghost predicate Select(s: State, listen: bool, ready: set<int>, s': State) {
    && (forall i :: i in ready ==> 0 <= i < |s.slots| && s.slots[i].up > 0)
    && (listen ==> s.navail > 0) && (listen || ready != {})
    && s' == s.(parent := if listen then Accepting(ready, |ready| + 1) else Scanning(0, ready, |ready|))
  }

  /** After --nsel: back to select when all of its results are used up. */
  function Onward(nsel: int, i: nat, ready: set<int>): Parent {
    if nsel == 0 then Selecting else Scanning(i, ready, nsel)
  }

  /** serv05.c:60-68. */
  function Dispatch(s: State, conn: nat, i: nat, ready: set<int>, nsel: int): State
    requires i < |s.slots|
  {
    var slot := s.slots[i];
    State(s.slots[i := slot.(busy := true, count := slot.count + 1, down := slot.down + [conn])],
          s.navail - 1, Onward(nsel - 1, 0, ready), s.owner + [i])
  }

  /** serv05.c:72-79; the read waits for a byte. */
  ghost predicate Collect(s: State, i: nat, ready: set<int>, nsel: int, s': State)
    requires i < |s.slots|
  {
    var slot := s.slots[i];
    && slot.up > 0
    && s' == State(s.slots[i := slot.(busy := false, up := slot.up - 1)], s.navail + 1,
                   Onward(nsel - 1, i + 1, ready), s.owner)
  }

  ghost predicate ParentStep(s: State, s': State) {
    match s.parent
    case Selecting =>
      exists listen, ready :: Select(s, listen, ready, s')
    case Accepting(ready, nsel) =>
      s' == s.(parent := Choosing(|s.owner|, 0, ready, nsel))
    case Choosing(conn, i, ready, nsel) =>
      if i >= |s.slots| then s' == s.(parent := NoAvailable)
      else if s.slots[i].busy then s' == s.(parent := Choosing(conn, i + 1, ready, nsel))
      else s' == Dispatch(s, conn, i, ready, nsel)
    case Scanning(i, ready, nsel) =>
      if i >= |s.slots| then s' == s.(parent := Selecting)
      else if i !in ready then s' == s.(parent := Scanning(i + 1, ready, nsel))
      else Collect(s, i, ready, nsel, s')
    case NoAvailable => false
  }

  /** child05.c:40-50: take a descriptor, or finish serving and tell the parent. */
  ghost predicate ChildStep(slot: Slot, slot': Slot) {
    match slot.work
    case Waiting => slot.down != [] && slot' == slot.(down := slot.down[1..], work := Serving(slot.down[0]))
    case Serving(conn) => slot' == slot.(work := Waiting, up := slot.up + 1, done := slot.done + [conn])
  }

  ghost predicate ChildMoves(s: State, i: nat, slot: Slot, s': State) {
    i < |s.slots| && ChildStep(s.slots[i], slot) && s' == s.(slots := s.slots[i := slot])
  }

  ghost predicate Next(s: State, s': State) {
    !s.parent.NoAvailable? && (ParentStep(s, s') || exists i: nat, slot :: ChildMoves(s, i, slot, s'))
  }

  ghost predicate IsRun(run: seq<State>) {
    |run| > 0 && Init(run[0]) && forall i :: 0 <= i < |run| - 1 ==> Next(run[i], run[i + 1])
  }

  // ----- the invariant -----

  /** Connections the child has in its hands. */
  function InHand(slot: Slot): seq<nat> {
    (if slot.work.Serving? then [slot.work.conn] else []) + slot.down
  }

  /** Descriptors in the pipe, connections being served and ready bytes under way. */
  function Load(slot: Slot): nat {
    |InHand(slot)| + slot.up
  }

  /** A busy child has exactly one of the three, an available one none. */
  predicate SlotInv(slot: Slot) {
    Load(slot) == if slot.busy then 1 else 0
  }

  predicate SlotsInv(slots: seq<Slot>) {
    forall i :: 0 <= i < |slots| ==> SlotInv(slots[i])
  }

  function Available(slots: seq<Slot>): nat {
    if slots == [] then 0 else Available(slots[..|slots| - 1]) + (if slots[|slots| - 1].busy then 0 else 1)
  }

  /** The connections passed to child i, in order. */
  function PassedTo(owner: seq<int>, i: int): seq<nat> {
    if owner == [] then []
    else
      var k := |owner| - 1;
      PassedTo(owner[..k], i) + (if owner[k] == i then [k] else [])
  }

  /** What was passed to a child is what it has served, followed by what it has in hand. */
  ghost predicate History(slot: Slot, passed: seq<nat>) {
    passed == slot.done + InHand(slot) && slot.count == |passed|
  }

  ghost predicate Histories(slots: seq<Slot>, owner: seq<int>) {
    && (forall i :: 0 <= i < |slots| ==> History(slots[i], PassedTo(owner, i)))
    && (forall k :: 0 <= k < |owner| ==> 0 <= owner[k] < |slots|)
  }

  /** The members of rset from i on. */
  ghost function From(ready: set<int>, i: int): set<int> {
    set j | j in ready && i <= j
  }

  /** Every pipe still to be read has its byte, and nsel counts what is left of select's results. */
  ghost predicate Bookkept(slots: seq<Slot>, i: nat, ready: set<int>, nsel: int) {
    (forall j :: j in ready && i <= j ==> j < |slots| && slots[j].up > 0) && nsel == |From(ready, i)|
  }

  ghost predicate ParentInv(slots: seq<Slot>, navail: int, parent: Parent, accepted: nat) {
    match parent
    case Selecting => true
    case Accepting(ready, nsel) => navail > 0 && Bookkept(slots, 0, ready, nsel - 1)
    case Choosing(conn, i, ready, nsel) =>
      && conn == accepted && navail > 0 && Bookkept(slots, 0, ready, nsel - 1)
      && i <= |slots| && forall j :: 0 <= j < i ==> slots[j].busy
    case Scanning(i, ready, nsel) => nsel > 0 && i <= |slots| && Bookkept(slots, i, ready, nsel)
    case NoAvailable => false
  }

  ghost predicate Inv(s: State) {
    && SlotsInv(s.slots) && s.navail == Available(s.slots) && Histories(s.slots, s.owner)
    && ParentInv(s.slots, s.navail, s.parent, |s.owner|)
  }

  // ----- counting -----

  lemma {:induction false} AvailableUpdate(slots: seq<Slot>, i: nat, slot: Slot)
    requires i < |slots|
    ensures Available(slots[i := slot])
         == Available(slots) + (if slots[i].busy then 1 else 0) - (if slot.busy then 1 else 0)
  {
    var n := |slots| - 1;
    if i < n {
      assert slots[i := slot][..n] == slots[..n][i := slot];
      AvailableUpdate(slots[..n], i, slot);
    } else {
      assert slots[i := slot][..n] == slots[..n];
    }
  }

  lemma {:induction false} AllBusyIff(slots: seq<Slot>)
    ensures Available(slots) == 0 <==> forall i :: 0 <= i < |slots| ==> slots[i].busy
  {
    if slots != [] {
      AllBusyIff(slots[..|slots| - 1]);
    }
  }

  lemma {:induction false} AllFree(slots: seq<Slot>)
    requires forall i :: 0 <= i < |slots| ==> !slots[i].busy
    ensures Available(slots) == |slots|
  {
    if slots != [] {
      AllFree(slots[..|slots| - 1]);
    }
  }

  lemma {:induction false} InitInv(s: State)
    requires Init(s)
    ensures Inv(s)
  {
    AllFree(s.slots);
  }

  // ----- steps of the parent -----

  lemma {:induction false} FromAll(ready: set<int>)
    requires forall j :: j in ready ==> 0 <= j
    ensures From(ready, 0) == ready
  {
  }

  lemma {:induction false} SelectInv(s: State, listen: bool, ready: set<int>, s': State)
    requires Inv(s) && s.parent.Selecting? && Select(s, listen, ready, s')
    ensures Inv(s')
  {
    FromAll(ready);
    hide SlotsInv, Histories, Available, From;
    assert !listen ==> |ready| > 0;
  }

  lemma {:induction false} FromNext(ready: set<int>, i: int)
    ensures i !in ready ==> From(ready, i + 1) == From(ready, i)
    ensures i in ready ==> From(ready, i + 1) == From(ready, i) - {i} && i in From(ready, i)
  {
  }

  /** With an available child the search finds one. */
  lemma {:induction false} ChoosingFinds(s: State)
    requires Inv(s) && s.parent.Choosing?
    ensures s.parent.i < |s.slots|
  {
    AllBusyIff(s.slots);
  }

  lemma {:induction false} PassedOneMore(owner: seq<int>, i: int, j: int)
    ensures PassedTo(owner + [i], j) == PassedTo(owner, j) + (if i == j then [|owner|] else [])
  {
    assert (owner + [i])[..|owner|] == owner;
  }

  lemma {:induction false} DispatchHistories(s: State, conn: nat, i: nat, slot: Slot)
    requires Histories(s.slots, s.owner) && i < |s.slots| && conn == |s.owner|
    requires slot == s.slots[i].(busy := true, count := s.slots[i].count + 1, down := s.slots[i].down + [conn])
    ensures Histories(s.slots[i := slot], s.owner + [i])
  {
    var slots, owner := s.slots[i := slot], s.owner + [i];
    forall j | 0 <= j < |slots| ensures History(slots[j], PassedTo(owner, j)) {
      PassedOneMore(s.owner, i, j);
      assert History(s.slots[j], PassedTo(s.owner, j));
      if j == i {
        assert InHand(slot) == InHand(s.slots[i]) + [conn];
        assert slot.done + InHand(slot) == (slot.done + InHand(s.slots[i])) + [conn];
      }
    }
  }

  lemma {:induction false} SlotOf(slots: seq<Slot>, i: nat)
    requires SlotsInv(slots) && i < |slots|
    ensures SlotInv(slots[i])
  {
  }

  lemma {:induction false} DispatchedSlot(slot: Slot, conn: nat)
    requires SlotInv(slot) && !slot.busy
    ensures SlotInv(slot.(busy := true, count := slot.count + 1, down := slot.down + [conn]))
  {
  }

  lemma {:induction false} CollectedSlot(slot: Slot)
    requires SlotInv(slot) && slot.up > 0
    ensures slot.busy && SlotInv(slot.(busy := false, up := slot.up - 1))
    ensures InHand(slot.(busy := false, up := slot.up - 1)) == InHand(slot)
  {
  }

  lemma {:induction false} DispatchInv(s: State)
    requires Inv(s) && s.parent.Choosing? && s.parent.i < |s.slots| && !s.slots[s.parent.i].busy
    ensures var c := s.parent; Inv(Dispatch(s, c.conn, c.i, c.ready, c.nsel))
  {
    hide Histories, Available, SlotsInv, SlotInv, Bookkept;
    var c := s.parent;
    var s' := Dispatch(s, c.conn, c.i, c.ready, c.nsel);
    SlotOf(s.slots, c.i);
    DispatchedSlot(s.slots[c.i], c.conn);
    DispatchHistories(s, c.conn, c.i, s'.slots[c.i]);
    AvailableUpdate(s.slots, c.i, s'.slots[c.i]);
    SlotsUpdate(s.slots, c.i, s'.slots[c.i]);
    BookkeptUpdate(s.slots, c.i, s'.slots[c.i], 0, c.ready, c.nsel - 1);
    LeftOver(s.slots, 0, c.ready, c.nsel - 1);
  }

  lemma {:induction false} SlotsUpdate(slots: seq<Slot>, i: nat, slot: Slot)
    requires SlotsInv(slots) && i < |slots| && SlotInv(slot)
    ensures SlotsInv(slots[i := slot])
  {
    hide SlotInv;
  }

  lemma {:induction false} BookkeptNext(slots: seq<Slot>, i: nat, ready: set<int>, nsel: int)
    requires Bookkept(slots, i, ready, nsel)
    ensures Bookkept(slots, i + 1, ready, if i in ready then nsel - 1 else nsel)
  {
    FromNext(ready, i);
  }

  lemma {:induction false} LeftOver(slots: seq<Slot>, i: nat, ready: set<int>, nsel: int)
    requires Bookkept(slots, i, ready, nsel)
    ensures nsel >= 0
  {
  }

  /** A slot without a byte to read is not among those that are to be read. */
  lemma {:induction false} BookkeptUpdate(slots: seq<Slot>, i: nat, slot: Slot, from: nat, ready: set<int>, nsel: int)
    requires Bookkept(slots, from, ready, nsel) && i < |slots| && (slot.up >= slots[i].up || i < from)
    ensures Bookkept(slots[i := slot], from, ready, nsel)
  {
    hide From;
  }

  lemma {:induction false} SameHistories(slots: seq<Slot>, owner: seq<int>, i: nat, slot: Slot)
    requires Histories(slots, owner) && i < |slots|
    requires slot.done + InHand(slot) == slots[i].done + InHand(slots[i]) && slot.count == slots[i].count
    ensures Histories(slots[i := slot], owner)
  {
    hide InHand, PassedTo;
  }

  lemma {:induction false} CollectInv(s: State, s': State)
    requires Inv(s) && s.parent.Scanning? && s.parent.i < |s.slots| && s.parent.i in s.parent.ready
    requires Collect(s, s.parent.i, s.parent.ready, s.parent.nsel, s')
    ensures Inv(s')
  {
    hide Histories, Available, SlotsInv, SlotInv, Bookkept;
    var c := s.parent;
    SlotOf(s.slots, c.i);
    CollectedSlot(s.slots[c.i]);
    SameHistories(s.slots, s.owner, c.i, s'.slots[c.i]);
    AvailableUpdate(s.slots, c.i, s'.slots[c.i]);
    SlotsUpdate(s.slots, c.i, s'.slots[c.i]);
    BookkeptNext(s.slots, c.i, c.ready, c.nsel);
    BookkeptUpdate(s.slots, c.i, s'.slots[c.i], c.i + 1, c.ready, c.nsel - 1);
    LeftOver(s.slots, c.i + 1, c.ready, c.nsel - 1);
  }

  lemma {:induction false} ParentStepInv(s: State, s': State)
    requires Inv(s) && ParentStep(s, s')
    ensures Inv(s')
  {
    hide SlotsInv, Histories, Available, Bookkept, Select, Dispatch, Collect;
    match s.parent
    case Selecting =>
      var listen, ready :| Select(s, listen, ready, s');
      SelectInv(s, listen, ready, s');
    case Accepting(ready, nsel) =>
    case Choosing(conn, i, ready, nsel) =>
      ChoosingFinds(s);
      if !s.slots[i].busy {
        DispatchInv(s);
      }
    case Scanning(i, ready, nsel) =>
      ScanStops(s);
      if i in ready {
        CollectInv(s, s');
      } else {
        BookkeptNext(s.slots, i, ready, nsel);
      }
    case NoAvailable =>
  }

  /** The scan leaves by its break: nsel reaches zero before the children run out. */
  lemma {:induction false} ScanStops(s: State)
    requires Inv(s) && s.parent.Scanning?
    ensures s.parent.i < |s.slots|
  {
    var c := s.parent;
    assert c.i == |s.slots| ==> From(c.ready, c.i) == {};
  }

  // ----- steps of the children -----

  lemma {:induction false} ChildStepKeeps(slot: Slot, slot': Slot)
    requires ChildStep(slot, slot')
    ensures slot'.busy == slot.busy && slot'.count == slot.count && slot'.up >= slot.up
    ensures slot'.done + InHand(slot') == slot.done + InHand(slot) && Load(slot') == Load(slot)
  {
    if slot.work.Waiting? {
      assert [slot.down[0]] + slot.down[1..] == slot.down;
    } else {
      assert slot.done + ([slot.work.conn] + slot.down) == (slot.done + [slot.work.conn]) + slot.down;
    }
  }

  lemma {:induction false} ParentUntouched(slots: seq<Slot>, navail: int, parent: Parent, accepted: nat, i: nat,
                                           slot: Slot)
    requires ParentInv(slots, navail, parent, accepted) && i < |slots|
    requires slot.busy == slots[i].busy && slot.up >= slots[i].up
    ensures ParentInv(slots[i := slot], navail, parent, accepted)
  {
    hide Bookkept;
    match parent
    case Accepting(ready, nsel) => BookkeptUpdate(slots, i, slot, 0, ready, nsel - 1);
    case Choosing(_, _, ready, nsel) => BookkeptUpdate(slots, i, slot, 0, ready, nsel - 1);
    case Scanning(at, ready, nsel) => BookkeptUpdate(slots, i, slot, at, ready, nsel);
    case _ =>
  }

  lemma {:induction false} ChildInv(s: State, i: nat, slot: Slot, s': State)
    requires Inv(s) && ChildMoves(s, i, slot, s')
    ensures Inv(s')
  {
    ChildStepKeeps(s.slots[i], slot);
    assert SlotInv(s.slots[i]) && SlotInv(slot);
    hide Histories, Available, ChildStep, Load, InHand, SlotsInv, SlotInv, Bookkept;
    SameHistories(s.slots, s.owner, i, slot);
    AvailableUpdate(s.slots, i, slot);
    SlotsUpdate(s.slots, i, slot);
    ParentUntouched(s.slots, s.navail, s.parent, |s.owner|, i, slot);
  }

  lemma {:induction false} NextInv(s: State, s': State)
    requires Inv(s) && Next(s, s')
    ensures Inv(s')
  {
    hide Inv, ParentStep, ChildMoves;
    if ParentStep(s, s') {
      ParentStepInv(s, s');
    } else {
      var i: nat, slot :| ChildMoves(s, i, slot, s');
      ChildInv(s, i, slot, s');
    }
  }

  lemma {:induction false} RunInv(run: seq<State>, k: nat)
    requires IsRun(run) && k < |run|
    ensures Inv(run[k])
  {
    hide Inv, Next, Init;
    if k == 0 {
      InitInv(run[0]);
    } else {
      RunInv(run, k - 1);
      NextInv(run[k - 1], run[k]);
    }
  }

  // ----- what every run promises -----

  /** navail is the number of children with status 0. */
  lemma {:induction false} NavailIsExact(run: seq<State>, k: nat)
    requires IsRun(run) && k < |run|
    ensures run[k].navail == Available(run[k].slots)
  {
    RunInv(run, k);
    hide IsRun;
  }

  /** Status 1 exactly when one, and only one, of: descriptor in the pipe, being served, ready byte. */
  lemma {:induction false} BusyIffOneOf(run: seq<State>, k: nat, i: nat)
    requires IsRun(run) && k < |run| && i < |run[k].slots|
    ensures var c := run[k].slots[i];
            && (c.busy <==> |c.down| == 1 || c.work.Serving? || c.up == 1)
            && |c.down| <= 1 && c.up <= 1
            && !(|c.down| == 1 && c.work.Serving?) && !(|c.down| == 1 && c.up == 1) && !(c.work.Serving? && c.up == 1)
  {
    RunInv(run, k);
    hide IsRun, Histories, ParentInv;
    assert SlotInv(run[k].slots[i]);
  }

  /** A child that is given a connection is waiting, with empty pipes both ways, and it is the first one
      available. */
  lemma {:induction false} NoSecondConnection(run: seq<State>, k: nat)
    requires IsRun(run) && k < |run| && run[k].parent.Choosing?
    ensures var c := run[k].parent;
            && c.i < |run[k].slots| && (forall j :: 0 <= j < c.i ==> run[k].slots[j].busy)
            && (!run[k].slots[c.i].busy ==>
                  var slot := run[k].slots[c.i]; slot.down == [] && slot.work.Waiting? && slot.up == 0)
  {
    RunInv(run, k);
    hide IsRun;
    ChoosingFinds(run[k]);
    assert SlotInv(run[k].slots[run[k].parent.i]);
  }

  /** err_quit("no available children") is never reached. */
  lemma {:induction false} NeverNoAvailable(run: seq<State>, k: nat)
    requires IsRun(run) && k < |run|
    ensures !run[k].parent.NoAvailable?
  {
    RunInv(run, k);
    hide IsRun;
  }

  /** The parent's read of a ready byte never waits, and its scan never runs past the last child. */
  lemma {:induction false} ReadNeverWaits(run: seq<State>, k: nat)
    requires IsRun(run) && k < |run| && run[k].parent.Scanning?
    ensures var c := run[k].parent;
            c.i < |run[k].slots| && (c.i in c.ready ==> run[k].slots[c.i].up == 1 && run[k].slots[c.i].busy)
  {
    RunInv(run, k);
    hide IsRun;
    ScanStops(run[k]);
    assert SlotInv(run[k].slots[run[k].parent.i]);
  }

  /** Connection k goes to one child, which serves its connections in order: it is among those served or
      the one in hand, and no other child ever has it. */
  lemma {:induction false} ServedByItsOwner(run: seq<State>, t: nat, k: nat, i: nat)
    requires IsRun(run) && t < |run| && k < |run[t].owner| && i < |run[t].slots|
    ensures var slot := run[t].slots[i]; k in slot.done + InHand(slot) <==> run[t].owner[k] == i
    ensures run[t].slots[i].count == |run[t].slots[i].done| + |InHand(run[t].slots[i])|
  {
    RunInv(run, t);
    hide IsRun, SlotsInv, ParentInv;
    assert History(run[t].slots[i], PassedTo(run[t].owner, i));
    PassedMembers(run[t].owner, i, k);
  }

  lemma {:induction false} PassedMembers(owner: seq<int>, i: int, k: nat)
    ensures k in PassedTo(owner, i) <==> k < |owner| && owner[k] == i
  {
    if owner != [] {
      PassedMembers(owner[..|owner| - 1], i, k);
    }
  }

  lemma {:induction false} PassedIncrease(owner: seq<int>, i: int)
    ensures var p := PassedTo(owner, i);
            && (forall a :: 0 <= a < |p| ==> p[a] < |owner|)
            && (forall a, b :: 0 <= a < b < |p| ==> p[a] < p[b])
  {
    if owner != [] {
      var k := |owner| - 1;
      PassedIncrease(owner[..k], i);
      assert PassedTo(owner, i) == PassedTo(owner[..k], i) + (if owner[k] == i then [k] else []);
      hide PassedTo;
    }
  }

  /** A child never serves a connection twice, nor out of order. */
  lemma {:induction false} ServedOnceInOrder(run: seq<State>, t: nat, i: nat)
    requires IsRun(run) && t < |run| && i < |run[t].slots|
    ensures var done := run[t].slots[i].done; forall a, b :: 0 <= a < b < |done| ==> done[a] < done[b]
  {
    RunInv(run, t);
    hide IsRun, SlotsInv, ParentInv;
    var slot := run[t].slots[i];
    assert History(slot, PassedTo(run[t].owner, i));
    PassedIncrease(run[t].owner, i);
    assert forall a :: 0 <= a < |slot.done| ==> slot.done[a] == PassedTo(run[t].owner, i)[a];
  }

  // ----- no deadlock -----

  /** A child that can move, or a byte for the parent to read. */
  predicate Moves(slot: Slot) {
    (slot.work.Waiting? && slot.down != []) || slot.work.Serving? || slot.up > 0
  }

  /** With at least one child, the parent in select listens for connections, or some child is under way
      to making it do so again. */
  lemma {:induction false} NeverStuck(run: seq<State>, k: nat)
    requires IsRun(run) && k < |run| && |run[k].slots| > 0
    ensures run[k].navail > 0 || exists i :: 0 <= i < |run[k].slots| && Moves(run[k].slots[i])
  {
    RunInv(run, k);
    hide IsRun;
    AllBusyIff(run[k].slots);
    if run[k].navail == 0 {
      assert SlotInv(run[k].slots[0]);
      assert Moves(run[k].slots[0]);
    }
  }

  /** Steps that the connections under way still need: three per descriptor in a pipe. */
  function Remaining(slot: Slot): nat {
    3 * |slot.down| + (if slot.work.Serving? then 2 else 0) + slot.up
  }

  function AllRemaining(slots: seq<Slot>): nat {
    if slots == [] then 0 else AllRemaining(slots[..|slots| - 1]) + Remaining(slots[|slots| - 1])
  }

  lemma {:induction false} RemainingUpdate(slots: seq<Slot>, i: nat, slot: Slot)
    requires i < |slots|
    ensures AllRemaining(slots[i := slot]) == AllRemaining(slots) - Remaining(slots[i]) + Remaining(slot)
  {
    var n := |slots| - 1;
    hide Remaining;
    if i < n {
      assert slots[i := slot][..n] == slots[..n][i := slot];
      RemainingUpdate(slots[..n], i, slot);
    } else {
      assert slots[i := slot][..n] == slots[..n];
    }
  }

  /** Every step of a child and every byte the parent reads uses up one remaining step; only passing on a
      new connection adds any. So without new connections all children are soon available. */
  lemma {:induction false} StepsRunOut(s: State, s': State)
    requires Inv(s) && Next(s, s')
    ensures s'.owner == s.owner && s'.slots != s.slots ==> AllRemaining(s'.slots) == AllRemaining(s.slots) - 1
    ensures s'.owner != s.owner ==> AllRemaining(s'.slots) == AllRemaining(s.slots) + 3
  {
    hide Inv;
    if exists i: nat, slot :: ChildMoves(s, i, slot, s') {
      var i: nat, slot :| ChildMoves(s, i, slot, s');
      RemainingUpdate(s.slots, i, slot);
    } else {
      match s.parent
      case Selecting =>
      case Accepting(_, _) =>
      case NoAvailable =>
      case Choosing(conn, i, ready, nsel) =>
        if i < |s.slots| && !s.slots[i].busy {
          RemainingUpdate(s.slots, i, s'.slots[i]);
        }
      case Scanning(i, ready, nsel) =>
        if i < |s.slots| && i in ready {
          RemainingUpdate(s.slots, i, s'.slots[i]);
        }
    }
  }

  lemma {:induction false} NoneRemainingIff(slots: seq<Slot>)
    requires SlotsInv(slots)
    ensures AllRemaining(slots) == 0 <==> Available(slots) == |slots|
    ensures Available(slots) <= |slots|
  {
    if slots != [] {
      var n := |slots| - 1;
      NoneRemainingIff(slots[..n]);
      assert SlotInv(slots[n]);
    }
  }
}
