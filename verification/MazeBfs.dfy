/** np-lab3/3-3.py: find_path, breadth-first search in a fully known maze. */
module MazeBfs {
  import opened SeqFacts
  import opened SetFacts
  import opened MazeMap
  import opened RobotWalk

  /** A queue element (cell, path). */
  datatype Item = Item(cell: Cell, path: string)

  /** A rectangular maze whose border is closed and whose start lies inside. */
  ghost predicate WalledMaze(m: Maze) {
    Rectangular(m) && Inside(m, m.start) && forall c: Cell :: Walkable(m, c) ==> !OnBorder(m, c)
  }

  // ----- invariants -----

  ghost predicate ItemOk(m: Maze, dist: map<Cell, nat>, it: Item)
    requires Rectangular(m)
  {
    && LegalWalk(m, m.start, it.path) && CellOf(m, it.path) == it.cell
    && it.cell in dist && dist[it.cell] == |it.path|
  }

  /** Lengths along the queue never fall and rise by at most one. */
  ghost predicate Layered(q: seq<Item>) {
    forall i, j :: 0 <= i <= j < |q| ==> |q[i].path| <= |q[j].path| <= |q[i].path| + 1
  }

  ghost predicate QueueInv(m: Maze, q: seq<Item>, dist: map<Cell, nat>, done: set<Cell>)
    requires Rectangular(m)
  {
    && (forall i :: 0 <= i < |q| ==> ItemOk(m, dist, q[i]) && q[i].cell !in done)
    && Layered(q) && (forall i, j :: 0 <= i < j < |q| ==> q[i].cell != q[j].cell)
  }

  ghost predicate VisitedInv(m: Maze, visited: seq<Cell>, dist: map<Cell, nat>)
    requires Rectangular(m)
  {
    && Distinct(visited) && (forall c :: c in visited <==> c in dist)
    && m.start in dist && dist[m.start] == 0
    && (forall c :: c in dist ==> Walkable(m, c))
  }

  /** A cell whose open neighbours are all known and at most one step further. */
  ghost predicate Settled(m: Maze, dist: map<Cell, nat>, c: Cell)
    requires Rectangular(m)
  {
    && c in dist && Inside(m, c) && At(m, c) != 'E'
    && forall move :: IsMove(move) && IsOpen(m, Step(c, move)) ==>
         Step(c, move) in dist && dist[Step(c, move)] <= dist[c] + 1
  }

  /** Every known cell is settled, or waits at a distance of at least d. */
  ghost predicate DoneInv(m: Maze, dist: map<Cell, nat>, done: set<Cell>, d: nat)
    requires Rectangular(m)
  {
    forall c :: c in dist ==> if c in done then Settled(m, dist, c) && dist[c] <= d else d <= dist[c] <= d + 1
  }

  /** Every known cell that is not done is on the queue, or is the one being expanded. */
  ghost predicate WaitInv(q: seq<Item>, dist: map<Cell, nat>, done: set<Cell>, cur: set<Cell>) {
    forall c :: c in dist && c !in done && c !in cur ==> exists i :: 0 <= i < |q| && q[i].cell == c
  }

  // ----- shortest paths -----

  /** Any walk ends in a settled cell, or is at least as long as the distance now being explored. */
  lemma {:induction false} WalkBound(m: Maze, visited: seq<Cell>, dist: map<Cell, nat>, done: set<Cell>, d: nat,
                                     p: string)
    requires Rectangular(m) && VisitedInv(m, visited, dist) && DoneInv(m, dist, done, d) && LegalWalk(m, m.start, p)
    ensures d <= |p| || (Settled(m, dist, CellOf(m, p)) && dist[CellOf(m, p)] <= |p|)
  {
    if p != [] {
      var front := p[..|p| - 1];
      LegalPrefix(m, m.start, p, |p| - 1);
      WalkBound(m, visited, dist, done, d, front);
      if d > |p| {
        var c := CellOf(m, front);
        assert Walkable(m, Follow(m.start, p[..|p|])) && p[..|p|] == p;
        assert IsMove(p[|p| - 1]) && CellOf(m, p) == Step(c, p[|p| - 1]);
      }
    }
  }

  /** The first exit taken off the queue is a nearest one. */
  lemma {:induction false} FirstExitIsNearest(m: Maze, visited: seq<Cell>, dist: map<Cell, nat>, done: set<Cell>,
                                              d: nat, p: string)
    requires Rectangular(m) && VisitedInv(m, visited, dist) && DoneInv(m, dist, done, d)
    requires LegalWalk(m, m.start, p) && Inside(m, CellOf(m, p)) && At(m, CellOf(m, p)) == 'E'
    ensures d <= |p|
  {
    WalkBound(m, visited, dist, done, d, p);
  }

  lemma {:induction false} NothingQueued(m: Maze, visited: seq<Cell>, dist: map<Cell, nat>, done: set<Cell>, d: nat)
    requires Rectangular(m) && VisitedInv(m, visited, dist) && DoneInv(m, dist, done, d) && WaitInv([], dist, done, {})
    ensures !ExitReachable(m)
  {
    forall c | c in dist.Keys ensures Done(m, dist.Keys, c) {
      assert Settled(m, dist, c);
    }
    ClosedExcludesExit(m, dist.Keys);
  }

  // ----- enqueuing a neighbour -----

  /** The queue holds other cells than `cur`, as far from the start or one step further. */
  ghost predicate Behind(q: seq<Item>, cur: Item) {
    forall i :: 0 <= i < |q| ==> q[i].cell != cur.cell && |cur.path| <= |q[i].path| <= |cur.path| + 1
  }

  lemma {:induction false} EnqueueQueue(m: Maze, q: seq<Item>, dist: map<Cell, nat>, done: set<Cell>, cur: Item,
                                        move: char)
    requires Rectangular(m) && QueueInv(m, q, dist, done) && ItemOk(m, dist, cur) && IsMove(move)
    requires Behind(q, cur)
    requires var c := Step(cur.cell, move); Walkable(m, c) && c !in dist && c !in done
    ensures var c := Step(cur.cell, move);
            var q' := q + [Item(c, cur.path + [move])];
            QueueInv(m, q', dist[c := |cur.path| + 1], done) && Behind(q', cur)
  {
    var c := Step(cur.cell, move);
    LegalStep(m, m.start, cur.path, move);
    var it := Item(c, cur.path + [move]);
    var dist' := dist[c := |cur.path| + 1];
    var q' := q + [it];
    forall i | 0 <= i < |q'| ensures ItemOk(m, dist', q'[i]) && q'[i].cell !in done {
      if i < |q| {
        assert ItemOk(m, dist, q[i]);
      }
    }
  }

  lemma {:induction false} EnqueueVisited(m: Maze, visited: seq<Cell>, dist: map<Cell, nat>, c: Cell, k: nat)
    requires Rectangular(m) && VisitedInv(m, visited, dist) && Walkable(m, c) && c !in dist
    ensures VisitedInv(m, visited + [c], dist[c := k])
  {
  }

  lemma {:induction false} EnqueueDone(m: Maze, dist: map<Cell, nat>, done: set<Cell>, d: nat, c: Cell)
    requires Rectangular(m) && DoneInv(m, dist, done, d) && c !in dist && c !in done
    ensures DoneInv(m, dist[c := d + 1], done, d)
  {
    var dist' := dist[c := d + 1];
    forall x | x in done && x in dist ensures Settled(m, dist', x) {
      assert Settled(m, dist, x);
    }
  }

  lemma {:induction false} EnqueueWait(q: seq<Item>, dist: map<Cell, nat>, done: set<Cell>, cur: set<Cell>,
                                       it: Item, k: nat)
    requires WaitInv(q, dist, done, cur)
    ensures WaitInv(q + [it], dist[it.cell := k], done, cur)
  {
    var q' := q + [it];
    forall c | c in dist[it.cell := k] && c !in done && c !in cur ensures exists i :: 0 <= i < |q'| && q'[i].cell == c {
      if c == it.cell {
        assert q'[|q|].cell == c;
      } else {
        var i :| 0 <= i < |q| && q[i].cell == c;
        assert q'[i].cell == c;
      }
    }
  }

  /** While `cur`, taken off the queue, is being expanded. */
  ghost predicate Expanding(m: Maze, q: seq<Item>, visited: seq<Cell>, dist: map<Cell, nat>, done: set<Cell>, cur: Item)
    requires Rectangular(m)
  {
    && QueueInv(m, q, dist, done) && VisitedInv(m, visited, dist) && DoneInv(m, dist, done, |cur.path|)
    && WaitInv(q, dist, done, {cur.cell}) && ItemOk(m, dist, cur) && cur.cell !in done
    && Behind(q, cur) && done <= dist.Keys
  }

  lemma {:induction false} Enqueued(m: Maze, q: seq<Item>, visited: seq<Cell>, dist: map<Cell, nat>,
                                    done: set<Cell>, cur: Item, move: char)
    requires Rectangular(m) && Expanding(m, q, visited, dist, done, cur) && IsMove(move)
    requires var c := Step(cur.cell, move); Walkable(m, c) && c !in dist
    ensures var c := Step(cur.cell, move);
            Expanding(m, q + [Item(c, cur.path + [move])], visited + [c], dist[c := |cur.path| + 1], done, cur)
  {
    hide QueueInv, VisitedInv, DoneInv, WaitInv, Walkable, LegalWalk, CellOf, Step, Behind;
    var c := Step(cur.cell, move);
    EnqueueQueue(m, q, dist, done, cur, move);
    EnqueueVisited(m, visited, dist, c, |cur.path| + 1);
    EnqueueDone(m, dist, done, |cur.path|, c);
    EnqueueWait(q, dist, done, {cur.cell}, Item(c, cur.path + [move]), |cur.path| + 1);
  }

  /** The open neighbours by the keys below `most` are known. */
  ghost predicate Tried(m: Maze, dist: map<Cell, nat>, cur: Item, most: nat)
    requires Rectangular(m)
  {
    forall move :: IsMove(move) && Rank(move) < most && IsOpen(m, Step(cur.cell, move)) ==>
      Step(cur.cell, move) in dist && dist[Step(cur.cell, move)] <= |cur.path| + 1
  }

  lemma {:induction false} TriedNext(m: Maze, dist: map<Cell, nat>, dist': map<Cell, nat>, cur: Item, move: char)
    requires Rectangular(m) && Tried(m, dist, cur, Rank(move)) && IsMove(move)
    requires forall c :: c in dist ==> c in dist' && dist'[c] == dist[c]
    requires var c := Step(cur.cell, move); IsOpen(m, c) ==> c in dist' && dist'[c] <= |cur.path| + 1
    ensures Tried(m, dist', cur, Rank(move) + 1)
  {
    assert forall a :: IsMove(a) && Rank(a) == Rank(move) ==> a == move;
    hide Step, IsOpen, Rank;
  }

  lemma {:induction false} ExpandingFacts(m: Maze, q: seq<Item>, visited: seq<Cell>, dist: map<Cell, nat>,
                                          done: set<Cell>, cur: Item, c: Cell)
    requires WalledMaze(m) && Expanding(m, q, visited, dist, done, cur)
    ensures cur.cell in dist && dist[cur.cell] == |cur.path| && Walkable(m, cur.cell) && !OnBorder(m, cur.cell)
    ensures c in visited <==> c in dist
    ensures c in dist ==> dist[c] <= |cur.path| + 1
    ensures m.start in dist
  {
  }

  // ----- which of the shortest walks -----

  /** p is the first, in the order of the keys, of the walks of its length to c. */
  ghost predicate IsFirst(m: Maze, c: Cell, p: string)
    requires Rectangular(m)
  {
    forall w :: LegalWalk(m, m.start, w) && CellOf(m, w) == c && |w| == |p| ==> p == w || Before(p, w)
  }

  /** For every known cell, the first of its shortest walks. */
  ghost predicate BestInv(m: Maze, dist: map<Cell, nat>, best: map<Cell, string>)
    requires Rectangular(m)
  {
    best.Keys == dist.Keys && forall c :: c in dist ==> |best[c]| == dist[c] && IsFirst(m, c, best[c])
  }

  /** The queue holds these walks in order, and its longer ones continue walks before all the shorter. */
  ghost predicate QueueOrder(q: seq<Item>, best: map<Cell, string>) {
    && (forall i :: 0 <= i < |q| ==> q[i].cell in best && q[i].path == best[q[i].cell])
    && (forall i, j :: 0 <= i < j < |q| && |q[i].path| == |q[j].path| ==> Before(q[i].path, q[j].path))
    && (forall i, j :: 0 <= i < |q| && 0 <= j < |q| && |q[j].path| == |q[i].path| + 1 ==>
          Before(q[j].path[..|q[i].path|], q[i].path))
  }

  /** p continues a walk before `front`, or `front` itself with a key below `most`. */
  ghost predicate Continues(p: string, front: string, most: nat) {
    && |p| == |front| + 1
    && (Before(p[..|front|], front) || (p[..|front|] == front && Rank(p[|front|]) < most))
  }

  /** The cell being expanded comes before the rest of the queue; its keys below `most` have been tried. */
  ghost predicate CurOrder(q: seq<Item>, best: map<Cell, string>, cur: Item, most: nat) {
    && cur.cell in best && cur.path == best[cur.cell]
    && (forall i :: 0 <= i < |q| && |q[i].path| == |cur.path| ==> Before(cur.path, q[i].path))
    && (forall i :: 0 <= i < |q| && |q[i].path| == |cur.path| + 1 ==> Continues(q[i].path, cur.path, most))
  }

  ghost predicate InOrder(m: Maze, q: seq<Item>, dist: map<Cell, nat>, best: map<Cell, string>, cur: Item, most: nat)
    requires Rectangular(m)
  {
    BestInv(m, dist, best) && QueueOrder(q, best) && CurOrder(q, best, cur, most)
  }

  /** Every walk as long as the distance being explored ends in a known cell. */
  lemma {:induction false} FrontIsKnown(m: Maze, visited: seq<Cell>, dist: map<Cell, nat>, done: set<Cell>, u: string)
    requires Rectangular(m) && VisitedInv(m, visited, dist) && DoneInv(m, dist, done, |u|) && LegalWalk(m, m.start, u)
    ensures CellOf(m, u) in dist && dist[CellOf(m, u)] <= |u|
  {
    if u != [] {
      var n := |u| - 1;
      LegalPrefix(m, m.start, u, n);
      WalkBound(m, visited, dist, done, |u|, u[..n]);
      assert Walkable(m, Follow(m.start, u[..|u|])) && u[..|u|] == u;
      assert IsMove(u[n]) && CellOf(m, u) == Step(CellOf(m, u[..n]), u[n]);
    }
  }

  /** Among the walks as long as cur's, those to unfinished cells do not come before it. */
  lemma {:induction false} CurIsFirst(m: Maze, q: seq<Item>, visited: seq<Cell>, dist: map<Cell, nat>,
                                      done: set<Cell>, best: map<Cell, string>,
                                      cur: Item, most: nat, u: string)
    requires Rectangular(m) && Expanding(m, q, visited, dist, done, cur) && InOrder(m, q, dist, best, cur, most)
    requires LegalWalk(m, m.start, u) && |u| == |cur.path| && CellOf(m, u) !in done
    ensures cur.path == u || Before(cur.path, u)
  {
    var d := CellOf(m, u);
    hide LegalWalk, CellOf, QueueInv, Before, Continues, ItemOk;
    FrontIsKnown(m, visited, dist, done, u);
    assert |best[d]| == |u|;
    assert best[d] == u || Before(best[d], u);
    if d != cur.cell {
      var i :| 0 <= i < |q| && q[i].cell == d;
      assert q[i].path == best[d] && Before(cur.path, q[i].path);
      if best[d] != u {
        BeforeTrans(cur.path, best[d], u);
      }
    }
  }

  /** A walk's last move. */
  lemma {:induction false} LastMove(m: Maze, w: string)
    requires Rectangular(m) && LegalWalk(m, m.start, w) && w != []
    ensures var u, move := w[..|w| - 1], w[|w| - 1];
            && LegalWalk(m, m.start, u) && IsMove(move) && w == u + [move]
            && CellOf(m, w) == Step(CellOf(m, u), move)
  {
    LegalPrefix(m, m.start, w, |w| - 1);
  }

  lemma {:induction false} OneWay(c: Cell, a: char, b: char)
    requires IsMove(a) && IsMove(b) && Step(c, a) == Step(c, b)
    ensures a == b
  {
  }

  lemma {:induction false} BeforeOneMore(a: string, b: string, x: char, y: char)
    requires Before(a, b)
    ensures Before(a + [x], b + [y])
  {
    assert (a + [x])[..|a|] == a && (b + [y])[..|b|] == b;
  }

  /** A cell that is discovered now was not reached by an earlier walk of that length. */
  lemma {:induction false} NewIsFirst(m: Maze, q: seq<Item>, visited: seq<Cell>, dist: map<Cell, nat>,
                                      done: set<Cell>, best: map<Cell, string>,
                                      cur: Item, move: char)
    requires Rectangular(m) && Expanding(m, q, visited, dist, done, cur) && InOrder(m, q, dist, best, cur, Rank(move))
    requires IsMove(move)
    requires var c := Step(cur.cell, move); Walkable(m, c) && c !in dist
    ensures IsFirst(m, Step(cur.cell, move), cur.path + [move])
  {
    var c, p := Step(cur.cell, move), cur.path + [move];
    assert CellOf(m, cur.path) == cur.cell && VisitedInv(m, visited, dist) && DoneInv(m, dist, done, |cur.path|);
    assert done <= dist.Keys;
    hide InOrder, Expanding, Before, LegalWalk, CellOf, Step, Walkable, IsMove, VisitedInv, DoneInv, Rank;
    forall w | LegalWalk(m, m.start, w) && CellOf(m, w) == c && |w| == |p| ensures p == w || Before(p, w) {
      LastMove(m, w);
      var u, last := w[..|w| - 1], w[|w| - 1];
      NotFromDone(m, visited, dist, done, |cur.path|, CellOf(m, u), last);
      CurIsFirst(m, q, visited, dist, done, best, cur, Rank(move), u);
      if u == cur.path {
        OneWay(cur.cell, move, last);
      } else {
        BeforeOneMore(cur.path, u, move, last);
      }
    }
  }

  /** All neighbours of a finished cell are known. */
  lemma {:induction false} NotFromDone(m: Maze, visited: seq<Cell>, dist: map<Cell, nat>, done: set<Cell>,
                                       k: nat, x: Cell, move: char)
    requires Rectangular(m) && VisitedInv(m, visited, dist) && DoneInv(m, dist, done, k) && done <= dist.Keys
    requires IsMove(move) && Walkable(m, Step(x, move)) && Step(x, move) !in dist
    ensures x !in done
  {
  }

  lemma {:induction false} BestNext(m: Maze, dist: map<Cell, nat>, best: map<Cell, string>, c: Cell, p: string)
    requires Rectangular(m) && BestInv(m, dist, best) && c !in dist && IsFirst(m, c, p)
    ensures BestInv(m, dist[c := |p|], best[c := p])
  {
    hide IsFirst;
  }

  lemma {:induction false} QueueOrderNext(q: seq<Item>, best: map<Cell, string>, cur: Item, move: char, c: Cell)
    requires QueueOrder(q, best) && CurOrder(q, best, cur, Rank(move)) && Behind(q, cur) && c !in best
    ensures var p := cur.path + [move];
            QueueOrder(q + [Item(c, p)], best[c := p]) && CurOrder(q + [Item(c, p)], best[c := p], cur, Rank(move) + 1)
  {
    var p, k := cur.path + [move], |cur.path|;
    var q' := q + [Item(c, p)];
    assert p[..k] == cur.path;
    forall i | 0 <= i < |q| && |q[i].path| == k + 1 ensures Before(q[i].path, p) {
      assert Continues(q[i].path, cur.path, Rank(move));
    }
    hide Before;
  }

  lemma {:induction false} Ordered(m: Maze, q: seq<Item>, visited: seq<Cell>, dist: map<Cell, nat>,
                                   done: set<Cell>, best: map<Cell, string>,
                                   cur: Item, move: char)
    requires Rectangular(m) && Expanding(m, q, visited, dist, done, cur) && InOrder(m, q, dist, best, cur, Rank(move))
    requires IsMove(move)
    requires var c := Step(cur.cell, move); Walkable(m, c) && c !in dist
    ensures var c, p := Step(cur.cell, move), cur.path + [move];
            InOrder(m, q + [Item(c, p)], dist[c := |p|], best[c := p], cur, Rank(move) + 1)
  {
    var c, p := Step(cur.cell, move), cur.path + [move];
    NewIsFirst(m, q, visited, dist, done, best, cur, move);
    hide QueueInv, VisitedInv, DoneInv, WaitInv, ItemOk, IsFirst, QueueOrder, CurOrder, Step, Walkable;
    BestNext(m, dist, best, c, p);
    QueueOrderNext(q, best, cur, move, c);
  }

  lemma {:induction false} OrderedAnyway(m: Maze, q: seq<Item>, dist: map<Cell, nat>, best: map<Cell, string>,
                                         cur: Item, most: nat)
    requires Rectangular(m) && InOrder(m, q, dist, best, cur, most)
    ensures InOrder(m, q, dist, best, cur, most + 1)
  {
    hide Before, BestInv;
  }

  lemma {:induction false} PoppedOrder(m: Maze, q: seq<Item>, dist: map<Cell, nat>, best: map<Cell, string>)
    requires Rectangular(m) && BestInv(m, dist, best) && QueueOrder(q, best) && q != []
    ensures InOrder(m, q[1..], dist, best, q[0], 0)
  {
    hide Before, BestInv;
    var cur, rest := q[0], q[1..];
    assert forall i :: 0 <= i < |rest| ==> rest[i] == q[i + 1];
  }

  /** The keys below `most` have been tried on the cell being expanded. */
  ghost predicate Trying(m: Maze, q: seq<Item>, visited: seq<Cell>, dist: map<Cell, nat>, done: set<Cell>,
                         best: map<Cell, string>, cur: Item, most: nat) {
    && WalledMaze(m) && Expanding(m, q, visited, dist, done, cur)
    && InOrder(m, q, dist, best, cur, most) && Tried(m, dist, cur, most)
  }

  /** One of the four tests of 3-3.py:106-117. */
  method TryEnqueue(m: Maze, queue: seq<Item>, visited: seq<Cell>, ghost dist: map<Cell, nat>, ghost done: set<Cell>,
                    ghost best: map<Cell, string>, cur: Item, move: char)
    returns (queue': seq<Item>, visited': seq<Cell>, ghost dist': map<Cell, nat>, ghost best': map<Cell, string>)
    requires IsMove(move) && Trying(m, queue, visited, dist, done, best, cur, Rank(move))
    ensures Trying(m, queue', visited', dist', done, best', cur, Rank(move) + 1)
  {
    hide *;
    var c, p := Step(cur.cell, move), cur.path + [move];
    TryingFacts(m, queue, visited, dist, done, best, cur, move);
    if IsOpenAt(m, c) && c !in visited {
      KeyTaken(m, queue, visited, dist, done, best, cur, move);
      return queue + [Item(c, p)], visited + [c], dist[c := |p|], best[c := p];
    }
    KeyPassed(m, queue, visited, dist, done, best, cur, move);
    return queue, visited, dist, best;
  }

  /** `maze[y][x] in ['.', 'E']`. */
  predicate IsOpenAt(m: Maze, c: Cell)
    requires Rectangular(m) && Inside(m, c)
  {
    m.rows[c.0][c.1] == '.' || m.rows[c.0][c.1] == 'E'
  }

  /** The neighbour lies inside the maze. */
  lemma {:induction false} TryingFacts(m: Maze, q: seq<Item>, visited: seq<Cell>, dist: map<Cell, nat>,
                                       done: set<Cell>, best: map<Cell, string>, cur: Item, move: char)
    requires Trying(m, q, visited, dist, done, best, cur, Rank(move)) && IsMove(move)
    ensures Rectangular(m) && Inside(m, Step(cur.cell, move))
    ensures IsOpenAt(m, Step(cur.cell, move)) <==> IsOpen(m, Step(cur.cell, move))
  {
    ExpandingFacts(m, q, visited, dist, done, cur, cur.cell);
    hide Expanding, InOrder, Tried;
  }

  lemma {:induction false} KeyTaken(m: Maze, q: seq<Item>, visited: seq<Cell>, dist: map<Cell, nat>,
                                    done: set<Cell>, best: map<Cell, string>, cur: Item, move: char)
    requires Trying(m, q, visited, dist, done, best, cur, Rank(move)) && IsMove(move) && Rectangular(m)
    requires var c := Step(cur.cell, move); IsOpen(m, c) && c !in visited
    ensures var c, p := Step(cur.cell, move), cur.path + [move];
            Trying(m, q + [Item(c, p)], visited + [c], dist[c := |p|], done, best[c := p], cur, Rank(move) + 1)
  {
    var c := Step(cur.cell, move);
    ExpandingFacts(m, q, visited, dist, done, cur, c);
    hide Expanding, WalledMaze, InOrder, Tried, Rank, Step;
    Enqueued(m, q, visited, dist, done, cur, move);
    Ordered(m, q, visited, dist, done, best, cur, move);
    TriedNext(m, dist, dist[c := |cur.path| + 1], cur, move);
  }

  lemma {:induction false} KeyPassed(m: Maze, q: seq<Item>, visited: seq<Cell>, dist: map<Cell, nat>,
                                     done: set<Cell>, best: map<Cell, string>, cur: Item, move: char)
    requires Trying(m, q, visited, dist, done, best, cur, Rank(move)) && IsMove(move) && Rectangular(m)
    requires var c := Step(cur.cell, move); !IsOpen(m, c) || c in visited
    ensures Trying(m, q, visited, dist, done, best, cur, Rank(move) + 1)
  {
    ExpandingFacts(m, q, visited, dist, done, cur, Step(cur.cell, move));
    hide Expanding, WalledMaze, InOrder, Tried, Rank, Step;
    OrderedAnyway(m, q, dist, best, cur, Rank(move));
    TriedNext(m, dist, dist, cur, move);
  }

  // ----- the loop -----

  ghost predicate LoopInv(m: Maze, q: seq<Item>, visited: seq<Cell>, dist: map<Cell, nat>, done: set<Cell>, d: nat)
    requires Rectangular(m)
  {
    && QueueInv(m, q, dist, done) && VisitedInv(m, visited, dist) && DoneInv(m, dist, done, d)
    && WaitInv(q, dist, done, {}) && done <= dist.Keys && (q != [] ==> d <= |q[0].path|)
  }

  lemma {:induction false} Started(m: Maze)
    requires WalledMaze(m)
    ensures LoopInv(m, [Item(m.start, "")], [m.start], map[m.start := 0], {}, 0)
  {
    var q := [Item(m.start, "")];
    assert q[0].cell == m.start;
    assert LegalWalk(m, m.start, "");
  }

  /** The front of the queue is a nearest unsettled cell. */
  lemma {:induction false} PoppedDone(m: Maze, q: seq<Item>, dist: map<Cell, nat>, done: set<Cell>, d: nat)
    requires Rectangular(m) && QueueInv(m, q, dist, done) && DoneInv(m, dist, done, d) && WaitInv(q, dist, done, {})
    requires q != [] && d <= |q[0].path|
    ensures DoneInv(m, dist, done, |q[0].path|)
  {
    var k := |q[0].path|;
    forall c | c in dist && c !in done ensures k <= dist[c] <= k + 1 {
      var i :| 0 <= i < |q| && q[i].cell == c;
      assert ItemOk(m, dist, q[i]);
    }
  }

  lemma {:induction false} PoppedRest(m: Maze, q: seq<Item>, dist: map<Cell, nat>, done: set<Cell>)
    requires Rectangular(m) && QueueInv(m, q, dist, done) && q != []
    ensures QueueInv(m, q[1..], dist, done) && Behind(q[1..], q[0])
    ensures ItemOk(m, dist, q[0]) && q[0].cell !in done
  {
    hide ItemOk;
  }

  lemma {:induction false} PoppedWait(q: seq<Item>, dist: map<Cell, nat>, done: set<Cell>)
    requires WaitInv(q, dist, done, {}) && q != []
    ensures WaitInv(q[1..], dist, done, {q[0].cell})
  {
    var rest := q[1..];
    forall c | c in dist && c !in done && c != q[0].cell ensures exists i :: 0 <= i < |rest| && rest[i].cell == c {
      var i :| 0 <= i < |q| && q[i].cell == c;
      assert rest[i - 1].cell == c;
    }
  }

  lemma {:induction false} Popped(m: Maze, q: seq<Item>, visited: seq<Cell>, dist: map<Cell, nat>,
                                  done: set<Cell>, d: nat)
    requires Rectangular(m) && LoopInv(m, q, visited, dist, done, d) && q != []
    ensures Expanding(m, q[1..], visited, dist, done, q[0])
    ensures VisitedInv(m, visited, dist) && DoneInv(m, dist, done, |q[0].path|)
    ensures LegalWalk(m, m.start, q[0].path) && CellOf(m, q[0].path) == q[0].cell && q[0].cell in dist && q[0].cell !in done
  {
    hide QueueInv, VisitedInv, DoneInv, WaitInv, Behind;
    PoppedDone(m, q, dist, done, d);
    PoppedRest(m, q, dist, done);
    PoppedWait(q, dist, done);
  }

  /** Once its neighbours are known, the popped cell is settled. */
  lemma {:induction false} Expanded(m: Maze, q: seq<Item>, visited: seq<Cell>, dist: map<Cell, nat>,
                                    done: set<Cell>, cur: Item)
    requires Rectangular(m) && Expanding(m, q, visited, dist, done, cur) && Settled(m, dist, cur.cell)
    ensures LoopInv(m, q, visited, dist, done + {cur.cell}, |cur.path|)
  {
    hide VisitedInv, Settled;
  }

  lemma {:induction false} TryingStart(m: Maze, q: seq<Item>, visited: seq<Cell>, dist: map<Cell, nat>,
                                       done: set<Cell>, best: map<Cell, string>, cur: Item)
    requires WalledMaze(m) && Expanding(m, q, visited, dist, done, cur) && InOrder(m, q, dist, best, cur, 0)
    ensures Trying(m, q, visited, dist, done, best, cur, 0)
  {
    hide Expanding, InOrder, WalledMaze;
  }

  /** All four keys have been tried. */
  lemma {:induction false} TryingEnd(m: Maze, q: seq<Item>, visited: seq<Cell>, dist: map<Cell, nat>,
                                     done: set<Cell>, best: map<Cell, string>, cur: Item)
    requires Trying(m, q, visited, dist, done, best, cur, 4) && Inside(m, cur.cell) && At(m, cur.cell) != 'E'
    ensures LoopInv(m, q, visited, dist, done + {cur.cell}, |cur.path|)
    ensures BestInv(m, dist, best) && QueueOrder(q, best)
  {
    assert BestInv(m, dist, best) && QueueOrder(q, best);
    ExpandingFacts(m, q, visited, dist, done, cur, cur.cell);
    hide Expanding, WalledMaze, InOrder, LoopInv, BestInv, QueueOrder, Step, IsOpen;
    forall move | IsMove(move) && IsOpen(m, Step(cur.cell, move))
      ensures Step(cur.cell, move) in dist && dist[Step(cur.cell, move)] <= dist[cur.cell] + 1
    {
      assert Rank(move) < 4;
    }
    Expanded(m, q, visited, dist, done, cur);
  }

  /** The body of the loop for a cell that is no exit. */
  method Turn(m: Maze, queue: seq<Item>, visited: seq<Cell>, ghost dist: map<Cell, nat>, ghost done: set<Cell>,
              ghost best: map<Cell, string>, cur: Item)
    returns (queue': seq<Item>, visited': seq<Cell>, ghost dist': map<Cell, nat>, ghost best': map<Cell, string>)
    requires WalledMaze(m) && Expanding(m, queue, visited, dist, done, cur)
    requires Inside(m, cur.cell) && At(m, cur.cell) != 'E' && InOrder(m, queue, dist, best, cur, 0)
    ensures LoopInv(m, queue', visited', dist', done + {cur.cell}, |cur.path|)
    ensures BestInv(m, dist', best') && QueueOrder(queue', best')
  {
    hide *;
    FourKeys();
    TryingStart(m, queue, visited, dist, done, best, cur);
    queue', visited', dist', best' := TryEnqueue(m, queue, visited, dist, done, best, cur, 'W');
    queue', visited', dist', best' := TryEnqueue(m, queue', visited', dist', done, best', cur, 'S');
    queue', visited', dist', best' := TryEnqueue(m, queue', visited', dist', done, best', cur, 'A');
    queue', visited', dist', best' := TryEnqueue(m, queue', visited', dist', done, best', cur, 'D');
    TryingEnd(m, queue', visited', dist', done, best', cur);
  }

  /** A legal walk from the start to an exit. */
  ghost predicate LeadsOut(m: Maze, p: string)
    requires Rectangular(m)
  {
    LegalWalk(m, m.start, p) && Inside(m, CellOf(m, p)) && At(m, CellOf(m, p)) == 'E'
  }

  /** `p` leads out, no walk that does is shorter, and of those as long it is the first in the order of the
      keys W, S, A, D. */
  ghost predicate IsFirstShortest(m: Maze, p: string)
    requires Rectangular(m)
  {
    && LeadsOut(m, p)
    && forall w :: LeadsOut(m, w) ==> |p| <= |w| && (|w| == |p| ==> p == w || Before(p, w))
  }

  lemma {:induction false} PoppedExit(m: Maze, q: seq<Item>, visited: seq<Cell>, dist: map<Cell, nat>,
                                      done: set<Cell>,
                                      best: map<Cell, string>, cur: Item)
    requires Rectangular(m) && Expanding(m, q, visited, dist, done, cur) && InOrder(m, q, dist, best, cur, 0)
    requires Inside(m, cur.cell) && At(m, cur.cell) == 'E'
    ensures IsFirstShortest(m, cur.path) && ExitReachable(m)
  {
    hide InOrder, QueueInv, WaitInv, Before;
    forall w | LeadsOut(m, w) ensures |cur.path| <= |w| && (|w| == |cur.path| ==> cur.path == w || Before(cur.path, w)) {
      FirstExitIsNearest(m, visited, dist, done, |cur.path|, w);
      if |w| == |cur.path| {
        assert CellOf(m, w) !in done;
        CurIsFirst(m, q, visited, dist, done, best, cur, 0, w);
      }
    }
    assert LeadsOut(m, cur.path);
  }

  lemma {:induction false} LoopFacts(m: Maze, q: seq<Item>, visited: seq<Cell>, dist: map<Cell, nat>,
                                     done: set<Cell>, d: nat)
    requires Rectangular(m) && LoopInv(m, q, visited, dist, done, d)
    ensures Distinct(visited) && done <= AllCells(m) && forall c :: c in visited ==> Inside(m, c)
    ensures q == [] ==> !ExitReachable(m)
  {
    if q == [] {
      NothingQueued(m, visited, dist, done, d);
    }
  }

  lemma {:induction false} StartedInOrder(m: Maze)
    requires WalledMaze(m)
    ensures BestInv(m, map[m.start := 0], map[m.start := ""])
    ensures QueueOrder([Item(m.start, "")], map[m.start := ""])
  {
  }

  /** find_path: the walk to an exit that is first among the shortest when an exit is reachable, the empty
      path otherwise. No cell is enqueued twice, so the loop ends. */
  method FindPath(m: Maze) returns (path: string, visited: seq<Cell>)
    requires WalledMaze(m)
    ensures ExitReachable(m) ==> IsFirstShortest(m, path)
    ensures !ExitReachable(m) ==> path == ""
    ensures Distinct(visited) && forall c :: c in visited ==> Inside(m, c)
  {
    hide LoopInv, ExitReachable, IsFirstShortest, Expanding, VisitedInv, DoneInv, LegalWalk, CellOf, Distinct,
         BestInv, QueueOrder, InOrder;
    Started(m);
    StartedInOrder(m);
    var queue := [Item(m.start, "")];
    visited := [m.start];
    ghost var dist: map<Cell, nat>, done: set<Cell>, d: nat, best := map[m.start := 0], {}, 0, map[m.start := ""];
    path := "";
    while queue != []
      invariant LoopInv(m, queue, visited, dist, done, d) && BestInv(m, dist, best) && QueueOrder(queue, best)
      decreases |AllCells(m) - done|
    {
      var cur := queue[0];
      Popped(m, queue, visited, dist, done, d);
      PoppedOrder(m, queue, dist, best);
      LoopFacts(m, queue, visited, dist, done, d);
      queue := queue[1..];
      ExpandingFacts(m, queue, visited, dist, done, cur, cur.cell);
      if m.rows[cur.cell.0][cur.cell.1] == 'E' {
        PoppedExit(m, queue, visited, dist, done, best, cur);
        return cur.path, visited;
      }
      queue, visited, dist, best := Turn(m, queue, visited, dist, done, best, cur);
      LoopFacts(m, queue, visited, dist, done + {cur.cell}, |cur.path|);
      FewerLeft(AllCells(m), done, done + {cur.cell});
      done, d := done + {cur.cell}, |cur.path|;
    }
    LoopFacts(m, queue, visited, dist, done, d);
  }
}
