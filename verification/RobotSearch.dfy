/** np-lab3/3-4.py: the depth-first search that drives a robot through a maze it has only partly seen. */
module RobotSearch {
  import opened MazeMap
  import opened MazeRecord
  import opened RobotWalk

  /** A stack entry [y, x, path]; x is a column of the client's map. */
  datatype Entry = Entry(y: int, x: int, path: string)

  /** Found: the exit was entered. Returned: the loop ended. IndexError: `q[-1]` on an empty list. */
  datatype Outcome = Found | Returned | IndexError

  /** The other side of the connection. */
  class MazeServer {
    const maze: Maze
    const view: View
    var robot: Cell

    constructor (m: Maze, v: View)
      ensures maze == m && view == v && robot == m.start
    {
      maze, view, robot := m, v, m.start;
    }

    /** `send_move`: only legal walks are ever sent. */
    method Send(moves: string) returns (lines: seq<(int, string)>)
      requires ValidMaze(maze) && LegalWalk(maze, robot, moves)
      modifies this`robot
      ensures robot == Follow(old(robot), moves) && Walkable(maze, robot)
      ensures lines == Window(maze, view, robot)
    {
      ghost var far := LegalEnd(maze, robot, moves);
      robot := Follow(robot, moves);
      lines := Window(maze, view, robot);
    }
  }

  // ----- get_reverse_path -----

  lemma {:induction false} UndoStep(r: string, p: string, i: nat)
    requires 0 < i <= |p|
    ensures r + Undo(p[..i]) == (r + [Inverse(p[i - 1])]) + Undo(p[..i - 1])
  {
    assert p[..i][..i - 1] == p[..i - 1];
  }

  /** The moves back from the end of `path` to where the entry `parent` was pushed. */
  method GetReversePath(path: string, parent: string) returns (reverse: string)
    requires IsMoves(path) && 1 <= |parent| <= |path| + 1
    ensures reverse == Undo(path[|parent| - 1..])
  {
    var toParent := path[|parent| - 1..];
    reverse := "";
    var i := |toParent|;
    assert toParent[..i] == toParent;
    while i > 0
      invariant 0 <= i <= |toParent|
      invariant reverse + Undo(toParent[..i]) == Undo(toParent)
    {
      var command := toParent[i - 1];
      assert IsMove(command);
      UndoStep(reverse, toParent, i);
      if command == 'W' {
        reverse := reverse + "S";
      }
      if command == 'S' {
        reverse := reverse + "W";
      }
      if command == 'D' {
        reverse := reverse + "A";
      }
      if command == 'A' {
        reverse := reverse + "D";
      }
      i := i - 1;
    }
  }

  // ----- invariants -----

  function Parent(p: string): string {
    if p == [] then [] else p[..|p| - 1]
  }

  /** The entry is a legal walk to a visited cell, pushed from somewhere on the path `at`. */
  ghost predicate EntryOk(m: Maze, c0: int, seen: set<Cell>, at: string, e: Entry)
    requires Rectangular(m)
  {
    && LegalWalk(m, m.start, e.path) && CellOf(m, e.path) == (e.y, e.x + c0)
    && (e.y, e.x + c0) in seen && Parent(e.path) <= at
  }

  /** The walks to where the entries were pushed form a chain of prefixes. */
  ghost predicate Chain(q: seq<Entry>) {
    forall i, j :: 0 <= i < j < |q| ==> Parent(q[i].path) <= Parent(q[j].path)
  }

  ghost predicate StackInv(m: Maze, c0: int, seen: set<Cell>, at: string, q: seq<Entry>)
    requires Rectangular(m)
  {
    && (forall i :: 0 <= i < |q| ==> EntryOk(m, c0, seen, at, q[i]))
    && Chain(q)
    && (forall i :: 0 <= i < |q| && q[i].path == [] ==> |q| == 1)
  }

  ghost predicate OnStack(c0: int, q: seq<Entry>, c: Cell) {
    exists i :: 0 <= i < |q| && (q[i].y, q[i].x + c0) == c
  }

  /** The visited cells; each is finished, or waiting on the stack, or the one being expanded. */
  ghost predicate SeenInv(m: Maze, seen: set<Cell>, c0: int, q: seq<Entry>, cur: set<Cell>)
    requires Rectangular(m)
  {
    && m.start in seen
    && forall c :: c in seen ==> Walkable(m, c) && (Done(m, seen, c) || OnStack(c0, q, c) || c in cur)
  }

  ghost predicate VisitInv(visit: seq<Cell>, c0: int, seen: set<Cell>) {
    forall y, x :: (y, x) in visit <==> (y, x + c0) in seen
  }

  /** The robot has been on every cell of the legal path `at`. */
  ghost predicate BeenInv(m: Maze, been: set<Cell>, at: string)
    requires Rectangular(m)
  {
    LegalWalk(m, m.start, at) && forall k :: 0 <= k <= |at| ==> CellOf(m, at[..k]) in been
  }

  // ----- what the map tells about a cell in view -----

  lemma {:induction false} KnownTells(m: Maze, v: View, known: seq<string>, w: nat, c0: int, been: set<Cell>,
                                      robot: Cell, c: Cell)
    requires MapInv(m, v, known, w, c0, been) && robot in been && Inside(m, c) && InView(v, robot, c)
    ensures 0 <= c.0 < |known| && 0 <= c.1 - c0 < |known[c.0]|
    ensures known[c.0][c.1 - c0] == 'E' <==> At(m, c) == 'E'
    ensures c != m.start ==> known[c.0][c.1 - c0] == At(m, c)
  {
    assert Recorded(m, v, known, w, c0, robot);
    assert Seen(known, w, c0, c);
  }

  /** The robot stands on c or next to it. */
  ghost predicate Beside(m: Maze, robot: Cell, c: Cell) {
    c == robot || exists d :: IsMove(d) && c == Step(robot, d)
  }

  /** Next to a cell that is next to the robot, or under it, everything is in view. */
  lemma {:induction false} NeighbourInView(m: Maze, v: View, robot: Cell, c: Cell, move: char)
    requires ValidMaze(m) && ValidView(v) && Walkable(m, c) && IsMove(move)
    requires Beside(m, robot, c)
    ensures Inside(m, Step(c, move)) && InView(v, robot, Step(c, move)) && InView(v, robot, c)
  {
    assert !OnBorder(m, c);
  }

  // ----- pushing the open neighbours -----

  /** One of the four tests of 3-4.py:102-120. */
  method TryPush(known: seq<string>, q: seq<Entry>, visit: seq<Cell>, y: int, x: int, path: string)
    returns (q': seq<Entry>, visit': seq<Cell>, pushed: bool)
    requires 0 <= y < |known| && 0 <= x < |known[y]|
    ensures pushed <==> (known[y][x] == '.' || known[y][x] == 'E') && (y, x) !in visit
    ensures q' == if pushed then q + [Entry(y, x, path)] else q
    ensures visit' == if pushed then visit + [(y, x)] else visit
  {
    q', visit', pushed := q, visit, false;
    if (known[y][x] == '.' || known[y][x] == 'E') && (y, x) !in visit {
      visit' := visit' + [(y, x)];
      q' := q' + [Entry(y, x, path)];
      pushed := true;
    }
  }

  lemma {:induction false} DoneGrows(m: Maze, seen: set<Cell>, seen': set<Cell>, c: Cell)
    requires Rectangular(m) && seen <= seen' && Done(m, seen, c)
    ensures Done(m, seen', c)
  {
  }

  lemma {:induction false} PushStackInv(m: Maze, c0: int, seen: set<Cell>, q: seq<Entry>, path: string,
                                        move: char, e: Entry)
    requires Rectangular(m) && StackInv(m, c0, seen, path, q) && (forall i :: 0 <= i < |q| ==> q[i].path != [])
    requires LegalWalk(m, m.start, path) && IsMove(move) && Walkable(m, Step(CellOf(m, path), move))
    requires e == Entry(Step(CellOf(m, path), move).0, Step(CellOf(m, path), move).1 - c0, path + [move])
    ensures StackInv(m, c0, seen + {Step(CellOf(m, path), move)}, path, q + [e])
    ensures forall i :: 0 <= i < |q + [e]| ==> (q + [e])[i].path != []
  {
    LegalStep(m, m.start, path, move);
    assert Parent(e.path) == path;
    var q' := q + [e];
    forall i, j | 0 <= i < j < |q'| ensures Parent(q'[i].path) <= Parent(q'[j].path) {
      if j == |q| {
        assert EntryOk(m, c0, seen, path, q[i]);
      }
    }
    forall i | 0 <= i < |q'| ensures EntryOk(m, c0, seen + {Step(CellOf(m, path), move)}, path, q'[i]) {
      if i < |q| {
        assert EntryOk(m, c0, seen, path, q[i]);
      }
    }
  }

  lemma {:induction false} PushSeenInv(m: Maze, seen: set<Cell>, c0: int, q: seq<Entry>, cur: set<Cell>, e: Entry)
    requires Rectangular(m) && SeenInv(m, seen, c0, q, cur) && Walkable(m, (e.y, e.x + c0))
    ensures SeenInv(m, seen + {(e.y, e.x + c0)}, c0, q + [e], cur)
  {
    var seen', q' := seen + {(e.y, e.x + c0)}, q + [e];
    forall c | c in seen' ensures Walkable(m, c) && (Done(m, seen', c) || OnStack(c0, q', c) || c in cur) {
      if c == (e.y, e.x + c0) {
        assert q'[|q|] == e;
      } else if OnStack(c0, q, c) {
        var i :| 0 <= i < |q| && (q[i].y, q[i].x + c0) == c;
        assert q'[i] == q[i];
      } else if Done(m, seen, c) {
        DoneGrows(m, seen, seen', c);
      }
    }
  }

  lemma {:induction false} PushVisitInv(visit: seq<Cell>, c0: int, seen: set<Cell>, y: int, x: int)
    requires VisitInv(visit, c0, seen)
    ensures VisitInv(visit + [(y, x)], c0, seen + {(y, x + c0)})
  {
  }

  /** While the popped entry e is being expanded: all is well except that its cell is unfinished. */
  ghost predicate Expanding(m: Maze, c0: int, q: seq<Entry>, visit: seq<Cell>, seen: set<Cell>, e: Entry)
    requires Rectangular(m)
  {
    && LegalWalk(m, m.start, e.path) && CellOf(m, e.path) == (e.y, e.x + c0) && Walkable(m, (e.y, e.x + c0))
    && StackInv(m, c0, seen, e.path, q) && (forall i :: 0 <= i < |q| ==> q[i].path != [])
    && SeenInv(m, seen, c0, q, {(e.y, e.x + c0)}) && VisitInv(visit, c0, seen)
  }

  lemma {:induction false} PushedExpanding(m: Maze, c0: int, q: seq<Entry>, visit: seq<Cell>, seen: set<Cell>,
                                           e: Entry, move: char)
    requires Rectangular(m) && Expanding(m, c0, q, visit, seen, e) && IsMove(move)
    requires Walkable(m, Step((e.y, e.x + c0), move))
    ensures var c := Step((e.y, e.x + c0), move);
            Expanding(m, c0, q + [Entry(c.0, c.1 - c0, e.path + [move])], visit + [(c.0, c.1 - c0)], seen + {c}, e)
  {
    var c := Step((e.y, e.x + c0), move);
    var n := Entry(c.0, c.1 - c0, e.path + [move]);
    hide StackInv, SeenInv, VisitInv, LegalWalk, Walkable, CellOf, Step;
    PushStackInv(m, c0, seen, q, e.path, move, n);
    PushSeenInv(m, seen, c0, q, {(e.y, e.x + c0)}, n);
    PushVisitInv(visit, c0, seen, c.0, c.1 - c0);
  }

  /** An open cell one move away. */
  ghost predicate OpenBeside(m: Maze, cell: Cell, c: Cell)
    requires Rectangular(m)
  {
    IsOpen(m, c) && exists move :: IsMove(move) && c == Step(cell, move)
  }

  /** Only open neighbours of the cell that were not visited have been pushed. */
  ghost predicate OnlyPushes(m: Maze, c0: int, cell: Cell, q: seq<Entry>, seen: set<Cell>, q': seq<Entry>, seen': set<Cell>)
    requires Rectangular(m)
  {
    && q <= q' && seen <= seen' && (forall c :: c in seen' && c !in seen ==> OpenBeside(m, cell, c))
    && forall i :: |q| <= i < |q'| ==> (q'[i].y, q'[i].x + c0) in seen' && (q'[i].y, q'[i].x + c0) !in seen
  }

  lemma {:induction false} OnlyPushesTwice(m: Maze, c0: int, cell: Cell, q: seq<Entry>, seen: set<Cell>,
                                           q1: seq<Entry>, seen1: set<Cell>,
                                           q2: seq<Entry>, seen2: set<Cell>)
    requires Rectangular(m) && OnlyPushes(m, c0, cell, q, seen, q1, seen1) && OnlyPushes(m, c0, cell, q1, seen1, q2, seen2)
    ensures OnlyPushes(m, c0, cell, q, seen, q2, seen2)
  {
    hide OpenBeside;
    forall i | |q| <= i < |q2| ensures (q2[i].y, q2[i].x + c0) in seen2 && (q2[i].y, q2[i].x + c0) !in seen {
      assert i < |q1| ==> q2[i] == q1[i];
    }
  }

  method PushNeighbour(ghost m: Maze, ghost v: View, known: seq<string>, ghost w: nat, ghost c0: int,
                       ghost been: set<Cell>, ghost robot: Cell,
                       q: seq<Entry>, visit: seq<Cell>, ghost seen: set<Cell>, e: Entry, move: char)
    returns (q': seq<Entry>, visit': seq<Cell>, pushed: bool, ghost seen': set<Cell>)
    requires MapInv(m, v, known, w, c0, been) && robot in been && Beside(m, robot, (e.y, e.x + c0))
    requires Expanding(m, c0, q, visit, seen, e) && IsMove(move)
    ensures Expanding(m, c0, q', visit', seen', e)
    ensures var c := Step((e.y, e.x + c0), move);
            && (IsOpen(m, c) ==> c in seen') && (pushed <==> c !in seen && c in seen')
            && seen' == if pushed then seen + {c} else seen
    ensures if pushed then q' == q + [Entry(Step((e.y, e.x), move).0, Step((e.y, e.x), move).1, e.path + [move])] else q' == q
    ensures Rectangular(m) && OnlyPushes(m, c0, (e.y, e.x + c0), q, seen, q', seen')
  {
    hide MapInv, Expanding, Beside, IsOpen, Walkable;
    ghost var c := Step((e.y, e.x + c0), move);
    var (y, x) := Step((e.y, e.x), move);
    assert c == (y, x + c0);
    TellsPush(m, v, known, w, c0, been, robot, q, visit, seen, e, move);
    q', visit', pushed := TryPush(known, q, visit, y, x, e.path + [move]);
    assert Parent(e.path + [move]) == e.path;
    seen' := seen;
    if pushed {
      PushedExpanding(m, c0, q, visit, seen, e, move);
      seen' := seen + {c};
    }
  }

  /** The test on the map says exactly that the neighbour is open and new. */
  lemma {:induction false} TellsPush(m: Maze, v: View, known: seq<string>, w: nat, c0: int, been: set<Cell>,
                                     robot: Cell,
                                     q: seq<Entry>, visit: seq<Cell>, seen: set<Cell>, e: Entry, move: char)
    requires MapInv(m, v, known, w, c0, been) && robot in been && Beside(m, robot, (e.y, e.x + c0))
    requires Expanding(m, c0, q, visit, seen, e) && IsMove(move)
    ensures Rectangular(m)
    ensures var c := Step((e.y, e.x + c0), move);
            var (y, x) := (c.0, c.1 - c0);
            && 0 <= y < |known| && 0 <= x < |known[y]|
            && ((known[y][x] == '.' || known[y][x] == 'E') && (y, x) !in visit <==> IsOpen(m, c) && c !in seen)
            && (IsOpen(m, c) ==> Walkable(m, c))
  {
    hide MapInv, Expanding, Beside, ValidMaze, ValidView;
    var c := Step((e.y, e.x + c0), move);
    MapFacts(m, v, known, w, c0, been);
    ExpandingFacts(m, c0, q, visit, seen, e, c);
    NeighbourInView(m, v, robot, (e.y, e.x + c0), move);
    KnownTells(m, v, known, w, c0, been, robot, c);
  }

  lemma {:induction false} MapFacts(m: Maze, v: View, known: seq<string>, w: nat, c0: int, been: set<Cell>)
    requires MapInv(m, v, known, w, c0, been)
    ensures ValidMaze(m) && ValidView(v) && Rectangular(m)
  {
  }

  lemma {:induction false} ExpandingFacts(m: Maze, c0: int, q: seq<Entry>, visit: seq<Cell>, seen: set<Cell>,
                                          e: Entry, c: Cell)
    requires Rectangular(m) && Expanding(m, c0, q, visit, seen, e)
    ensures Walkable(m, (e.y, e.x + c0)) && m.start in seen
    ensures (c.0, c.1 - c0) in visit <==> c in seen
  {
    var y, x := c.0, c.1 - c0;
    assert (y, x + c0) == c;
    assert (y, x) in visit <==> (y, x + c0) in seen;
  }

  lemma {:induction false} NonePushed(q: seq<Entry>, path: string)
    ensures PushedInOrder(q, q, path, 0)
  {
  }

  /** The entries pushed on q continue `path` by one move each, in the order W, S, A, D, up to `most`. */
  ghost predicate PushedInOrder(q: seq<Entry>, q': seq<Entry>, path: string, most: nat) {
    && |q| <= |q'|
    && (forall i :: |q| <= i < |q'| ==> |q'[i].path| == |path| + 1 && path <= q'[i].path && Rank(q'[i].path[|path|]) < most)
    && (forall i, j :: |q| <= i < j < |q'| ==> Rank(q'[i].path[|path|]) < Rank(q'[j].path[|path|]))
  }

  lemma {:induction false} PushedNext(q: seq<Entry>, q1: seq<Entry>, q2: seq<Entry>, path: string, move: char,
                                      y: int, x: int)
    requires PushedInOrder(q, q1, path, Rank(move))
    requires q2 == q1 || q2 == q1 + [Entry(y, x, path + [move])]
    ensures PushedInOrder(q, q2, path, Rank(move) + 1)
    ensures |q2| > |q| ==> Parent(q2[|q2| - 1].path) == path
  {
    assert |q2| > |q1| ==> (path + [move])[..|path|] == path;
    if |q2| > |q| && q2 == q1 {
      var last := q2[|q2| - 1].path;
      assert last[..|path|] == path;
    }
  }

  /** While the keys are tried one after the other, from the stack q0 and the visited cells seen0 on: those
      below `most` are done with. */
  ghost predicate Pushing(m: Maze, c0: int, q0: seq<Entry>, seen0: set<Cell>,
                          q: seq<Entry>, visit: seq<Cell>, seen: set<Cell>, e: Entry, most: nat) {
    && Rectangular(m) && Expanding(m, c0, q, visit, seen, e)
    && OnlyPushes(m, c0, (e.y, e.x + c0), q0, seen0, q, seen) && PushedInOrder(q0, q, e.path, most)
    && OpenAreSeen(m, seen, (e.y, e.x + c0), most)
  }

  /** The open neighbours by the keys below `most` have been visited. */
  ghost predicate OpenAreSeen(m: Maze, seen: set<Cell>, c: Cell, most: nat)
    requires Rectangular(m)
  {
    forall move :: IsMove(move) && Rank(move) < most && IsOpen(m, Step(c, move)) ==> Step(c, move) in seen
  }

  lemma {:induction false} OpenAreSeenNext(m: Maze, seen: set<Cell>, seen': set<Cell>, c: Cell, move: char)
    requires Rectangular(m) && OpenAreSeen(m, seen, c, Rank(move)) && IsMove(move) && seen <= seen'
    requires IsOpen(m, Step(c, move)) ==> Step(c, move) in seen'
    ensures OpenAreSeen(m, seen', c, Rank(move) + 1)
  {
    assert forall a :: IsMove(a) && Rank(a) == Rank(move) ==> a == move;
    hide Step, IsOpen, Rank;
  }

  /** One of the four keys. */
  method PushKey(ghost m: Maze, ghost v: View, known: seq<string>, ghost w: nat, ghost c0: int,
                 ghost been: set<Cell>, ghost robot: Cell, ghost q0: seq<Entry>, ghost seen0: set<Cell>,
                 q: seq<Entry>, visit: seq<Cell>, ghost seen: set<Cell>, e: Entry, move: char)
    returns (q': seq<Entry>, visit': seq<Cell>, pushed: bool, ghost seen': set<Cell>)
    requires MapInv(m, v, known, w, c0, been) && robot in been && Beside(m, robot, (e.y, e.x + c0)) && IsMove(move)
    requires Pushing(m, c0, q0, seen0, q, visit, seen, e, Rank(move))
    ensures Pushing(m, c0, q0, seen0, q', visit', seen', e, Rank(move) + 1)
    ensures if pushed then |q'| == |q| + 1 else q' == q && seen' == seen
  {
    hide MapInv, Expanding, Beside, IsOpen, Walkable, Step, OnlyPushes, PushedInOrder, OpenAreSeen, IsMove, Rank;
    q', visit', pushed, seen' := PushNeighbour(m, v, known, w, c0, been, robot, q, visit, seen, e, move);
    OnlyPushesTwice(m, c0, (e.y, e.x + c0), q0, seen0, q, seen, q', seen');
    PushedNext(q0, q, q', e.path, move, Step((e.y, e.x), move).0, Step((e.y, e.x), move).1);
    OpenAreSeenNext(m, seen, seen', (e.y, e.x + c0), move);
  }

  lemma {:induction false} PushingStart(m: Maze, c0: int, q: seq<Entry>, visit: seq<Cell>, seen: set<Cell>, e: Entry)
    requires Rectangular(m) && Expanding(m, c0, q, visit, seen, e)
    ensures Pushing(m, c0, q, seen, q, visit, seen, e, 0)
  {
  }

  /** All four keys have been tried. */
  lemma {:induction false} PushingEnd(m: Maze, c0: int, q0: seq<Entry>, seen0: set<Cell>,
                                      q: seq<Entry>, visit: seq<Cell>, seen: set<Cell>, e: Entry)
    requires Pushing(m, c0, q0, seen0, q, visit, seen, e, 4)
    requires Inside(m, (e.y, e.x + c0)) && At(m, (e.y, e.x + c0)) != 'E'
    ensures Rectangular(m) && Expanding(m, c0, q, visit, seen, e) && Done(m, seen, (e.y, e.x + c0))
    ensures OnlyPushes(m, c0, (e.y, e.x + c0), q0, seen0, q, seen) && PushedInOrder(q0, q, e.path, 4) && seen0 <= seen
    ensures |q| > |q0| ==> seen != seen0 && Parent(q[|q| - 1].path) == e.path
  {
    hide Expanding;
    assert forall move :: IsMove(move) ==> Rank(move) < 4;
    if |q| > |q0| {
      var last := q[|q| - 1];
      assert (last.y, last.x + c0) in seen && (last.y, last.x + c0) !in seen0;
      assert last.path[..|e.path|] == e.path;
    }
  }

  /** The four tests in the order W, S, A, D: afterwards the cell of e is finished. */
  method Expand(ghost m: Maze, ghost v: View, known: seq<string>, ghost w: nat, ghost c0: int,
                ghost been: set<Cell>, ghost robot: Cell,
                q: seq<Entry>, visit: seq<Cell>, ghost seen: set<Cell>, e: Entry)
    returns (q': seq<Entry>, visit': seq<Cell>, deadEnd: bool, ghost seen': set<Cell>)
    requires MapInv(m, v, known, w, c0, been) && robot in been && Beside(m, robot, (e.y, e.x + c0))
    requires Expanding(m, c0, q, visit, seen, e) && Inside(m, (e.y, e.x + c0)) && At(m, (e.y, e.x + c0)) != 'E'
    ensures Expanding(m, c0, q', visit', seen', e) && Done(m, seen', (e.y, e.x + c0))
    ensures seen <= seen' && (deadEnd ==> q' == q && seen' == seen)
    ensures !deadEnd ==> |q'| > |q| && seen' != seen && Parent(q'[|q'| - 1].path) == e.path
    ensures Rectangular(m) && OnlyPushes(m, c0, (e.y, e.x + c0), q, seen, q', seen')
    ensures PushedInOrder(q, q', e.path, 4)
  {
    hide *;
    MapFacts(m, v, known, w, c0, been);
    FourKeys();
    PushingStart(m, c0, q, visit, seen, e);
    var w1, w2, w3, w4;
    q', visit', w1, seen' := PushKey(m, v, known, w, c0, been, robot, q, seen, q, visit, seen, e, 'W');
    q', visit', w2, seen' := PushKey(m, v, known, w, c0, been, robot, q, seen, q', visit', seen', e, 'S');
    q', visit', w3, seen' := PushKey(m, v, known, w, c0, been, robot, q, seen, q', visit', seen', e, 'A');
    q', visit', w4, seen' := PushKey(m, v, known, w, c0, been, robot, q, seen, q', visit', seen', e, 'D');
    deadEnd := !(w1 || w2 || w3 || w4);
    PushingEnd(m, c0, q, seen, q', visit', seen', e);
  }

  // ----- the loop head -----

  ghost predicate SearchInv(m: Maze, c0: int, seen: set<Cell>, at: string, q: seq<Entry>, visit: seq<Cell>)
    requires Rectangular(m)
  {
    StackInv(m, c0, seen, at, q) && SeenInv(m, seen, c0, q, {}) && VisitInv(visit, c0, seen)
  }

  /** The robot stands where the next entry was pushed. */
  ghost predicate InPlace(m: Maze, robot: Cell, at: string, q: seq<Entry>) {
    robot == CellOf(m, at) && (q != [] ==> at == Parent(q[|q| - 1].path))
  }

  /** Popping leaves everything in order but the popped cell, which the robot stands on or next to. */
  lemma {:induction false} Popped(m: Maze, c0: int, seen: set<Cell>, at: string, q: seq<Entry>, visit: seq<Cell>,
                                  robot: Cell)
    requires Rectangular(m) && SearchInv(m, c0, seen, at, q, visit) && q != [] && InPlace(m, robot, at, q)
    ensures var e := q[|q| - 1];
            && Expanding(m, c0, q[..|q| - 1], visit, seen, e)
            && Walkable(m, (e.y, e.x + c0)) && Beside(m, robot, (e.y, e.x + c0))
            && (e.path != [] ==> IsMove(e.path[|e.path| - 1]) && (e.y, e.x + c0) == Step(robot, e.path[|e.path| - 1]))
  {
    var e, rest := q[|q| - 1], q[..|q| - 1];
    assert EntryOk(m, c0, seen, at, e);
    var far := LegalEnd(m, m.start, e.path);
    PoppedStack(m, c0, seen, at, q);
    PoppedSeen(m, c0, seen, q);
    if e.path != [] {
      assert IsMove(e.path[|e.path| - 1]);
      assert far == Step(CellOf(m, e.path[..|e.path| - 1]), e.path[|e.path| - 1]);
    }
  }

  lemma {:induction false} PoppedStack(m: Maze, c0: int, seen: set<Cell>, at: string, q: seq<Entry>)
    requires Rectangular(m) && StackInv(m, c0, seen, at, q) && q != [] && at == Parent(q[|q| - 1].path)
    ensures StackInv(m, c0, seen, q[|q| - 1].path, q[..|q| - 1])
    ensures forall i :: 0 <= i < |q| - 1 ==> q[i].path != []
  {
    var e, rest := q[|q| - 1], q[..|q| - 1];
    assert at <= e.path;
    forall i | 0 <= i < |rest| ensures EntryOk(m, c0, seen, e.path, rest[i]) {
      assert EntryOk(m, c0, seen, at, q[i]);
    }
  }

  lemma {:induction false} PoppedSeen(m: Maze, c0: int, seen: set<Cell>, q: seq<Entry>)
    requires Rectangular(m) && SeenInv(m, seen, c0, q, {}) && q != []
    ensures SeenInv(m, seen, c0, q[..|q| - 1], {(q[|q| - 1].y, q[|q| - 1].x + c0)})
  {
    var e, rest := q[|q| - 1], q[..|q| - 1];
    forall c | c in seen ensures Done(m, seen, c) || OnStack(c0, rest, c) || c == (e.y, e.x + c0) {
      if !Done(m, seen, c) && c != (e.y, e.x + c0) {
        var i :| 0 <= i < |q| && (q[i].y, q[i].x + c0) == c;
        assert rest[i] == q[i];
      }
    }
  }

  /** Once its cell is finished, the popped entry leaves an orderly state whose path is its own. */
  lemma {:induction false} Expanded(m: Maze, c0: int, q: seq<Entry>, visit: seq<Cell>, seen: set<Cell>, e: Entry)
    requires Rectangular(m) && Expanding(m, c0, q, visit, seen, e) && Done(m, seen, (e.y, e.x + c0))
    ensures SearchInv(m, c0, seen, e.path, q, visit)
  {
  }

  /** The state also holds for the shorter path to where the top entry was pushed. */
  lemma {:induction false} Retargeted(m: Maze, c0: int, seen: set<Cell>, at: string, q: seq<Entry>, visit: seq<Cell>)
    requires Rectangular(m) && SearchInv(m, c0, seen, at, q, visit) && q != []
    ensures SearchInv(m, c0, seen, Parent(q[|q| - 1].path), q, visit)
    ensures Parent(q[|q| - 1].path) <= at
  {
    var at' := Parent(q[|q| - 1].path);
    hide SeenInv, VisitInv, LegalWalk, CellOf, Walkable;
    assert EntryOk(m, c0, seen, at, q[|q| - 1]);
    forall i | 0 <= i < |q| ensures EntryOk(m, c0, seen, at', q[i]) {
      assert EntryOk(m, c0, seen, at, q[i]);
    }
  }

  lemma {:induction false} BeenPrefix(m: Maze, been: set<Cell>, at: string, k: nat)
    requires Rectangular(m) && BeenInv(m, been, at) && k <= |at|
    ensures BeenInv(m, been, at[..k])
  {
    LegalPrefix(m, m.start, at, k);
    forall j | 0 <= j <= k ensures CellOf(m, at[..k][..j]) in been {
      assert at[..k][..j] == at[..j];
    }
  }

  lemma {:induction false} BeenStep(m: Maze, been: set<Cell>, p: string)
    requires Rectangular(m) && p != [] && BeenInv(m, been, p[..|p| - 1]) && LegalWalk(m, m.start, p)
    ensures BeenInv(m, been + {CellOf(m, p)}, p)
  {
    forall k | 0 <= k <= |p| ensures CellOf(m, p[..k]) in been + {CellOf(m, p)} {
      if k < |p| {
        assert p[..|p| - 1][..k] == p[..k];
      } else {
        assert p[..k] == p;
      }
    }
  }

  // ----- a new column on the left -----

  /** `v[1] += 1` for every visited cell (3-4.py:175-176). */
  method ShiftVisit(visit: seq<Cell>) returns (r: seq<Cell>)
    ensures |r| == |visit| && forall i :: 0 <= i < |r| ==> r[i] == (visit[i].0, visit[i].1 + 1)
  {
    r := visit;
    for i := 0 to |visit|
      invariant |r| == |visit|
      invariant forall j :: 0 <= j < i ==> r[j] == (visit[j].0, visit[j].1 + 1)
      invariant forall j :: i <= j < |r| ==> r[j] == visit[j]
    {
      r := r[i := (r[i].0, r[i].1 + 1)];
    }
  }

  /** `p[1] += 1` for every stack entry (3-4.py:177-178). */
  method ShiftStack(q: seq<Entry>) returns (r: seq<Entry>)
    ensures |r| == |q| && forall i :: 0 <= i < |r| ==> r[i] == q[i].(x := q[i].x + 1)
  {
    r := q;
    for i := 0 to |q|
      invariant |r| == |q|
      invariant forall j :: 0 <= j < i ==> r[j] == q[j].(x := q[j].x + 1)
      invariant forall j :: i <= j < |r| ==> r[j] == q[j]
    {
      r := r[i := r[i].(x := r[i].x + 1)];
    }
  }

  /** The coordinates may move with the map: same cells, one column further right. */
  ghost predicate Follows(q: seq<Entry>, visit: seq<Cell>, c0: int, q': seq<Entry>, visit': seq<Cell>, c0': int) {
    && |q'| == |q| && |visit'| == |visit|
    && (forall i :: 0 <= i < |q| ==> q'[i] == q[i].(x := q[i].x + c0 - c0'))
    && (forall i :: 0 <= i < |visit| ==> visit'[i] == (visit[i].0, visit[i].1 + c0 - c0'))
  }

  lemma {:induction false} FollowsInv(m: Maze, c0: int, seen: set<Cell>, at: string, q: seq<Entry>, visit: seq<Cell>,
                                      q': seq<Entry>, visit': seq<Cell>, c0': int)
    requires Rectangular(m) && SearchInv(m, c0, seen, at, q, visit) && Follows(q, visit, c0, q', visit', c0')
    ensures SearchInv(m, c0', seen, at, q', visit')
  {
    FollowsStack(m, c0, seen, at, q, q', c0');
    FollowsSeen(m, c0, seen, q, q', c0');
    FollowsVisit(visit, c0, seen, visit', c0');
  }

  lemma {:induction false} FollowsStack(m: Maze, c0: int, seen: set<Cell>, at: string, q: seq<Entry>,
                                        q': seq<Entry>, c0': int)
    requires Rectangular(m) && StackInv(m, c0, seen, at, q) && |q'| == |q|
    requires forall i :: 0 <= i < |q| ==> q'[i] == q[i].(x := q[i].x + c0 - c0')
    ensures StackInv(m, c0', seen, at, q')
  {
    forall i | 0 <= i < |q'| ensures EntryOk(m, c0', seen, at, q'[i]) {
      assert EntryOk(m, c0, seen, at, q[i]);
    }
  }

  lemma {:induction false} FollowsSeen(m: Maze, c0: int, seen: set<Cell>, q: seq<Entry>, q': seq<Entry>, c0': int)
    requires Rectangular(m) && SeenInv(m, seen, c0, q, {}) && |q'| == |q|
    requires forall i :: 0 <= i < |q| ==> q'[i] == q[i].(x := q[i].x + c0 - c0')
    ensures SeenInv(m, seen, c0', q', {})
  {
    forall c | c in seen ensures Done(m, seen, c) || OnStack(c0', q', c) {
      if !Done(m, seen, c) {
        var i :| 0 <= i < |q| && (q[i].y, q[i].x + c0) == c;
        assert (q'[i].y, q'[i].x + c0') == c;
      }
    }
  }

  lemma {:induction false} FollowsVisit(visit: seq<Cell>, c0: int, seen: set<Cell>, visit': seq<Cell>, c0': int)
    requires VisitInv(visit, c0, seen) && |visit'| == |visit|
    requires forall i :: 0 <= i < |visit| ==> visit'[i] == (visit[i].0, visit[i].1 + c0 - c0')
    ensures VisitInv(visit', c0', seen)
  {
    forall y, x ensures (y, x) in visit' <==> (y, x + c0') in seen {
      var x0 := x + c0' - c0;
      if (y, x) in visit' {
        var i :| 0 <= i < |visit'| && visit'[i] == (y, x);
        assert visit[i] == (y, x0);
      }
      if (y, x0) in visit {
        var i :| 0 <= i < |visit| && visit[i] == (y, x0);
        assert visit'[i] == (y, x);
      }
      assert (y, x0) in visit <==> (y, x0 + c0) in seen;
    }
  }
}
