/** np-lab3/3-4.py: find_path from the first window to the exit. */
module RobotRun {
  import opened Numbers
  import opened SetFacts
  import opened MazeMap
  import opened MazeRecord
  import opened RobotWalk
  import opened RobotSearch

  // ----- recording the answer to a move -----

  /** What RecordRow needs to know, and what its result is, after a vertical move. */
  lemma {:induction false} RowFacts(m: Maze, v: View, known: seq<string>, w: nat, c0: int, been: set<Cell>,
                                    from: Cell, robot: Cell, y: int)
    requires MapInv(m, v, known, w, c0, been) && from in been && Walkable(m, robot) && from.1 == robot.1
    requires (robot.0 == from.0 - 1 && y == Top(v, robot)) || (robot.0 == from.0 + 1 && y == Bottom(m, v, robot) - 1)
    ensures 0 <= y < |known| && (forall i :: 0 <= i < |known| ==> |known[i]| == |known[0]|)
    ensures 0 <= robot.1 - c0 < |known[0]|
    ensures var x := robot.1 - c0;
            var left, right := Max(x - v.hw, 0), Min(x + v.hw + 1, |known[0]|);
            var text := Strip(Line(m, v, robot, y));
            && 0 <= left <= right <= |known[y]| && |text| == right - left
            && MapInv(m, v, known[y := Spliced(known[y], left, right, text)], w, c0, been + {robot})
  {
    hide MapInv, Stepped, Truthful, Recorded, ValidMaze, Strip, Line;
    MapShape(m, v, known, w, c0, been, from);
    RowMapInv(m, v, known, w, c0, been, from, robot, y);
    ClippedAlike(m, v, known, w, c0, from);
    StripLine(m, v, robot, y);
  }

  lemma {:induction false} MapShape(m: Maze, v: View, known: seq<string>, w: nat, c0: int, been: set<Cell>,
                                    from: Cell)
    requires MapInv(m, v, known, w, c0, been) && from in been
    ensures ValidMaze(m) && ValidView(v) && Stepped(m, v, known, w, c0, from, from) && Inside(m, from)
    ensures |known| == |m.rows| > 0 && forall i :: 0 <= i < |known| ==> |known[i]| == |known[0]| == w
    ensures 0 <= c0 && c0 + w <= m.width
  {
    assert Walkable(m, from);
  }

  /** What RecordLeft and RecordRight need to know about the map and the window. */
  lemma {:induction false} ColumnFacts(m: Maze, v: View, known: seq<string>, w: nat, c0: int, been: set<Cell>,
                                       from: Cell, robot: Cell, first: bool)
    requires MapInv(m, v, known, w, c0, been) && from in been && Walkable(m, robot)
    requires from == (robot.0, if first then robot.1 + 1 else robot.1 - 1)
    ensures var lines := Window(m, v, robot);
            && lines != [] && (forall i :: 0 <= i < |lines| ==> Strip(lines[i].1) != [])
            && lines[0].0 == Top(v, robot) >= 0 && lines[0].0 + |lines| <= |known|
            && |lines[0].1| == 2 * v.hw + 1
            && (lines[0].1[0] == ' ' <==> robot.1 - v.hw < 0)
            && (lines[0].1[2 * v.hw] == ' ' <==> robot.1 + v.hw >= m.width)
            && IsColumn(m, v, robot, Ends(lines, first), NewColumn(m, v, robot, first))
    ensures |known| > 0 && (forall i :: 0 <= i < |known| ==> |known[i]| == |known[0]| == w)
    ensures c0 <= Left(v, from) && Right(m, v, from) <= c0 + w && 0 <= c0 && c0 + w <= m.width
    ensures 0 < w && Inside(m, from)
  {
    hide MapInv, Stepped, Truthful, Recorded;
    MapShape(m, v, known, w, c0, been, from);
    ColumnsKnown(m, v, known, w, c0, from);
    WindowShows(m, v, robot, first);
    StripLine(m, v, robot, Top(v, robot));
  }

  /** A move A: the new left column. */
  method MoveLeft(ghost m: Maze, v: View, known: seq<string>, ghost w: nat, ghost c0: int, ghost been: set<Cell>,
                  x: int, lines: seq<(int, string)>, ghost from: Cell, ghost robot: Cell)
    returns (known': seq<string>, grown: bool, ghost w': nat, ghost c0': int)
    requires MapInv(m, v, known, w, c0, been) && from in been && Walkable(m, robot) && robot.1 == x + c0
    requires from == (robot.0, robot.1 + 1) && lines == Window(m, v, robot)
    ensures MapInv(m, v, known', w', c0', been + {robot}) && c0' == if grown then c0 - 1 else c0
  {
    hide MapInv, Walkable, IsColumn, IsOverwritten, IsAdded, Strip, Ends;
    ColumnFacts(m, v, known, w, c0, been, from, robot, true);
    hide Window;
    known', grown := RecordLeft(known, v.hw, x, lines);
    w', c0' := if grown then w + 1 else w, if grown then c0 - 1 else c0;
    assert PutAt(known, w, c0, known', w', c0', Top(v, robot), Ends(lines, true), NewColumn(m, v, robot, true));
    hide PutAt;
    ColumnMapInv(m, v, known, w, c0, been, from, robot, true, known', w', c0', Ends(lines, true));
  }

  /** A move D: the new right column. */
  method MoveRight(ghost m: Maze, v: View, known: seq<string>, ghost w: nat, ghost c0: int, ghost been: set<Cell>,
                   x: int, lines: seq<(int, string)>, ghost from: Cell, ghost robot: Cell)
    returns (known': seq<string>, ghost w': nat)
    requires MapInv(m, v, known, w, c0, been) && from in been && Walkable(m, robot) && robot.1 == x + c0
    requires from == (robot.0, robot.1 - 1) && lines == Window(m, v, robot)
    ensures MapInv(m, v, known', w', c0, been + {robot})
  {
    hide MapInv, Walkable, IsColumn, IsOverwritten, IsAdded, Strip, Ends;
    ColumnFacts(m, v, known, w, c0, been, from, robot, false);
    hide Window;
    var grown;
    known', grown := RecordRight(known, v.hw, x, lines);
    w' := if grown then w + 1 else w;
    assert PutAt(known, w, c0, known', w', c0, Top(v, robot), Ends(lines, false), NewColumn(m, v, robot, false));
    hide PutAt;
    ColumnMapInv(m, v, known, w, c0, been, from, robot, false, known', w', c0, Ends(lines, false));
  }

  /** A move W or S: the new top or bottom row. */
  method MoveRow(ghost m: Maze, v: View, known: seq<string>, ghost w: nat, ghost c0: int, ghost been: set<Cell>,
                 x: int, line: (int, string), ghost from: Cell, ghost robot: Cell)
    returns (known': seq<string>)
    requires MapInv(m, v, known, w, c0, been) && from in been && Walkable(m, robot) && robot.1 == x + c0 == from.1
    requires (robot.0 == from.0 - 1 && line.0 == Top(v, robot)) || (robot.0 == from.0 + 1 && line.0 == Bottom(m, v, robot) - 1)
    requires line.1 == Line(m, v, robot, line.0)
    ensures MapInv(m, v, known', w, c0, been + {robot})
  {
    hide MapInv, Walkable, Line, Strip;
    RowFacts(m, v, known, w, c0, been, from, robot, line.0);
    known' := RecordRow(known, v.hw, x, line);
  }

  /** 3-4.py:135-227. */
  method RecordMove(ghost m: Maze, v: View, known: seq<string>, ghost w: nat, ghost c0: int, ghost been: set<Cell>,
                    x: int, move: char, lines: seq<(int, string)>, q: seq<Entry>, visit: seq<Cell>,
                    ghost from: Cell, ghost robot: Cell)
    returns (known': seq<string>, q': seq<Entry>, visit': seq<Cell>, ghost w': nat, ghost c0': int)
    requires MapInv(m, v, known, w, c0, been) && from in been && Walkable(m, robot) && robot.1 == x + c0
    requires IsMove(move) && robot == Step(from, move) && lines == Window(m, v, robot)
    ensures MapInv(m, v, known', w', c0', been + {robot})
    ensures Follows(q, visit, c0, q', visit', c0')
  {
    MapFacts(m, v, known, w, c0, been);
    assert Inside(m, robot);
    hide MapInv, ValidMaze, Walkable, Line;
    q', visit', w', c0' := q, visit, w, c0;
    if move == 'W' {
      known' := MoveRow(m, v, known, w, c0, been, x, lines[0], from, robot);
    } else if move == 'S' {
      known' := MoveRow(m, v, known, w, c0, been, x, lines[|lines| - 1], from, robot);
    } else if move == 'A' {
      var grown;
      known', grown, w', c0' := MoveLeft(m, v, known, w, c0, been, x, lines, from, robot);
      if grown {
        visit' := ShiftVisit(visit);
        q' := ShiftStack(q);
      }
    } else {
      known', w' := MoveRight(m, v, known, w, c0, been, x, lines, from, robot);
    }
  }

  // ----- the first window -----

  lemma {:induction false} FirstLine(m: Maze, v: View, i: nat)
    requires ValidMaze(m) && ValidView(v) && i < |Window(m, v, m.start)|
    ensures Window(m, v, m.start)[i].0 == Top(v, m.start) + i && 0 <= Top(v, m.start) + i < |m.rows|
    ensures Strip(Window(m, v, m.start)[i].1) == Segment(m, v, m.start, Top(v, m.start) + i) != []
  {
    StripLine(m, v, m.start, Top(v, m.start) + i);
  }

  /** The only star of the first window is the robot. */
  lemma {:induction false} StarIsStart(m: Maze, v: View, y: int, k: nat)
    requires ValidMaze(m) && 0 <= y < |m.rows| && k < |Segment(m, v, m.start, y)|
    ensures Segment(m, v, m.start, y)[k] == '*' <==> (y, k + Left(v, m.start)) == m.start
  {
    var c := (y, Left(v, m.start) + k);
    assert Inside(m, c);
    assert Segment(m, v, m.start, y)[k] == Shown(m, m.start, c);
  }

  /** Searching a line of the first window for the star. */
  lemma {:induction false} StarInLine(m: Maze, v: View, y: int, x: int)
    requires ValidMaze(m) && 0 <= y < |m.rows|
    requires x == -1 <==> '*' !in Segment(m, v, m.start, y)
    requires x != -1 ==> 0 <= x < |Segment(m, v, m.start, y)| && Segment(m, v, m.start, y)[x] == '*'
    ensures x != -1 ==> (y, x + Left(v, m.start)) == m.start
    ensures y == m.start.0 ==> x != -1
  {
    if x != -1 {
      StarIsStart(m, v, y, x);
    }
    if y == m.start.0 {
      StarIsStart(m, v, y, m.start.1 - Left(v, m.start));
    }
  }

  /** `'*' in m` and `m.find('*')`. */
  method FindStar(s: string) returns (x: int)
    ensures x == -1 <==> '*' !in s
    ensures x != -1 ==> 0 <= x < |s| && s[x] == '*' && '*' !in s[..x]
  {
    x := 0;
    while x < |s|
      invariant 0 <= x <= |s| && '*' !in s[..x]
    {
      if s[x] == '*' {
        return;
      }
      x := x + 1;
    }
    x := -1;
  }

  /** The map holds the lines of the first window up to line i, and pads. */
  ghost predicate FirstMap(m: Maze, v: View, known: seq<string>, w: nat, i: int)
    requires Rectangular(m) && Inside(m, m.start)
  {
    && |known| == |m.rows| && 0 <= i <= |Window(m, v, m.start)|
    && (forall y :: 0 <= y < |known| ==>
          known[y] == if Top(v, m.start) <= y < Top(v, m.start) + i then Segment(m, v, m.start, y) else seq(w, _ => PAD))
  }

  lemma {:induction false} FirstMapInv(m: Maze, v: View, known: seq<string>)
    requires ValidMaze(m) && ValidView(v)
    requires FirstMap(m, v, known, Right(m, v, m.start) - Left(v, m.start), |Window(m, v, m.start)|)
    ensures MapInv(m, v, known, Right(m, v, m.start) - Left(v, m.start), Left(v, m.start), {m.start})
  {
    var w, c0 := Right(m, v, m.start) - Left(v, m.start), Left(v, m.start);
    forall y, x | 0 <= y < |known| && 0 <= x < w
      ensures known[y][x] == PAD || known[y][x] == At(m, (y, x + c0)) || (known[y][x] == '*' && (y, x + c0) == m.start)
      ensures Top(v, m.start) <= y < Bottom(m, v, m.start) ==> known[y][x] != PAD
    {
      assert Inside(m, (y, x + c0));
      if Top(v, m.start) <= y < Bottom(m, v, m.start) {
        assert known[y][x] == Segment(m, v, m.start, y)[x] == Shown(m, m.start, (y, c0 + x));
      } else {
        assert known[y] == seq(w, _ => PAD);
      }
    }
    assert Truthful(m, known, w, c0);
    forall c: Cell | Inside(m, c) && InView(v, m.start, c) ensures Seen(known, w, c0, c) {
      assert Top(v, m.start) <= c.0 < Bottom(m, v, m.start);
    }
    assert Walkable(m, m.start);
  }

  lemma {:induction false} FirstMapStep(m: Maze, v: View, known: seq<string>, w: nat, i: nat)
    requires ValidMaze(m) && ValidView(v) && FirstMap(m, v, known, w, i) && i < |Window(m, v, m.start)|
    ensures 0 <= Top(v, m.start) + i < |known|
    ensures FirstMap(m, v, known[Top(v, m.start) + i := Segment(m, v, m.start, Top(v, m.start) + i)], w, i + 1)
  {
  }

  /** 3-4.py:61-83: the map of the first window and the robot's place on it. */
  method ParseFirst(ghost m: Maze, ghost v: View, lines: seq<(int, string)>, mh: nat)
    returns (known: seq<string>, cury: int, curx: int)
    requires ValidMaze(m) && ValidView(v) && lines == Window(m, v, m.start) && mh == |m.rows|
    ensures FirstMap(m, v, known, Right(m, v, m.start) - Left(v, m.start), |lines|)
    ensures (cury, curx + Left(v, m.start)) == m.start
  {
    FirstLine(m, v, 0);
    var initXlen := |Strip(lines[0].1)|;
    known := seq(mh, _ => seq(initXlen, _ => PAD));
    assert FirstMap(m, v, known, initXlen, 0);
    known, cury, curx := ParseLines(m, v, lines, known, initXlen);
  }

  method ParseLines(ghost m: Maze, ghost v: View, lines: seq<(int, string)>, blank: seq<string>, ghost w: nat)
    returns (known: seq<string>, cury: int, curx: int)
    requires ValidMaze(m) && ValidView(v) && lines == Window(m, v, m.start) && FirstMap(m, v, blank, w, 0)
    ensures FirstMap(m, v, known, w, |lines|)
    ensures (cury, curx + Left(v, m.start)) == m.start
  {
    assert Rectangular(m) && Inside(m, m.start);
    assert Top(v, m.start) <= m.start.0 < Top(v, m.start) + |lines|;
    hide *;
    known, cury, curx := blank, -1, -1;
    for i := 0 to |lines|
      invariant FirstMap(m, v, known, w, i)
      invariant Top(v, m.start) + i > m.start.0 ==> (cury, curx + Left(v, m.start)) == m.start
    {
      FirstLine(m, v, i);
      known, cury, curx := ParseLine(m, v, known, w, i, lines[i].0, Strip(lines[i].1), cury, curx);
    }
  }

  /** One line of the window: its row of the map, and the star if it is there. */
  method ParseLine(ghost m: Maze, ghost v: View, known: seq<string>, ghost w: nat, ghost i: nat, y: int, row: string,
                   cury: int, curx: int)
    returns (known': seq<string>, cury': int, curx': int)
    requires ValidMaze(m) && ValidView(v) && Inside(m, m.start) && i < |Window(m, v, m.start)|
    requires FirstMap(m, v, known, w, i) && y == Top(v, m.start) + i && 0 <= y < |m.rows|
    requires row == Segment(m, v, m.start, y) && row != []
    requires y > m.start.0 ==> (cury, curx + Left(v, m.start)) == m.start
    ensures FirstMap(m, v, known', w, i + 1)
    ensures y >= m.start.0 ==> (cury', curx' + Left(v, m.start)) == m.start
  {
    hide FirstMap, ValidMaze, Segment, Inside, Window, Top, Left;
    FirstMapStep(m, v, known, w, i);
    known', cury', curx' := known, cury, curx;
    if row != [] {
      known' := known'[y := row];
    }
    var x := FindStar(row);
    StarInLine(m, v, y, x);
    if x != -1 {
      cury', curx' := y, x;
    }
  }

  // ----- the loop -----

  ghost predicate LoopInv(m: Maze, v: View, known: seq<string>, w: nat, c0: int, been: set<Cell>, robot: Cell,
                          q: seq<Entry>, visit: seq<Cell>, seen: set<Cell>, at: string) {
    && MapInv(m, v, known, w, c0, been)
    && SearchInv(m, c0, seen, at, q, visit) && BeenInv(m, been, at) && InPlace(m, robot, at, q)
    && (q == [] ==> Isolated(m))
    && (q != [] && q[|q| - 1].path == [] ==> seen == {m.start})
  }

  /** What the popped entry e means: it is next to the robot, in view, and legal to step on. */
  lemma {:induction false} PoppedEntry(m: Maze, v: View, known: seq<string>, w: nat, c0: int, been: set<Cell>,
                                       robot: Cell,
                                       q: seq<Entry>, visit: seq<Cell>, seen: set<Cell>, at: string, e: Entry)
    requires LoopInv(m, v, known, w, c0, been, robot, q, visit, seen, at) && q != [] && e == q[|q| - 1]
    ensures ValidMaze(m) && ValidView(v) && robot in been && robot == CellOf(m, at) && at == Parent(e.path)
    ensures Expanding(m, c0, q[..|q| - 1], visit, seen, e) && LegalWalk(m, m.start, e.path)
    ensures Walkable(m, (e.y, e.x + c0)) && Beside(m, robot, (e.y, e.x + c0)) && CellOf(m, e.path) == (e.y, e.x + c0)
    ensures 0 <= e.y < |known| && 0 <= e.x < |known[e.y]|
    ensures known[e.y][e.x] == 'E' <==> At(m, (e.y, e.x + c0)) == 'E'
    ensures e.path == [] ==> At(m, (e.y, e.x + c0)) != 'E'
    ensures e.path != [] ==>
              var move := e.path[|e.path| - 1];
              && IsMove(move) && (e.y, e.x + c0) == Step(robot, move)
              && LegalWalk(m, robot, [move]) && Follow(robot, [move]) == (e.y, e.x + c0) && !Isolated(m)
  {
    hide StackInv, SeenInv, VisitInv, Recorded, Truthful;
    Popped(m, c0, seen, at, q, visit, robot);
    var c := (e.y, e.x + c0);
    assert at[..|at|] == at;
    NeighbourInView(m, v, robot, c, 'W');
    KnownTells(m, v, known, w, c0, been, robot, c);
    if e.path != [] {
      var move := e.path[|e.path| - 1];
      var far := LegalEnd(m, m.start, at);
      LegalStep(m, robot, [], move);
      assert [] + [move] == [move];
      WalkLeavesStart(m, e.path);
    }
  }

  /** The start has been expanded. */
  lemma {:induction false} AfterStart(m: Maze, v: View, known: seq<string>, w: nat, c0: int, been: set<Cell>,
                                      robot: Cell,
                                      q: seq<Entry>, visit: seq<Cell>, seen: set<Cell>, e: Entry)
    requires MapInv(m, v, known, w, c0, been) && Expanding(m, c0, q, visit, seen, e)
    requires Done(m, seen, (e.y, e.x + c0)) && e.path == [] && robot == m.start && m.start in been
    requires q == [] ==> seen == {m.start}
    ensures LoopInv(m, v, known, w, c0, been, robot, q, visit, seen, [])
  {
    hide MapInv;
    MapFacts(m, v, known, w, c0, been);
    Expanded(m, c0, q, visit, seen, e);
    assert CellOf(m, []) == m.start;
    if q != [] {
      assert EntryOk(m, c0, seen, [], q[|q| - 1]);
    } else {
      assert forall move :: IsMove(move) ==> Step(m.start, move) != m.start;
    }
  }

  /** The stack is empty after a dead end: every visited cell is finished and none is an exit. */
  lemma {:induction false} NothingLeft(m: Maze, c0: int, q: seq<Entry>, visit: seq<Cell>, seen: set<Cell>, e: Entry)
    requires Rectangular(m) && Expanding(m, c0, q, visit, seen, e) && Done(m, seen, (e.y, e.x + c0)) && q == []
    ensures !ExitReachable(m)
  {
    forall c | c in seen ensures Done(m, seen, c) {
    }
    ClosedExcludesExit(m, seen);
  }

  /** The way back to where the top entry was pushed. */
  lemma {:induction false} WayBack(m: Maze, v: View, known: seq<string>, w: nat, c0: int, been: set<Cell>,
                                   q: seq<Entry>, visit: seq<Cell>, seen: set<Cell>, e: Entry)
    requires MapInv(m, v, known, w, c0, been) && Expanding(m, c0, q, visit, seen, e)
    requires Done(m, seen, (e.y, e.x + c0)) && q != [] && e.path != []
    requires Parent(q[|q| - 1].path) <= Parent(e.path) && BeenInv(m, been, Parent(e.path))
    ensures Rectangular(m)
    ensures var at, t := Parent(e.path), q[|q| - 1].path;
            && IsMoves(at) && 1 <= |t| <= |at| + 1
            && LegalWalk(m, CellOf(m, at), Undo(at[|t| - 1..]))
            && LoopInv(m, v, known, w, c0, been, Follow(CellOf(m, at), Undo(at[|t| - 1..])), q, visit, seen, Parent(t))
  {
    hide MapInv, StackInv, SeenInv;
    MapFacts(m, v, known, w, c0, been);
    var at, t := Parent(e.path), q[|q| - 1].path;
    assert t != [];
    Expanded(m, c0, q, visit, seen, e);
    Retargeted(m, c0, seen, e.path, q, visit);
    UndoSuffix(m, at, |t| - 1);
    BeenPrefix(m, been, at, |t| - 1);
    assert at[..|t| - 1] == Parent(t);
  }

  /** After stepping onto e's cell and recording what came into view. */
  lemma {:induction false} AfterStep(m: Maze, v: View, known: seq<string>, w: nat, c0: int, been: set<Cell>,
                                     q: seq<Entry>, visit: seq<Cell>, seen: set<Cell>, e: Entry, c1: int,
                                     q1: seq<Entry>, visit1: seq<Cell>, known1: seq<string>, w1: nat)
    requires Rectangular(m) && Expanding(m, c0, q, visit, seen, e) && Done(m, seen, (e.y, e.x + c0))
    requires e.path != [] && BeenInv(m, been, Parent(e.path)) && q != [] && Parent(q[|q| - 1].path) == e.path
    requires Follows(q, visit, c0, q1, visit1, c1)
    requires MapInv(m, v, known1, w1, c1, been + {(e.y, e.x + c0)})
    ensures LoopInv(m, v, known1, w1, c1, been + {(e.y, e.x + c0)}, (e.y, e.x + c0), q1, visit1, seen, e.path)
  {
    hide MapInv, SearchInv, Expanding, BeenInv, Done, CellOf, Follows, Isolated, Rectangular;
    StepFacts(m, c0, q, visit, seen, e, been);
    Expanded(m, c0, q, visit, seen, e);
    FollowsInv(m, c0, seen, e.path, q, visit, q1, visit1, c1);
    FollowsLast(q, visit, c0, q1, visit1, c1);
  }

  lemma {:induction false} FollowsLast(q: seq<Entry>, visit: seq<Cell>, c0: int, q1: seq<Entry>,
                                       visit1: seq<Cell>, c1: int)
    requires Follows(q, visit, c0, q1, visit1, c1) && q != []
    ensures q1 != [] && q1[|q1| - 1].path == q[|q| - 1].path
  {
  }

  lemma {:induction false} StepFacts(m: Maze, c0: int, q: seq<Entry>, visit: seq<Cell>, seen: set<Cell>,
                                     e: Entry, been: set<Cell>)
    requires Rectangular(m) && Expanding(m, c0, q, visit, seen, e) && q != []
    requires e.path != [] && BeenInv(m, been, Parent(e.path))
    ensures CellOf(m, e.path) == (e.y, e.x + c0) && q[|q| - 1].path != []
    ensures BeenInv(m, been + {(e.y, e.x + c0)}, e.path)
  {
    hide StackInv, SeenInv, VisitInv;
    BeenStep(m, been, e.path);
  }

  /** One turn of the loop. */
  method Turn(server: MazeServer, known: seq<string>, ghost w: nat, ghost c0: int, ghost been: set<Cell>,
              q: seq<Entry>, visit: seq<Cell>, ghost seen: set<Cell>, ghost at: string)
    returns (stop: bool, r: Outcome, known': seq<string>, q': seq<Entry>, visit': seq<Cell>,
             ghost w': nat, ghost c0': int, ghost been': set<Cell>, ghost seen': set<Cell>, ghost at': string)
    requires LoopInv(server.maze, server.view, known, w, c0, been, server.robot, q, visit, seen, at) && q != []
    requires Rectangular(server.maze)
    modifies server`robot
    ensures !stop ==> LoopInv(server.maze, server.view, known', w', c0', been', server.robot, q', visit', seen', at')
    ensures !stop ==> seen <= seen' && (seen' == seen ==> |q'| < |q|)
    ensures stop ==> r != Returned && !Isolated(server.maze) && (r.Found? <==> ExitReachable(server.maze))
    ensures stop && r.Found? ==> Inside(server.maze, server.robot) && At(server.maze, server.robot) == 'E'
  {
    hide LoopInv, MapInv, SearchInv, BeenInv, InPlace, Expanding, Walkable, LegalWalk, Follow, CellOf, Step, Done,
         Isolated, ExitReachable, Window, Beside, IsMoves, Undo, Follows, ValidMaze, Inside;
    ghost var m, v, robot := server.maze, server.view, server.robot;
    stop, r := false, Returned;
    w', c0', been', seen', at' := w, c0, been, seen, at;
    known', visit' := known, visit;
    var e := q[|q| - 1];
    q' := q[..|q| - 1];
    PoppedEntry(m, v, known, w, c0, been, robot, q, visit, seen, at, e);
    LoopParts(m, v, known, w, c0, been, robot, q, visit, seen, at);
    ghost var c := (e.y, e.x + c0);
    if known[e.y][e.x] == 'E' {
      var move := e.path[|e.path| - 1];
      var lines := server.Send([move]);
      ReachesExit(m, e.path, c);
      stop, r := true, Found;
      return;
    }
    WalkableInside(m, c);
    var deadEnd;
    q', visit', deadEnd, seen' := Expand(m, v, known, w, c0, been, robot, q', visit, seen, e);
    if e.path == [] {
      ParentOfStart(m, robot, at, e);
      AfterStart(m, v, known, w, c0, been, robot, q', visit', seen', e);
      at' := [];
    } else if deadEnd {
      if q' == [] {
        NothingLeft(m, c0, q', visit', seen', e);
        stop, r := true, IndexError;
        return;
      }
      WayBack(m, v, known, w, c0, been, q', visit', seen', e);
      var reverse := GetReversePath(e.path[..|e.path| - 1], q'[|q'| - 1].path);
      var lines := server.Send(reverse);
      at' := Parent(q'[|q'| - 1].path);
    } else {
      var move := e.path[|e.path| - 1];
      var lines := server.Send([move]);
      ghost var q1, visit1 := q', visit';
      known', q', visit', w', c0' := RecordMove(m, server.view, known, w, c0, been, e.x, move, lines, q', visit', robot, c);
      AfterStep(m, v, known, w, c0, been, q1, visit1, seen', e, c0', q', visit', known', w');
      been', at' := been + {c}, e.path;
    }
  }

  lemma {:induction false} LoopParts(m: Maze, v: View, known: seq<string>, w: nat, c0: int, been: set<Cell>,
                                     robot: Cell,
                                     q: seq<Entry>, visit: seq<Cell>, seen: set<Cell>, at: string)
    requires LoopInv(m, v, known, w, c0, been, robot, q, visit, seen, at)
    ensures MapInv(m, v, known, w, c0, been) && Rectangular(m) && BeenInv(m, been, at)
    ensures forall i :: 0 <= i < |q| ==> Parent(q[i].path) <= at
    ensures q != [] && q[|q| - 1].path == [] ==> seen == {m.start} && |q| == 1
  {
    forall i | 0 <= i < |q| ensures Parent(q[i].path) <= at {
      assert EntryOk(m, c0, seen, at, q[i]);
    }
  }

  lemma {:induction false} ReachesExit(m: Maze, p: string, c: Cell)
    requires Rectangular(m) && LegalWalk(m, m.start, p) && CellOf(m, p) == c && Walkable(m, c) && At(m, c) == 'E'
    ensures ExitReachable(m) && Inside(m, c)
  {
  }

  lemma {:induction false} WalkableInside(m: Maze, c: Cell)
    requires Rectangular(m) && Walkable(m, c)
    ensures Inside(m, c)
  {
  }

  lemma {:induction false} ParentOfStart(m: Maze, robot: Cell, at: string, e: Entry)
    requires robot == CellOf(m, at) && at == Parent(e.path) && e.path == []
    ensures robot == m.start
  {
  }

  lemma {:induction false} SeenInside(m: Maze, v: View, known: seq<string>, w: nat, c0: int, been: set<Cell>,
                                      robot: Cell,
                                      q: seq<Entry>, visit: seq<Cell>, seen: set<Cell>, at: string)
    requires LoopInv(m, v, known, w, c0, been, robot, q, visit, seen, at)
    ensures seen <= AllCells(m)
  {
  }

  lemma {:induction false} FirstLoopInv(m: Maze, v: View, known: seq<string>, w: nat, c0: int, y: int, x: int)
    requires MapInv(m, v, known, w, c0, {m.start}) && (y, x + c0) == m.start
    ensures LoopInv(m, v, known, w, c0, {m.start}, m.start, [Entry(y, x, "")], [(y, x)], {m.start}, [])
  {
    hide MapInv;
    MapFacts(m, v, known, w, c0, {m.start});
    var q := [Entry(y, x, "")];
    assert Walkable(m, m.start);
    assert q[0].y == m.start.0 && OnStack(c0, q, m.start);
    assert LegalWalk(m, m.start, "");
    assert EntryOk(m, c0, {m.start}, [], q[0]);
  }

  lemma {:induction false} EmptyStack(m: Maze, v: View, known: seq<string>, w: nat, c0: int, been: set<Cell>,
                                      robot: Cell,
                                      visit: seq<Cell>, seen: set<Cell>, at: string)
    requires LoopInv(m, v, known, w, c0, been, robot, [], visit, seen, at)
    ensures Rectangular(m) && Isolated(m) && !ExitReachable(m)
  {
    forall c | c in seen ensures Done(m, seen, c) {
    }
    ClosedExcludesExit(m, seen);
  }

  /** find_path: the robot enters an exit if and only if one is reachable; the loop ends without a
      result exactly when nothing next to the start is open; otherwise, when no exit is reachable,
      the last dead end indexes an empty list. Every move sent is a legal walk. */
  method FindPath(server: MazeServer, lines: seq<(int, string)>, mh: nat) returns (r: Outcome)
    requires ValidMaze(server.maze) && ValidView(server.view) && server.robot == server.maze.start
    requires lines == Window(server.maze, server.view, server.robot) && mh == |server.maze.rows|
    modifies server`robot
    ensures r.Found? <==> ExitReachable(server.maze)
    ensures r.Returned? <==> Isolated(server.maze)
    ensures r.Found? ==> Inside(server.maze, server.robot) && At(server.maze, server.robot) == 'E'
  {
    hide LoopInv, ValidMaze, ExitReachable, Isolated, Inside, Window;
    ghost var m, v := server.maze, server.view;
    var known, cury, curx, w, c0 := Begin(m, v, lines, mh);
    var q := [Entry(cury, curx, "")];
    var visit := [(cury, curx)];
    ghost var seen, been, at := {m.start}, {m.start}, [];
    var stop := false;
    while q != []
      invariant LoopInv(m, v, known, w, c0, been, server.robot, q, visit, seen, at)
      decreases |AllCells(m) - seen|, |q|
    {
      ghost var before := seen;
      stop, r, known, q, visit, w, c0, been, seen, at := Turn(server, known, w, c0, been, q, visit, seen, at);
      if stop {
        return;
      }
      SeenInside(m, v, known, w, c0, been, server.robot, q, visit, seen, at);
      if seen != before {
        FewerLeft(AllCells(m), before, seen);
      }
    }
    EmptyStack(m, v, known, w, c0, been, server.robot, visit, seen, at);
    r := Returned;
  }

  /** The state before the loop. */
  method Begin(ghost m: Maze, ghost v: View, lines: seq<(int, string)>, mh: nat)
    returns (known: seq<string>, cury: int, curx: int, ghost w: nat, ghost c0: int)
    requires ValidMaze(m) && ValidView(v) && lines == Window(m, v, m.start) && mh == |m.rows|
    ensures LoopInv(m, v, known, w, c0, {m.start}, m.start, [Entry(cury, curx, "")], [(cury, curx)], {m.start}, [])
    ensures Rectangular(m)
  {
    known, cury, curx := ParseFirst(m, v, lines, mh);
    w, c0 := Right(m, v, m.start) - Left(v, m.start), Left(v, m.start);
    FirstMapInv(m, v, known);
    FirstLoopInv(m, v, known, w, c0, cury, curx);
  }
}
