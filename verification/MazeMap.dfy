/** np-lab3/3-4.py: the maze as the server shows it, and the map the client grows from the windows
    it has seen. */
module MazeMap {
  import opened Numbers

  /** A cell as (row, column). */
  type Cell = (int, int)

  const PAD := '_'

  /** A rectangular maze with a closed border, drawn without blanks, pads or robot marks other than
      on the start cell. */
  datatype Maze = Maze(rows: seq<string>, width: nat, start: Cell)

  predicate Inside(m: Maze, c: Cell) {
    0 <= c.0 < |m.rows| && 0 <= c.1 < m.width
  }

  /** All cells of the maze, to count the unvisited ones. */
  function AllCells(m: Maze): (s: set<Cell>)
    ensures forall c: Cell :: Inside(m, c) ==> c in s
  {
    set y, x | 0 <= y < |m.rows| && 0 <= x < m.width :: (y, x)
  }

  predicate Rectangular(m: Maze) {
    forall y :: 0 <= y < |m.rows| ==> |m.rows[y]| == m.width
  }

  function At(m: Maze, c: Cell): char
    requires Rectangular(m) && Inside(m, c)
  {
    m.rows[c.0][c.1]
  }

  /** A cell that the client may step on: open, the exit, or the start. */
  predicate Walkable(m: Maze, c: Cell)
    requires Rectangular(m)
  {
    Inside(m, c) && (At(m, c) == '.' || At(m, c) == 'E' || c == m.start)
  }

  predicate OnBorder(m: Maze, c: Cell) {
    c.0 == 0 || c.0 == |m.rows| - 1 || c.1 == 0 || c.1 == m.width - 1
  }

  ghost predicate ValidMaze(m: Maze) {
    && Rectangular(m) && Inside(m, m.start)
    && (At(m, m.start) == '.' || At(m, m.start) == '*')
    && (forall c: Cell :: Walkable(m, c) ==> !OnBorder(m, c))
    && (forall c: Cell :: Inside(m, c) ==> At(m, c) != ' ' && At(m, c) != PAD)
    && (forall c: Cell :: Inside(m, c) && At(m, c) == '*' ==> c == m.start)
  }

  // ----- what the server shows -----

  /** Half of an odd view; the client looks at least two cells far. */
  datatype View = View(hh: nat, hw: nat)

  predicate ValidView(v: View) {
    v.hh >= 2 && v.hw >= 2
  }

  predicate InView(v: View, robot: Cell, c: Cell) {
    robot.0 - v.hh <= c.0 <= robot.0 + v.hh && robot.1 - v.hw <= c.1 <= robot.1 + v.hw
  }

  function Shown(m: Maze, robot: Cell, c: Cell): char
    requires Rectangular(m)
  {
    if !Inside(m, c) then ' ' else if c == robot then '*' else At(m, c)
  }

  /** First and one past the last row and column of the window inside the maze. */
  function Top(v: View, robot: Cell): int { Max(0, robot.0 - v.hh) }
  function Bottom(m: Maze, v: View, robot: Cell): int { Min(|m.rows|, robot.0 + v.hh + 1) }
  function Left(v: View, robot: Cell): int { Max(0, robot.1 - v.hw) }
  function Right(m: Maze, v: View, robot: Cell): int { Min(m.width, robot.1 + v.hw + 1) }

  /** One line of the window, blank where it hangs over the edge. */
  function Line(m: Maze, v: View, robot: Cell, y: int): (s: string)
    requires Rectangular(m)
    ensures |s| == 2 * v.hw + 1
  {
    seq(2 * v.hw + 1, k => Shown(m, robot, (y, robot.1 - v.hw + k)))
  }

  /** The answer to a move after `send_move` has dropped the blank lines. */
  function Window(m: Maze, v: View, robot: Cell): (w: seq<(int, string)>)
    requires Rectangular(m) && Inside(m, robot)
    ensures |w| == Bottom(m, v, robot) - Top(v, robot)
    ensures forall i :: 0 <= i < |w| ==> w[i] == (Top(v, robot) + i, Line(m, v, robot, Top(v, robot) + i))
  {
    seq(Bottom(m, v, robot) - Top(v, robot),
        i requires 0 <= i => (Top(v, robot) + i, Line(m, v, robot, Top(v, robot) + i)))
  }

  /** `text.replace(' ', '')`. */
  function Strip(s: string): string {
    if s == [] then [] else (if s[0] == ' ' then [] else [s[0]]) + Strip(s[1..])
  }

  lemma {:induction false} StripBlanks(n: nat, rest: string)
    ensures Strip(seq(n, _ => ' ') + rest) == Strip(rest)
  {
    var s := seq(n, _ => ' ') + rest;
    if n == 0 {
      assert s == rest;
    } else {
      assert s[1..] == seq(n - 1, _ => ' ') + rest;
      StripBlanks(n - 1, rest);
      assert Strip(s) == [] + Strip(s[1..]);
    }
  }

  lemma {:induction false} StripText(t: string, n: nat)
    requires forall i :: 0 <= i < |t| ==> t[i] != ' '
    ensures Strip(t + seq(n, _ => ' ')) == t
  {
    var s := t + seq(n, _ => ' ');
    if t == [] {
      assert s == seq(n, _ => ' ') + [];
      StripBlanks(n, []);
    } else {
      assert s[1..] == t[1..] + seq(n, _ => ' ');
      StripText(t[1..], n);
      assert t == [t[0]] + t[1..];
    }
  }

  /** The cells of row y that the window covers. */
  function Segment(m: Maze, v: View, robot: Cell, y: int): (s: string)
    requires Rectangular(m) && Inside(m, robot)
    ensures |s| == Right(m, v, robot) - Left(v, robot)
  {
    seq(Right(m, v, robot) - Left(v, robot), k => Shown(m, robot, (y, Left(v, robot) + k)))
  }

  /** Stripping a line leaves the maze cells it shows, and blanks stand only beyond an edge. */
  lemma {:induction false} StripLine(m: Maze, v: View, robot: Cell, y: int)
    requires ValidMaze(m) && Inside(m, robot) && 0 <= y < |m.rows|
    ensures Strip(Line(m, v, robot, y)) == Segment(m, v, robot, y)
    ensures Line(m, v, robot, y)[0] == ' ' <==> robot.1 - v.hw < 0
    ensures Line(m, v, robot, y)[2 * v.hw] == ' ' <==> robot.1 + v.hw >= m.width
  {
    var seg := Segment(m, v, robot, y);
    var a := Left(v, robot) - (robot.1 - v.hw);
    var b := 2 * v.hw + 1 - a - |seg|;
    LineParts(m, v, robot, y);
    SegmentNotBlank(m, v, robot, y);
    LineCell(m, v, robot, y, 0);
    LineCell(m, v, robot, y, 2 * v.hw);
    hide ValidMaze, Line, Segment;
    StripBlanks(a, seg + seq(b, _ => ' '));
    StripText(seg, b);
  }

  lemma {:induction false} SegmentNotBlank(m: Maze, v: View, robot: Cell, y: int)
    requires ValidMaze(m) && Inside(m, robot) && 0 <= y < |m.rows|
    ensures var seg := Segment(m, v, robot, y); forall k :: 0 <= k < |seg| ==> seg[k] != ' '
  {
    var seg := Segment(m, v, robot, y);
    forall k | 0 <= k < |seg| ensures seg[k] != ' ' {
      var c := (y, Left(v, robot) + k);
      assert Inside(m, c) && At(m, c) != ' ';
      assert seg[k] == Shown(m, robot, c);
    }
  }

  /** A line is blanks, then maze cells, then blanks. */
  lemma {:induction false} LineParts(m: Maze, v: View, robot: Cell, y: int)
    requires ValidMaze(m) && Inside(m, robot) && 0 <= y < |m.rows|
    ensures var seg := Segment(m, v, robot, y);
            var a := Left(v, robot) - (robot.1 - v.hw);
            var b := 2 * v.hw + 1 - a - |seg|;
            && a >= 0 && b >= 0
            && Line(m, v, robot, y) == seq(a, _ => ' ') + (seg + seq(b, _ => ' '))
  {
    var line, seg := Line(m, v, robot, y), Segment(m, v, robot, y);
    var a := Left(v, robot) - (robot.1 - v.hw);
    var b := 2 * v.hw + 1 - a - |seg|;
    var parts := seq(a, _ => ' ') + (seg + seq(b, _ => ' '));
    hide ValidMaze, Line, Segment;
    forall k | 0 <= k < |line| ensures line[k] == parts[k] {
      LineCell(m, v, robot, y, k);
    }
  }

  lemma {:induction false} LineCell(m: Maze, v: View, robot: Cell, y: int, k: int)
    requires ValidMaze(m) && Inside(m, robot) && 0 <= y < |m.rows| && 0 <= k <= 2 * v.hw
    ensures var x := robot.1 - v.hw + k;
            && Line(m, v, robot, y)[k] == Shown(m, robot, (y, x))
            && (Line(m, v, robot, y)[k] == ' ' <==> !(0 <= x < m.width))
            && (0 <= x < m.width <==> Left(v, robot) <= x < Right(m, v, robot))
            && (Left(v, robot) <= x < Right(m, v, robot) ==>
                  Line(m, v, robot, y)[k] == Segment(m, v, robot, y)[x - Left(v, robot)])
  {
    var x := robot.1 - v.hw + k;
    if 0 <= x < m.width {
      assert Inside(m, (y, x));
    }
  }

  // ----- the client's map -----

  /** All rows of the map have the same length. */
  predicate IsMap(m: Maze, known: seq<string>, w: nat) {
    |known| == |m.rows| && forall y :: 0 <= y < |known| ==> |known[y]| == w
  }

  /** Column x of the map is column x + c0 of the maze. */
  ghost predicate Truthful(m: Maze, known: seq<string>, w: nat, c0: int)
    requires Rectangular(m)
  {
    && IsMap(m, known, w) && 0 <= c0 && c0 + w <= m.width
    && forall y, x :: 0 <= y < |known| && 0 <= x < w ==>
         known[y][x] == PAD || known[y][x] == At(m, (y, x + c0)) || (known[y][x] == '*' && (y, x + c0) == m.start)
  }

  /** The maze cell is on the map. */
  ghost predicate Seen(known: seq<string>, w: nat, c0: int, c: Cell) {
    0 <= c.0 < |known| && 0 <= c.1 - c0 < w && |known[c.0]| == w && known[c.0][c.1 - c0] != PAD
  }

  /** Everything in the window around `robot` is on the map. */
  ghost predicate Recorded(m: Maze, v: View, known: seq<string>, w: nat, c0: int, robot: Cell) {
    forall c: Cell :: Inside(m, c) && InView(v, robot, c) ==> Seen(known, w, c0, c)
  }

  /** The new map is the old one, possibly with a new column, with the cells of a rectangle filled in. */
  ghost predicate Patched(m: Maze, known: seq<string>, w: nat, c0: int, known': seq<string>, w': nat, c0': int,
                          top: int, bottom: int, left: int, right: int)
    requires Rectangular(m)
  {
    && IsMap(m, known', w') && 0 <= c0' <= c0 && c0 + w <= c0' + w' <= m.width
    && forall y, x :: 0 <= y < |known'| && 0 <= x < w' ==>
         known'[y][x] == (if top <= y < bottom && left <= x + c0' < right then At(m, (y, x + c0'))
                          else if c0 <= x + c0' < c0 + w && |known| == |m.rows| && |known[y]| == w then known[y][x + c0' - c0]
                          else PAD)
  }

  lemma {:induction false} PatchedTruthful(m: Maze, known: seq<string>, w: nat, c0: int, known': seq<string>,
                                           w': nat, c0': int,
                                           top: int, bottom: int, left: int, right: int)
    requires ValidMaze(m) && Truthful(m, known, w, c0)
    requires Patched(m, known, w, c0, known', w', c0', top, bottom, left, right)
    ensures Truthful(m, known', w', c0')
  {
  }

  lemma {:induction false} PatchedKeepsSeen(m: Maze, known: seq<string>, w: nat, c0: int, known': seq<string>,
                                            w': nat, c0': int,
                                            top: int, bottom: int, left: int, right: int, c: Cell)
    requires ValidMaze(m) && IsMap(m, known, w) && 0 <= c0 && Seen(known, w, c0, c)
    requires Patched(m, known, w, c0, known', w', c0', top, bottom, left, right)
    ensures Seen(known', w', c0', c)
  {
    assert Inside(m, c);
    var x := c.1 - c0';
    assert known'[c.0][x] != PAD;
  }

  lemma {:induction false} PatchedKeepsRecorded(m: Maze, v: View, known: seq<string>, w: nat, c0: int,
                                                known': seq<string>, w': nat, c0': int,
                                                top: int, bottom: int, left: int, right: int, robot: Cell)
    requires ValidMaze(m) && IsMap(m, known, w) && 0 <= c0 && Recorded(m, v, known, w, c0, robot)
    requires Patched(m, known, w, c0, known', w', c0', top, bottom, left, right)
    ensures Recorded(m, v, known', w', c0', robot)
  {
    forall c: Cell | Inside(m, c) && InView(v, robot, c) ensures Seen(known', w', c0', c) {
      PatchedKeepsSeen(m, known, w, c0, known', w', c0', top, bottom, left, right, c);
    }
  }

  /** The rectangle covers every cell of the new window that was not in the old one. */
  ghost predicate Covers(m: Maze, v: View, old': Cell, robot: Cell, top: int, bottom: int, left: int, right: int) {
    forall c: Cell :: Inside(m, c) && InView(v, robot, c) && !InView(v, old', c) ==>
      top <= c.0 < bottom && left <= c.1 < right
  }

  lemma {:induction false} PatchedRecords(m: Maze, v: View, known: seq<string>, w: nat, c0: int,
                                          known': seq<string>, w': nat, c0': int,
                                          top: int, bottom: int, left: int, right: int, old': Cell, robot: Cell)
    requires ValidMaze(m) && IsMap(m, known, w) && 0 <= c0 && Recorded(m, v, known, w, c0, old')
    requires Patched(m, known, w, c0, known', w', c0', top, bottom, left, right)
    requires Covers(m, v, old', robot, top, bottom, left, right)
    requires c0' <= left && right <= c0' + w'
    ensures Recorded(m, v, known', w', c0', robot)
  {
    forall c: Cell | Inside(m, c) && InView(v, robot, c) ensures Seen(known', w', c0', c) {
      if InView(v, old', c) {
        PatchedKeepsSeen(m, known, w, c0, known', w', c0', top, bottom, left, right, c);
      } else {
        assert known'[c.0][c.1 - c0'] == At(m, c);
      }
    }
  }
}
