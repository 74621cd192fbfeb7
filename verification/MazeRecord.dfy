/** np-lab3/3-4.py:135-227: adding the row or column that a move brought into view. */
module MazeRecord {
  import opened Numbers
  import opened MazeMap

  /** The first (or last) maze character of each line of the window. */
  function Ends(lines: seq<(int, string)>, first: bool): (r: string)
    requires forall i :: 0 <= i < |lines| ==> Strip(lines[i].1) != []
    ensures |r| == |lines|
    ensures forall i :: 0 <= i < |r| ==>
              r[i] == var t := Strip(lines[i].1); if first then t[0] else t[|t| - 1]
  {
    seq(|lines|, i requires 0 <= i < |lines| => var t := Strip(lines[i].1); if first then t[0] else t[|t| - 1])
  }

  /** The characters of `chars` stand in column col, from row yOff on. */
  ghost predicate IsOverwritten(known: seq<string>, known': seq<string>, yOff: nat, chars: string, col: nat) {
    && yOff + |chars| <= |known| == |known'| && (forall i :: 0 <= i < |known| ==> col < |known[i]|)
    && forall i :: 0 <= i < |known| ==>
         known'[i] == if yOff <= i < yOff + |chars| then known[i][col := chars[i - yOff]] else known[i]
  }

  /** Every row has one more character: from `chars`, or a pad. */
  ghost predicate IsAdded(known: seq<string>, known': seq<string>, yOff: nat, chars: string, front: bool) {
    && yOff + |chars| <= |known| == |known'|
    && forall i :: 0 <= i < |known| ==>
         var ch := if yOff <= i < yOff + |chars| then chars[i - yOff] else PAD;
         known'[i] == if front then [ch] + known[i] else known[i] + [ch]
  }

  method OverwriteColumn(known: seq<string>, yOff: nat, chars: string, col: nat) returns (r: seq<string>)
    requires yOff + |chars| <= |known| && forall i :: 0 <= i < |known| ==> col < |known[i]|
    ensures IsOverwritten(known, r, yOff, chars, col)
  {
    r := known;
    var tmpIdx := 0;
    for i := 0 to |known|
      invariant |r| == |known|
      invariant tmpIdx == if i < yOff then 0 else if i < yOff + |chars| then i - yOff else |chars|
      invariant forall j :: i <= j < |known| ==> r[j] == known[j]
      invariant forall j :: 0 <= j < i ==>
        r[j] == if yOff <= j < yOff + |chars| then known[j][col := chars[j - yOff]] else known[j]
    {
      if yOff <= i < yOff + |chars| {
        var row := r[i];
        r := r[i := row[..col] + [chars[tmpIdx]] + row[col + 1..]];
        assert r[i] == row[col := chars[tmpIdx]];
        tmpIdx := tmpIdx + 1;
      }
    }
  }

  method AddColumn(known: seq<string>, yOff: nat, chars: string, front: bool) returns (r: seq<string>)
    requires yOff + |chars| <= |known|
    ensures IsAdded(known, r, yOff, chars, front)
  {
    r := known;
    var tmpIdx := 0;
    for i := 0 to |known|
      invariant |r| == |known|
      invariant tmpIdx == if i < yOff then 0 else if i < yOff + |chars| then i - yOff else |chars|
      invariant forall j :: i <= j < |known| ==> r[j] == known[j]
      invariant forall j :: 0 <= j < i ==>
        var ch := if yOff <= j < yOff + |chars| then chars[j - yOff] else PAD;
        r[j] == if front then [ch] + known[j] else known[j] + [ch]
    {
      var ch := PAD;
      if yOff <= i < yOff + |chars| {
        ch := chars[tmpIdx];
        tmpIdx := tmpIdx + 1;
      }
      r := r[i := if front then [ch] + r[i] else r[i] + [ch]];
    }
  }

  /** A map that shows the whole window at `from`, and a robot that has just stepped to `robot`. */
  ghost predicate Stepped(m: Maze, v: View, known: seq<string>, w: nat, c0: int, from: Cell, robot: Cell) {
    && ValidMaze(m) && ValidView(v) && Truthful(m, known, w, c0) && Recorded(m, v, known, w, c0, from)
    && Walkable(m, from) && Walkable(m, robot)
  }

  /** The columns of the window are on the map, so the client's clipping agrees with the server's. */
  lemma {:induction false} ColumnsKnown(m: Maze, v: View, known: seq<string>, w: nat, c0: int, from: Cell)
    requires Stepped(m, v, known, w, c0, from, from)
    ensures c0 <= Left(v, from) && Right(m, v, from) <= c0 + w
  {
    var l, r := (from.0, Left(v, from)), (from.0, Right(m, v, from) - 1);
    assert Inside(m, l) && InView(v, from, l);
    assert Inside(m, r) && InView(v, from, r);
    assert Seen(known, w, c0, l) && Seen(known, w, c0, r);
  }

  /** A row with the characters from left to right replaced. */
  function Spliced(row: string, left: nat, right: nat, text: string): (r: string)
    requires left <= right <= |row| && |text| == right - left
    ensures |r| == |row|
    ensures forall k :: 0 <= k < |row| ==> r[k] == if left <= k < right then text[k - left] else row[k]
  {
    row[..left] + text + row[right..]
  }

  lemma {:induction false} RowPatched(m: Maze, v: View, known: seq<string>, w: nat, c0: int, y: int, robot: Cell)
    requires ValidMaze(m) && Truthful(m, known, w, c0) && Inside(m, robot) && 0 <= y < |m.rows| && y != robot.0
    requires c0 <= Left(v, robot) <= Right(m, v, robot) <= c0 + w
    ensures var row := Spliced(known[y], Left(v, robot) - c0, Right(m, v, robot) - c0, Segment(m, v, robot, y));
            Patched(m, known, w, c0, known[y := row], w, c0, y, y + 1, Left(v, robot), Right(m, v, robot))
  {
    var l, r := Left(v, robot) - c0, Right(m, v, robot) - c0;
    var row := Spliced(known[y], l, r, Segment(m, v, robot, y));
    forall k | l <= k < r ensures row[k] == At(m, (y, k + c0)) {
      assert row[k] == Segment(m, v, robot, y)[k - l] == Shown(m, robot, (y, k + c0));
    }
  }

  /** The moves W and S: the top or bottom line of the window goes into its row of the map. */
  method RecordRow(known: seq<string>, hw: nat, x: int, line: (int, string)) returns (known': seq<string>)
    requires 0 <= line.0 < |known| && forall i :: 0 <= i < |known| ==> |known[i]| == |known[0]|
    requires 0 <= x < |known[0]|
    requires |Strip(line.1)| == Min(x + hw + 1, |known[0]|) - Max(x - hw, 0)
    ensures known' == known[line.0 := Spliced(known[line.0], Max(x - hw, 0), Min(x + hw + 1, |known[0]|), Strip(line.1))]
  {
    var newRow := Strip(line.1);
    var left := if x - hw >= 0 then x - hw else 0;
    var right := if x + hw + 1 <= |known[0]| then x + hw + 1 else |known[0]|;
    var origin := known[line.0];
    known' := known;
    if origin[left..right] != newRow {
      known' := known[line.0 := origin[..left] + newRow + origin[right..]];
    } else {
      assert origin == Spliced(origin, left, right, newRow);
    }
  }

  /** The column that a horizontal move brings into view, or the edge column it rewrites. */
  function NewColumn(m: Maze, v: View, robot: Cell, first: bool): int {
    if first then Left(v, robot) else Right(m, v, robot) - 1
  }

  lemma {:induction false} EndsAreCells(m: Maze, v: View, robot: Cell, first: bool)
    requires ValidMaze(m) && ValidView(v) && Walkable(m, robot)
    ensures var lines := Window(m, v, robot);
            && (forall i :: 0 <= i < |lines| ==> Strip(lines[i].1) != [])
            && forall i :: 0 <= i < |lines| ==>
                 Ends(lines, first)[i] == At(m, (Top(v, robot) + i, NewColumn(m, v, robot, first)))
  {
    var lines := Window(m, v, robot);
    forall i | 0 <= i < |lines|
      ensures Strip(lines[i].1) == Segment(m, v, robot, Top(v, robot) + i) != []
    {
      StripLine(m, v, robot, Top(v, robot) + i);
    }
    assert NewColumn(m, v, robot, first) != robot.1;
    forall i | 0 <= i < |lines|
      ensures Ends(lines, first)[i] == At(m, (Top(v, robot) + i, NewColumn(m, v, robot, first)))
    {
      var seg := Segment(m, v, robot, Top(v, robot) + i);
      var k := if first then 0 else |seg| - 1;
      assert seg[k] == Shown(m, robot, (Top(v, robot) + i, Left(v, robot) + k));
    }
  }

  lemma {:induction false} OverwritePatched(m: Maze, known: seq<string>, w: nat, c0: int, known': seq<string>,
                                            top: nat, chars: string, col: nat)
    requires ValidMaze(m) && Truthful(m, known, w, c0) && col < w
    requires IsOverwritten(known, known', top, chars, col)
    requires forall i :: 0 <= i < |chars| ==> chars[i] == At(m, (top + i, col + c0))
    ensures Patched(m, known, w, c0, known', w, c0, top, top + |chars|, col + c0, col + c0 + 1)
  {
  }

  lemma {:induction false} PrependPatched(m: Maze, known: seq<string>, w: nat, c0: int, known': seq<string>,
                                          top: nat, chars: string)
    requires ValidMaze(m) && Truthful(m, known, w, c0) && c0 >= 1
    requires IsAdded(known, known', top, chars, true)
    requires forall i :: 0 <= i < |chars| ==> chars[i] == At(m, (top + i, c0 - 1))
    ensures Patched(m, known, w, c0, known', w + 1, c0 - 1, top, top + |chars|, c0 - 1, c0)
  {
    assert forall y, x :: 0 <= y < |known| && 1 <= x < w + 1 ==> known'[y][x] == known[y][x - 1];
  }

  lemma {:induction false} AppendPatched(m: Maze, known: seq<string>, w: nat, c0: int, known': seq<string>,
                                         top: nat, chars: string)
    requires ValidMaze(m) && Truthful(m, known, w, c0) && c0 + w + 1 <= m.width
    requires IsAdded(known, known', top, chars, false)
    requires forall i :: 0 <= i < |chars| ==> chars[i] == At(m, (top + i, c0 + w))
    ensures Patched(m, known, w, c0, known', w + 1, c0, top, top + |chars|, c0 + w, c0 + w + 1)
  {
    assert forall y, x :: 0 <= y < |known| && 0 <= x < w ==> known'[y][x] == known[y][x];
  }

  /** The client's view of the new column: what the window's lines hold at their near end. */
  ghost predicate ColumnShown(m: Maze, lines: seq<(int, string)>, chars: string, top: int, col: int)
    requires Rectangular(m)
  {
    && |lines| == |chars| > 0 && lines[0].0 == top >= 0 && top + |chars| <= |m.rows| && 0 <= col < m.width
    && forall i :: 0 <= i < |chars| ==> chars[i] == At(m, (top + i, col))
  }

  lemma {:induction false} WindowShows(m: Maze, v: View, robot: Cell, first: bool)
    requires ValidMaze(m) && ValidView(v) && Walkable(m, robot)
    ensures var lines := Window(m, v, robot);
            && (forall i :: 0 <= i < |lines| ==> Strip(lines[i].1) != [])
            && ColumnShown(m, lines, Ends(lines, first), Top(v, robot), NewColumn(m, v, robot, first))
  {
    EndsAreCells(m, v, robot, first);
  }

  /** The move A: the first column of the window goes to the left edge, before the map, or into it. */
  method RecordLeft(known: seq<string>, hw: nat, x: int, lines: seq<(int, string)>)
    returns (known': seq<string>, grown: bool)
    requires lines != [] && (forall i :: 0 <= i < |lines| ==> Strip(lines[i].1) != [])
    requires 0 <= lines[0].0 && lines[0].0 + |lines| <= |known|
    requires forall i :: 0 <= i < |known| ==> 0 < |known[i]| && x < |known[i]|
    requires lines[0].1 != [] && (lines[0].1[0] == ' ' || x - hw >= -1)
    ensures grown <==> lines[0].1[0] != ' ' && x - hw == -1
    ensures grown ==> IsAdded(known, known', lines[0].0, Ends(lines, true), true)
    ensures !grown ==> IsOverwritten(known, known', lines[0].0, Ends(lines, true), if lines[0].1[0] == ' ' then 0 else x - hw)
  {
    var yOffset := lines[0].0;
    var newColIdx := x - hw;
    var chars := Ends(lines, true);
    grown := false;
    if lines[0].1[0] == ' ' {
      known' := OverwriteColumn(known, yOffset, chars, 0);
    } else if newColIdx == -1 {
      known' := AddColumn(known, yOffset, chars, true);
      grown := true;
    } else {
      known' := OverwriteColumn(known, yOffset, chars, newColIdx);
    }
  }

  /** The move D: the last column of the window goes to the right edge, after the map, or into it. */
  method RecordRight(known: seq<string>, hw: nat, x: int, lines: seq<(int, string)>)
    returns (known': seq<string>, grown: bool)
    requires lines != [] && (forall i :: 0 <= i < |lines| ==> Strip(lines[i].1) != [])
    requires 0 <= lines[0].0 && lines[0].0 + |lines| <= |known|
    requires lines[0].1 != []
    requires forall i :: 0 <= i < |known| ==> |known[i]| == |known[0]| > 0
    requires lines[0].1[|lines[0].1| - 1] == ' ' || 0 <= x + hw <= |known[0]|
    ensures grown <==> lines[0].1[|lines[0].1| - 1] != ' ' && x + hw == |known[0]|
    ensures grown ==> IsAdded(known, known', lines[0].0, Ends(lines, false), false)
    ensures !grown ==> IsOverwritten(known, known', lines[0].0, Ends(lines, false),
                                     if lines[0].1[|lines[0].1| - 1] == ' ' then |known[0]| - 1 else x + hw)
  {
    var yOffset := lines[0].0;
    var newColIdx := x + hw;
    var chars := Ends(lines, false);
    grown := false;
    if lines[0].1[|lines[0].1| - 1] == ' ' {
      known' := OverwriteColumn(known, yOffset, chars, |known[0]| - 1);
    } else if newColIdx == |known[0]| {
      known' := AddColumn(known, yOffset, chars, false);
      grown := true;
    } else {
      known' := OverwriteColumn(known, yOffset, chars, newColIdx);
    }
  }

  // ----- the map after a move -----

  /** The map is right, and shows every window seen from the cells in `been`. */
  ghost predicate MapInv(m: Maze, v: View, known: seq<string>, w: nat, c0: int, been: set<Cell>) {
    && ValidMaze(m) && ValidView(v) && Truthful(m, known, w, c0)
    && forall r :: r in been ==> Walkable(m, r) && Recorded(m, v, known, w, c0, r)
  }

  lemma {:induction false} PatchedMapInv(m: Maze, v: View, known: seq<string>, w: nat, c0: int,
                                         known': seq<string>, w': nat, c0': int,
                                         top: int, bottom: int, left: int, right: int, been: set<Cell>, from: Cell, robot: Cell)
    requires MapInv(m, v, known, w, c0, been) && from in been && Walkable(m, robot)
    requires Patched(m, known, w, c0, known', w', c0', top, bottom, left, right)
    requires Covers(m, v, from, robot, top, bottom, left, right)
    requires c0' <= left && right <= c0' + w'
    ensures MapInv(m, v, known', w', c0', been + {robot})
  {
    PatchedTruthful(m, known, w, c0, known', w', c0', top, bottom, left, right);
    PatchedRecords(m, v, known, w, c0, known', w', c0', top, bottom, left, right, from, robot);
    forall r | r in been ensures Recorded(m, v, known', w', c0', r) {
      PatchedKeepsRecorded(m, v, known, w, c0, known', w', c0', top, bottom, left, right, r);
    }
  }

  /** The clipping of 3-4.py:139-140 agrees with the server's. */
  lemma {:induction false} ClippedAlike(m: Maze, v: View, known: seq<string>, w: nat, c0: int, from: Cell)
    requires Stepped(m, v, known, w, c0, from, from)
    ensures 0 <= from.1 - c0 < w
    ensures Max(from.1 - c0 - v.hw, 0) + c0 == Left(v, from)
    ensures Min(from.1 - c0 + v.hw + 1, w) + c0 == Right(m, v, from)
  {
    ColumnsKnown(m, v, known, w, c0, from);
  }

  lemma {:induction false} RowMapInv(m: Maze, v: View, known: seq<string>, w: nat, c0: int, been: set<Cell>,
                                     from: Cell, robot: Cell, y: int)
    requires MapInv(m, v, known, w, c0, been) && from in been && Walkable(m, robot) && from.1 == robot.1
    requires (robot.0 == from.0 - 1 && y == Top(v, robot)) || (robot.0 == from.0 + 1 && y == Bottom(m, v, robot) - 1)
    ensures 0 <= y < |known| && y != robot.0
    ensures c0 <= Left(v, robot) <= Right(m, v, robot) <= c0 + w
    ensures var row := Spliced(known[y], Left(v, robot) - c0, Right(m, v, robot) - c0, Segment(m, v, robot, y));
            MapInv(m, v, known[y := row], w, c0, been + {robot})
  {
    ColumnsKnown(m, v, known, w, c0, from);
    RowPatched(m, v, known, w, c0, y, robot);
    var row := Spliced(known[y], Left(v, robot) - c0, Right(m, v, robot) - c0, Segment(m, v, robot, y));
    PatchedMapInv(m, v, known, w, c0, known[y := row], w, c0, y, y + 1, Left(v, robot), Right(m, v, robot),
                  been, from, robot);
  }

  /** `chars` is column col of the rows of the window. */
  ghost predicate IsColumn(m: Maze, v: View, robot: Cell, chars: string, col: int)
    requires Rectangular(m)
  {
    && 0 <= Top(v, robot) && Top(v, robot) + |chars| == Bottom(m, v, robot) <= |m.rows| && 0 <= col < m.width
    && forall i :: 0 <= i < |chars| ==> chars[i] == At(m, (Top(v, robot) + i, col))
  }

  lemma {:induction false} ColumnCovers(m: Maze, v: View, robot: Cell, first: bool)
    ensures Covers(m, v, (robot.0, if first then robot.1 + 1 else robot.1 - 1), robot,
                   Top(v, robot), Bottom(m, v, robot),
                   NewColumn(m, v, robot, first), NewColumn(m, v, robot, first) + 1)
  {
  }

  /** `chars` is put into the map, before it, or after it, as column col of the maze. */
  ghost predicate PutAt(known: seq<string>, w: nat, c0: int, known': seq<string>, w': nat, c0': int,
                        top: nat, chars: string, col: int) {
    || (c0 <= col < c0 + w && w' == w && c0' == c0 && IsOverwritten(known, known', top, chars, col - c0))
    || (col == c0 - 1 && w' == w + 1 && c0' == c0 - 1 && IsAdded(known, known', top, chars, true))
    || (col == c0 + w && w' == w + 1 && c0' == c0 && IsAdded(known, known', top, chars, false))
  }

  lemma {:induction false} PutPatched(m: Maze, known: seq<string>, w: nat, c0: int, known': seq<string>, w': nat,
                                      c0': int,
                                      top: nat, chars: string, col: int)
    requires ValidMaze(m) && Truthful(m, known, w, c0) && PutAt(known, w, c0, known', w', c0', top, chars, col)
    requires 0 <= col < m.width && top + |chars| <= |m.rows|
    requires forall i :: 0 <= i < |chars| ==> chars[i] == At(m, (top + i, col))
    ensures Patched(m, known, w, c0, known', w', c0', top, top + |chars|, col, col + 1)
    ensures c0' <= col < c0' + w'
  {
    if w' == w {
      OverwritePatched(m, known, w, c0, known', top, chars, col - c0);
    } else if col == c0 - 1 {
      PrependPatched(m, known, w, c0, known', top, chars);
    } else {
      AppendPatched(m, known, w, c0, known', top, chars);
    }
  }

  /** The client's map with the new column of the window put where it belongs. */
  lemma {:induction false} ColumnMapInv(m: Maze, v: View, known: seq<string>, w: nat, c0: int, been: set<Cell>,
                                        from: Cell, robot: Cell, first: bool, known': seq<string>, w': nat, c0': int, chars: string)
    requires MapInv(m, v, known, w, c0, been) && Walkable(m, robot) && from in been
    requires from == (robot.0, if first then robot.1 + 1 else robot.1 - 1)
    requires IsColumn(m, v, robot, chars, NewColumn(m, v, robot, first))
    requires PutAt(known, w, c0, known', w', c0', Top(v, robot), chars, NewColumn(m, v, robot, first))
    ensures MapInv(m, v, known', w', c0', been + {robot})
  {
    var col := NewColumn(m, v, robot, first);
    ColumnCovers(m, v, robot, first);
    PutPatched(m, known, w, c0, known', w', c0', Top(v, robot), chars, col);
    PatchedMapInv(m, v, known, w, c0, known', w', c0', Top(v, robot), Bottom(m, v, robot), col, col + 1,
                  been, from, robot);
  }
}
