/** Moves in the maze, undoing them, and what can be reached. */
module RobotWalk {
  import opened MazeMap

  predicate IsMove(c: char) {
    c == 'W' || c == 'S' || c == 'A' || c == 'D'
  }

  predicate IsMoves(p: string) {
    forall i :: 0 <= i < |p| ==> IsMove(p[i])
  }

  function Step(c: Cell, move: char): Cell {
    if move == 'W' then (c.0 - 1, c.1)
    else if move == 'S' then (c.0 + 1, c.1)
    else if move == 'A' then (c.0, c.1 - 1)
    else if move == 'D' then (c.0, c.1 + 1)
    else c
  }

  function Follow(c: Cell, p: string): Cell {
    if p == [] then c else Step(Follow(c, p[..|p| - 1]), p[|p| - 1])
  }

  /** Every cell on the way is one the robot may stand on. */
  ghost predicate LegalWalk(m: Maze, c: Cell, p: string)
    requires Rectangular(m)
  {
    IsMoves(p) && forall k :: 0 <= k <= |p| ==> Walkable(m, Follow(c, p[..k]))
  }

  /** Where the moves p lead from the start. */
  function CellOf(m: Maze, p: string): Cell {
    Follow(m.start, p)
  }

  lemma {:induction false} FollowJoin(c: Cell, p: string, q: string)
    ensures Follow(c, p + q) == Follow(Follow(c, p), q)
  {
    if q == [] {
      assert p + q == p;
    } else {
      var front := q[..|q| - 1];
      assert (p + q)[..|p + q| - 1] == p + front;
      FollowJoin(c, p, front);
    }
  }

  lemma {:induction false} LegalStep(m: Maze, c: Cell, p: string, move: char)
    requires Rectangular(m) && LegalWalk(m, c, p) && IsMove(move) && Walkable(m, Step(Follow(c, p), move))
    ensures LegalWalk(m, c, p + [move]) && Follow(c, p + [move]) == Step(Follow(c, p), move)
  {
    var q := p + [move];
    assert q[..|q| - 1] == p;
    forall k | 0 <= k <= |q| ensures Walkable(m, Follow(c, q[..k])) {
      if k <= |p| {
        assert q[..k] == p[..k];
      } else {
        assert q[..k] == q;
      }
    }
  }

  lemma {:induction false} LegalPrefix(m: Maze, c: Cell, p: string, k: nat)
    requires Rectangular(m) && LegalWalk(m, c, p) && k <= |p|
    ensures LegalWalk(m, c, p[..k])
  {
    forall j | 0 <= j <= k ensures Walkable(m, Follow(c, p[..k][..j])) {
      assert p[..k][..j] == p[..j];
    }
  }

  /** The four keys: up, down, left and right, rows counted from the top. */
  lemma MovesAre(y: int, x: int)
    ensures Follow((y, x), "W") == (y - 1, x) && Follow((y, x), "S") == (y + 1, x)
    ensures Follow((y, x), "A") == (y, x - 1) && Follow((y, x), "D") == (y, x + 1)
  {
    assert "W"[..0] == "" && "S"[..0] == "" && "A"[..0] == "" && "D"[..0] == "";
  }

  /** The order in which both searches try the keys. */
  function Rank(move: char): nat {
    if move == 'W' then 0 else if move == 'S' then 1 else if move == 'A' then 2 else 3
  }

  lemma FourKeys()
    ensures IsMove('W') && IsMove('S') && IsMove('A') && IsMove('D')
    ensures Rank('W') == 0 && Rank('S') == 1 && Rank('A') == 2 && Rank('D') == 3
  {
  }

  /** Walks of one length in the order of their keys: the first that differs decides. */
  ghost predicate Before(a: string, b: string) {
    && |a| == |b| > 0
    && var n := |a| - 1;
       Before(a[..n], b[..n]) || (a[..n] == b[..n] && Rank(a[n]) < Rank(b[n]))
  }

  /** In the words of a dictionary. */
  lemma {:induction false} BeforeIff(a: string, b: string)
    requires |a| == |b|
    ensures Before(a, b) <==> exists i :: 0 <= i < |a| && a[..i] == b[..i] && Rank(a[i]) < Rank(b[i])
  {
    if a != [] {
      var n := |a| - 1;
      BeforeIff(a[..n], b[..n]);
      if i :| 0 <= i < n && a[..n][..i] == b[..n][..i] && Rank(a[..n][i]) < Rank(b[..n][i]) {
        assert a[..n][..i] == a[..i] && b[..n][..i] == b[..i];
        assert a[..i] == b[..i] && Rank(a[i]) < Rank(b[i]);
      }
      if i :| 0 <= i < |a| && a[..i] == b[..i] && Rank(a[i]) < Rank(b[i]) {
        if i < n {
          assert a[..n][..i] == a[..i] && b[..n][..i] == b[..i] && a[..n][i] == a[i] && b[..n][i] == b[i];
        }
      }
    }
  }

  lemma {:induction false} BeforeTrans(a: string, b: string, c: string)
    requires Before(a, b) && Before(b, c)
    ensures Before(a, c)
  {
    var n := |a| - 1;
    if Before(a[..n], b[..n]) && Before(b[..n], c[..n]) {
      BeforeTrans(a[..n], b[..n], c[..n]);
    }
  }

  // ----- undoing moves -----

  function Inverse(move: char): char {
    if move == 'W' then 'S' else if move == 'S' then 'W' else if move == 'D' then 'A' else 'D'
  }

  /** The moves of p undone, last first. */
  function Undo(p: string): (r: string)
    ensures |r| == |p|
  {
    if p == [] then [] else [Inverse(p[|p| - 1])] + Undo(p[..|p| - 1])
  }

  /** One more move before a legal walk. */
  lemma {:induction false} LegalCons(m: Maze, c: Cell, move: char, q: string)
    requires Rectangular(m) && Walkable(m, c) && IsMove(move) && LegalWalk(m, Step(c, move), q)
    ensures LegalWalk(m, c, [move] + q) && Follow(c, [move] + q) == Follow(Step(c, move), q)
  {
    var p := [move] + q;
    assert [move][..0] == [] && Follow(c, [move]) == Step(c, move);
    FollowJoin(c, [move], q);
    forall k | 0 <= k <= |p| ensures Walkable(m, Follow(c, p[..k])) {
      if k > 0 {
        assert p[..k] == [move] + q[..k - 1];
        FollowJoin(c, [move], q[..k - 1]);
      }
    }
  }

  /** Undoing a legal walk is a legal walk back. */
  lemma {:induction false} UndoReturns(m: Maze, c: Cell, p: string)
    requires Rectangular(m) && LegalWalk(m, c, p)
    ensures LegalWalk(m, Follow(c, p), Undo(p)) && Follow(Follow(c, p), Undo(p)) == c
  {
    var far := LegalEnd(m, c, p);
    if p == [] {
    } else {
      var front, move := p[..|p| - 1], p[|p| - 1];
      LegalPrefix(m, c, p, |p| - 1);
      UndoReturns(m, c, front);
      StepBack(Follow(c, front), move);
      LegalCons(m, far, Inverse(move), Undo(front));
    }
  }

  lemma {:induction false} LegalEnd(m: Maze, c: Cell, p: string) returns (far: Cell)
    requires Rectangular(m) && LegalWalk(m, c, p)
    ensures far == Follow(c, p) && Walkable(m, far) && LegalWalk(m, far, [])
  {
    assert p[..|p|] == p;
    far := Follow(c, p);
  }

  lemma {:induction false} StepBack(c: Cell, move: char)
    requires IsMove(move)
    ensures IsMove(Inverse(move)) && Step(Step(c, move), Inverse(move)) == c
  {
  }

  lemma {:induction false} UndoMoves(p: string)
    requires IsMoves(p)
    ensures IsMoves(Undo(p))
  {
    if p != [] {
      UndoMoves(p[..|p| - 1]);
    }
  }

  /** Back from the end of p to the end of its prefix p[..k]. */
  lemma {:induction false} UndoSuffix(m: Maze, p: string, k: nat)
    requires Rectangular(m) && LegalWalk(m, m.start, p) && k <= |p|
    ensures LegalWalk(m, CellOf(m, p), Undo(p[k..])) && Follow(CellOf(m, p), Undo(p[k..])) == CellOf(m, p[..k])
  {
    var mid := CellOf(m, p[..k]);
    assert p == p[..k] + p[k..];
    FollowJoin(m.start, p[..k], p[k..]);
    forall j | 0 <= j <= |p[k..]| ensures Walkable(m, Follow(mid, p[k..][..j])) {
      assert p[..k + j] == p[..k] + p[k..][..j];
      FollowJoin(m.start, p[..k], p[k..][..j]);
    }
    UndoReturns(m, mid, p[k..]);
  }

  // ----- reachability -----

  predicate IsOpen(m: Maze, c: Cell)
    requires Rectangular(m)
  {
    Inside(m, c) && (At(m, c) == '.' || At(m, c) == 'E')
  }

  /** Some walk from the start leads to an exit. */
  ghost predicate ExitReachable(m: Maze)
    requires Rectangular(m)
  {
    exists p :: LegalWalk(m, m.start, p) && Inside(m, CellOf(m, p)) && At(m, CellOf(m, p)) == 'E'
  }

  /** Nothing next to the start is open. */
  ghost predicate Isolated(m: Maze)
    requires Rectangular(m)
  {
    forall move :: IsMove(move) ==> !IsOpen(m, Step(m.start, move))
  }

  /** No exit, and every open neighbour belongs to `seen`. */
  ghost predicate Done(m: Maze, seen: set<Cell>, c: Cell)
    requires Rectangular(m)
  {
    && Inside(m, c) && At(m, c) != 'E'
    && forall move :: IsMove(move) && IsOpen(m, Step(c, move)) ==> Step(c, move) in seen
  }

  /** A set that contains the start and is closed under steps contains every walk. */
  lemma {:induction false} ClosedContainsWalks(m: Maze, seen: set<Cell>, p: string)
    requires Rectangular(m) && m.start in seen && LegalWalk(m, m.start, p)
    requires forall c :: c in seen ==> Done(m, seen, c)
    ensures CellOf(m, p) in seen
  {
    if p != [] {
      LegalPrefix(m, m.start, p, |p| - 1);
      ClosedContainsWalks(m, seen, p[..|p| - 1]);
      assert Walkable(m, Follow(m.start, p[..|p|])) && p[..|p|] == p;
      assert Done(m, seen, CellOf(m, p[..|p| - 1]));
    }
  }

  lemma {:induction false} ClosedExcludesExit(m: Maze, seen: set<Cell>)
    requires Rectangular(m) && m.start in seen
    requires forall c :: c in seen ==> Done(m, seen, c)
    ensures !ExitReachable(m)
  {
    forall p | LegalWalk(m, m.start, p) && Inside(m, CellOf(m, p)) ensures At(m, CellOf(m, p)) != 'E' {
      ClosedContainsWalks(m, seen, p);
      assert Done(m, seen, CellOf(m, p));
    }
  }

  lemma {:induction false} WalkLeavesStart(m: Maze, p: string)
    requires Rectangular(m) && p != [] && LegalWalk(m, m.start, p)
    ensures !Isolated(m)
  {
    assert Walkable(m, Follow(m.start, p[..1]));
    assert p[..1][..0] == [];
    assert Follow(m.start, p[..1]) == Step(m.start, p[0]);
    assert IsMove(p[0]);
  }

  // ----- a maze without a way out -----

  const WALLED_OFF := Maze(["######", "#*.#E#", "######"], 6, (1, 1))

  /** The start has an open neighbour, and the only exit is walled off: the search neither finds the exit
      nor returns. */
  lemma WalledOffExample()
    ensures ValidMaze(WALLED_OFF) && !ExitReachable(WALLED_OFF) && !Isolated(WALLED_OFF)
  {
    var m, a, b := WALLED_OFF, (1, 1), (1, 2);
    var seen: set<Cell> := {a, b};
    assert Rectangular(m);
    assert IsMove('D') && IsOpen(m, Step(m.start, 'D'));
    assert Done(m, seen, a) && Done(m, seen, b);
    ClosedExcludesExit(m, seen);
  }
}
