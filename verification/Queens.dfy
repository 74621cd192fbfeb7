/** np-lab7/solve.cpp: backtracking from a board with preset queens. */
module Queens {
  import opened SetFacts

  /** Row of the queen in each column, counted from 1; 0 where there is none. */
  type Board = seq<int>

  function Abs(x: int): nat {
    if x < 0 then -x else x
  }

  /** The casts of solve.cpp. */
  function Uint8(x: int): int {
    x % 256
  }

  function Int8(x: int): int {
    if x % 256 < 128 then x % 256 else x % 256 - 256
  }

  predicate Attacks(c: int, r: int, d: int, q: int) {
    r == q || Abs(c - d) == Abs(r - q)
  }

  predicate IsBoard(b: Board) {
    forall c :: 0 <= c < |b| ==> 0 <= b[c] <= |b|
  }

  /** What the integer types of solve.cpp can carry: rows fit uint8_t, the index of a column that is
      still to be filled fits int8_t. */
  predicate Representable(b: Board) {
    |b| <= 255 && forall c :: 0 <= c < |b| && b[c] == 0 ==> c <= 127
  }

  predicate IsPlacement(b: Board) {
    forall c :: 0 <= c < |b| ==> 1 <= b[c] <= |b|
  }

  predicate Extends(b: Board, f: Board) {
    |f| == |b| && forall c :: 0 <= c < |b| && b[c] != 0 ==> f[c] == b[c]
  }

  /** No two queens on the board attack each other. */
  predicate NonAttacking(b: Board) {
    forall c, d :: 0 <= c < |b| && 0 <= d < |b| && c != d && b[c] != 0 && b[d] != 0 ==> !Attacks(c, b[c], d, b[d])
  }

  /** A full placement in which only queens that were already on b may attack each other. */
  ghost predicate Solves(b: Board, f: Board) {
    && Extends(b, f) && IsPlacement(f)
    && forall c, d :: 0 <= c < |b| && 0 <= d < |b| && c != d && (b[c] == 0 || b[d] == 0) ==> !Attacks(c, f[c], d, f[d])
  }

  /** A queen in column c, row r is attacked by none on the board. */
  predicate Safe(b: Board, c: int, r: int) {
    forall d :: 0 <= d < |b| && b[d] != 0 ==> !Attacks(d, b[d], c, r)
  }

  /** f is g, or has the lower row in the first column where they differ. */
  ghost predicate NotAfter(f: Board, g: Board) {
    f == g || exists c :: 0 <= c < |f| && c < |g| && f[..c] == g[..c] && f[c] < g[c]
  }

  /** Of all solutions, f is the first when columns are compared from the left. */
  ghost predicate IsFirst(b: Board, f: Board) {
    forall g :: Solves(b, g) ==> NotAfter(f, g)
  }

  function Free(b: Board): set<int> {
    set c | 0 <= c < |b| && b[c] == 0
  }

  // ----- one more queen -----

  /** Placing a safe queen loses no solution that has it there, and adds none. */
  lemma {:induction false} PlaceSafe(b: Board, c: int, r: int, f: Board)
    requires 0 <= c < |b| && b[c] == 0 && 1 <= r <= |b| && Safe(b, c, r)
    ensures Solves(b[c := r], f) <==> Solves(b, f) && f[c] == r
  {
    var b' := b[c := r];
    if Solves(b', f) {
      assert f[c] == b'[c] == r;
      forall x, y | 0 <= x < |b| && 0 <= y < |b| && x != y && (b[x] == 0 || b[y] == 0)
        ensures !Attacks(x, f[x], y, f[y])
      {
        if x == c && b[y] != 0 {
          assert f[y] == b'[y] == b[y] && !Attacks(y, b[y], c, r);
        } else if y == c && b[x] != 0 {
          assert f[x] == b'[x] == b[x] && !Attacks(x, b[x], c, r);
        } else {
          assert b'[x] == 0 || b'[y] == 0;
        }
      }
    }
  }

  lemma {:induction false} UnsafeIsHopeless(b: Board, c: int, r: int, f: Board)
    requires 0 <= c < |b| && b[c] == 0 && !Safe(b, c, r) && |f| == |b| && f[c] == r
    ensures !Solves(b, f)
  {
    var d :| 0 <= d < |b| && b[d] != 0 && Attacks(d, b[d], c, r);
    assert Extends(b, f) ==> f[d] == b[d];
  }

  /** The first solution with the lowest row that has one in the first free column is the first of all. */
  lemma {:induction false} FirstInColumn(b: Board, c: int, r: int, f: Board)
    requires 0 <= c < |b| && b[c] == 0 && 1 <= r <= |b| && Safe(b, c, r) && (forall d :: 0 <= d < c ==> b[d] != 0)
    requires Solves(b[c := r], f) && IsFirst(b[c := r], f) && forall g :: Solves(b, g) ==> g[c] >= r
    ensures Solves(b, f) && IsFirst(b, f)
  {
    PlaceSafe(b, c, r, f);
    forall g | Solves(b, g) ensures NotAfter(f, g) {
      if g[c] == r {
        PlaceSafe(b, c, r, g);
      } else {
        assert f[..c] == g[..c];
      }
    }
  }

  // ----- the squares pushed to target -----

  /** The squares of row x from column y on. */
  function RowSquares(f: Board, x: int, y: nat): seq<(int, int)>
    requires y <= |f|
    decreases |f| - y
  {
    if y == |f| then []
    else (if f[y] == x + 1 then [(x, y as int)] else []) + RowSquares(f, x, y + 1)
  }

  function Squares(f: Board, x: nat): seq<(int, int)>
    requires x <= |f|
    decreases |f| - x
  {
    if x == |f| then [] else RowSquares(f, x, 0) + Squares(f, x + 1)
  }

  ghost function RowsOf(f: Board, k: nat): (r: set<int>)
    requires k <= |f|
    ensures forall v :: v in r <==> exists c :: 0 <= c < k && f[c] == v
  {
    if k == 0 then {} else RowsOf(f, k - 1) + {f[k - 1]}
  }

  lemma {:induction false} RowsDiffer(f: Board, c: int, d: int)
    requires IsPlacement(f) && NonAttacking(f) && 0 <= c < |f| && 0 <= d < |f| && c != d
    ensures f[c] != f[d]
  {
    assert !Attacks(c, f[c], d, f[d]);
  }

  lemma {:induction false} DistinctRows(f: Board, k: nat)
    requires IsPlacement(f) && NonAttacking(f) && k <= |f|
    ensures |RowsOf(f, k)| == k
  {
    hide IsPlacement, NonAttacking;
    if k > 0 {
      DistinctRows(f, k - 1);
      forall c | 0 <= c < k - 1 ensures f[c] != f[k - 1] {
        RowsDiffer(f, c, k - 1);
      }
      var before := RowsOf(f, k - 1);
      assert f[k - 1] !in before;
      assert RowsOf(f, k) == before + {f[k - 1]};
    }
  }

  /** A placement with distinct rows has a queen in every row. */
  lemma {:induction false} EveryRow(f: Board, x: nat) returns (y: int)
    requires IsPlacement(f) && NonAttacking(f) && x < |f|
    ensures 0 <= y < |f| && f[y] == x + 1
  {
    hide NonAttacking;
    DistinctRows(f, |f|);
    AllRows(RowsOf(f, |f|), |f|);
    assert x + 1 in RowsOf(f, |f|);
    y :| 0 <= y < |f| && f[y] == x + 1;
  }

  lemma {:induction false} AllRows(rows: set<int>, n: nat)
    requires |rows| == n && forall v :: v in rows ==> 1 <= v <= n
    ensures forall v :: 1 <= v <= n ==> v in rows
  {
    var all := Range(n + 1) - {0};
    assert rows <= all;
    if rows != all {
      ProperSubsetSize(rows, all);
    }
  }

  /** From column y on, the row's only queen stands in column q. */
  lemma {:induction false} OneSquare(f: Board, x: int, q: int, y: nat)
    requires IsPlacement(f) && NonAttacking(f) && 0 <= q < |f| && f[q] == x + 1 && y <= |f|
    ensures RowSquares(f, x, y) == if y <= q then [(x, q)] else []
    decreases |f| - y
  {
    if y < |f| {
      OneSquare(f, x, q, y + 1);
      if y != q {
        assert !Attacks(y, f[y], q, f[q]);
      }
    }
  }

  /** On a non-attacking placement, target gets exactly one square per row, in row order. */
  lemma {:induction false} OneSquarePerRow(f: Board, x: nat)
    requires IsPlacement(f) && NonAttacking(f) && x <= |f|
    ensures |Squares(f, x)| == |f| - x
    ensures forall i :: 0 <= i < |f| - x ==>
              var (r, c) := Squares(f, x)[i]; r == x + i && 0 <= c < |f| && f[c] == r + 1
    decreases |f| - x
  {
    if x < |f| {
      var q := EveryRow(f, x);
      OneSquare(f, x, q, 0);
      OneSquarePerRow(f, x + 1);
      assert Squares(f, x) == [(x as int, q)] + Squares(f, x + 1);
    }
  }

  /** Attacks run along a row and along both diagonals. */
  lemma AttacksAlongLines(c: int, r: int, d: int, q: int)
    ensures Attacks(c, r, d, q) <==> r == q || c - r == d - q || c + r == d + q
  {
  }

  // ----- solve -----

  function Placed(b: Board, idx: int, row: int): Board
    requires idx < |b|
  {
    if idx >= 0 then b[idx := row] else b
  }

  /** The map built from the board: the columns with a queen and their rows. */
  ghost predicate MapsQueens(queens: map<int, int>, b: Board) {
    && (forall c :: c in queens <==> 0 <= c < |b| && b[c] != 0)
    && (forall c :: c in queens ==> queens[c] == b[c])
  }

  /** The comparison of solve.cpp:52-54 in uint8_t is the attack test. */
  lemma ComparisonIsAttack(c: int, r: int, sz: int, num: int)
    requires 0 <= c < 256 && 0 <= sz < 256 && 0 <= r < 256 && 0 <= num < 256
    ensures num == r || Uint8(Abs(c - Uint8(sz))) == Uint8(Abs(r - Uint8(num))) <==> Attacks(c, r, sz, num)
  {
  }

  /** The loop of solve.cpp:51-58 over the queens in any order. */
  method Conflicts(queens: map<int, int>, sz: int, num: int, ghost b: Board) returns (conflict: bool)
    requires |b| <= 255 && IsBoard(b) && 0 <= sz < |b| && 1 <= num <= |b| && MapsQueens(queens, b)
    ensures conflict <==> !Safe(b, sz, num)
  {
    hide Attacks, Uint8, Abs;
    conflict := false;
    var left: set<int> := queens.Keys;
    while exists c :: c in left
      invariant left <= queens.Keys
      invariant forall c :: c in queens && c !in left ==> !Attacks(c, b[c], sz, num)
      decreases |left|
    {
      var c :| c in left;
      left := left - {c};
      ComparisonIsAttack(c, queens[c], sz, num);
      var one := Uint8(Abs(c - Uint8(sz)));
      var two := Uint8(Abs(queens[c] - Uint8(num)));
      if num == queens[c] || one == two {
        conflict := true;
        return;
      }
    }
  }

  class Solver {
    var target: seq<(int, int)>

    constructor ()
      ensures target == []
    {
      target := [];
    }

    /** One row of the printing loops of solve.cpp:30-41. */
    method PushRow(f: Board, x: int)
      modifies this
      ensures target == old(target) + RowSquares(f, x, 0)
    {
      for y := 0 to |f|
        invariant target + RowSquares(f, x, y) == old(target) + RowSquares(f, x, 0)
      {
        ghost var here := if f[y] == x + 1 then [(x, y as int)] else [];
        assert target + RowSquares(f, x, y) == (target + here) + RowSquares(f, x, y + 1);
        if f[y] == x + 1 {
          target := target + [(x, y)];
        } else {
          assert target + here == target;
        }
      }
    }

    method PushSquares(f: Board)
      modifies this
      ensures target == old(target) + Squares(f, 0)
    {
      for x := 0 to |f|
        invariant target + Squares(f, x) == old(target) + Squares(f, 0)
      {
        assert target + Squares(f, x) == (target + RowSquares(f, x, 0)) + Squares(f, x + 1);
        PushRow(f, x);
      }
    }

    /** solve: true exactly when the board with the given queen can be filled up so that no queen that
        was placed is attacked; then target has gained the squares of the first such placement. */
    method Solve(board: Board, idx: int, row: int) returns (found: bool, ghost f: Board)
      requires idx < |board| && IsBoard(Placed(board, idx, row)) && Representable(Placed(board, idx, row))
      modifies this
      ensures found ==> Solves(Placed(board, idx, row), f) && target == old(target) + Squares(f, 0)
      ensures found ==> IsFirst(Placed(board, idx, row), f)
      ensures !found ==> target == old(target) && forall g :: !Solves(Placed(board, idx, row), g)
      decreases |Free(Placed(board, idx, row))|
    {
      var b := board;
      f := [];
      if idx >= 0 {
        b := b[idx := row];
      }
      var queens: map<int, int> := map[];
      for sz := 0 to |b|
        invariant forall c :: c in queens <==> 0 <= c < sz && b[c] != 0
        invariant forall c :: c in queens ==> queens[c] == b[c]
      {
        if b[sz] != 0 {
          queens := queens[sz := b[sz]];
        }
      }
      if |queens| == |b| {
        AllPlaced(b, queens);
        PushSquares(b);
        f := b;
        return true, f;
      }
      for sz := 0 to |b|
        invariant target == old(target)
        invariant forall c :: 0 <= c < sz ==> b[c] != 0
      {
        if sz !in queens {
          found, f := TryColumn(b, queens, sz);
          return;
        }
      }
      NotAllPlaced(b, queens);
      return false, f;
    }

    /** The rows of the first free column, in order. */
    method TryColumn(b: Board, queens: map<int, int>, sz: nat) returns (found: bool, ghost f: Board)
      requires IsBoard(b) && Representable(b) && sz < |b| && b[sz] == 0
      requires MapsQueens(queens, b) && forall c :: 0 <= c < sz ==> b[c] != 0
      modifies this
      ensures found ==> Solves(b, f) && target == old(target) + Squares(f, 0) && IsFirst(b, f)
      ensures !found ==> target == old(target) && forall g :: !Solves(b, g)
      decreases |Free(b)|, 0
    {
      f := [];
      for num := 1 to |b| + 1
        invariant target == old(target)
        invariant forall g :: Solves(b, g) ==> g[sz] >= num
      {
        var conflict := Conflicts(queens, sz, num, b);
        if conflict {
          forall g | Solves(b, g) ensures g[sz] != num {
            if g[sz] == num {
              UnsafeIsHopeless(b, sz, num, g);
            }
          }
        } else {
          FewerFree(b, sz, num);
          found, f := Solve(b, Int8(sz), num);
          if found {
            FirstInColumn(b, sz, num, f);
            return true, f;
          }
          forall g | Solves(b, g) ensures g[sz] != num {
            PlaceSafe(b, sz, num, g);
          }
        }
      }
      return false, f;
    }
  }

  lemma {:induction false} FewerFree(b: Board, c: int, r: int)
    requires 0 <= c < |b| && b[c] == 0 && 1 <= r <= |b| && IsBoard(b) && Representable(b)
    ensures |Free(b[c := r])| < |Free(b)| && IsBoard(b[c := r]) && Representable(b[c := r])
  {
    assert Free(b) == Free(b[c := r]) + {c};
  }

  lemma {:induction false} AllPlaced(b: Board, queens: map<int, int>)
    requires IsBoard(b) && |queens| == |b| && MapsQueens(queens, b)
    ensures Solves(b, b) && IsFirst(b, b)
  {
    assert queens.Keys <= Range(|b|);
    if queens.Keys != Range(|b|) {
      ProperSubsetSize(queens.Keys, Range(|b|));
    }
    forall c | 0 <= c < |b| ensures b[c] != 0 {
      assert c in queens.Keys;
    }
    forall g | Solves(b, g) ensures NotAfter(b, g) {
      assert b == g;
    }
  }

  lemma {:induction false} NotAllPlaced(b: Board, queens: map<int, int>)
    requires |queens| != |b| && MapsQueens(queens, b)
    ensures exists c :: 0 <= c < |b| && b[c] == 0
  {
    assert (forall c :: 0 <= c < |b| ==> b[c] != 0) ==> queens.Keys == Range(|b|);
  }

  // ----- what main relies on -----

  /** When the preset queens do not attack each other, the solutions are the non-attacking placements
      that extend them. */
  lemma {:induction false} SolvesIffNonAttacking(b: Board, f: Board)
    requires IsBoard(b) && NonAttacking(b)
    ensures Solves(b, f) <==> Extends(b, f) && IsPlacement(f) && NonAttacking(f)
  {
    if Solves(b, f) {
      forall c, d | 0 <= c < |f| && 0 <= d < |f| && c != d ensures !Attacks(c, f[c], d, f[d]) {
        if b[c] != 0 && b[d] != 0 {
          assert !Attacks(c, b[c], d, b[d]);
        }
      }
    }
  }

  /** A placement that solve finds is free of attacks exactly when the presets were. */
  lemma {:induction false} FoundIsValidIff(b: Board, f: Board)
    requires IsBoard(b) && Solves(b, f)
    ensures NonAttacking(f) <==> NonAttacking(b)
  {
    if NonAttacking(b) {
      SolvesIffNonAttacking(b, f);
    }
    if NonAttacking(f) {
      forall c, d | 0 <= c < |b| && 0 <= d < |b| && c != d && b[c] != 0 && b[d] != 0
        ensures !Attacks(c, b[c], d, b[d])
      {
        assert !Attacks(c, f[c], d, f[d]);
      }
    }
  }

  /** Two presets in one row: solve still answers true, with attacking queens. */
  lemma AttackingPresetsExample()
    ensures var b := [1, 1]; IsBoard(b) && !NonAttacking(b) && Solves(b, b)
  {
    var b := [1, 1];
    assert Attacks(0, b[0], 1, b[1]);
  }

  /** The call of main: found exactly when the presets extend to a full non-attacking placement, and then
      target is one square per row, in row order, of the first such placement. */
  method SolveBoard(b: Board) returns (found: bool, target: seq<(int, int)>)
    requires IsBoard(b) && NonAttacking(b) && Representable(b)
    ensures found <==> exists f :: Extends(b, f) && IsPlacement(f) && NonAttacking(f)
    ensures found ==>
              && |target| == |b|
              && (forall i :: 0 <= i < |b| ==> target[i].0 == i && 0 <= target[i].1 < |b|)
              && (exists f :: Extends(b, f) && IsPlacement(f) && NonAttacking(f) && IsFirst(b, f)
                    && forall i :: 0 <= i < |b| ==> f[target[i].1] == i + 1)
  {
    var solver := new Solver();
    ghost var f;
    found, f := solver.Solve(b, -1, 0);
    target := solver.target;
    if found {
      SolvesIffNonAttacking(b, f);
      OneSquarePerRow(f, 0);
      assert target == Squares(f, 0);
    } else {
      forall g | Extends(b, g) && IsPlacement(g) && NonAttacking(g) ensures false {
        SolvesIffNonAttacking(b, g);
      }
    }
  }
}
