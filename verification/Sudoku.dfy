/** Sudoku by elimination: the candidates of a cell are cleared until one is left, and no solution is lost. */
module Sudoku {
  predicate InGrid(i: int, j: int) { 0 <= i < 9 && 0 <= j < 9 }

  predicate InCube(i: int, j: int, k: int) { InGrid(i, j) && 0 <= k < 9 }

  /** Two cells in one line of either direction or in one square. */
  predicate SameUnit(a: int, b: int, i: int, j: int) {
    a == i || b == j || (a / 3 == i / 3 && b / 3 == j / 3)
  }

  // ------------------------------------------------------------------ completed grids

  type Grid = seq<seq<int>>

  ghost predicate IsGrid(g: Grid) {
    |g| == 9 && (forall i :: 0 <= i < 9 ==> |g[i]| == 9) && forall i, j :: InGrid(i, j) ==> 1 <= g[i][j] <= 9
  }

  ghost predicate Completed(g: Grid) {
    IsGrid(g) && forall a, b, i, j | InGrid(a, b) && InGrid(i, j) :: Differ(g, a, b, i, j)
  }

  ghost predicate Differ(g: Grid, a: int, b: int, i: int, j: int)
    requires IsGrid(g) && InGrid(a, b) && InGrid(i, j)
  {
    SameUnit(a, b, i, j) && (a, b) != (i, j) ==> g[a][b] != g[i][j]
  }

  ghost function Seen(s: seq<int>, n: nat): set<int>
    requires n <= |s|
  {
    set k | 0 <= k < n :: s[k]
  }

  /** Nine different digits leave none out. */
  lemma Pigeonhole(s: seq<int>, v: int)
    requires |s| == 9 && (forall k :: 0 <= k < 9 ==> 1 <= s[k] <= 9) && 1 <= v <= 9
    requires forall k, l :: 0 <= k < l < 9 ==> s[k] != s[l]
    ensures v in s
  {
    Distinct(s, 9);
    var digits := {1, 2, 3, 4, 5, 6, 7, 8, 9};
    var seen := Seen(s, 9);
    if v !in s {
      assert seen <= digits - {v};
      Smaller(seen, digits - {v});
    }
  }

  lemma {:induction false} Distinct(s: seq<int>, n: nat)
    requires n <= |s| && forall k, l :: 0 <= k < l < n ==> s[k] != s[l]
    ensures |Seen(s, n)| == n
  {
    if n > 0 {
      Distinct(s, n - 1);
      assert Seen(s, n) == Seen(s, n - 1) + {s[n - 1]};
    }
  }

  lemma {:induction false} Smaller<T>(a: set<T>, b: set<T>)
    requires a <= b
    ensures |a| <= |b|
  {
    if a != {} {
      var x :| x in a;
      Smaller(a - {x}, b - {x});
    }
  }

  /** Every digit stands in every line of either direction. */
  lemma InEveryLine(g: Grid, i: int, v: int)
    requires Completed(g) && 0 <= i < 9 && 1 <= v <= 9
    ensures exists k :: 0 <= k < 9 && g[i][k] == v
    ensures exists k :: 0 <= k < 9 && g[k][i] == v
  {
    forall k, l | 0 <= k < l < 9 ensures g[i][k] != g[i][l] && g[k][i] != g[l][i] {
      assert Differ(g, i, k, i, l) && Differ(g, k, i, l, i);
    }
    Pigeonhole(g[i], v);
    var other := seq(9, k requires 0 <= k < 9 => g[k][i]);
    Pigeonhole(other, v);
    var k :| 0 <= k < 9 && other[k] == v;
    assert g[k][i] == v;
  }

  function SquareOf(g: Grid, u: int, w: int): (s: seq<int>)
    requires IsGrid(g) && 0 <= u < 3 && 0 <= w < 3
    ensures |s| == 9 && forall k :: 0 <= k < 9 ==> s[k] == g[3 * u + k / 3][3 * w + k % 3]
  {
    seq(9, k requires 0 <= k < 9 => g[3 * u + k / 3][3 * w + k % 3])
  }

  /** And in every square. */
  lemma InEverySquare(g: Grid, i: int, j: int, v: int)
    requires Completed(g) && InGrid(i, j) && 1 <= v <= 9
    ensures exists a, b :: InGrid(a, b) && a / 3 == i / 3 && b / 3 == j / 3 && g[a][b] == v
  {
    hide Differ, SquareOf;
    var u, w := i / 3, j / 3;
    var square := SquareOf(g, u, w);
    forall k | 0 <= k < 9 ensures 1 <= square[k] <= 9 { assert InGrid(3 * u + k / 3, 3 * w + k % 3); }
    forall k, l | 0 <= k < l < 9 ensures square[k] != square[l] { SquareDiffers(g, u, w, k, l); }
    Pigeonhole(square, v);
    var k :| 0 <= k < 9 && square[k] == v;
    assert InGrid(3 * u + k / 3, 3 * w + k % 3);
  }

  lemma SquareDiffers(g: Grid, u: int, w: int, k: int, l: int)
    requires Completed(g) && 0 <= u < 3 && 0 <= w < 3 && 0 <= k < l < 9
    ensures g[3 * u + k / 3][3 * w + k % 3] != g[3 * u + l / 3][3 * w + l % 3]
  {
    assert Differ(g, 3 * u + k / 3, 3 * w + k % 3, 3 * u + l / 3, 3 * w + l % 3);
  }

  // ------------------------------------------------------------------ the solver

  class Solver {
    const data: array3<bool>        // data[i, j, k]: digit k + 1 is a candidate of cell (i, j)
    const checked: array2<int>      // the digit of a fixed cell, 0 for an open cell
    const nominee: array2<int>      // how many candidates an open cell has
    var countCell: int
    var countPossibility: int

    ghost predicate Shape() {
      && data.Length0 == 9 && data.Length1 == 9 && data.Length2 == 9
      && checked.Length0 == 9 && checked.Length1 == 9
      && nominee.Length0 == 9 && nominee.Length1 == 9
      && checked != nominee
    }

    ghost predicate IsOpen(i: int, j: int)
      requires Shape() && InGrid(i, j)
      reads checked
    {
      checked[i, j] == 0
    }

    ghost function Cands(i: int, j: int): set<int>
      requires Shape() && InGrid(i, j)
      reads data
    {
      set k | 0 <= k < 9 && data[i, j, k]
    }

    /** The candidates of all open cells. */
    ghost function OpenCands(): set<(int, int, int)>
      requires Shape()
      reads checked, data
    {
      set i, j, k | 0 <= i < 9 && 0 <= j < 9 && 0 <= k < 9 && checked[i, j] == 0 && data[i, j, k] :: (i, j, k)
    }

    /** A fixed cell carries its own candidate and no other. */
    ghost predicate FixedCell(i: int, j: int)
      requires Shape() && InGrid(i, j)
      reads checked, data
    {
      && 0 <= checked[i, j] <= 9
      && (checked[i, j] != 0 ==> forall k :: 0 <= k < 9 ==> (data[i, j, k] <==> k == checked[i, j] - 1))
    }

    ghost predicate CellCount(i: int, j: int)
      requires Shape() && InGrid(i, j)
      reads checked, data, nominee
    {
      nominee[i, j] == if checked[i, j] == 0 then |Cands(i, j)| else 0
    }

    ghost predicate Valid()
      reads this, data, checked, nominee
    {
      && Shape()
      && (forall i, j :: InGrid(i, j) ==> FixedCell(i, j))
      && (forall i, j :: InGrid(i, j) ==> CellCount(i, j))
      && countPossibility == |OpenCands()|
    }

    /** The grid may still come out. */
    ghost predicate Allows(g: Grid)
      requires Shape() && IsGrid(g)
      reads data
    {
      forall i, j :: InGrid(i, j) ==> data[i, j, g[i][j] - 1]
    }

    /** As much of this as the sweeps need: the digits of fixed cells are digits. */
    ghost predicate Tables()
      reads checked
    {
      Shape() && forall i, j :: InGrid(i, j) ==> 0 <= checked[i, j] <= 9
    }

    /** How far the counters are from the real numbers. */
    ghost function CellDrift(i: int, j: int): int
      requires Shape() && InGrid(i, j)
      reads data, nominee
    {
      nominee[i, j] - |Cands(i, j)|
    }

    ghost function Drift(): int
      requires Shape()
      reads this, checked, data
    {
      countPossibility - |OpenCands()|
    }

    lemma ValidTables()
      requires Valid()
      ensures Tables()
    {
      forall i, j | InGrid(i, j) ensures 0 <= checked[i, j] <= 9 { assert FixedCell(i, j); }
    }

    /** One candidate of an open cell is cleared: the counters go with the real numbers. */
    method Erase(i: int, j: int, k: int)
      requires Shape() && InCube(i, j, k) && checked[i, j] == 0 && data[i, j, k]
      modifies data, nominee, this`countPossibility
      ensures old(Valid()) ==> Valid()
      ensures !data[i, j, k]
      ensures forall a, b, c :: InCube(a, b, c) && (a, b, c) != (i, j, k) ==> data[a, b, c] == old(data[a, b, c])
      ensures forall a, b :: InGrid(a, b) ==> CellDrift(a, b) == old(CellDrift(a, b))
      ensures Drift() == old(Drift())
    {
      ghost var before := OpenCands();
      ghost var cands := Cands(i, j);
      nominee[i, j] := nominee[i, j] - 1;
      countPossibility := countPossibility - 1;
      data[i, j, k] := false;
      assert OpenCands() == before - {(i, j, k)};
      assert Cands(i, j) == cands - {k};
      forall a, b | InGrid(a, b)
        ensures (a, b) != (i, j) ==> Cands(a, b) == old(Cands(a, b)) && nominee[a, b] == old(nominee[a, b])
        ensures old(FixedCell(a, b)) ==> FixedCell(a, b)
        ensures old(CellCount(a, b)) ==> CellCount(a, b)
      {
      }
    }

    method EraseIfOpen(i: int, j: int, k: int)
      requires Shape() && InCube(i, j, k)
      modifies data, nominee, this`countPossibility
      ensures old(Valid()) ==> Valid()
      ensures forall a, b, c :: InCube(a, b, c) ==>
        (data[a, b, c] <==> old(data[a, b, c]) && !((a, b, c) == (i, j, k) && IsOpen(i, j)))
      ensures forall a, b :: InGrid(a, b) ==> CellDrift(a, b) == old(CellDrift(a, b))
      ensures Drift() == old(Drift())
    {
      if checked[i, j] == 0 && data[i, j, k] { Erase(i, j, k); }
    }

    /** Place (a, b, c) comes before (i, j, n) in the tables. */
    static predicate Visited(i: int, j: int, n: int, a: int, b: int, c: int) {
      a < i || (a == i && (b < j || (b == j && c < n)))
    }

    // ------------------------------------------------------------------ the start

    /** Before start: the givens have been entered and nothing has been counted. */
    ghost predicate Prepared()
      reads this, data, checked, nominee
    {
      && Shape()
      && (forall i, j :: InGrid(i, j) ==> FixedCell(i, j) && nominee[i, j] == 9)
      && countCell == 0 && countPossibility == 0
    }

    ghost function FixedCells(): set<(int, int)>
      requires Shape()
      reads checked
    {
      set i, j | 0 <= i < 9 && 0 <= j < 9 && checked[i, j] != 0 :: (i, j)
    }

    constructor ()
      ensures Prepared() && FixedCells() == {}
      ensures forall a, b, c :: InCube(a, b, c) ==> IsOpen(a, b) && !data[a, b, c]
      ensures fresh(data) && fresh(checked) && fresh(nominee)
    {
      data := new bool[9, 9, 9]((i, j, k) => false);
      checked := new int[9, 9]((i, j) => 0);
      nominee := new int[9, 9]((i, j) => 9);
      countCell, countPossibility := 0, 0;
    }

    /** A given digit. */
    method Unit(i: int, j: int, v: int)
      requires Prepared() && InGrid(i, j) && 1 <= v <= 9 && IsOpen(i, j)
      requires forall k :: 0 <= k < 9 ==> !data[i, j, k]
      modifies data, checked
      ensures Prepared() && checked[i, j] == v
      ensures forall a, b :: InGrid(a, b) && (a, b) != (i, j) ==> checked[a, b] == old(checked[a, b])
      ensures forall a, b, c :: InCube(a, b, c) && (a, b) != (i, j) ==> data[a, b, c] == old(data[a, b, c])
    {
      data[i, j, v - 1] := true;
      checked[i, j] := v;
      forall a, b | InGrid(a, b) ensures FixedCell(a, b) { assert old(FixedCell(a, b)); }
    }

    /** The fixed cells, and the candidates of the open cells, before a place of the tables. */
    ghost function FixedBefore(p: int, q: int): set<(int, int)>
      requires Shape()
      reads checked
    {
      set i, j | 0 <= i < 9 && 0 <= j < 9 && Visited(p, q, 0, i, j, 0) && checked[i, j] != 0 :: (i, j)
    }

    ghost function OpenBefore(p: int, q: int, m: int): set<(int, int, int)>
      requires Shape()
      reads checked
    {
      set i, j, k | 0 <= i < 9 && 0 <= j < 9 && 0 <= k < 9 && Visited(p, q, m, i, j, k) && checked[i, j] == 0
        :: (i, j, k)
    }

    ghost predicate Agrees(g: Grid)
      requires Shape() && IsGrid(g)
      reads checked
    {
      forall i, j :: InGrid(i, j) && checked[i, j] != 0 ==> g[i][j] == checked[i, j]
    }

    /** Every candidate of the open cells is there; what the candidates allow is what agrees with the givens. */
    method Start()
      requires Prepared()
      modifies this, data, nominee
      ensures Valid() && countCell == |FixedCells()|
      ensures forall a, b, c :: InCube(a, b, c) && IsOpen(a, b) ==> data[a, b, c]
      ensures forall g :: IsGrid(g) ==> (Allows(g) <==> Agrees(g))
    {
      hide FixedCell;
      for i := 0 to 9
        invariant Starting(i, 0)
        invariant forall a, b :: InGrid(a, b) ==> FixedCell(a, b)
      {
        for j := 0 to 9
          invariant Starting(i, j)
          invariant forall a, b :: InGrid(a, b) ==> FixedCell(a, b)
        {
          StartCell(i, j);
        }
        LineDone(i);
      }
      AllDone();
    }

    ghost predicate Starting(p: int, q: int)
      reads this, data, checked, nominee
    {
      && Shape()
      && countCell == |FixedBefore(p, q)| && countPossibility == |OpenBefore(p, q, 0)|
      && (forall a, b :: InGrid(a, b) ==>
            nominee[a, b] == if Visited(p, q, 0, a, b, 0) && checked[a, b] != 0 then 0 else 9)
      && (forall a, b, c :: InCube(a, b, c) && Visited(p, q, 0, a, b, c) && checked[a, b] == 0 ==> data[a, b, c])
    }

    method StartCell(i: int, j: int)
      requires Starting(i, j) && InGrid(i, j) && forall a, b :: InGrid(a, b) ==> FixedCell(a, b)
      modifies this, data, nominee
      ensures Starting(i, j + 1) && forall a, b :: InGrid(a, b) ==> FixedCell(a, b)
    {
      hide FixedCell;
      if checked[i, j] != 0 {
        assert FixedBefore(i, j + 1) == FixedBefore(i, j) + {(i, j)};
        assert OpenBefore(i, j + 1, 0) == OpenBefore(i, j, 0);
        countCell := countCell + 1;
        nominee[i, j] := 0;
      } else {
        assert FixedBefore(i, j + 1) == FixedBefore(i, j);
        FillCell(i, j);
        assert OpenBefore(i, j + 1, 0) == OpenBefore(i, j, 9);
      }
    }

    method FillCell(i: int, j: int)
      requires Shape() && InGrid(i, j) && IsOpen(i, j) && countPossibility == |OpenBefore(i, j, 0)|
      requires forall a, b :: InGrid(a, b) ==> FixedCell(a, b)
      modifies this`countPossibility, data
      ensures forall a, b :: InGrid(a, b) ==> FixedCell(a, b)
      ensures countPossibility == |OpenBefore(i, j, 9)|
      ensures forall a, b, c :: InCube(a, b, c) ==> (data[a, b, c] <==> old(data[a, b, c]) || (a, b) == (i, j))
    {
      hide OpenBefore;
      for n := 0 to 9
        invariant countPossibility == |OpenBefore(i, j, n)|
        invariant forall a, b, c :: InCube(a, b, c) ==>
          (data[a, b, c] <==> old(data[a, b, c]) || ((a, b) == (i, j) && c < n))
      {
        OpenNext(i, j, n);
        data[i, j, n] := true;
        countPossibility := countPossibility + 1;
      }
      forall a, b | InGrid(a, b) ensures FixedCell(a, b) { assert old(FixedCell(a, b)); }
    }

    lemma OpenNext(i: int, j: int, n: int)
      requires Shape() && InCube(i, j, n) && IsOpen(i, j)
      ensures (i, j, n) !in OpenBefore(i, j, n)
      ensures OpenBefore(i, j, n + 1) == OpenBefore(i, j, n) + {(i, j, n)}
    {
    }

    lemma LineDone(i: int)
      requires Starting(i, 9) && 0 <= i < 9
      ensures Starting(i + 1, 0)
    {
      assert FixedBefore(i, 9) == FixedBefore(i + 1, 0);
      assert OpenBefore(i, 9, 0) == OpenBefore(i + 1, 0, 0);
    }

    lemma AllDone()
      requires Starting(9, 0) && forall a, b :: InGrid(a, b) ==> FixedCell(a, b)
      ensures Valid() && countCell == |FixedCells()|
      ensures forall g :: IsGrid(g) ==> (Allows(g) <==> Agrees(g))
    {
      hide FixedCell, CellCount, Allows, Agrees;
      assert FixedBefore(9, 0) == FixedCells();
      assert OpenBefore(9, 0, 0) == OpenCands();
      forall a, b | InGrid(a, b) ensures CellCount(a, b) { FullCell(a, b); }
      forall g | IsGrid(g) ensures Allows(g) <==> Agrees(g) { AllAllowed(g); }
    }

    lemma FullCell(a: int, b: int)
      requires Shape() && InGrid(a, b)
      requires if checked[a, b] == 0 then nominee[a, b] == 9 && forall c :: 0 <= c < 9 ==> data[a, b, c]
               else nominee[a, b] == 0
      ensures CellCount(a, b)
    {
      if checked[a, b] == 0 { assert Cands(a, b) == {0, 1, 2, 3, 4, 5, 6, 7, 8}; }
    }

    lemma AllAllowed(g: Grid)
      requires Shape() && IsGrid(g) && forall a, b :: InGrid(a, b) ==> FixedCell(a, b)
      requires forall a, b, c :: InCube(a, b, c) && checked[a, b] == 0 ==> data[a, b, c]
      ensures Allows(g) <==> Agrees(g)
    {
      forall a, b | InGrid(a, b)
        ensures data[a, b, g[a][b] - 1] <==> (checked[a, b] != 0 ==> g[a][b] == checked[a, b])
      {
        assert FixedCell(a, b) && InCube(a, b, g[a][b] - 1);
      }
    }

    // ------------------------------------------------------------------ checkCell

    /** The open cells that are taken for solved. */
    ghost function Solved(): set<(int, int)>
      requires Shape()
      reads checked, nominee
    {
      set i, j | 0 <= i < 9 && 0 <= j < 9 && checked[i, j] == 0 && nominee[i, j] == 1 :: (i, j)
    }

    ghost predicate HasCand(i: int, j: int)
      requires Shape() && InGrid(i, j)
      reads data
    {
      exists k :: 0 <= k < 9 && data[i, j, k]
    }

    lemma SolvedHaveCands()
      requires Valid()
      ensures forall i, j :: InGrid(i, j) && checked[i, j] == 0 && nominee[i, j] == 1 ==> HasCand(i, j)
    {
      hide FixedCell, OpenCands;
      forall i, j | InGrid(i, j) && checked[i, j] == 0 && nominee[i, j] == 1 ensures HasCand(i, j) {
        assert CellCount(i, j);
        assert Cands(i, j) != {};
        var k :| k in Cands(i, j);
      }
    }

    /** The index of the first candidate is stored in an open cell. */
    method FixCell(i: int, j: int)
      requires Shape() && InGrid(i, j) && HasCand(i, j)
      modifies checked, nominee, this`countCell, this`countPossibility
      ensures nominee[i, j] == 0 && 0 <= checked[i, j] < 9 && data[i, j, checked[i, j]]
      ensures forall a, b :: InGrid(a, b) && (a, b) != (i, j) ==>
        nominee[a, b] == old(nominee[a, b]) && checked[a, b] == old(checked[a, b])
      ensures countCell == old(countCell) + 1 && countPossibility == old(countPossibility) - 1
    {
      var k := 0;
      while k < 9 && !data[i, j, k]
        invariant 0 <= k <= 9 && forall c :: 0 <= c < k ==> !data[i, j, c]
      {
        k := k + 1;
      }
      checked[i, j] := k;
      countCell := countCell + 1;
      countPossibility := countPossibility - 1;
      nominee[i, j] := 0;
    }

    /** The cells of a set that come before cell (p, q). */
    static ghost function Before(cells: set<(int, int)>, p: int, q: int): set<(int, int)> {
      set c | c in cells && Visited(p, q, 0, c.0, c.1, 0)
    }

    /** The loops of checkCell. */
    method FixCells(junk: bool, ghost solved: set<(int, int)>) returns (changed: bool)
      requires Shape() && solved == Solved()
      requires forall i, j :: (i, j) in solved ==> InGrid(i, j) && HasCand(i, j)
      modifies checked, nominee, this`countCell, this`countPossibility
      ensures forall i, j :: InGrid(i, j) ==>
        if (i, j) in solved then nominee[i, j] == 0 && 0 <= checked[i, j] < 9 && data[i, j, checked[i, j]]
        else nominee[i, j] == old(nominee[i, j]) && checked[i, j] == old(checked[i, j])
      ensures countCell == old(countCell) + |solved| && countPossibility == old(countPossibility) - |solved|
      ensures changed == (junk || solved != {})
      ensures solved == {} ==> unchanged(checked) && unchanged(nominee)
    {
      hide HasCand, Solved, Before, Visited;
      assert forall i, j :: InGrid(i, j) ==> ((i, j) in solved <==> checked[i, j] == 0 && nominee[i, j] == 1) by {
        SolvedCells();
      }
      changed := junk;
      EndsOfLines(solved);
      for i := 0 to 9
        invariant countCell == old(countCell) + |Before(solved, i, 0)|
        invariant countPossibility == old(countPossibility) - |Before(solved, i, 0)|
        invariant changed == (junk || Before(solved, i, 0) != {})
        invariant Before(solved, i, 0) == {} ==> unchanged(checked) && unchanged(nominee)
        invariant forall a, b :: InGrid(a, b) ==>
          if (a, b) in Before(solved, i, 0)
          then nominee[a, b] == 0 && 0 <= checked[a, b] < 9 && data[a, b, checked[a, b]]
          else nominee[a, b] == old(nominee[a, b]) && checked[a, b] == old(checked[a, b])
      {
        for j := 0 to 9
          invariant countCell == old(countCell) + |Before(solved, i, j)|
          invariant countPossibility == old(countPossibility) - |Before(solved, i, j)|
          invariant changed == (junk || Before(solved, i, j) != {})
          invariant Before(solved, i, j) == {} ==> unchanged(checked) && unchanged(nominee)
          invariant forall a, b :: InGrid(a, b) ==>
            if (a, b) in Before(solved, i, j)
            then nominee[a, b] == 0 && 0 <= checked[a, b] < 9 && data[a, b, checked[a, b]]
            else nominee[a, b] == old(nominee[a, b]) && checked[a, b] == old(checked[a, b])
        {
          NextCell(solved, i, j);
          if checked[i, j] != 0 || nominee[i, j] != 1 { continue; }
          FixCell(i, j);
          changed := true;
        }
      }
    }

    static lemma EndsOfLines(cells: set<(int, int)>)
      requires forall a, b :: (a, b) in cells ==> InGrid(a, b)
      ensures Before(cells, 0, 0) == {} && Before(cells, 9, 0) == cells
      ensures forall i :: Before(cells, i, 9) == Before(cells, i + 1, 0)
    {
    }

    static lemma NextCell(cells: set<(int, int)>, i: int, j: int)
      requires forall a, b :: (a, b) in cells ==> InGrid(a, b)
      ensures (i, j) !in Before(cells, i, j)
      ensures Before(cells, i, j + 1) == Before(cells, i, j) + if (i, j) in cells then {(i, j)} else {}
    {
    }

    lemma SolvedCells()
      requires Shape()
      ensures forall i, j :: InGrid(i, j) ==> ((i, j) in Solved() <==> checked[i, j] == 0 && nominee[i, j] == 1)
    {
    }

    /**
     * The open cells with one candidate left become fixed. What is stored is the index of the candidate, one less than
     * the digit: the tables stay right exactly when there was no such cell. Without one the result is whatever the
     * variable held.
     */
    method CheckCell(junk: bool) returns (changed: bool)
      requires Valid()
      modifies checked, nominee, this`countCell, this`countPossibility
      ensures forall i, j :: InGrid(i, j) ==>
        if (i, j) in old(Solved()) then nominee[i, j] == 0 && 0 <= checked[i, j] < 9 && data[i, j, checked[i, j]]
        else nominee[i, j] == old(nominee[i, j]) && checked[i, j] == old(checked[i, j])
      ensures countCell == old(countCell) + |old(Solved())|
      ensures countPossibility == old(countPossibility) - |old(Solved())|
      ensures changed == (junk || old(Solved()) != {})
      ensures Valid() <==> old(Solved()) == {}
      ensures Tables() && forall g :: Completed(g) && Allows(g) ==> Misreads(g)
    {
      hide FixedCell, CellCount, OpenCands, HasCand, Differ, OnlyDigit;
      ValidTables();
      SolvedHaveCands();
      ghost var solved := Solved();
      forall g | Completed(g) && Allows(g)
        ensures AsRead(g, solved)
      {
        ReadSoFar(g);
      }
      changed := FixCells(junk, solved);
      forall g | Completed(g) && Allows(g)
        ensures Misreads(g)
      {
        assert old(AsRead(g, solved));
        forall i, j | InGrid(i, j) ensures Misread(g, i, j) {
          assert old(ReadRight(g, i, j)) && ((i, j) in solved ==> OnlyDigit(g, i, j));
          if (i, j) in solved { OnlyDigitIs(g, i, j, checked[i, j]); }
        }
      }
      if solved != {} {
        ghost var c :| c in solved;
        NotSolved(c.0, c.1);
      } else {
        assert forall a, b :: InGrid(a, b) ==> old(FixedCell(a, b)) && old(CellCount(a, b));
      }
    }

    lemma OnlyDigitIs(g: Grid, i: int, j: int, k: int)
      requires Shape() && IsGrid(g) && InCube(i, j, k) && OnlyDigit(g, i, j) && data[i, j, k]
      ensures k == g[i][j] - 1
    {
    }

    lemma NotSolved(i: int, j: int)
      requires Shape() && InGrid(i, j) && 0 <= checked[i, j] < 9 && data[i, j, checked[i, j]] && nominee[i, j] == 0
      ensures !Valid()
    {
      if checked[i, j] == 0 { assert checked[i, j] in Cands(i, j); }
      assert !FixedCell(i, j) || !CellCount(i, j);
    }

    /** Every fixed cell holds its digit in g, or one less. */
    ghost predicate Misreads(g: Grid)
      requires Shape() && IsGrid(g)
      reads checked
    {
      forall i, j :: InGrid(i, j) ==> Misread(g, i, j)
    }

    ghost predicate Misread(g: Grid, i: int, j: int)
      requires Shape() && IsGrid(g) && InGrid(i, j)
      reads checked
    {
      checked[i, j] == 0 || g[i][j] - 1 <= checked[i, j] <= g[i][j]
    }

    ghost predicate ReadRight(g: Grid, i: int, j: int)
      requires Shape() && IsGrid(g) && InGrid(i, j)
      reads checked
    {
      checked[i, j] == 0 || checked[i, j] == g[i][j]
    }

    ghost predicate OnlyDigit(g: Grid, i: int, j: int)
      requires Shape() && IsGrid(g) && InGrid(i, j)
      reads data
    {
      forall k :: 0 <= k < 9 && data[i, j, k] ==> k == g[i][j] - 1
    }

    /** Fixed cells hold their digit in g, and the cells of the set have no candidate but theirs. */
    ghost predicate AsRead(g: Grid, solved: set<(int, int)>)
      requires Shape() && IsGrid(g)
      reads checked, data
    {
      forall i, j :: InGrid(i, j) ==> ReadRight(g, i, j) && ((i, j) in solved ==> OnlyDigit(g, i, j))
    }

    lemma ReadSoFar(g: Grid)
      requires Valid() && Completed(g) && Allows(g)
      ensures AsRead(g, Solved())
    {
      hide OpenCands, Differ;
      forall i, j | InGrid(i, j)
        ensures ReadRight(g, i, j) && ((i, j) in Solved() ==> OnlyDigit(g, i, j))
      {
        assert FixedCell(i, j) && CellCount(i, j) && data[i, j, g[i][j] - 1];
        if (i, j) in Solved() {
          OnlyMember(Cands(i, j), g[i][j] - 1);
          assert forall k :: 0 <= k < 9 && data[i, j, k] ==> k in Cands(i, j);
        }
      }
    }

    /** Cell (i, j) holds one less than its digit, which is the digit of open cell (a, b) in one of its units. */
    ghost predicate BringsDown(g: Grid, i: int, j: int, a: int, b: int)
      requires Shape() && IsGrid(g) && InGrid(i, j) && InGrid(a, b)
      reads checked
    {
      SameUnit(a, b, i, j) && checked[i, j] == g[i][j] - 1 == g[a][b] && IsOpen(a, b)
    }

    /** With misread cells a solution is lost in the next sweep if and only if one of them brings a cell down. */
    lemma MisreadsLose(g: Grid)
      requires Shape() && Completed(g) && Misreads(g)
      ensures !Untaken(g) <==>
              exists i, j, a, b :: InGrid(i, j) && InGrid(a, b) && BringsDown(g, i, j, a, b)
    {
      hide SameUnit;
      forall i, j, a, b | InGrid(i, j) && InGrid(a, b)
        ensures TakenBy(i, j, a, b, g[a][b] - 1) <==> BringsDown(g, i, j, a, b)
      {
        assert Differ(g, a, b, i, j);
      }
      if exists i, j, a, b :: InGrid(i, j) && InGrid(a, b) && BringsDown(g, i, j, a, b) {
        var i, j, a, b :| InGrid(i, j) && InGrid(a, b) && BringsDown(g, i, j, a, b);
        assert TakenBy(i, j, a, b, g[a][b] - 1);
        assert Taken(a, b, g[a][b] - 1);
      }
    }

    /**
     * Each of the three units of a misread cell has the cell that holds the stored digit in the solution; the misread
     * cell takes that digit from it if and only if it is open.
     */
    lemma MisreadDigit(g: Grid, i: int, j: int)
      requires Shape() && Completed(g) && InGrid(i, j) && 0 < checked[i, j] == g[i][j] - 1
      ensures exists b :: 0 <= b < 9 && g[i][b] == checked[i, j]
      ensures exists a :: 0 <= a < 9 && g[a][j] == checked[i, j]
      ensures exists a, b :: InGrid(a, b) && a / 3 == i / 3 && b / 3 == j / 3 && g[a][b] == checked[i, j]
      ensures forall a, b :: InGrid(a, b) && SameUnit(a, b, i, j) && g[a][b] == checked[i, j] ==>
        (TakenBy(i, j, a, b, g[a][b] - 1) <==> IsOpen(a, b))
    {
      hide Differ;
      InEveryLine(g, i, checked[i, j]);
      InEveryLine(g, j, checked[i, j]);
      InEverySquare(g, i, j, checked[i, j]);
    }

    // ------------------------------------------------------------------ checkPossible

    /** Fixed cell (i, j) takes the digit c + 1 from open cell (a, b). */
    ghost predicate TakenBy(i: int, j: int, a: int, b: int, c: int)
      requires Shape() && InGrid(i, j) && InGrid(a, b)
      reads checked
    {
      checked[i, j] == c + 1 && SameUnit(a, b, i, j) && IsOpen(a, b)
    }

    ghost predicate Taken(a: int, b: int, c: int)
      requires Shape() && InCube(a, b, c)
      reads checked
    {
      exists i, j :: InGrid(i, j) && TakenBy(i, j, a, b, c)
    }

    /** Some cell before (p, q) takes the digit. */
    ghost predicate TakenBefore(p: int, q: int, a: int, b: int, c: int)
      requires Shape() && InCube(a, b, c)
      reads checked
    {
      exists i, j :: InGrid(i, j) && (i < p || (i == p && j < q)) && TakenBy(i, j, a, b, c)
    }

    /** Cell (a, b) is in a line of (i, j), or in its square and before (x, y). */
    static predicate Swept(i: int, j: int, x: int, y: int, a: int, b: int) {
      a == i || b == j || (a / 3 == i / 3 && b / 3 == j / 3 && (a < x || (a == x && b < y)))
    }

    method ClearPeers(i: int, j: int)
      requires Tables() && InGrid(i, j)
      modifies data, nominee, this`countPossibility
      ensures old(Valid()) ==> Valid()
      ensures forall a, b, c :: InCube(a, b, c) ==>
        (data[a, b, c] <==> old(data[a, b, c]) && !TakenBy(i, j, a, b, c))
      ensures forall a, b :: InGrid(a, b) ==> CellDrift(a, b) == old(CellDrift(a, b))
      ensures Drift() == old(Drift())
    {
      hide FixedCell, CellCount, OpenCands, CellDrift, Drift, Valid;
      var val := checked[i, j];
      if val == 0 { return; }
      for n := 0 to 9
        invariant old(Valid()) ==> Valid()
        invariant forall a, b :: InGrid(a, b) ==> CellDrift(a, b) == old(CellDrift(a, b))
        invariant Drift() == old(Drift())
        invariant forall a, b, c :: InCube(a, b, c) ==>
          (data[a, b, c] <==> old(data[a, b, c]) && !(IsOpen(a, b) && c == val - 1 && b == j && a < n))
      {
        EraseIfOpen(n, j, val - 1);
      }
      for n := 0 to 9
        invariant old(Valid()) ==> Valid()
        invariant forall a, b :: InGrid(a, b) ==> CellDrift(a, b) == old(CellDrift(a, b))
        invariant Drift() == old(Drift())
        invariant forall a, b, c :: InCube(a, b, c) ==>
          (data[a, b, c] <==> old(data[a, b, c]) && !(IsOpen(a, b) && c == val - 1 && (b == j || (a == i && b < n))))
      {
        EraseIfOpen(i, n, val - 1);
      }
      var u, v := i / 3, j / 3;
      for x := u * 3 to (u + 1) * 3
        invariant old(Valid()) ==> Valid()
        invariant forall a, b :: InGrid(a, b) ==> CellDrift(a, b) == old(CellDrift(a, b))
        invariant Drift() == old(Drift())
        invariant forall a, b, c :: InCube(a, b, c) ==>
          (data[a, b, c] <==> old(data[a, b, c]) && !(IsOpen(a, b) && c == val - 1 && Swept(i, j, x, v * 3, a, b)))
      {
        for y := v * 3 to (v + 1) * 3
          invariant old(Valid()) ==> Valid()
          invariant forall a, b :: InGrid(a, b) ==> CellDrift(a, b) == old(CellDrift(a, b))
          invariant Drift() == old(Drift())
          invariant forall a, b, c :: InCube(a, b, c) ==>
            (data[a, b, c] <==> old(data[a, b, c]) && !(IsOpen(a, b) && c == val - 1 && Swept(i, j, x, y, a, b)))
        {
          EraseIfOpen(x, y, val - 1);
        }
      }
    }

    method AnyWithOne() returns (found: bool)
      requires Shape()
      ensures found <==> exists i, j :: InGrid(i, j) && nominee[i, j] == 1
    {
      for i := 0 to 9
        invariant forall a, b :: InGrid(a, b) && a < i ==> nominee[a, b] != 1
      {
        for j := 0 to 9
          invariant forall a, b :: InGrid(a, b) && (a < i || (a == i && b < j)) ==> nominee[a, b] != 1
        {
          if nominee[i, j] == 1 {
            assert InGrid(i, j);
            return true;
          }
        }
      }
      return false;
    }

    lemma TakenBeforeFirst()
      requires Shape()
      ensures forall a, b, c :: InCube(a, b, c) ==> !TakenBefore(0, 0, a, b, c)
    {
    }

    lemma TakenNext(i: int, j: int)
      requires Shape() && InGrid(i, j)
      ensures forall a, b, c :: InCube(a, b, c) ==>
        (TakenBefore(i, j + 1, a, b, c) <==> TakenBefore(i, j, a, b, c) || TakenBy(i, j, a, b, c))
    {
      hide TakenBy;
    }

    lemma TakenLine(i: int)
      requires Shape()
      ensures forall a, b, c :: InCube(a, b, c) ==> (TakenBefore(i, 9, a, b, c) <==> TakenBefore(i + 1, 0, a, b, c))
    {
      hide TakenBy;
    }

    lemma TakenInAll()
      requires Shape()
      ensures forall a, b, c :: InCube(a, b, c) ==> (TakenBefore(9, 0, a, b, c) <==> Taken(a, b, c))
    {
      hide TakenBy;
    }

    /** No solution has a digit twice in a unit. */
    lemma NotTaken(g: Grid)
      requires Valid() && Completed(g) && Allows(g)
      ensures Untaken(g)
    {
      hide CellCount, OpenCands, SameUnit;
      forall a, b, i, j | InGrid(a, b) && InGrid(i, j) ensures !TakenBy(i, j, a, b, g[a][b] - 1) {
        assert FixedCell(i, j) && Differ(g, a, b, i, j) && data[i, j, g[i][j] - 1];
      }
    }

    /** No digit of g is taken from its cell. */
    ghost predicate Untaken(g: Grid)
      requires Shape() && IsGrid(g)
      reads checked
    {
      forall a, b :: InGrid(a, b) ==> !Taken(a, b, g[a][b] - 1)
    }

    /**
     * Every digit of a fixed cell is taken from the open cells of its units, and nothing else happens. A grid stays
     * possible exactly if no digit of it is taken; when fixed cells carry their own candidate that is so for all
     * solutions.
     */
    method CheckPossible() returns (single: bool)
      requires Tables()
      modifies data, nominee, this`countPossibility
      ensures old(Valid()) ==> Valid()
      ensures forall a, b, c :: InCube(a, b, c) ==> (data[a, b, c] <==> old(data[a, b, c]) && !Taken(a, b, c))
      ensures forall a, b :: InGrid(a, b) ==> CellDrift(a, b) == old(CellDrift(a, b))
      ensures Drift() == old(Drift())
      ensures forall g :: IsGrid(g) ==> (Allows(g) <==> old(Allows(g)) && Untaken(g))
      ensures old(Valid()) ==> forall g :: Completed(g) && old(Allows(g)) ==> Allows(g)
      ensures single <==> exists i, j :: InGrid(i, j) && nominee[i, j] == 1
    {
      hide FixedCell, CellCount, OpenCands, SameUnit, TakenBy, TakenBefore, Taken, Differ, CellDrift, Drift, Valid;
      if Valid() {
        forall g | Completed(g) && Allows(g) ensures Untaken(g) { NotTaken(g); }
      }
      TakenBeforeFirst();
      for i := 0 to 9
        invariant old(Valid()) ==> Valid()
        invariant forall a, b :: InGrid(a, b) ==> CellDrift(a, b) == old(CellDrift(a, b))
        invariant Drift() == old(Drift())
        invariant forall a, b, c :: InCube(a, b, c) ==>
          (data[a, b, c] <==> old(data[a, b, c]) && !TakenBefore(i, 0, a, b, c))
      {
        for j := 0 to 9
          invariant old(Valid()) ==> Valid()
          invariant forall a, b :: InGrid(a, b) ==> CellDrift(a, b) == old(CellDrift(a, b))
          invariant Drift() == old(Drift())
          invariant forall a, b, c :: InCube(a, b, c) ==>
            (data[a, b, c] <==> old(data[a, b, c]) && !TakenBefore(i, j, a, b, c))
        {
          ClearPeers(i, j);
          TakenNext(i, j);
        }
        TakenLine(i);
      }
      TakenInAll();
      single := AnyWithOne();
    }

    // ------------------------------------------------------------------ hiddenSingle

    /** The cells of a line that still have candidate n: (k, j) for all k, and (i, k) for all k. */
    ghost function Down(j: int, n: int, upTo: int): set<int>
      requires Shape() && InGrid(j, n) && upTo <= 9
      reads data
    {
      set k | 0 <= k < upTo && data[k, j, n]
    }

    ghost function Across(i: int, n: int, upTo: int): set<int>
      requires Shape() && InGrid(i, n) && upTo <= 9
      reads data
    {
      set k | 0 <= k < upTo && data[i, k, n]
    }

    /** Candidate n of cell (i, j) has no other place in one of the two lines. */
    ghost predicate IsSingle(i: int, j: int, n: int)
      requires Shape() && InCube(i, j, n)
      reads data
    {
      data[i, j, n] && (Down(j, n, 9) == {i} || Across(i, n, 9) == {j})
    }

    ghost predicate OnlyCand(i: int, j: int, n: int)
      requires Shape() && InCube(i, j, n)
      reads data
    {
      forall c :: 0 <= c < 9 && data[i, j, c] ==> c == n
    }

    /** In every solution a hidden single is the digit of its cell. */
    lemma SingleIsForced(g: Grid, i: int, j: int, n: int)
      requires Shape() && Completed(g) && Allows(g) && InCube(i, j, n) && IsSingle(i, j, n)
      ensures g[i][j] == n + 1
    {
      hide Differ;
      InEveryLine(g, i, n + 1);
      InEveryLine(g, j, n + 1);
      if Down(j, n, 9) == {i} {
        var k :| 0 <= k < 9 && g[k][j] == n + 1;
        assert InGrid(k, j) && k in Down(j, n, 9);
      } else {
        var k :| 0 <= k < 9 && g[i][k] == n + 1;
        assert InGrid(i, k) && k in Across(i, n, 9);
      }
    }

    /** All candidates of the open cell but n are cleared. */
    method KeepOnly(i: int, j: int, n: int)
      requires Valid() && InCube(i, j, n) && IsOpen(i, j) && data[i, j, n]
      modifies data, nominee, this`countPossibility
      ensures Valid()
      ensures forall a, b, c :: InCube(a, b, c) ==>
        (data[a, b, c] <==> old(data[a, b, c]) && ((a, b) == (i, j) ==> c == n))
    {
      hide FixedCell, CellCount, OpenCands;
      for m := 0 to 9
        invariant Valid()
        invariant forall a, b, c :: InCube(a, b, c) ==>
          (data[a, b, c] <==> old(data[a, b, c]) && ((a, b) == (i, j) && c < m ==> c == n))
      {
        if m == n || !data[i, j, m] { continue; }
        Erase(i, j, m);
      }
    }

    /** The step of hiddenSingle for one candidate. */
    method TrySingle(i: int, j: int, n: int)
      requires Valid() && InCube(i, j, n)
      modifies data, nominee, this`countPossibility
      ensures Valid()
      ensures forall a, b, c :: InCube(a, b, c) ==>
        (data[a, b, c] <==>
         old(data[a, b, c]) && ((a, b) == (i, j) && IsOpen(i, j) && old(IsSingle(i, j, n)) ==> c == n))
    {
      hide FixedCell, CellCount, OpenCands;
      if checked[i, j] != 0 || !data[i, j, n] { return; }
      var num := CountDown(j, n);
      OnlyMember(Down(j, n, 9), i);
      if num == 1 { KeepOnly(i, j, n); }
      assert Across(i, n, 9) == old(Across(i, n, 9));
      num := CountAcross(i, n);
      OnlyMember(Across(i, n, 9), j);
      if num == 1 { KeepOnly(i, j, n); }
    }

    method CountDown(j: int, n: int) returns (num: int)
      requires Shape() && InGrid(j, n)
      ensures num == |Down(j, n, 9)|
    {
      num := 0;
      for k := 0 to 9
        invariant num == |Down(j, n, k)|
      {
        assert Down(j, n, k + 1) == Down(j, n, k) + (if data[k, j, n] then {k} else {});
        if data[k, j, n] { num := num + 1; }
      }
    }

    method CountAcross(i: int, n: int) returns (num: int)
      requires Shape() && InGrid(i, n)
      ensures num == |Across(i, n, 9)|
    {
      num := 0;
      for k := 0 to 9
        invariant num == |Across(i, n, k)|
      {
        assert Across(i, n, k + 1) == Across(i, n, k) + (if data[i, k, n] then {k} else {});
        if data[i, k, n] { num := num + 1; }
      }
    }

    /** The step again, seen from the solutions and from the cells that are settled. */
    method Visit(i: int, j: int, n: int)
      requires Valid() && InCube(i, j, n)
      modifies data, nominee, this`countPossibility
      ensures Valid()
      ensures forall a, b, c :: InCube(a, b, c) && data[a, b, c] ==> old(data[a, b, c])
      ensures forall g :: Completed(g) && old(Allows(g)) ==> Allows(g)
      ensures forall a, b, c :: InCube(a, b, c) && old(OnlyCand(a, b, c)) ==> OnlyCand(a, b, c)
      ensures IsOpen(i, j) && old(IsSingle(i, j, n)) && data[i, j, n] ==> OnlyCand(i, j, n)
    {
      hide FixedCell, CellCount, OpenCands, Differ, IsSingle;
      forall g | Completed(g) && Allows(g) && IsSingle(i, j, n) ensures g[i][j] == n + 1 {
        SingleIsForced(g, i, j, n);
      }
      TrySingle(i, j, n);
    }

    /** Cells with a digit that fits nowhere else lose their other candidates; solutions stay. */
    method HiddenSingle() returns (single: bool)
      requires Valid()
      modifies data, nominee, this`countPossibility
      ensures Valid()
      ensures forall a, b, c :: InCube(a, b, c) && data[a, b, c] ==> old(data[a, b, c])
      ensures forall g :: Completed(g) && old(Allows(g)) ==> Allows(g)
      ensures forall i, j, n :: InCube(i, j, n) && IsOpen(i, j) && old(IsSingle(i, j, n)) && data[i, j, n] ==>
        OnlyCand(i, j, n)
      ensures single <==> exists i, j :: InGrid(i, j) && nominee[i, j] == 1
    {
      hide FixedCell, CellCount, OpenCands, Differ, OnlyCand;
      for i := 0 to 9
        invariant Valid()
        invariant forall a, b, c :: InCube(a, b, c) && data[a, b, c] ==> old(data[a, b, c])
        invariant forall g :: Completed(g) && old(Allows(g)) ==> Allows(g)
        invariant forall a, b, c :: InCube(a, b, c) && Visited(i, 0, 0, a, b, c) ==>
          IsOpen(a, b) && old(IsSingle(a, b, c)) && data[a, b, c] ==> OnlyCand(a, b, c)
      {
        for j := 0 to 9
          invariant Valid()
          invariant forall a, b, c :: InCube(a, b, c) && data[a, b, c] ==> old(data[a, b, c])
          invariant forall g :: Completed(g) && old(Allows(g)) ==> Allows(g)
          invariant forall a, b, c :: InCube(a, b, c) && Visited(i, j, 0, a, b, c) ==>
            IsOpen(a, b) && old(IsSingle(a, b, c)) && data[a, b, c] ==> OnlyCand(a, b, c)
        {
          for n := 0 to 9
            invariant Valid()
            invariant forall a, b, c :: InCube(a, b, c) && data[a, b, c] ==> old(data[a, b, c])
            invariant forall g :: Completed(g) && old(Allows(g)) ==> Allows(g)
            invariant forall a, b, c :: InCube(a, b, c) && Visited(i, j, n, a, b, c) ==>
              IsOpen(a, b) && old(IsSingle(a, b, c)) && data[a, b, c] ==> OnlyCand(a, b, c)
          {
            assert old(IsSingle(i, j, n)) && data[i, j, n] ==> IsSingle(i, j, n) by {
              assert Down(j, n, 9) <= old(Down(j, n, 9)) && Across(i, n, 9) <= old(Across(i, n, 9));
              assert data[i, j, n] ==> i in Down(j, n, 9) && j in Across(i, n, 9);
            }
            Visit(i, j, n);
          }
        }
      }
      single := AnyWithOne();
    }
  }

  // ------------------------------------------------------------------ a run that loses every solution

  /** A solution of the puzzle that gives 1 to 8 in the first row. */
  function Answer(): Grid { seq(9, i => seq(9, j => (3 * i + i / 3 + j) % 9 + 1)) }

  lemma AnswerDiffers(a: int, b: int, i: int, j: int)
    requires InGrid(a, b) && InGrid(i, j) && SameUnit(a, b, i, j)
    requires (3 * a + a / 3 + b) % 9 == (3 * i + i / 3 + j) % 9
    ensures a == i && b == j
  {
    var u, r, x, q := a / 3, a % 3, i / 3, i % 3;
    var m, n := 3 * r + u + b, 3 * q + x + j;
    Mod9(u, m);
    Mod9(x, n);
    assert 3 * a + u + b == 9 * u + m && 3 * i + x + j == 9 * x + n;
    if a == i || b == j {
      SameMod9(m, n);
    } else {
      SquareMod9(u, r, q, b / 3, b % 3, j % 3);
    }
  }

  lemma Mod9(k: int, x: int)
    ensures (9 * k + x) % 9 == x % 9
  {
  }

  lemma SameMod9(x: int, y: int)
    requires x % 9 == y % 9 && -9 < x - y < 9
    ensures x == y
  {
  }

  lemma SquareMod9(u: int, r: int, q: int, w: int, c: int, d: int)
    requires 0 <= r < 3 && 0 <= q < 3 && 0 <= c < 3 && 0 <= d < 3
    requires (3 * r + u + (3 * w + c)) % 9 == (3 * q + u + (3 * w + d)) % 9
    ensures r == q && c == d
  {
    SameMod9(3 * r + u + (3 * w + c), 3 * q + u + (3 * w + d));
  }

  lemma AnswerCompleted()
    ensures Completed(Answer())
  {
    var g := Answer();
    forall a, b, i, j | InGrid(a, b) && InGrid(i, j) ensures Differ(g, a, b, i, j) {
      if SameUnit(a, b, i, j) && g[a][b] == g[i][j] { AnswerDiffers(a, b, i, j); }
    }
  }

  ghost predicate FirstRowGiven(s: Solver)
    requires s.Shape()
    reads s.checked
  {
    forall a, b :: InGrid(a, b) ==> s.checked[a, b] == if a == 0 && b < 8 then b + 1 else 0
  }

  lemma AnswerAgrees(s: Solver)
    requires s.Shape() && FirstRowGiven(s) && IsGrid(Answer())
    ensures s.Agrees(Answer())
  {
  }

  /** The puzzle. */
  method FirstRow() returns (s: Solver)
    ensures fresh(s) && fresh(s.data) && fresh(s.checked) && fresh(s.nominee)
    ensures s.Prepared() && FirstRowGiven(s)
  {
    s := new Solver();
    forall a, b | InGrid(a, b) ensures s.checked[a, b] == 0 { assert InCube(a, b, 0) && s.IsOpen(a, b); }
    for k := 0 to 8
      invariant s.Prepared() && fresh(s) && fresh(s.data) && fresh(s.checked) && fresh(s.nominee)
      invariant forall a, b :: InGrid(a, b) ==> s.checked[a, b] == if a == 0 && b < k then b + 1 else 0
      invariant forall a, b, c :: InCube(a, b, c) && s.checked[a, b] == 0 ==> !s.data[a, b, c]
    {
      s.Unit(0, k, k + 1);
    }
  }

  /** After the first sweep only the ninth cell is solved: the others have two candidates or more. */
  lemma OneSolved(s: Solver)
    requires s.Valid() && FirstRowGiven(s)
    requires forall a, b, c :: InCube(a, b, c) && s.checked[a, b] == 0 ==> (s.data[a, b, c] <==> !s.Taken(a, b, c))
    ensures s.Solved() == {(0, 8)} && forall c :: 0 <= c < 9 ==> (s.data[0, 8, c] <==> c == 8)
  {
    hide Solver.OpenCands, Solver.FixedCell;
    forall c | 0 <= c < 9 ensures s.data[0, 8, c] <==> c == 8 {
      if c < 8 { assert s.TakenBy(0, c, 0, 8, c); }
    }
    assert s.Cands(0, 8) == {8};
    assert s.CellCount(0, 8);
    forall a, b | InGrid(a, b) && s.checked[a, b] == 0 && (a, b) != (0, 8) ensures s.nominee[a, b] != 1 {
      var c := if b < 3 then 3 else 0;
      StillTwo(s, a, b, c);
      assert s.CellCount(a, b) && {c, c + 1} <= s.Cands(a, b);
      Smaller({c, c + 1}, s.Cands(a, b));
    }
  }

  lemma StillTwo(s: Solver, a: int, b: int, c: int)
    requires s.Shape() && FirstRowGiven(s) && InGrid(a, b) && a > 0 && c == if b < 3 then 3 else 0
    ensures !s.Taken(a, b, c) && !s.Taken(a, b, c + 1)
  {
    forall i, j | InGrid(i, j) ensures !s.TakenBy(i, j, a, b, c) && !s.TakenBy(i, j, a, b, c + 1) {
    }
  }

  /** When the ninth cell holds 8, the ninth column has no place for an 8. */
  lemma NoPlaceLeft(s: Solver, g: Grid)
    requires s.Shape() && Completed(g) && s.checked[0, 8] == 8 && !s.data[0, 8, 7]
    requires forall r :: 1 <= r < 9 ==> s.IsOpen(r, 8)
    requires forall a, b, c :: InCube(a, b, c) && s.Taken(a, b, c) ==> !s.data[a, b, c]
    ensures !s.Allows(g)
  {
    InEveryLine(g, 8, 8);
    var r :| 0 <= r < 9 && g[r][8] == 8;
    if r > 0 { assert s.TakenBy(0, 8, r, 8, 7); }
    assert InGrid(r, 8);
  }

  /** checkPossible, checkCell and checkPossible again: the puzzle has a solution, and afterwards none is possible. */
  method LoseSolutions(s: Solver)
    requires s.Prepared() && FirstRowGiven(s)
    modifies s, s.data, s.checked, s.nominee
    ensures Completed(Answer()) && old(s.Agrees(Answer()))
    ensures forall g :: Completed(g) ==> !s.Allows(g)
  {
    hide Solver.OpenCands, Solver.FixedCell, Solver.CellCount, Solver.Taken, Differ, Answer;
    hide Solver.Valid, Solver.Tables, Solver.CellDrift, Solver.Drift, Solver.Misreads, Solver.Untaken, Solver.Allows;
    AnswerCompleted();
    AnswerAgrees(s);
    s.Start();
    s.ValidTables();
    var single := s.CheckPossible();
    OneSolved(s);
    var changed := s.CheckCell(false);
    single := s.CheckPossible();
    forall g | Completed(g) ensures !s.Allows(g) { NoPlaceLeft(s, g); }
  }

  lemma OnlyMember(s: set<int>, x: int)
    requires x in s
    ensures |s| == 1 <==> s == {x}
  {
    assert s == {x} + (s - {x});
  }
}
