/** Fitting the columns of a line: the least important ones go, the blanks are spread over the others. */
module Columns {
  import opened Prelude

  /**
   * A column as it is asked for; varwidth is 1 for a column that may grow and 0 for the others. The number of its
   * definition is id; width is the width in that definition at the moment.
   */
  datatype Column = Column(id: int, width: nat, varwidth: nat, prio: int)

  const MAXITEMS := 80
  const NOPRIO := 999999

  ghost predicate Ranked(s: seq<Column>) { forall i :: 0 <= i < |s| ==> s[i].prio < NOPRIO }

  /** The width of the columns that do not grow. */
  function FixedWidth(s: seq<Column>): nat {
    if |s| == 0 then 0
    else FixedWidth(s[..|s| - 1]) + if s[|s| - 1].varwidth != 0 then 0 else s[|s| - 1].width
  }

  function Growing(s: seq<Column>): nat {
    if |s| == 0 then 0 else Growing(s[..|s| - 1]) + s[|s| - 1].varwidth
  }

  /** The widths that growing columns bring from an earlier line; they are not part of the fixed width. */
  function StaleWidth(s: seq<Column>): nat {
    if |s| == 0 then 0
    else StaleWidth(s[..|s| - 1]) + if s[|s| - 1].varwidth != 0 then s[|s| - 1].width else 0
  }

  /** What a line with these columns takes: their widths, a blank between any two, 12 places for one that grows. */
  function Need(s: seq<Column>): int { FixedWidth(s) + |s| - 1 + 12 * Growing(s) }

  function Without(s: seq<Column>, i: nat): (r: seq<Column>)
    requires i < |s|
    ensures |r| + 1 == |s| && multiset(r) + multiset{s[i]} == multiset(s)
  {
    assert s == s[..i] + [s[i]] + s[i + 1..];
    s[..i] + s[i + 1..]
  }

  lemma {:induction false} FixedWidthOfParts(a: seq<Column>, b: seq<Column>)
    ensures FixedWidth(a + b) == FixedWidth(a) + FixedWidth(b)
    ensures Growing(a + b) == Growing(a) + Growing(b)
    ensures StaleWidth(a + b) == StaleWidth(a) + StaleWidth(b)
  {
    if |b| == 0 {
      assert a + b == a;
    } else {
      FixedWidthOfParts(a, b[..|b| - 1]);
      assert (a + b)[..|a + b| - 1] == a + b[..|b| - 1];
    }
  }

  lemma OneWidth(c: Column)
    ensures FixedWidth([c]) == if c.varwidth != 0 then 0 else c.width
    ensures Growing([c]) == c.varwidth
    ensures StaleWidth([c]) == if c.varwidth != 0 then c.width else 0
  {
  }

  lemma WidthOfThree(a: seq<Column>, c: Column, b: seq<Column>)
    ensures FixedWidth(a + [c] + b) == FixedWidth(a + b) + if c.varwidth != 0 then 0 else c.width
    ensures Growing(a + [c] + b) == Growing(a + b) + c.varwidth
    ensures StaleWidth(a + [c] + b) == StaleWidth(a + b) + if c.varwidth != 0 then c.width else 0
  {
    hide FixedWidth, Growing, StaleWidth;
    OneWidth(c);
    FixedWidthOfParts(a, [c]);
    FixedWidthOfParts(a + [c], b);
    FixedWidthOfParts(a, b);
  }

  lemma TakenOut(s: seq<Column>, i: nat)
    requires i < |s|
    ensures Without(s, i) == s[..i] + s[i + 1..]
  {
  }

  lemma WidthWithout(s: seq<Column>, i: nat)
    requires i < |s|
    ensures FixedWidth(s) == FixedWidth(Without(s, i)) + if s[i].varwidth != 0 then 0 else s[i].width
    ensures Growing(s) == Growing(Without(s, i)) + s[i].varwidth
    ensures StaleWidth(s) == StaleWidth(Without(s, i)) + if s[i].varwidth != 0 then s[i].width else 0
  {
    hide FixedWidth, Growing, StaleWidth, Without;
    TakenOut(s, i);
    assert s == s[..i] + [s[i]] + s[i + 1..];
    WidthOfThree(s[..i], s[i], s[i + 1..]);
  }

  // ------------------------------------------------------------------ which columns stay

  /** The first column of the lowest priority. */
  ghost predicate IsLowest(s: seq<Column>, i: int) {
    && 0 <= i < |s|
    && (forall j :: 0 <= j < |s| ==> s[i].prio <= s[j].prio)
    && (forall j :: 0 <= j < i ==> s[i].prio < s[j].prio)
  }

  function Lowest(s: seq<Column>): (i: nat)
    requires |s| > 0
    ensures IsLowest(s, i)
  {
    var n := |s| - 1;
    if n == 0 then 0
    else
      var i := Lowest(s[..n]);
      assert forall j :: 0 <= j < n ==> s[..n][j] == s[j];
      if s[n].prio < s[i].prio then n else i
  }

  lemma SomeColumns(s: seq<Column>, col: int, maxw: nat)
    requires col <= FixedWidth(s) && col + |s| - 1 + 12 * Growing(s) > maxw
    ensures |s| > 0
  {
  }

  /** What getspacings keeps, when it takes the fixed columns of s to be col wide. */
  function Kept(s: seq<Column>, col: int, maxw: nat): seq<Column>
    requires col <= FixedWidth(s)
    decreases |s|
  {
    if col + |s| - 1 + 12 * Growing(s) <= maxw then s
    else
      var i := Lowest(s);
      WidthWithout(s, i);
      Kept(Without(s, i), col - s[i].width, maxw)
  }

  /** What should be kept: the least important columns go until the rest fits. */
  function Fitting(s: seq<Column>, maxw: nat): seq<Column>
    decreases |s|
  {
    if Need(s) <= maxw then s else Fitting(Without(s, Lowest(s)), maxw)
  }

  /** The columns that are kept stand in their order, and none that went is more important than one that stayed. */
  ghost predicate IsSelection(s: seq<Column>, r: seq<Column>) {
    && Subsequence(r, s)
    && multiset(r) <= multiset(s)
    && forall x, y :: x in multiset(s) - multiset(r) && y in r ==> x.prio <= y.prio
  }

  lemma LowestIsLowest(s: seq<Column>, y: Column)
    requires y in s
    ensures s[Lowest(s)].prio <= y.prio
  {
  }

  lemma SelectMore(s: seq<Column>, r: seq<Column>)
    requires |s| > 0 && IsSelection(Without(s, Lowest(s)), r)
    ensures IsSelection(s, r)
  {
    hide Subsequence, Lowest, Without;
    var i := Lowest(s);
    TakingOneIsSubsequence(s, i, r);
    forall x, y | x in multiset(s) - multiset(r) && y in r
      ensures x.prio <= y.prio
    {
      InBoth(s, r, y);
      LowestIsLowest(s, y);
      OneMoreGone(multiset(Without(s, i)), multiset(s), multiset(r), s[i], x);
    }
  }

  lemma OneMoreGone<T>(t: multiset<T>, s: multiset<T>, r: multiset<T>, c: T, x: T)
    requires t + multiset{c} == s && x in s - r
    ensures x in t - r || x == c
  {
  }

  lemma InBoth(s: seq<Column>, r: seq<Column>, y: Column)
    requires multiset(r) <= multiset(s) && y in r
    ensures y in s
  {
    assert y in multiset(r);
    assert y in multiset(s);
  }

  lemma TakingOneIsSubsequence(s: seq<Column>, i: nat, r: seq<Column>)
    requires i < |s| && Subsequence(r, Without(s, i))
    ensures Subsequence(r, s)
  {
    hide Subsequence;
    SubsequenceWithoutOne(s, i);
    SubsequenceTransitive(r, Without(s, i), s);
  }

  lemma SelectAll(s: seq<Column>)
    ensures IsSelection(s, s)
  {
    SubsequenceSelf(s);
  }

  lemma {:induction false} KeptIsSelection(s: seq<Column>, col: int, maxw: nat)
    requires col <= FixedWidth(s)
    ensures IsSelection(s, Kept(s, col, maxw))
    decreases |s|
  {
    hide FixedWidth, Growing, IsSelection, Lowest, Without;
    if col + |s| - 1 + 12 * Growing(s) <= maxw {
      SelectAll(s);
    } else {
      SomeColumns(s, col, maxw);
      var i := Lowest(s);
      WidthWithout(s, i);
      KeptIsSelection(Without(s, i), col - s[i].width, maxw);
      SelectMore(s, Kept(s, col, maxw));
    }
  }

  /** The right choice fits, and with the column that went last it would not. */
  lemma {:induction false} FittingFits(s: seq<Column>, maxw: nat)
    ensures Need(Fitting(s, maxw)) <= maxw
    ensures IsSelection(s, Fitting(s, maxw))
    ensures Fitting(s, maxw) == s ||
            exists t :: |t| > 0 && Need(t) > maxw && Fitting(s, maxw) == Without(t, Lowest(t))
    decreases |s|
  {
    hide FixedWidth, Growing, IsSelection, Lowest, Without;
    if Need(s) <= maxw {
      SelectAll(s);
    } else {
      SomeColumns(s, FixedWidth(s), maxw);
      var t := Without(s, Lowest(s));
      FittingFits(t, maxw);
      SelectMore(s, Fitting(t, maxw));
    }
  }

  /**
   * No removal on the way is cut short by widths that were never counted: `stale` is what the growing columns
   * removed so far have taken off the sum. Either the columns fit, or they do not seem to, and so on without the
   * next to go.
   */
  predicate NeverFooled(s: seq<Column>, stale: nat, maxw: nat) {
    || Need(s) <= maxw
    || (|s| > 0 && Need(s) - stale > maxw &&
        var c := s[Lowest(s)];
        NeverFooled(Without(s, Lowest(s)), stale + (if c.varwidth != 0 then c.width else 0), maxw))
  }

  /** The columns that are kept fit if and only if no stale width ends the removals too early. */
  lemma {:induction false} FitsUnlessFooled(s: seq<Column>, stale: nat, maxw: nat)
    ensures Need(Kept(s, FixedWidth(s) - stale, maxw)) <= maxw <==> NeverFooled(s, stale, maxw)
    decreases |s|
  {
    hide FixedWidth, Growing, Lowest, Without;
    if Need(s) - stale > maxw {
      SomeColumns(s, FixedWidth(s) - stale, maxw);
      var i := Lowest(s);
      WidthWithout(s, i);
      FitsUnlessFooled(Without(s, i), stale + (if s[i].varwidth != 0 then s[i].width else 0), maxw);
    }
  }

  /** The columns that getspacings keeps fit, with single blanks, exactly for these lists. What the line
      takes that it lays out with them is another matter: see LineIsFull. */
  lemma FitsExactlyWhen(s: seq<Column>, maxw: nat)
    ensures Need(Kept(s, FixedWidth(s), maxw)) <= maxw <==> NeverFooled(s, 0, maxw)
  {
    FitsUnlessFooled(s, 0, maxw);
  }

  /** The columns that are kept fit exactly when they are the right ones. */
  lemma {:induction false} FitsWhenRight(s: seq<Column>, col: int, maxw: nat)
    requires col <= FixedWidth(s)
    ensures Need(Kept(s, col, maxw)) <= maxw <==> Kept(s, col, maxw) == Fitting(s, maxw)
    decreases |s|
  {
    hide FixedWidth, Growing, IsSelection, Lowest, Without;
    FittingFits(s, maxw);
    if col + |s| - 1 + 12 * Growing(s) > maxw {
      SomeColumns(s, col, maxw);
      var i := Lowest(s);
      WidthWithout(s, i);
      FitsWhenRight(Without(s, i), col - s[i].width, maxw);
    }
  }

  /** They are the right ones when no growing column brings a width of its own. */
  lemma {:induction false} RightWithoutStaleWidths(s: seq<Column>, maxw: nat)
    requires NoStaleWidths(s)
    ensures Kept(s, FixedWidth(s), maxw) == Fitting(s, maxw)
    decreases |s|
  {
    hide FixedWidth, Growing, Lowest;
    if Need(s) > maxw {
      SomeColumns(s, FixedWidth(s), maxw);
      var i := Lowest(s);
      WidthWithout(s, i);
      RightWithoutStaleWidths(Without(s, i), maxw);
    }
  }

  /** A growing column that has grown before is taken off the width, though it was never counted: 101 places of 80. */
  lemma StaleWidthOverflows()
    ensures var s := [Column(0, 50, 0, 9), Column(1, 50, 0, 8), Column(2, 40, 1, 1)];
      Kept(s, FixedWidth(s), 80) == s[..2] && Need(s[..2]) == 101
  {
    var s := [Column(0, 50, 0, 9), Column(1, 50, 0, 8), Column(2, 40, 1, 1)];
    assert s[..2][..1] == s[..1];
    assert FixedWidth(s[..1]) == 50 && FixedWidth(s[..2]) == 100 && FixedWidth(s) == 100;
    assert Growing(s[..1]) == 0 && Growing(s[..2]) == 0 && Growing(s) == 1;
    assert Lowest(s) == 2;
    assert Without(s, 2) == s[..2];
  }

  // ------------------------------------------------------------------ the blanks between them

  /** What getspacings takes to be the width of the columns that it kept. */
  function Believed(s: seq<Column>, col: int, maxw: nat): int
    requires col <= FixedWidth(s)
    decreases |s|
  {
    if col + |s| - 1 + 12 * Growing(s) <= maxw then col
    else
      var i := Lowest(s);
      WidthWithout(s, i);
      Believed(Without(s, i), col - s[i].width, maxw)
  }

  lemma {:induction false} BelievedFits(s: seq<Column>, col: int, maxw: nat)
    requires col <= FixedWidth(s)
    ensures var r := Kept(s, col, maxw);
      Believed(s, col, maxw) + |r| - 1 + 12 * Growing(r) <= maxw
    decreases |s|
  {
    hide FixedWidth, Growing, Lowest, Without;
    if col + |s| - 1 + 12 * Growing(s) > maxw {
      SomeColumns(s, col, maxw);
      WidthWithout(s, Lowest(s));
      BelievedFits(Without(s, Lowest(s)), col - s[Lowest(s)].width, maxw);
    }
  }

  ghost predicate NoStaleWidths(s: seq<Column>) {
    forall i :: 0 <= i < |s| && s[i].varwidth != 0 ==> s[i].width == 0
  }

  /** By how much the width of the columns that were kept is underrated. */
  lemma {:induction false} BelievedGap(s: seq<Column>, col: int, maxw: nat)
    requires col <= FixedWidth(s)
    ensures var r := Kept(s, col, maxw);
      FixedWidth(r) - Believed(s, col, maxw) == FixedWidth(s) - col + StaleWidth(s) - StaleWidth(r)
    decreases |s|
  {
    hide FixedWidth, Growing, StaleWidth, Lowest, Without;
    if col + |s| - 1 + 12 * Growing(s) > maxw {
      SomeColumns(s, col, maxw);
      var i := Lowest(s);
      WidthWithout(s, i);
      BelievedGap(Without(s, i), col - s[i].width, maxw);
    }
  }

  lemma {:induction false} StaleOrNot(s: seq<Column>)
    ensures StaleWidth(s) == 0 <==> NoStaleWidths(s)
    ensures Growing(s) == 0 ==> StaleWidth(s) == 0
  {
    if |s| > 0 {
      var n := |s| - 1;
      StaleOrNot(s[..n]);
      assert s == s[..n] + [s[n]];
      if NoStaleWidths(s[..n]) && (s[n].varwidth != 0 ==> s[n].width == 0) {
        forall i | 0 <= i < |s| && s[i].varwidth != 0
          ensures s[i].width == 0
        {
          if i < n { assert s[i] == s[..n][i]; }
        }
      } else if NoStaleWidths(s) {
        forall i | 0 <= i < n && s[..n][i].varwidth != 0
          ensures s[..n][i].width == 0
        {
          assert s[..n][i] == s[i];
        }
      }
    }
  }

  /** The only growing column. */
  lemma {:induction false} StaleOfOne(s: seq<Column>, k: nat)
    requires k < |s| && Growing(s) == 1 && s[k].varwidth == 1
    ensures StaleWidth(s) == s[k].width
  {
    hide FixedWidth, Growing, StaleWidth, Without;
    WidthWithout(s, k);
    StaleOrNot(Without(s, k));
  }

  function Sum(s: seq<int>): int { if |s| == 0 then 0 else Sum(s[..|s| - 1]) + s[|s| - 1] }

  /** The blanks behind each of n columns when `spare` places are to be shared: the last column gets none. */
  ghost predicate IsSpread(spacings: seq<int>, n: nat, spare: int) {
    && |spacings| == n > 0 && spacings[n - 1] == 0
    && (n > 1 ==> Sum(spacings[..n - 1]) == spare)
    && forall j :: 0 <= j < n - 1 ==> spacings[j] == Share(spare, n - 1, j + 1) - Share(spare, n - 1, j)
  }

  /** What the first j of n gaps have of the spare places: their proportion, cut to a whole number. */
  function Share(spare: int, n: nat, j: nat): int
    requires n > 0
  {
    Times(j, spare as real / n as real).Floor
  }

  function Times(j: nat, x: real): real { j as real * x }

  /** The conversion of a floating-point number to int. */
  function Trunc(x: real): int { if x >= 0.0 then x.Floor else -(-x).Floor }

  lemma FloorShift(x: real, k: int)
    ensures (x - k as real).Floor == x.Floor - k
  {
  }

  lemma Cut(a: real, over: real, todo: real)
    requires a >= 0.0 && over >= 0.0 && todo == a + over - a.Floor as real
    ensures Trunc(Trunc(todo) as real + 0.5) == (a + over).Floor - a.Floor
  {
    FloorShift(a + over, a.Floor);
    var n := todo.Floor;
    assert (n as real + 0.5).Floor == n;
  }

  lemma Proportion(j: nat, x: real)
    requires x >= 0.0
    ensures Times(j, x) >= 0.0 && Times(j + 1, x) == Times(j, x) + x
  {
  }

  /** The blanks behind column j when `todo` places have gathered. */
  lemma NextShare(spare: int, n: nat, j: nat, over: real, todo: real)
    requires n > 0 && spare >= 0 && over == spare as real / n as real
    requires todo == Times(j + 1, over) - Share(spare, n, j) as real
    ensures Trunc(Trunc(todo) as real + 0.5) == Share(spare, n, j + 1) - Share(spare, n, j)
    ensures todo - (Share(spare, n, j + 1) - Share(spare, n, j)) as real + over
         == Times(j + 2, over) - Share(spare, n, j + 1) as real
  {
    hide Trunc, Times;
    assert over >= 0.0;
    Proportion(j, over);
    Proportion(j + 1, over);
    Cut(Times(j, over), over, todo);
  }

  lemma AllShared(spare: int, n: nat)
    requires n > 0
    ensures Share(spare, n, 0) == 0 && Share(spare, n, n) == spare
  {
    assert n as real * (spare as real / n as real) == spare as real;
  }

  // ------------------------------------------------------------------ getspacings

  /** The list that array a holds, with the entry behind it empty. */
  ghost predicate Holds(a: array<Option<Column>>, s: seq<Column>)
    reads a
  {
    |s| < a.Length && a[|s|] == None && forall i :: 0 <= i < |s| ==> a[i] == Some(s[i])
  }

  class Line {
    const newelems: array<Option<Column>>
    const spacings: array<int>

    ghost predicate Valid() {
      newelems.Length == MAXITEMS && spacings.Length == MAXITEMS
    }

    constructor ()
      ensures Valid() && fresh(newelems) && fresh(spacings)
    {
      newelems := new Option<Column>[MAXITEMS](i => None);
      spacings := new int[MAXITEMS];
    }

    /** The columns are copied and measured. */
    method GetTotWidth(elems: array<Option<Column>>, ghost s: seq<Column>)
      returns (nitems: nat, sumwidth: nat, varwidth: nat)
      requires Valid() && elems != newelems && Holds(elems, s) && |s| < MAXITEMS
      modifies newelems
      ensures Holds(newelems, s)
      ensures nitems == |s| && sumwidth == FixedWidth(s) && varwidth == Growing(s)
    {
      var i, col, varw := 0, 0, 0;
      while elems[i] != None
        invariant i <= |s| && col == FixedWidth(s[..i]) && varw == Growing(s[..i])
        invariant forall j :: 0 <= j < i ==> newelems[j] == Some(s[j])
        decreases |s| - i
      {
        var c := elems[i].value;
        assert s[..i + 1][..i] == s[..i];
        col := col + if c.varwidth != 0 then 0 else c.width;
        varw := varw + c.varwidth;
        newelems[i] := elems[i];
        i := i + 1;
      }
      newelems[i] := None;
      assert s[..i] == s;
      return i, col, varw;
    }

    /** The search for the lowest priority; -1 when no priority is below the one it starts with. */
    method FindLowest(nitems: nat, ghost s: seq<Column>) returns (lowest: int)
      requires Valid() && Holds(newelems, s) && nitems == |s|
      ensures lowest == -1 <==> forall j :: 0 <= j < |s| ==> s[j].prio >= NOPRIO
      ensures lowest != -1 ==> IsLowest(s, lowest)
    {
      var lowestprio := NOPRIO;
      lowest := -1;
      for i := 0 to nitems
        invariant lowestprio <= NOPRIO
        invariant if lowest == -1 then lowestprio == NOPRIO
                  else 0 <= lowest < i && s[lowest].prio == lowestprio < NOPRIO
        invariant forall j :: 0 <= j < i ==> lowestprio <= s[j].prio
        invariant forall j :: 0 <= j < lowest ==> lowestprio < s[j].prio
      {
        if newelems[i].value.prio < lowestprio {
          lowestprio := newelems[i].value.prio;
          lowest := i;
        }
      }
    }

    /** The memmove that takes an entry out of the list, the empty one behind it included. */
    method Remove(nitems: nat, k: nat, ghost s: seq<Column>)
      requires Valid() && Holds(newelems, s) && nitems == |s| && k < nitems
      modifies newelems
      ensures Holds(newelems, Without(s, k))
    {
      for p := k to nitems
        invariant forall j :: 0 <= j < k ==> newelems[j] == Some(s[j])
        invariant forall j :: k <= j < p ==> newelems[j] == if j + 1 < |s| then Some(s[j + 1]) else None
        invariant forall j :: p <= j < |s| ==> newelems[j] == Some(s[j])
        invariant newelems[nitems] == None
      {
        newelems[p] := newelems[p + 1];
      }
    }

    /** The removal loop. */
    method Shrink(n: nat, width: nat, growing: nat, maxw: nat, ghost s: seq<Column>)
      returns (nitems: nat, col: int, varwidth: nat)
      requires Valid() && Holds(newelems, s) && Ranked(s)
      requires n == |s| && width == FixedWidth(s) && growing == Growing(s)
      modifies newelems
      ensures var r := Kept(s, FixedWidth(s), maxw);
        Holds(newelems, r) && nitems == |r| && varwidth == Growing(r) && col == Believed(s, FixedWidth(s), maxw)
    {
      hide FixedWidth, Growing, Lowest, Without, IsLowest;
      nitems, col, varwidth := n, width, growing;
      ghost var cur := s;
      while col + nitems - 1 + 12 * varwidth > maxw
        invariant Holds(newelems, cur) && Ranked(cur)
        invariant nitems == |cur| && col <= FixedWidth(cur) && varwidth == Growing(cur)
        invariant Kept(cur, col, maxw) == Kept(s, FixedWidth(s), maxw)
        invariant Believed(cur, col, maxw) == Believed(s, FixedWidth(s), maxw)
        decreases nitems
      {
        SomeColumns(cur, col, maxw);
        var k := FindLowest(nitems, cur);
        assert cur[0].prio < NOPRIO;
        IsLowestUnique(cur, k);
        WidthWithout(cur, k);
        RankedWithout(cur, k);
        col := col - newelems[k].value.width;
        varwidth := varwidth - newelems[k].value.varwidth;
        Remove(nitems, k, cur);
        nitems := nitems - 1;
        cur := Without(cur, k);
      }
    }

    /** The blanks for fixed columns. */
    method Spread(nitems: nat, spare: int)
      requires Valid() && 0 < nitems < MAXITEMS && spare >= 0
      modifies spacings
      ensures IsSpread(spacings[..nitems], nitems, spare)
    {
      hide Share, Trunc;
      var j := 0;
      if nitems > 1 {
        AllShared(spare, nitems - 1);
        var over := spare as real / (nitems - 1) as real;
        assert Times(1, over) == over;
        var todo := over;
        while j < nitems - 1
          invariant 0 <= j <= nitems - 1
          invariant todo == Times(j + 1, over) - Share(spare, nitems - 1, j) as real
          invariant Sum(spacings[..j]) == Share(spare, nitems - 1, j)
          invariant forall i :: 0 <= i < j ==>
            spacings[i] == Share(spare, nitems - 1, i + 1) - Share(spare, nitems - 1, i)
        {
          NextShare(spare, nitems - 1, j, over, todo);
          spacings[j] := Trunc(Trunc(todo) as real + 0.5);
          todo := todo - spacings[j] as real;
          todo := todo + over;
          assert spacings[..j + 1][..j] == spacings[..j];
          j := j + 1;
        }
      }
      spacings[j] := 0;
      assert spacings[..nitems][..nitems - 1] == spacings[..nitems - 1];
    }

    /** A growing column among the first of the list gets the places that are left. */
    method Grow(elems: array<Option<Column>>, widths: array<int>, nitems: nat, rest: int, ghost s: seq<Column>)
      requires Valid() && Holds(elems, s) && nitems <= |s| < MAXITEMS && widths != spacings
      requires forall i :: 0 <= i < |s| ==> 0 <= s[i].id < widths.Length
      modifies spacings, widths
      ensures forall j :: 0 <= j < nitems ==> spacings[j] == 1
      ensures forall d :: 0 <= d < widths.Length ==>
        widths[d] == if GrowsAmong(s, nitems, d) then rest else old(widths[d])
    {
      hide GrowsAmong;
      assert forall d :: !GrowsAmong(s, 0, d) by { GrowsAmongNone(s); }
      for j := 0 to nitems
        invariant forall i :: 0 <= i < j ==> spacings[i] == 1
        invariant forall d :: 0 <= d < widths.Length ==>
          widths[d] == if GrowsAmong(s, j, d) then rest else old(widths[d])
      {
        spacings[j] := 1;
        GrowsAmongNext(s, j);
        if elems[j].value.varwidth != 0 { widths[elems[j].value.id] := rest; }
      }
    }

    /** widths are those of the definitions, which all lists share. */
    method GetSpacings(elems: array<Option<Column>>, widths: array<int>, maxw: nat, ghost s: seq<Column>)
      returns (nitems: nat)
      requires Valid() && elems != newelems && Holds(elems, s) && |s| < MAXITEMS && Ranked(s)
      requires widths != spacings && forall i :: 0 <= i < |s| ==> 0 <= s[i].id < widths.Length
      modifies newelems, spacings, widths
      ensures var r := if |s| == 1 then s else Kept(s, FixedWidth(s), maxw);
        && Holds(newelems, r) && nitems == |r|
        && (|s| != 1 ==> (Need(r) <= maxw <==> NeverFooled(s, 0, maxw)))
        && (|s| == 1 ==> spacings[0] == 0)
        && (|s| != 1 && Growing(r) > 0 ==> forall j :: 0 <= j < |r| ==> spacings[j] == 1)
        && (|s| != 1 && Growing(r) == 0 && |r| > 0 ==>
              IsSpread(spacings[..|r|], |r|, maxw - Believed(s, FixedWidth(s), maxw)))
        && (|s| != 1 && Growing(r) == 0 && |r| > 1 ==>
              FixedWidth(r) + Sum(spacings[..|r|]) == maxw + StaleWidth(s))
      ensures forall d :: 0 <= d < widths.Length ==>
        widths[d] == WidthAfter(s, maxw, d, old(widths[d]))
    {
      hide FixedWidth, Growing, StaleWidth, IsSpread, Kept, Believed, Need, NeverFooled, GrowsAmong, NoStaleWidths;
      var width, growing;
      nitems, width, growing := GetTotWidth(elems, s);
      if nitems == 1 {
        spacings[0] := 0;
        return;
      }
      var col;
      BelievedFits(s, FixedWidth(s), maxw);
      KeptIsShorter(s, FixedWidth(s), maxw);
      FitsExactlyWhen(s, maxw);
      nitems, col, growing := Shrink(nitems, width, growing, maxw, s);
      if growing != 0 {
        Grow(elems, widths, nitems, maxw - col - (nitems - 1), s);
        return;
      }
      if nitems == 0 {
        spacings[0] := 0;
        return;
      }
      Spread(nitems, maxw - col);
      if nitems > 1 { LineIsFull(s, maxw, spacings[..nitems]); }
    }
  }

  /** A growing column with this definition is among the first n of the list. */
  ghost predicate GrowsAmong(s: seq<Column>, n: nat, d: int)
    requires n <= |s|
  {
    exists j :: 0 <= j < n && s[j].varwidth != 0 && s[j].id == d
  }

  lemma GrowsAmongNone(s: seq<Column>)
    ensures forall d :: !GrowsAmong(s, 0, d)
  {
  }

  lemma GrowsAmongNext(s: seq<Column>, n: nat)
    requires n < |s|
    ensures forall d :: GrowsAmong(s, n + 1, d) <==> GrowsAmong(s, n, d) || (s[n].varwidth != 0 && s[n].id == d)
  {
    if s[n].varwidth != 0 { assert GrowsAmong(s, n + 1, s[n].id); }
  }

  lemma {:induction false} KeptIsShorter(s: seq<Column>, col: int, maxw: nat)
    requires col <= FixedWidth(s)
    ensures |Kept(s, col, maxw)| <= |s|
    decreases |s|
  {
    hide FixedWidth, Growing, Lowest, Without;
    if col + |s| - 1 + 12 * Growing(s) > maxw {
      SomeColumns(s, col, maxw);
      WidthWithout(s, Lowest(s));
      KeptIsShorter(Without(s, Lowest(s)), col - s[Lowest(s)].width, maxw);
    }
  }

  /** The width in definition d afterwards. */
  ghost function WidthAfter(s: seq<Column>, maxw: nat, d: int, before: int): int {
    var r := Kept(s, FixedWidth(s), maxw);
    KeptIsShorter(s, FixedWidth(s), maxw);
    if |s| != 1 && Growing(r) > 0 && GrowsAmong(s, |r|, d) then maxw - Believed(s, FixedWidth(s), maxw) - (|r| - 1)
    else before
  }

  /**
   * What a line with one growing column takes. If that column is among the first of the original list, as many as
   * columns were kept, the line is too long by what other growing columns brought, and full exactly if they brought
   * nothing; otherwise the column must happen to have the right width from an earlier line.
   */
  lemma GrownLineIsFull(s: seq<Column>, maxw: nat, k: nat)
    requires var r := Kept(s, FixedWidth(s), maxw);
      |s| != 1 && k < |r| <= |s| && Growing(r) == 1 && r[k].varwidth == 1
    ensures var r := Kept(s, FixedWidth(s), maxw);
      var line := FixedWidth(r) + |r| - 1 + WidthAfter(s, maxw, r[k].id, r[k].width);
      && (GrowsAmong(s, |r|, r[k].id) ==> line == maxw + StaleWidth(s) - r[k].width >= maxw)
      && (line == maxw <==> if GrowsAmong(s, |r|, r[k].id) then StaleWidth(s) == r[k].width
                            else r[k].width == maxw - FixedWidth(r) - (|r| - 1))
  {
    hide FixedWidth, Growing, StaleWidth, Kept, Believed, GrowsAmong;
    BelievedGap(s, FixedWidth(s), maxw);
    StaleOfOne(Kept(s, FixedWidth(s), maxw), k);
    StaleLeft(s, FixedWidth(s), maxw);
  }

  lemma {:induction false} StaleLeft(s: seq<Column>, col: int, maxw: nat)
    requires col <= FixedWidth(s)
    ensures StaleWidth(Kept(s, col, maxw)) <= StaleWidth(s)
    decreases |s|
  {
    hide FixedWidth, Growing, StaleWidth, Lowest, Without;
    if col + |s| - 1 + 12 * Growing(s) > maxw {
      SomeColumns(s, col, maxw);
      WidthWithout(s, Lowest(s));
      StaleLeft(Without(s, Lowest(s)), col - s[Lowest(s)].width, maxw);
    }
  }

  /** A list with one growing column that is still there brings no other stale width. */
  lemma {:induction false} NoOtherStale(s: seq<Column>, col: int, maxw: nat)
    requires col <= FixedWidth(s) && Growing(s) <= 1
    ensures var r := Kept(s, col, maxw);
      Growing(r) <= Growing(s) && (Growing(r) == 1 ==> StaleWidth(r) == StaleWidth(s))
    decreases |s|
  {
    hide FixedWidth, Growing, StaleWidth, Lowest, Without;
    if col + |s| - 1 + 12 * Growing(s) > maxw {
      SomeColumns(s, col, maxw);
      WidthWithout(s, Lowest(s));
      NoOtherStale(Without(s, Lowest(s)), col - s[Lowest(s)].width, maxw);
    }
  }

  /** With one growing column in the original list, its place there decides alone. */
  lemma OneGrowsWhenInFront(s: seq<Column>, maxw: nat, k: nat)
    requires Growing(s) == 1 && |s| != 1
    requires var r := Kept(s, FixedWidth(s), maxw); k < |r| && Growing(r) == 1 && r[k].varwidth == 1
    ensures var r := Kept(s, FixedWidth(s), maxw);
      && |r| <= |s|
      && (FixedWidth(r) + |r| - 1 + WidthAfter(s, maxw, r[k].id, r[k].width) == maxw <==>
          GrowsAmong(s, |r|, r[k].id) || r[k].width == maxw - FixedWidth(r) - (|r| - 1))
  {
    hide FixedWidth, Growing, StaleWidth, Kept, Believed, GrowsAmong, WidthAfter;
    KeptIsShorter(s, FixedWidth(s), maxw);
    NoOtherStale(s, FixedWidth(s), maxw);
    StaleOfOne(Kept(s, FixedWidth(s), maxw), k);
    GrownLineIsFull(s, maxw, k);
  }

  /** It is not, when an unimportant column in front of it was removed: 11 places of 80 are used. */
  lemma GrownTooFarBack(s: seq<Column>)
    requires s == [Column(0, 70, 0, 1), Column(1, 10, 0, 8), Column(2, 0, 1, 9)]
    ensures Kept(s, FixedWidth(s), 80) == s[1..] && WidthAfter(s, 80, 2, 0) == 0
    ensures FixedWidth(s[1..]) + |s[1..]| - 1 == 11
  {
    hide Without, FixedWidth, Growing, StaleWidth, Kept, Believed, IsLowest, GrowsAmong;
    var r := s[1..];
    TakenOut(s, 0);
    assert Without(s, 0) == r;
    WidthOfTwo(s[1], s[2], r);
    WidthWithout(s, 0);
    LowestHere(s, 0);
    KeepWithout(s, 80, 80, 0);
    KeepAll(r, 10, 80);
    NobodyGrows(s, r);
  }

  lemma NobodyGrows(s: seq<Column>, r: seq<Column>)
    requires |s| == 3 && |r| == 2 && s[0].varwidth == 0 && s[1].varwidth == 0
    ensures forall d :: !GrowsAmong(s, |r|, d)
  {
  }

  lemma KeepAll(s: seq<Column>, col: int, maxw: nat)
    requires col <= FixedWidth(s) && col + |s| - 1 + 12 * Growing(s) <= maxw
    ensures Kept(s, col, maxw) == s
  {
  }

  lemma IsLowestUnique(s: seq<Column>, k: int)
    requires IsLowest(s, k)
    ensures k == Lowest(s)
  {
    var i := Lowest(s);
    assert IsLowest(s, i);
  }

  lemma RankedWithout(s: seq<Column>, k: nat)
    requires Ranked(s) && k < |s|
    ensures Ranked(Without(s, k))
  {
  }

  // ------------------------------------------------------------------ the line as a whole

  lemma {:induction false} SumOfParts(a: seq<int>, x: int)
    ensures Sum(a + [x]) == Sum(a) + x
  {
    assert (a + [x])[..|a|] == a;
  }

  lemma SumOfSpread(spacings: seq<int>, n: nat, spare: int)
    requires IsSpread(spacings, n, spare) && n >= 2
    ensures Sum(spacings) == spare
  {
    assert spacings == spacings[..n - 1] + [spacings[n - 1]];
    SumOfParts(spacings[..n - 1], 0);
  }

  /** A line of fixed columns and their blanks is too long by what growing columns, all removed, brought
      from earlier lines: it fits, and is then full, if and only if none of the list brings a width. */
  lemma LineIsFull(s: seq<Column>, maxw: nat, spacings: seq<int>)
    requires var r := Kept(s, FixedWidth(s), maxw);
      |r| >= 2 && Growing(r) == 0 && IsSpread(spacings, |r|, maxw - Believed(s, FixedWidth(s), maxw))
    ensures var line := FixedWidth(Kept(s, FixedWidth(s), maxw)) + Sum(spacings);
      && line == maxw + StaleWidth(s)
      && (line <= maxw <==> NoStaleWidths(s))
      && (line == maxw <==> NoStaleWidths(s))
  {
    hide FixedWidth, Growing, StaleWidth, Kept, Believed, NoStaleWidths, IsSpread;
    var r := Kept(s, FixedWidth(s), maxw);
    BelievedGap(s, FixedWidth(s), maxw);
    StaleOrNot(s);
    StaleOrNot(r);
    SumOfSpread(spacings, |r|, maxw - Believed(s, FixedWidth(s), maxw));
  }

  /** A single column that is left gets no blanks: the line fits exactly when the columns kept are right. */
  lemma OneColumnFits(s: seq<Column>, maxw: nat)
    requires var r := Kept(s, FixedWidth(s), maxw); |r| == 1 && Growing(r) == 0
    ensures FixedWidth(Kept(s, FixedWidth(s), maxw)) <= maxw <==> NeverFooled(s, 0, maxw)
  {
    hide FixedWidth, Growing, Kept, NeverFooled;
    FitsExactlyWhen(s, maxw);
  }

  /** The right columns are kept, as they fit with single blanks, and yet the line takes 120 of 80 places. */
  lemma RightButTooLong(s: seq<Column>, spacings: seq<int>)
    requires s == [Column(0, 30, 0, 9), Column(1, 30, 0, 8), Column(2, 40, 1, 1), Column(3, 70, 0, 2)]
    requires IsSpread(spacings, 2, 80 - Believed(s, FixedWidth(s), 80))
    ensures NeverFooled(s, 0, 80) && Kept(s, FixedWidth(s), 80) == s[..2] && Need(s[..2]) == 61
    ensures FixedWidth(s[..2]) + Sum(spacings) == 120
  {
    hide FixedWidth, Growing, StaleWidth, Kept, Believed, IsSpread, NeverFooled;
    FourColumns(s);
    FitsExactlyWhen(s, 80);
    LineIsFull(s, 80, spacings);
  }

  lemma FourColumns(s: seq<Column>)
    requires s == [Column(0, 30, 0, 9), Column(1, 30, 0, 8), Column(2, 40, 1, 1), Column(3, 70, 0, 2)]
    ensures Kept(s, FixedWidth(s), 80) == s[..2]
    ensures FixedWidth(s[..2]) == 60 && Growing(s[..2]) == 0 && StaleWidth(s) == 40
  {
    hide FixedWidth, Growing, StaleWidth, Kept, Believed, Without, IsLowest;
    var t := Without(s, 2);
    TakenOut(s, 2);
    assert t == [s[0], s[1], s[3]];
    assert t[..2] == s[..2];
    ThreeColumns(t);
    WidthWithout(s, 2);
    LowestHere(s, 2);
    KeepWithout(s, 130, 80, 2);
  }

  lemma ThreeColumns(t: seq<Column>)
    requires t == [Column(0, 30, 0, 9), Column(1, 30, 0, 8), Column(3, 70, 0, 2)]
    ensures FixedWidth(t) == 130 && Growing(t) == 0 && StaleWidth(t) == 0 && FixedWidth(t[..2]) == 60
    ensures Growing(t[..2]) == 0 && Kept(t, 90, 80) == t[..2]
  {
    hide FixedWidth, Growing, StaleWidth, Kept, Believed, Without, IsLowest;
    var r := t[..2];
    TakenOut(t, 2);
    assert Without(t, 2) == r;
    WidthOfTwo(t[0], t[1], r);
    WidthWithout(t, 2);
    LowestHere(t, 2);
    KeepWithout(t, 90, 80, 2);
    KeepAll(r, 20, 80);
  }

  lemma LowestHere(s: seq<Column>, i: nat)
    requires i < |s| && forall j :: 0 <= j < |s| && j != i ==> s[i].prio < s[j].prio
    ensures IsLowest(s, i)
  {
  }

  lemma WidthOfTwo(a: Column, b: Column, s: seq<Column>)
    requires s == [a, b] && a.varwidth == 0
    ensures FixedWidth(s) == a.width + if b.varwidth != 0 then 0 else b.width
    ensures Growing(s) == b.varwidth && (b.varwidth == 0 ==> StaleWidth(s) == 0)
  {
    hide FixedWidth, Growing, StaleWidth;
    assert s == [a] + [b];
    OneWidth(a);
    OneWidth(b);
    FixedWidthOfParts([a], [b]);
  }

  /** One turn of the removal. */
  lemma KeepWithout(s: seq<Column>, col: int, maxw: nat, i: nat)
    requires col <= FixedWidth(s) && col + |s| - 1 + 12 * Growing(s) > maxw && i < |s| && IsLowest(s, i)
    ensures col - s[i].width <= FixedWidth(Without(s, i))
    ensures Kept(s, col, maxw) == Kept(Without(s, i), col - s[i].width, maxw)
  {
    hide FixedWidth, Growing, StaleWidth, IsLowest, Lowest, Without;
    IsLowestUnique(s, i);
    WidthWithout(s, i);
  }

  /** The blanks between two columns differ by one at most. */
  lemma EvenBlanks(spacings: seq<int>, n: nat, spare: int, i: nat, j: nat)
    requires IsSpread(spacings, n, spare) && i < n - 1 && j < n - 1
    ensures -1 <= spacings[i] - spacings[j] <= 1
  {
    ShareStep(spare, n - 1, i);
    ShareStep(spare, n - 1, j);
  }

  lemma ShareStep(spare: int, n: nat, j: nat)
    requires n > 0
    ensures var over := spare as real / n as real;
      over.Floor <= Share(spare, n, j + 1) - Share(spare, n, j) <= over.Floor + 1
  {
    var over := spare as real / n as real;
    assert Times(j + 1, over) == Times(j, over) + over;
  }
}
