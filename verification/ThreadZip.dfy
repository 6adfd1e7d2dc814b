/**
 The thread view: threads are listed behind their processes. The list of all tasks holds
 each process directly followed by its threads; the list of processes has been sorted.
 */
module ThreadZip {
  import opened Tasks
  import opened Activity

  /** A thread carries the tgid of its process. */
  ghost predicate Layout(tall: seq<TStat>) {
    && (forall q, t :: Belongs(tall, q, t) && q < t ==> tall[t].tgid == tall[q].tgid != 0)
    && (tall != [] ==> tall[0].isproc)
  }

  predicate Shown(x: TStat, activeonly: bool) { activeonly ==> !x.wasinactive }

  /** The loop over t: from place t on, as long as the tgid is that of p. */
  function Scan(tall: seq<TStat>, p: nat, t: nat, activeonly: bool): seq<nat>
    requires p < |tall|
    decreases |tall| - t
  {
    if t < |tall| && tall[p].tgid != 0 && tall[p].tgid == tall[t].tgid then
      (if Shown(tall[t], activeonly) then [t] else []) + Scan(tall, p, t + 1, activeonly)
    else []
  }

  /** The listed processes, each followed by its threads. */
  function Zip(tall: seq<TStat>, curlist: seq<nat>, activeonly: bool): seq<nat>
    requires forall i | 0 <= i < |curlist| :: curlist[i] < |tall|
  {
    if |curlist| == 0 then []
    else
      var n := |curlist| - 1;
      Zip(tall, curlist[..n], activeonly) + [curlist[n]] + Scan(tall, curlist[n], curlist[n] + 1, activeonly)
  }

  // ------------------------------------------------------------------ what is listed

  ghost predicate Increasing(s: seq<nat>) { forall i, j :: 0 <= i < j < |s| ==> s[i] < s[j] }

  /** All tasks behind p up to x carry the tgid of p: the loop gets from p to x. */
  ghost predicate Reached(tall: seq<TStat>, p: int, x: int) {
    0 <= p <= x < |tall| && forall y | p < y <= x :: tall[y].tgid == tall[p].tgid != 0
  }

  /** From no shown process does the loop get to a shown task of another. */
  ghost predicate NoOverrun(tall: seq<TStat>, activeonly: bool) {
    forall p, x :: Reached(tall, p, x) && tall[p].isproc && Shown(tall[p], activeonly) && Shown(tall[x], activeonly) ==>
                   Belongs(tall, p, x)
  }

  /** s lists exactly the shown tasks that are reached from p, from place t on, in order. */
  ghost predicate IsScan(tall: seq<TStat>, p: nat, t: nat, activeonly: bool, s: seq<nat>) {
    && Increasing(s)
    && (forall x :: x in s <==> t <= x && Reached(tall, p, x) && Shown(tall[x], activeonly))
  }

  lemma ScanCons(tall: seq<TStat>, p: nat, t: nat, activeonly: bool, s: seq<nat>)
    requires t < |tall| && IsScan(tall, p, t + 1, activeonly, s) && Reached(tall, p, t)
    ensures IsScan(tall, p, t, activeonly, (if Shown(tall[t], activeonly) then [t] else []) + s)
  {
    hide Reached;
    var head := if Shown(tall[t], activeonly) then [t] else [];
    InBoth(head, s);
    forall j | 0 <= j < |s|
      ensures t < s[j]
    {
      assert s[j] in s;
    }
  }

  lemma ScanNone(tall: seq<TStat>, p: nat, t: nat, activeonly: bool)
    requires p < t && !Reached(tall, p, t)
    ensures IsScan(tall, p, t, activeonly, [])
  {
    forall x
      ensures !(t <= x && Reached(tall, p, x))
    {
      if t <= x && Reached(tall, p, x) { ReachedDown(tall, p, x, t); }
    }
  }

  /** Scanning on behind p from place t gives exactly the shown tasks that are reached. */
  lemma {:induction false} ScanFrom(tall: seq<TStat>, p: nat, t: nat, activeonly: bool)
    requires p < t <= |tall| && Reached(tall, p, t - 1)
    ensures IsScan(tall, p, t, activeonly, Scan(tall, p, t, activeonly))
    decreases |tall| - t
  {
    hide IsScan;
    ReachedNext(tall, p, t);
    if Reached(tall, p, t) {
      ScanFrom(tall, p, t + 1, activeonly);
      ScanCons(tall, p, t, activeonly, Scan(tall, p, t + 1, activeonly));
    } else {
      ScanNone(tall, p, t, activeonly);
    }
  }

  lemma ReachedDown(tall: seq<TStat>, p: int, x: int, t: int)
    requires Reached(tall, p, x) && p <= t <= x
    ensures Reached(tall, p, t)
  {
  }

  lemma ReachedNext(tall: seq<TStat>, p: nat, t: nat)
    requires p < t && Reached(tall, p, t - 1)
    ensures Reached(tall, p, t) <==> t < |tall| && tall[p].tgid != 0 && tall[p].tgid == tall[t].tgid
  {
    if t < |tall| { assert tall[t].tgid == tall[p].tgid != 0 ==> Reached(tall, p, t); }
  }

  lemma InBoth(a: seq<nat>, b: seq<nat>)
    ensures forall x :: x in a + b <==> x in a || x in b
  {
  }

  /** The threads of a process are reached; without an overrun nothing else that is shown. */
  lemma OwnAreReached(tall: seq<TStat>, p: nat, x: int)
    requires Layout(tall) && Belongs(tall, p, x)
    ensures Reached(tall, p, x)
  {
    forall y | p < y <= x
      ensures tall[y].tgid == tall[p].tgid != 0
    {
      assert Belongs(tall, p, y);
    }
  }

  lemma ReachedAreOwn(tall: seq<TStat>, p: nat, activeonly: bool)
    requires Layout(tall) && NoOverrun(tall, activeonly)
    requires p < |tall| && tall[p].isproc && Shown(tall[p], activeonly)
    ensures forall x :: 0 <= x < |tall| && Shown(tall[x], activeonly) ==> (Reached(tall, p, x) <==> Belongs(tall, p, x))
  {
    hide Layout, Belongs, Reached;
    forall x | Belongs(tall, p, x) ensures Reached(tall, p, x) { OwnAreReached(tall, p, x); }
  }

  lemma Unrolled(tall: seq<TStat>, curlist: seq<nat>, activeonly: bool, n: nat)
    requires n < |curlist| && forall i | 0 <= i < |curlist| :: curlist[i] < |tall|
    ensures Zip(tall, curlist[..n + 1], activeonly)
         == Zip(tall, curlist[..n], activeonly) + [curlist[n]] + Scan(tall, curlist[n], curlist[n] + 1, activeonly)
  {
    assert curlist[..n + 1][..n] == curlist[..n];
  }

  /** The processes to list, each once. */
  ghost predicate Listed(tall: seq<TStat>, curlist: seq<nat>, activeonly: bool) {
    && (forall i | 0 <= i < |curlist| ::
          curlist[i] < |tall| && tall[curlist[i]].isproc && Shown(tall[curlist[i]], activeonly))
    && (forall i, j :: 0 <= i < j < |curlist| ==> curlist[i] != curlist[j])
  }

  ghost predicate NoRepeat(s: seq<nat>) { forall i, j :: 0 <= i < j < |s| ==> s[i] != s[j] }

  /** The place of x's process in the list. */
  ghost predicate OfListed(tall: seq<TStat>, curlist: seq<nat>, x: int) {
    exists i :: 0 <= i < |curlist| && Belongs(tall, curlist[i], x)
  }

  /** Without an overrun, every listed process and each of its shown threads is in the zipped
      list, exactly once, and nothing else is. */
  lemma {:induction false} ZipLists(tall: seq<TStat>, curlist: seq<nat>, activeonly: bool)
    requires Layout(tall) && NoOverrun(tall, activeonly) && Listed(tall, curlist, activeonly)
    ensures var z := Zip(tall, curlist, activeonly);
            && NoRepeat(z)
            && (forall x :: x in z <==> OfListed(tall, curlist, x) && Shown(tall[x], activeonly))
    decreases |curlist|, 1
  {
    if |curlist| > 0 {
      hide *;
      ZipLast(tall, curlist, activeonly);
    }
  }

  lemma {:induction false} ZipLast(tall: seq<TStat>, curlist: seq<nat>, activeonly: bool)
    requires Layout(tall) && NoOverrun(tall, activeonly) && Listed(tall, curlist, activeonly) && |curlist| > 0
    ensures var z := Zip(tall, curlist, activeonly);
            && NoRepeat(z)
            && (forall x :: x in z <==> OfListed(tall, curlist, x) && Shown(tall[x], activeonly))
    decreases |curlist|, 0
  {
    hide Layout, NoOverrun, OfListed, Belongs, Scan, NoRepeat;
    var n := |curlist| - 1;
    var p, c := curlist[n], curlist[..n];
    ListedInit(tall, curlist, activeonly);
    ZipLists(tall, c, activeonly);
    OneProcessMore(tall, curlist);
    ZipOne(tall, p, activeonly);
    var z0, s := Zip(tall, c, activeonly), [p] + Scan(tall, p, p + 1, activeonly);
    InBoth(z0, s);
    Apart(z0, s);
    assert Zip(tall, curlist, activeonly) == z0 + s;
  }

  lemma ListedInit(tall: seq<TStat>, curlist: seq<nat>, activeonly: bool)
    requires Listed(tall, curlist, activeonly) && |curlist| > 0
    ensures Listed(tall, curlist[..|curlist| - 1], activeonly) && NoRepeat(curlist)
  {
  }

  /** A process and its shown threads. */
  lemma ZipOne(tall: seq<TStat>, p: nat, activeonly: bool)
    requires Layout(tall) && NoOverrun(tall, activeonly)
    requires p < |tall| && tall[p].isproc && Shown(tall[p], activeonly)
    ensures var s := [p] + Scan(tall, p, p + 1, activeonly);
            && NoRepeat(s)
            && (forall x :: x in s <==> Belongs(tall, p, x) && Shown(tall[x], activeonly))
  {
    hide Layout, NoOverrun, Scan;
    ReachedAreOwn(tall, p, activeonly);
    ScanFrom(tall, p, p + 1, activeonly);
    hide Reached;
    InBoth([p], Scan(tall, p, p + 1, activeonly));
  }

  lemma Apart(a: seq<nat>, b: seq<nat>)
    requires NoRepeat(a) && NoRepeat(b) && forall x :: x in a ==> x !in b
    ensures NoRepeat(a + b)
  {
    var c := a + b;
    forall i, j | 0 <= i < j < |c|
      ensures c[i] != c[j]
    {
      if i < |a| <= j { assert c[i] in a && c[j] in b; }
    }
  }

  /** The tasks of the last listed process are not those of an earlier one. */
  lemma OneProcessMore(tall: seq<TStat>, curlist: seq<nat>)
    requires |curlist| > 0 && NoRepeat(curlist)
    ensures var n := |curlist| - 1;
            forall x :: OfListed(tall, curlist, x) <==>
                        (OfListed(tall, curlist[..n], x) || Belongs(tall, curlist[n], x))
    ensures var n := |curlist| - 1;
            forall x :: OfListed(tall, curlist[..n], x) ==> !Belongs(tall, curlist[n], x)
  {
    var n := |curlist| - 1;
    forall x
      ensures OfListed(tall, curlist, x) <==> (OfListed(tall, curlist[..n], x) || Belongs(tall, curlist[n], x))
    {
      if OfListed(tall, curlist, x) {
        var i :| 0 <= i < |curlist| && Belongs(tall, curlist[i], x);
        if i < n { assert Belongs(tall, curlist[..n][i], x); }
      }
      if OfListed(tall, curlist[..n], x) {
        var i :| 0 <= i < n && Belongs(tall, curlist[..n][i], x);
        assert Belongs(tall, curlist[i], x);
      }
    }
    forall x | OfListed(tall, curlist[..n], x)
      ensures !Belongs(tall, curlist[n], x)
    {
      var i :| 0 <= i < n && Belongs(tall, curlist[..n][i], x);
      NotOfBoth(tall, curlist[i], curlist[n], x);
    }
  }

  lemma NotOfBoth(tall: seq<TStat>, p: int, q: int, x: int)
    requires p != q && Belongs(tall, p, x)
    ensures !Belongs(tall, q, x)
  {
  }

  // ------------------------------------------------------------------ how much is listed

  ghost function ShownPlaces(tall: seq<TStat>, activeonly: bool): set<nat> {
    set i: nat | i < |tall| && Shown(tall[i], activeonly)
  }

  /** The size the list is allocated with: ntaskactive or ntaskall. */
  function Total(tall: seq<TStat>, activeonly: bool): nat {
    if activeonly then NumActive(tall) else |tall|
  }

  lemma {:induction false} ShownTotal(tall: seq<TStat>, activeonly: bool)
    ensures |ShownPlaces(tall, activeonly)| == Total(tall, activeonly)
    decreases |tall|
  {
    if |tall| == 0 {
      assert ShownPlaces(tall, activeonly) == {};
    } else {
      var n := |tall| - 1;
      ShownTotal(tall[..n], activeonly);
      var before := ShownPlaces(tall[..n], activeonly);
      if Shown(tall[n], activeonly) {
        assert ShownPlaces(tall, activeonly) == before + {n};
      } else {
        assert ShownPlaces(tall, activeonly) == before;
      }
    }
  }

  ghost function Elements(s: seq<nat>): set<nat> { set x | x in s }

  lemma {:induction false} ElementsCount(s: seq<nat>)
    requires NoRepeat(s)
    ensures |Elements(s)| == |s|
  {
    if |s| == 0 {
      assert Elements(s) == {};
    } else {
      var n := |s| - 1;
      ElementsCount(s[..n]);
      assert s == s[..n] + [s[n]];
      assert Elements(s) == Elements(s[..n]) + {s[n]};
      assert s[n] !in s[..n];
    }
  }

  lemma SubsetCount(a: set<nat>, b: set<nat>)
    requires a <= b
    ensures |a| <= |b|
    ensures |a| == |b| ==> a == b
  {
    assert b == a + (b - a);
  }

  /** Every task has a process. */
  lemma {:induction false} HasProcess(tall: seq<TStat>, x: nat) returns (q: nat)
    requires x < |tall| && tall[0].isproc
    ensures Belongs(tall, q, x)
  {
    if tall[x].isproc {
      q := x;
    } else {
      q := HasProcess(tall, x - 1);
    }
  }

  ghost predicate ListsAll(tall: seq<TStat>, curlist: seq<nat>, activeonly: bool) {
    forall q: nat | q < |tall| && tall[q].isproc && Shown(tall[q], activeonly) :: q in curlist
  }

  /** Without an overrun the zipped list never needs more than its allocated size. */
  lemma ZipSize(tall: seq<TStat>, curlist: seq<nat>, activeonly: bool)
    requires Layout(tall) && NoOverrun(tall, activeonly) && Listed(tall, curlist, activeonly)
    ensures |Zip(tall, curlist, activeonly)| <= Total(tall, activeonly)
    ensures ListsAll(tall, curlist, activeonly) && (activeonly ==> ActiveAbove(tall)) ==>
              |Zip(tall, curlist, activeonly)| == Total(tall, activeonly)
  {
    hide Layout, NoOverrun, Belongs, ListsAll, ActiveAbove, Zip, NoRepeat, OfListed, Elements, ShownPlaces, Total;
    var z := Zip(tall, curlist, activeonly);
    ZipLists(tall, curlist, activeonly);
    ElementsCount(z);
    ShownTotal(tall, activeonly);
    InPlaces(tall, curlist, activeonly);
    SubsetCount(Elements(z), ShownPlaces(tall, activeonly));
    if ListsAll(tall, curlist, activeonly) && (activeonly ==> ActiveAbove(tall)) {
      AllPlaces(tall, curlist, activeonly);
      SubsetCount(ShownPlaces(tall, activeonly), Elements(z));
    }
  }

  lemma InPlaces(tall: seq<TStat>, curlist: seq<nat>, activeonly: bool)
    requires Listed(tall, curlist, activeonly)
    requires forall x :: x in Zip(tall, curlist, activeonly) ==>
                           OfListed(tall, curlist, x) && Shown(tall[x], activeonly)
    ensures Elements(Zip(tall, curlist, activeonly)) <= ShownPlaces(tall, activeonly)
  {
  }

  lemma AllPlaces(tall: seq<TStat>, curlist: seq<nat>, activeonly: bool)
    requires Layout(tall) && Listed(tall, curlist, activeonly) && ListsAll(tall, curlist, activeonly)
    requires activeonly ==> ActiveAbove(tall)
    requires forall x :: OfListed(tall, curlist, x) && Shown(tall[x], activeonly) ==>
                           x in Zip(tall, curlist, activeonly)
    ensures ShownPlaces(tall, activeonly) <= Elements(Zip(tall, curlist, activeonly))
  {
    forall x | x in ShownPlaces(tall, activeonly)
      ensures x in Zip(tall, curlist, activeonly)
    {
      var q := HasProcess(tall, x);
      assert q in curlist;
      var i :| 0 <= i < |curlist| && curlist[i] == q;
      assert OfListed(tall, curlist, x);
    }
  }

  // ------------------------------------------------------------------ when the size is exceeded

  lemma {:induction false} ElementsBound(s: seq<nat>)
    ensures |Elements(s)| <= |s|
  {
    if |s| == 0 {
      assert Elements(s) == {};
    } else {
      ElementsBound(s[..|s| - 1]);
      assert s == s[..|s| - 1] + [s[|s| - 1]];
      assert Elements(s) == Elements(s[..|s| - 1]) + {s[|s| - 1]};
    }
  }

  /** A list with a repetition is longer than the set of its elements. */
  lemma RepeatCount(s: seq<nat>)
    requires !NoRepeat(s)
    ensures |Elements(s)| < |s|
  {
    var i, j :| 0 <= i < j < |s| && s[i] == s[j];
    var t := s[..j] + s[j + 1..];
    forall x | x in s
      ensures x in t
    {
      var k :| 0 <= k < |s| && s[k] == x;
      if k == j { assert t[i] == x; } else if k < j { assert t[k] == x; } else { assert t[k - 1] == x; }
    }
    assert Elements(s) <= Elements(t);
    SubsetCount(Elements(s), Elements(t));
    ElementsBound(t);
  }

  /** What the loop gets to from a listed process is in the zipped list. */
  lemma {:induction false} ReachedIsZipped(tall: seq<TStat>, curlist: seq<nat>, activeonly: bool, i: nat, x: nat)
    requires Listed(tall, curlist, activeonly) && i < |curlist|
    requires Reached(tall, curlist[i], x) && Shown(tall[x], activeonly)
    ensures x in Zip(tall, curlist, activeonly)
    decreases |curlist|
  {
    hide Scan, Reached;
    var n := |curlist| - 1;
    if i < n {
      ReachedIsZipped(tall, curlist[..n], activeonly, i, x);
    } else {
      ReachedFromOne(tall, curlist[n], activeonly, x);
    }
  }

  lemma ReachedFromOne(tall: seq<TStat>, p: nat, activeonly: bool, x: nat)
    requires Reached(tall, p, x) && Shown(tall[x], activeonly)
    ensures x in [p] + Scan(tall, p, p + 1, activeonly)
  {
    hide Scan;
    ScanFrom(tall, p, p + 1, activeonly);
  }

  /** What it gets to from two of them is there twice. */
  lemma {:induction false} ReachedTwice(tall: seq<TStat>, curlist: seq<nat>, activeonly: bool, i: nat, j: nat, x: nat)
    requires Listed(tall, curlist, activeonly) && i < j < |curlist|
    requires Reached(tall, curlist[i], x) && Reached(tall, curlist[j], x) && Shown(tall[x], activeonly)
    ensures !NoRepeat(Zip(tall, curlist, activeonly))
    decreases |curlist|
  {
    hide Scan, Reached, NoRepeat;
    var n := |curlist| - 1;
    var z, s := Zip(tall, curlist[..n], activeonly), [curlist[n]] + Scan(tall, curlist[n], curlist[n] + 1, activeonly);
    assert Zip(tall, curlist, activeonly) == z + s;
    if j < n {
      ReachedTwice(tall, curlist[..n], activeonly, i, j, x);
      RepeatInFront(z, s);
    } else {
      ReachedIsZipped(tall, curlist[..n], activeonly, i, x);
      ReachedFromOne(tall, curlist[n], activeonly, x);
      RepeatAcross(z, s, x);
    }
  }

  lemma RepeatInFront(a: seq<nat>, b: seq<nat>)
    requires !NoRepeat(a)
    ensures !NoRepeat(a + b)
  {
    var i, j :| 0 <= i < j < |a| && a[i] == a[j];
    assert (a + b)[i] == (a + b)[j];
  }

  lemma RepeatAcross(a: seq<nat>, b: seq<nat>, x: nat)
    requires x in a && x in b
    ensures !NoRepeat(a + b)
  {
    var i :| 0 <= i < |a| && a[i] == x;
    var j :| 0 <= j < |b| && b[j] == x;
    assert (a + b)[i] == (a + b)[|a| + j];
  }

  lemma AllShownZipped(tall: seq<TStat>, curlist: seq<nat>, activeonly: bool)
    requires Layout(tall) && Listed(tall, curlist, activeonly) && ListsAll(tall, curlist, activeonly)
    requires activeonly ==> ActiveAbove(tall)
    ensures ShownPlaces(tall, activeonly) <= Elements(Zip(tall, curlist, activeonly))
  {
    hide Zip, Layout, Reached;
    forall x | x in ShownPlaces(tall, activeonly)
      ensures x in Zip(tall, curlist, activeonly)
    {
      var i := OwnListed(tall, curlist, activeonly, x);
      ReachedIsZipped(tall, curlist, activeonly, i, x);
    }
  }

  /** The place in the list of the process that a shown task belongs to. */
  lemma OwnListed(tall: seq<TStat>, curlist: seq<nat>, activeonly: bool, x: nat) returns (i: nat)
    requires Layout(tall) && Listed(tall, curlist, activeonly) && ListsAll(tall, curlist, activeonly)
    requires activeonly ==> ActiveAbove(tall)
    requires x < |tall| && Shown(tall[x], activeonly)
    ensures i < |curlist| && Belongs(tall, curlist[i], x) && Reached(tall, curlist[i], x)
  {
    var q := HasProcess(tall, x);
    OwnAreReached(tall, q, x);
    assert q in curlist;
    i :| 0 <= i < |curlist| && curlist[i] == q;
  }

  /** With every (active) process in the list, and no active thread under an inactive process,
      the allocated size is enough if and only if no process overruns; then it is used up. */
  lemma ZipBound(tall: seq<TStat>, curlist: seq<nat>, activeonly: bool)
    requires Layout(tall) && Listed(tall, curlist, activeonly) && ListsAll(tall, curlist, activeonly)
    requires activeonly ==> ActiveAbove(tall)
    ensures |Zip(tall, curlist, activeonly)| <= Total(tall, activeonly) <==> NoOverrun(tall, activeonly)
    ensures NoOverrun(tall, activeonly) ==> |Zip(tall, curlist, activeonly)| == Total(tall, activeonly)
  {
    if NoOverrun(tall, activeonly) {
      ZipSize(tall, curlist, activeonly);
    } else {
      Overrun(tall, curlist, activeonly);
    }
  }

  lemma Overrun(tall: seq<TStat>, curlist: seq<nat>, activeonly: bool)
    requires Layout(tall) && Listed(tall, curlist, activeonly) && ListsAll(tall, curlist, activeonly)
    requires (activeonly ==> ActiveAbove(tall)) && !NoOverrun(tall, activeonly)
    ensures |Zip(tall, curlist, activeonly)| > Total(tall, activeonly)
  {
    hide Layout, Reached, Zip, Elements, ShownPlaces, Total, Belongs, ActiveAbove, NoRepeat;
    var p, x := Overrunner(tall, activeonly);
    var i := OwnListed(tall, curlist, activeonly, x);
    assert p in curlist;
    var j :| 0 <= j < |curlist| && curlist[j] == p;
    ReachedTwice(tall, curlist, activeonly, if i < j then i else j, if i < j then j else i, x);
    RepeatCount(Zip(tall, curlist, activeonly));
    AllShownZipped(tall, curlist, activeonly);
    ShownTotal(tall, activeonly);
    SubsetCount(ShownPlaces(tall, activeonly), Elements(Zip(tall, curlist, activeonly)));
  }

  lemma Overrunner(tall: seq<TStat>, activeonly: bool) returns (p: nat, x: nat)
    requires !NoOverrun(tall, activeonly)
    ensures p < |tall| && x < |tall| && tall[p].isproc && Shown(tall[p], activeonly) && Shown(tall[x], activeonly)
    ensures Reached(tall, p, x) && !Belongs(tall, p, x)
  {
    p, x :| Reached(tall, p, x) && tall[p].isproc && Shown(tall[p], activeonly) && Shown(tall[x], activeonly) &&
            !Belongs(tall, p, x);
  }

  /** No two processes share a tgid, but for exit records without a pid. */
  ghost predicate DistinctTgids(tall: seq<TStat>) {
    forall p, q :: 0 <= p < q < |tall| && tall[p].isproc && tall[q].isproc && tall[p].tgid == tall[q].tgid ==>
                   tall[p].tgid == 0
  }

  /** Nothing overruns then. */
  lemma DistinctNeverOverrun(tall: seq<TStat>, activeonly: bool)
    requires Layout(tall) && DistinctTgids(tall)
    ensures NoOverrun(tall, activeonly)
  {
    forall p, x | Reached(tall, p, x) && tall[p].isproc
      ensures Belongs(tall, p, x)
    {
      forall y | p < y <= x ensures !tall[y].isproc { assert tall[y].tgid == tall[p].tgid != 0; }
    }
  }

  /** The inner loop: one process and its threads. */
  method ZipProcess(tall: seq<TStat>, pcur: nat, activeonly: bool, tsklist: array<nat>, start: nat) returns (j: nat)
    requires pcur < |tall|
    requires start + 1 + |Scan(tall, pcur, pcur + 1, activeonly)| <= tsklist.Length
    modifies tsklist
    ensures start <= j <= tsklist.Length
    ensures tsklist[..j] == old(tsklist[..start]) + [pcur] + Scan(tall, pcur, pcur + 1, activeonly)
  {
    j := start;
    tsklist[j] := pcur;
    j := j + 1;
    var t := pcur + 1;
    ghost var all := old(tsklist[..start]) + [pcur] + Scan(tall, pcur, pcur + 1, activeonly);
    while t < |tall| && tall[pcur].tgid != 0 && tall[pcur].tgid == tall[t].tgid
      invariant pcur < t <= |tall| && start <= j <= tsklist.Length
      invariant tsklist[..j] + Scan(tall, pcur, t, activeonly) == all
      decreases |tall| - t
    {
      assert |tsklist[..j] + Scan(tall, pcur, t, activeonly)| <= tsklist.Length;
      if activeonly {
        if !tall[t].wasinactive {
          tsklist[j] := t;
          j := j + 1;
        }
      } else {
        tsklist[j] := t;
        j := j + 1;
      }
      t := t + 1;
    }
  }

  /** The zip loop, writing into a list of ntotal entries; whether that is enough says ZipBound. */
  method ZipThreads(tall: seq<TStat>, curlist: seq<nat>, activeonly: bool, tsklist: array<nat>) returns (j: nat)
    requires forall i | 0 <= i < |curlist| :: curlist[i] < |tall|
    requires |Zip(tall, curlist, activeonly)| <= tsklist.Length
    modifies tsklist
    ensures j <= tsklist.Length && tsklist[..j] == Zip(tall, curlist, activeonly)
  {
    hide Scan, Shown;
    j := 0;
    for i := 0 to |curlist|
      invariant j <= tsklist.Length && tsklist[..j] == Zip(tall, curlist[..i], activeonly)
    {
      Unrolled(tall, curlist, activeonly, i);
      ZipPrefix(tall, curlist, activeonly, i + 1);
      j := ZipProcess(tall, curlist[i], activeonly, tsklist, j);
    }
    assert curlist[..|curlist|] == curlist;
  }

  lemma {:induction false} ZipPrefix(tall: seq<TStat>, curlist: seq<nat>, activeonly: bool, n: nat)
    requires n <= |curlist| && forall i | 0 <= i < |curlist| :: curlist[i] < |tall|
    ensures |Zip(tall, curlist[..n], activeonly)| <= |Zip(tall, curlist, activeonly)|
    decreases |curlist| - n
  {
    if n == |curlist| {
      assert curlist[..n] == curlist;
    } else {
      Unrolled(tall, curlist, activeonly, n);
      ZipPrefix(tall, curlist, activeonly, n + 1);
    }
  }
}
