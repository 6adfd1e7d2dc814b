/** The interfaces of two samples, paired by name while both lists are walked along: deviatsyst. */
module Interfaces {
  import opened Deviation

  /** The 16 counters are in the order of the record. */
  datatype Interface = Interface(name: string, counters: seq<int>, kind: int, duplex: int, speed: int, speedp: int)

  const NCOUNTERS := 16

  predicate WellFormed(s: seq<Interface>) {
    forall i :: 0 <= i < |s| ==> s[i].name != "" && |s[i].counters| == NCOUNTERS
  }

  ghost predicate NamesDiffer(s: seq<Interface>) {
    forall i, j :: 0 <= i < j < |s| ==> s[i].name != s[j].name
  }

  function Differences(cur: seq<int>, pre: seq<int>): seq<int>
    requires |cur| == |pre|
  {
    if |cur| == 0 then []
    else Differences(cur[..|cur| - 1], pre[..|cur| - 1]) + [SubCount(cur[|cur| - 1], pre[|cur| - 1])]
  }

  /** Each counter is compared with itself. */
  lemma {:induction false} DifferencesAt(cur: seq<int>, pre: seq<int>, k: nat)
    requires |cur| == |pre| && k < |cur|
    ensures |Differences(cur, pre)| == |cur| && Differences(cur, pre)[k] == SubCount(cur[k], pre[k])
  {
    var n := |cur| - 1;
    if n > 0 { DifferencesAt(cur[..n], pre[..n], if k < n then k else 0); }
  }

  /** What interface c did since it was p. */
  function Diff(c: Interface, p: Interface): Interface
    requires |c.counters| == |p.counters|
  {
    Interface(c.name, Differences(c.counters, p.counters), c.kind, c.duplex, c.speed, p.speed)
  }

  /** d shows what c is now, and what each of its 16 counters did since p. */
  ghost predicate IsDeviation(c: Interface, p: Interface, d: Interface)
    requires |c.counters| == |p.counters| == NCOUNTERS
  {
    && d.name == c.name && d.kind == c.kind && d.duplex == c.duplex
    && d.speed == c.speed && d.speedp == p.speed
    && |d.counters| == NCOUNTERS
    && forall k :: 0 <= k < NCOUNTERS ==> d.counters[k] == SubCount(c.counters[k], p.counters[k])
  }

  lemma DiffIsDeviation(c: Interface, p: Interface, d: Interface)
    requires |c.counters| == |p.counters| == NCOUNTERS
    ensures d == Diff(c, p) <==> IsDeviation(c, p, d)
  {
    hide Differences, SubCount;
    forall k | 0 <= k < NCOUNTERS
      ensures |Differences(c.counters, p.counters)| == NCOUNTERS
      ensures Differences(c.counters, p.counters)[k] == SubCount(c.counters[k], p.counters[k])
    {
      DifferencesAt(c.counters, p.counters, k);
    }
    assert |Differences(c.counters, p.counters)| == NCOUNTERS by { DifferencesAt(c.counters, p.counters, 0); }
    if IsDeviation(c, p, d) { assert d.counters == Differences(c.counters, p.counters); }
  }

  /** The list that the array holds, ended by an empty name. */
  ghost predicate Holds(a: array<Interface>, s: seq<Interface>)
    reads a
  {
    && WellFormed(s) && |s| < a.Length
    && a[..|s|] == s && a[|s|].name == ""
  }

  /** The deviation of interface c: against the interface of that name, or c itself when there was none. */
  ghost predicate IsPaired(pre: seq<Interface>, c: Interface, d: Interface)
    requires WellFormed(pre) && |c.counters| == NCOUNTERS
  {
    || (exists j :: 0 <= j < |pre| && pre[j].name == c.name && IsDeviation(c, pre[j], d))
    || (d == c && forall j :: 0 <= j < |pre| ==> pre[j].name != c.name)
  }

  /** The same by a search from the front. */
  function ByName(pre: seq<Interface>, c: Interface): Interface
    requires WellFormed(pre) && |c.counters| == NCOUNTERS
  {
    if |pre| == 0 then c
    else if pre[0].name == c.name then Diff(c, pre[0])
    else ByName(pre[1..], c)
  }

  /** When names are unique, walking along finds what a search for the name finds. */
  lemma {:induction false} PairedByName(pre: seq<Interface>, c: Interface, d: Interface)
    requires WellFormed(pre) && |c.counters| == NCOUNTERS && NamesDiffer(pre)
    ensures IsPaired(pre, c, d) <==> d == ByName(pre, c)
  {
    hide Diff, IsDeviation;
    if |pre| > 0 {
      PairedByName(pre[1..], c, d);
      DiffIsDeviation(c, pre[0], d);
      if pre[0].name == c.name {
      } else if exists j :: 0 <= j < |pre| && pre[j].name == c.name && IsDeviation(c, pre[j], d) {
        var j :| 0 <= j < |pre| && pre[j].name == c.name && IsDeviation(c, pre[j], d);
        assert pre[1..][j - 1] == pre[j];
      }
    }
  }

  /** The search that starts over at the front of the list. */
  method Resync(pre: array<Interface>, ghost p: seq<Interface>, name: string) returns (j: nat)
    requires Holds(pre, p) && name != ""
    ensures j <= |p| && (j < |p| ==> p[j].name == name)
    ensures j == |p| ==> forall k :: 0 <= k < |p| ==> p[k].name != name
  {
    j := 0;
    while pre[j].name != ""
      invariant j <= |p| && forall k :: 0 <= k < j ==> p[k].name != name
      decreases |p| - j
    {
      assert pre[j] == pre[..|p|][j];
      if name == pre[j].name { break; }
      j := j + 1;
    }
  }

  /** Interface c before anything is known of it but what p counted. */
  function Named(c: Interface, p: Interface): Interface {
    Interface(c.name, p.counters, c.kind, c.duplex, c.speed, c.speedp)
  }

  /** A list that was never filled. */
  ghost predicate IsBlank(a: array<Interface>)
    reads a
  {
    forall i :: 0 <= i < a.Length ==> a[i].name == "" && |a[i].counters| == NCOUNTERS
  }

  /** With no interfaces known before, those of now are entered with the counters of the blank list. */
  method FirstSample(cur: array<Interface>, pre: array<Interface>, ghost c: seq<Interface>)
    returns (ghost p: seq<Interface>)
    requires cur != pre && Holds(cur, c) && IsBlank(pre) && |c| < pre.Length
    modifies pre
    ensures Holds(pre, p) && |p| == |c|
    ensures forall i :: 0 <= i < |c| ==>
      && p[i].name == c[i].name && p[i].kind == c[i].kind && p[i].duplex == c[i].duplex
      && p[i].speed == c[i].speed && p[i].speedp == c[i].speedp
      && p[i].counters == old(pre[i]).counters
  {
    var i := 0;
    while cur[i].name != ""
      invariant i <= |c|
      invariant forall k :: 0 <= k < i ==> pre[k] == Named(c[k], old(pre[k]))
      invariant forall k :: i <= k < pre.Length ==> pre[k] == old(pre[k])
      decreases |c| - i
    {
      assert cur[i] == cur[..|c|][i];
      pre[i] := Named(cur[i], pre[i]);
      i := i + 1;
    }
    p := pre[..|c|];
  }

  /** Each interface of now gets its deviation, wherever in the earlier list it stood. */
  method DeviatInterfaces(cur: array<Interface>, pre: array<Interface>, dev: array<Interface>,
                          ghost c: seq<Interface>, ghost p: seq<Interface>)
    returns (nrintf: nat)
    requires cur != pre && cur != dev && pre != dev
    requires Holds(cur, c) && Holds(pre, p) && |p| > 0 && |c| < dev.Length
    modifies cur, dev
    ensures nrintf == |c| && dev[nrintf] == old(dev[|c|]).(name := "")
    ensures forall k :: |c| < k < dev.Length ==> dev[k] == old(dev[k])
    ensures forall k :: 0 <= k < |c| ==> IsPaired(p, c[k], dev[k]) && cur[k] == c[k].(speedp := dev[k].speedp)
  {
    hide IsPaired;
    var i, j := 0, 0;
    while cur[i].name != ""
      invariant i <= |c| && j <= |p|
      invariant forall k :: i <= k < cur.Length ==> cur[k] == old(cur[k])
      invariant forall k :: i <= k < dev.Length ==> dev[k] == old(dev[k])
      invariant forall k :: 0 <= k < i ==> IsPaired(p, c[k], dev[k]) && cur[k] == c[k].(speedp := dev[k].speedp)
      decreases |c| - i
    {
      assert cur[i] == old(cur[..|c|])[i] == c[i];
      if cur[i].name != pre[j].name {
        j := Resync(pre, p, cur[i].name);
        if pre[j].name == "" {
          NotFound(p, c[i]);
          dev[i] := cur[i];
          i, j := i + 1, 1;
          continue;
        }
      }
      Found(p, c[i], j);
      assert pre[j] == pre[..|p|][j];
      dev[i] := Diff(cur[i], pre[j]);
      cur[i] := cur[i].(speedp := pre[j].speed);
      i, j := i + 1, j + 1;
    }
    dev[i] := Interface("", dev[i].counters, dev[i].kind, dev[i].duplex, dev[i].speed, dev[i].speedp);
    nrintf := i;
  }

  lemma Found(p: seq<Interface>, c: Interface, j: nat)
    requires WellFormed(p) && |c.counters| == NCOUNTERS && j < |p| && p[j].name == c.name
    ensures IsPaired(p, c, Diff(c, p[j]))
  {
    hide Diff, IsDeviation;
    DiffIsDeviation(c, p[j], Diff(c, p[j]));
  }

  lemma NotFound(p: seq<Interface>, c: Interface)
    requires WellFormed(p) && |c.counters| == NCOUNTERS && forall k :: 0 <= k < |p| ==> p[k].name != c.name
    ensures IsPaired(p, c, c)
  {
  }
}
