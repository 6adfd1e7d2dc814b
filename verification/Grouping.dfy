/** Processes accumulated per user, per program or per container: cumusers, cumprogs, cumconts. */
module Grouping {
  import opened Tasks

  datatype Kind = ByUser | ByProgram | ByContainer

  predicate SameKey(kind: Kind, a: TStat, b: TStat) {
    match kind
    case ByUser => a.ruid == b.ruid
    case ByProgram => a.name == b.name
    case ByContainer => a.container == b.container
  }

  /** An entry that carries only the key of p. */
  function SetKey(kind: Kind, e: TStat, p: TStat): TStat {
    match kind
    case ByUser => e.(ruid := p.ruid)
    case ByProgram => e.(name := p.name)
    case ByContainer => e.(container := p.container)
  }

  function NettWritten(p: TStat): int { if p.wsz > p.cwsz then p.wsz - p.cwsz else 0 }

  /** Process p is added to entry e; the pid of an entry counts its processes. */
  function Accumulate(p: TStat, e: TStat): TStat {
    var a := e.(pid := e.pid + 1, isproc := true, nthr := e.nthr + p.nthr,
                utime := e.utime + p.utime, stime := e.stime + p.stime,
                rio := e.rio + p.rsz, wio := e.wio + NettWritten(p),
                rsz := e.rio + p.rsz, wsz := e.wio + NettWritten(p),
                tcpsnd := e.tcpsnd + p.tcpsnd, tcprcv := e.tcprcv + p.tcprcv);
    if p.state == 'E' then a
    else
      a.(pmem := if e.pmem == -1 || p.pmem == -1 then -1 else e.pmem + p.pmem,
         vmem := e.vmem + p.vmem, rmem := e.rmem + p.rmem, vgrow := e.vgrow + p.vgrow, rgrow := e.rgrow + p.rgrow)
  }

  // ------------------------------------------------------------------ the order of the list

  /** strcmp: a is not behind b. */
  predicate StrLe(a: string, b: string) {
    |a| == 0 || (|b| > 0 && (a[0] < b[0] || (a[0] == b[0] && StrLe(a[1..], b[1..]))))
  }

  lemma {:induction false} StrLeBothWays(a: string, b: string)
    requires StrLe(a, b) && StrLe(b, a)
    ensures a == b
  {
    if |a| > 0 {
      StrLeBothWays(a[1..], b[1..]);
      assert a == [a[0]] + a[1..] && b == [b[0]] + b[1..];
    }
  }

  predicate InOrder(kind: Kind, a: TStat, b: TStat) {
    match kind
    case ByUser => a.ruid <= b.ruid
    case ByProgram => StrLe(a.name, b.name)
    case ByContainer => StrLe(a.container, b.container)
  }

  /** What qsort leaves. */
  ghost predicate Sorted(kind: Kind, s: seq<TStat>) {
    forall i, j :: 0 <= i < j < |s| ==> InOrder(kind, s[i], s[j])
  }

  /** Between two processes of one group there is no process of another. */
  ghost predicate Adjacent(kind: Kind, s: seq<TStat>) {
    forall i, j, k :: 0 <= i < j < k < |s| && SameKey(kind, s[i], s[k]) ==> SameKey(kind, s[i], s[j])
  }

  lemma SortedIsAdjacent(kind: Kind, s: seq<TStat>)
    requires Sorted(kind, s)
    ensures Adjacent(kind, s)
  {
    forall i, j, k | 0 <= i < j < k < |s| && SameKey(kind, s[i], s[k])
      ensures SameKey(kind, s[i], s[j])
    {
      assert InOrder(kind, s[i], s[j]) && InOrder(kind, s[j], s[k]);
      match kind
      case ByUser =>
      case ByProgram => StrLeBothWays(s[i].name, s[j].name);
      case ByContainer => StrLeBothWays(s[i].container, s[j].container);
    }
  }

  // ------------------------------------------------------------------ the groups

  /** The entries, when the processes come in this order. */
  function Cum(kind: Kind, s: seq<TStat>): seq<TStat> {
    if |s| == 0 then []
    else
      var n := |s| - 1;
      var gs := Cum(kind, s[..n]);
      if |gs| > 0 && SameKey(kind, gs[|gs| - 1], s[n]) then gs[|gs| - 1 := Accumulate(s[n], gs[|gs| - 1])]
      else gs + [Accumulate(s[n], SetKey(kind, ZERO, s[n]))]
  }

  /** The processes of the group of e. */
  function Members(kind: Kind, s: seq<TStat>, e: TStat): seq<TStat> {
    if |s| == 0 then []
    else
      var n := |s| - 1;
      var ms := Members(kind, s[..n], e);
      if SameKey(kind, e, s[n]) then ms + [s[n]] else ms
  }

  function AccumulateAll(s: seq<TStat>, e: TStat): TStat {
    if |s| == 0 then e else Accumulate(s[|s| - 1], AccumulateAll(s[..|s| - 1], e))
  }

  /** One entry per key, each the accumulation of its own group. */
  ghost predicate IsGrouped(kind: Kind, s: seq<TStat>, gs: seq<TStat>) {
    && |gs| <= |s|
    && OneEntryPerKey(kind, gs)
    && (forall e :: e in gs ==> IsAccumulated(kind, s, e))
    && (forall p :: p in s ==> HasEntry(kind, gs, p))
  }

  ghost predicate OneEntryPerKey(kind: Kind, gs: seq<TStat>) {
    forall i, j :: 0 <= i < j < |gs| ==> !SameKey(kind, gs[i], gs[j])
  }

  /** Entry e is what its group, which is not empty, accumulates to. */
  ghost predicate IsAccumulated(kind: Kind, s: seq<TStat>, e: TStat) {
    && Members(kind, s, e) != []
    && e == AccumulateAll(Members(kind, s, e), SetKey(kind, ZERO, e))
  }

  ghost predicate HasEntry(kind: Kind, gs: seq<TStat>, p: TStat) {
    exists j :: 0 <= j < |gs| && SameKey(kind, gs[j], p)
  }

  lemma KeyKept(kind: Kind, p: TStat, e: TStat, x: TStat)
    ensures SameKey(kind, Accumulate(p, e), x) == SameKey(kind, e, x)
    ensures SetKey(kind, ZERO, Accumulate(p, e)) == SetKey(kind, ZERO, e)
  {
  }

  lemma FreshKey(kind: Kind, p: TStat, x: TStat)
    ensures SameKey(kind, SetKey(kind, ZERO, p), x) == SameKey(kind, p, x)
    ensures SetKey(kind, ZERO, SetKey(kind, ZERO, p)) == SetKey(kind, ZERO, p)
  {
  }

  lemma {:induction false} MembersByKey(kind: Kind, s: seq<TStat>, a: TStat, b: TStat)
    requires SameKey(kind, a, b)
    ensures Members(kind, s, a) == Members(kind, s, b)
  {
    if |s| > 0 { MembersByKey(kind, s[..|s| - 1], a, b); }
  }

  lemma {:induction false} NoMembers(kind: Kind, s: seq<TStat>, e: TStat)
    ensures Members(kind, s, e) == [] <==> forall i :: 0 <= i < |s| ==> !SameKey(kind, e, s[i])
  {
    if |s| > 0 { NoMembers(kind, s[..|s| - 1], e); }
  }

  lemma SameKeyAsItself(kind: Kind, e: TStat)
    ensures SameKey(kind, e, e)
  {
  }

  lemma MembersGrow(kind: Kind, s: seq<TStat>, e: TStat, p: TStat)
    requires SameKey(kind, e, p)
    ensures Members(kind, s + [p], e) == Members(kind, s, e) + [p]
  {
    assert (s + [p])[..|s|] == s;
  }

  lemma AccumulateGrow(ms: seq<TStat>, e: TStat, p: TStat)
    ensures AccumulateAll(ms + [p], e) == Accumulate(p, AccumulateAll(ms, e))
  {
    hide Accumulate;
    assert (ms + [p])[..|ms|] == ms;
  }

  lemma NothingAccumulated(e: TStat)
    ensures AccumulateAll([], e) == e
  {
  }

  /** One process more in the group of e. */
  lemma OneMore(kind: Kind, s: seq<TStat>, e: TStat, p: TStat)
    requires SameKey(kind, e, p)
    requires (e == SetKey(kind, ZERO, p) && Members(kind, s, e) == []) || IsAccumulated(kind, s, e)
    ensures IsAccumulated(kind, s + [p], Accumulate(p, e))
    ensures SameKey(kind, Accumulate(p, e), p)
  {
    hide Accumulate, SetKey, Members, AccumulateAll, SameKey;
    var a, ms := Accumulate(p, e), Members(kind, s, e);
    KeyKept(kind, p, e, e);
    KeyKept(kind, p, e, p);
    SameKeyAsItself(kind, e);
    MembersByKey(kind, s + [p], a, e);
    MembersGrow(kind, s, e, p);
    AccumulateGrow(ms, SetKey(kind, ZERO, e), p);
    if Members(kind, s, e) == [] {
      FreshKey(kind, p, p);
      NothingAccumulated(SetKey(kind, ZERO, e));
    }
  }

  lemma OthersStay(kind: Kind, s: seq<TStat>, e: TStat, p: TStat)
    requires !SameKey(kind, e, p) && IsAccumulated(kind, s, e)
    ensures IsAccumulated(kind, s + [p], e)
  {
    assert (s + [p])[..|s|] == s;
  }

  lemma AdjacentPrefix(kind: Kind, s: seq<TStat>, n: nat)
    requires Adjacent(kind, s) && n <= |s|
    ensures Adjacent(kind, s[..n])
  {
    forall i, j, k | 0 <= i < j < k < n && SameKey(kind, s[..n][i], s[..n][k])
      ensures SameKey(kind, s[..n][i], s[..n][j])
    {
      assert SameKey(kind, s[i], s[k]);
    }
  }

  ghost predicate EndsTogether(kind: Kind, s: seq<TStat>, gs: seq<TStat>) {
    |s| > 0 ==> |gs| > 0 && SameKey(kind, gs[|gs| - 1], s[|s| - 1])
  }

  /** When the processes of a group stand together, the entries are the groups. */
  lemma {:induction false} GroupsAreKeys(kind: Kind, s: seq<TStat>)
    requires Adjacent(kind, s)
    ensures IsGrouped(kind, s, Cum(kind, s)) && EndsTogether(kind, s, Cum(kind, s))
  {
    hide Accumulate, Members, IsGrouped, Adjacent;
    if |s| > 0 {
      var t, p := s[..|s| - 1], s[|s| - 1];
      AdjacentPrefix(kind, s, |s| - 1);
      GroupsAreKeys(kind, t);
      assert s == t + [p];
      var gs := Cum(kind, t);
      if |gs| > 0 && SameKey(kind, gs[|gs| - 1], p) {
        GrowLast(kind, t, p, gs);
      } else {
        StartGroup(kind, t, p, gs);
      }
    } else {
      NothingGrouped(kind, s);
    }
  }

  lemma NothingGrouped(kind: Kind, s: seq<TStat>)
    requires s == []
    ensures IsGrouped(kind, s, Cum(kind, s))
  {
  }

  lemma GrowLast(kind: Kind, t: seq<TStat>, p: TStat, gs: seq<TStat>)
    requires IsGrouped(kind, t, gs) && |gs| > 0 && SameKey(kind, gs[|gs| - 1], p)
    ensures IsGrouped(kind, t + [p], gs[|gs| - 1 := Accumulate(p, gs[|gs| - 1])])
    ensures SameKey(kind, Accumulate(p, gs[|gs| - 1]), p)
  {
    hide Accumulate, Members;
    var n := |gs| - 1;
    var e := gs[n];
    var next := gs[n := Accumulate(p, e)];
    OneMore(kind, t, e, p);
    forall i | 0 <= i < n
      ensures !SameKey(kind, next[i], next[n]) && IsAccumulated(kind, t + [p], next[i])
    {
      KeyKept(kind, p, e, next[i]);
      OthersStay(kind, t, gs[i], p);
    }
    forall x | x in t + [p]
      ensures HasEntry(kind, next, x)
    {
      KeyKept(kind, p, e, x);
      if x in t {
        var j :| 0 <= j < |gs| && SameKey(kind, gs[j], x);
        assert SameKey(kind, next[j], x);
      } else {
        assert SameKey(kind, next[n], x);
      }
    }
  }

  lemma NotInGroup(kind: Kind, t: seq<TStat>, p: TStat, gs: seq<TStat>, i: nat)
    requires EndsTogether(kind, t, gs) && Adjacent(kind, t + [p])
    requires |gs| > 0 ==> !SameKey(kind, gs[|gs| - 1], p)
    requires i < |t|
    ensures !SameKey(kind, p, t[i])
  {
    var s := t + [p];
    assert s[|t|] == p && s[i] == t[i] && s[|t| - 1] == t[|t| - 1];
    assert SameKey(kind, s[i], s[|t|]) ==> SameKey(kind, s[i], s[|t| - 1]);
  }

  lemma StartGroup(kind: Kind, t: seq<TStat>, p: TStat, gs: seq<TStat>)
    requires IsGrouped(kind, t, gs) && EndsTogether(kind, t, gs) && Adjacent(kind, t + [p])
    requires |gs| > 0 ==> !SameKey(kind, gs[|gs| - 1], p)
    ensures IsGrouped(kind, t + [p], gs + [Accumulate(p, SetKey(kind, ZERO, p))])
    ensures SameKey(kind, Accumulate(p, SetKey(kind, ZERO, p)), p)
  {
    hide Accumulate, Members;
    var e := SetKey(kind, ZERO, p);
    var a := Accumulate(p, e);
    var s := t + [p];
    forall i | 0 <= i < |t|
      ensures !SameKey(kind, p, t[i]) && !SameKey(kind, e, t[i])
    {
      NotInGroup(kind, t, p, gs, i);
      FreshKey(kind, p, t[i]);
    }
    NoMembers(kind, t, e);
    FreshKey(kind, p, p);
    OneMore(kind, t, e, p);
    forall i | 0 <= i < |gs|
      ensures !SameKey(kind, gs[i], a) && IsAccumulated(kind, s, gs[i])
    {
      NoMembers(kind, t, gs[i]);
      assert gs[i] in gs;
      var k :| 0 <= k < |t| && SameKey(kind, gs[i], t[k]);
      assert !SameKey(kind, p, t[k]);
      KeyKept(kind, p, e, gs[i]);
      FreshKey(kind, p, gs[i]);
      OthersStay(kind, t, gs[i], p);
    }
    forall x | x in s
      ensures HasEntry(kind, gs + [a], x)
    {
      if x in t {
        var j :| 0 <= j < |gs| && SameKey(kind, gs[j], x);
        assert SameKey(kind, (gs + [a])[j], x);
      } else {
        assert SameKey(kind, (gs + [a])[|gs|], x);
      }
    }
  }

  // ------------------------------------------------------------------ what an entry counts

  /** The figures that are added up in an entry. */
  datatype Figure =
    | Processes | Threads | UserTime | SystemTime | Read | Written | TcpSent | TcpReceived
    | Virtual | Resident | VirtualGrowth | ResidentGrowth

  /** What one process adds; memory counts only while the process lives. */
  function In(f: Figure, p: TStat): int {
    var alive := p.state != 'E';
    match f
    case Processes => 1
    case Threads => p.nthr
    case UserTime => p.utime
    case SystemTime => p.stime
    case Read => p.rsz
    case Written => if p.cwsz < p.wsz then p.wsz - p.cwsz else 0   // what was cancelled never got to the disk
    case TcpSent => p.tcpsnd
    case TcpReceived => p.tcprcv
    case Virtual => if alive then p.vmem else 0
    case Resident => if alive then p.rmem else 0
    case VirtualGrowth => if alive then p.vgrow else 0
    case ResidentGrowth => if alive then p.rgrow else 0
  }

  /** What an entry shows. */
  function Out(f: Figure, e: TStat): int {
    match f
    case Processes => e.pid
    case Threads => e.nthr
    case UserTime => e.utime
    case SystemTime => e.stime
    case Read => e.rio
    case Written => e.wio
    case TcpSent => e.tcpsnd
    case TcpReceived => e.tcprcv
    case Virtual => e.vmem
    case Resident => e.rmem
    case VirtualGrowth => e.vgrow
    case ResidentGrowth => e.rgrow
  }

  function Total(f: Figure, s: seq<TStat>): int {
    if |s| == 0 then 0 else Total(f, s[..|s| - 1]) + In(f, s[|s| - 1])
  }

  function Shown(f: Figure, gs: seq<TStat>): int {
    if |gs| == 0 then 0 else Shown(f, gs[..|gs| - 1]) + Out(f, gs[|gs| - 1])
  }

  lemma AccumulateAdds(f: Figure, p: TStat, e: TStat)
    ensures Out(f, Accumulate(p, e)) == Out(f, e) + In(f, p)
  {
  }

  lemma FreshShowsNothing(f: Figure, kind: Kind, p: TStat)
    ensures Out(f, SetKey(kind, ZERO, p)) == 0
  {
  }

  lemma {:induction false} EntryShowsGroup(f: Figure, ms: seq<TStat>, e: TStat)
    ensures Out(f, AccumulateAll(ms, e)) == Out(f, e) + Total(f, ms)
  {
    hide Accumulate, In, Out;
    if |ms| > 0 {
      EntryShowsGroup(f, ms[..|ms| - 1], e);
      AccumulateAdds(f, ms[|ms| - 1], AccumulateAll(ms[..|ms| - 1], e));
    }
  }

  /** Nothing is lost and nothing counted twice, in whatever order the processes come. */
  lemma {:induction false} CumConserves(f: Figure, kind: Kind, s: seq<TStat>)
    ensures Shown(f, Cum(kind, s)) == Total(f, s)
  {
    hide Accumulate, SetKey, SameKey, In, Out;
    if |s| > 0 {
      var t, p := s[..|s| - 1], s[|s| - 1];
      CumConserves(f, kind, t);
      var gs := Cum(kind, t);
      if |gs| > 0 && SameKey(kind, gs[|gs| - 1], p) {
        AccumulateAdds(f, p, gs[|gs| - 1]);
        var next := gs[|gs| - 1 := Accumulate(p, gs[|gs| - 1])];
        assert next[..|gs| - 1] == gs[..|gs| - 1];
      } else {
        var e := SetKey(kind, ZERO, p);
        AccumulateAdds(f, p, e);
        FreshShowsNothing(f, kind, p);
        assert (gs + [Accumulate(p, e)])[..|gs|] == gs;
      }
    }
  }

  lemma {:induction false} TotalProcesses(s: seq<TStat>)
    ensures Total(Processes, s) == |s|
  {
    if |s| > 0 { TotalProcesses(s[..|s| - 1]); }
  }

  lemma {:induction false} TotalOfParts(f: Figure, a: seq<TStat>, b: seq<TStat>)
    ensures Total(f, a + b) == Total(f, a) + Total(f, b)
  {
    if |b| == 0 {
      assert a + b == a;
    } else {
      TotalOfParts(f, a, b[..|b| - 1]);
      assert (a + b)[..|a + b| - 1] == a + b[..|b| - 1];
    }
  }

  lemma TakeOut<T>(s: seq<T>, t: seq<T>) returns (k: nat)
    requires multiset(s) == multiset(t) && |s| > 0
    ensures k < |t| && t[k] == s[|s| - 1]
    ensures multiset(s[..|s| - 1]) == multiset(t[..k] + t[k + 1..])
  {
    var n := |s| - 1;
    var p := s[n];
    assert s == s[..n] + [p];
    assert p in multiset(t);
    k :| 0 <= k < |t| && t[k] == p;
    assert t == t[..k] + [p] + t[k + 1..];
    calc {
      multiset(s[..n]);
      multiset(s) - multiset{p};
      multiset(t) - multiset{p};
      (multiset(t[..k]) + multiset{p} + multiset(t[k + 1..])) - multiset{p};
      multiset(t[..k]) + multiset(t[k + 1..]);
      multiset(t[..k] + t[k + 1..]);
    }
  }

  lemma {:induction false} TotalOfPermutation(f: Figure, s: seq<TStat>, t: seq<TStat>)
    requires multiset(s) == multiset(t)
    ensures Total(f, s) == Total(f, t)
  {
    hide In;
    if |s| == 0 {
      assert |multiset(t)| == 0;
    } else {
      var n := |s| - 1;
      var p := s[n];
      var k := TakeOut(s, t);
      TotalOfPermutation(f, s[..n], t[..k] + t[k + 1..]);
      assert t == t[..k] + ([p] + t[k + 1..]);
      TotalOfParts(f, t[..k], t[k + 1..]);
      TotalOfParts(f, t[..k], [p] + t[k + 1..]);
      TotalOfParts(f, [p], t[k + 1..]);
    }
  }

  lemma {:induction false} MembersOfPermutation(kind: Kind, s: seq<TStat>, e: TStat)
    ensures forall x :: multiset(Members(kind, s, e))[x] == if SameKey(kind, e, x) then multiset(s)[x] else 0
  {
    hide SameKey;
    if |s| > 0 {
      MembersOfPermutation(kind, s[..|s| - 1], e);
      assert s == s[..|s| - 1] + [s[|s| - 1]];
    }
  }

  /** A made-up process; its transfer sizes are shown in both pairs of disk figures. */
  predicate IsEntry(e: TStat) { e.isproc && e.rsz == e.rio && e.wsz == e.wio }

  lemma EntryOfSome(ms: seq<TStat>, e: TStat)
    requires ms != []
    ensures IsEntry(AccumulateAll(ms, e))
  {
  }

  /** The memory percentages of the living processes, added up. */
  function Percentages(s: seq<TStat>): int {
    if |s| == 0 then 0 else Percentages(s[..|s| - 1]) + if s[|s| - 1].state == 'E' then 0 else s[|s| - 1].pmem
  }

  /** The memory percentage of a living process is not known. */
  predicate SomeUnknown(s: seq<TStat>) { exists p :: p in s && p.state != 'E' && p.pmem == -1 }

  /** The memory percentage of an entry is that of its living members together, or unknown if one of them is. */
  lemma {:induction false} MemoryOfGroup(ms: seq<TStat>, e: TStat)
    requires e.pmem >= 0 && forall p :: p in ms ==> p.pmem >= -1
    ensures AccumulateAll(ms, e).pmem == if SomeUnknown(ms) then -1 else e.pmem + Percentages(ms)
    ensures !SomeUnknown(ms) ==> Percentages(ms) >= 0
  {
    if |ms| > 0 {
      var n := |ms| - 1;
      MemoryOfGroup(ms[..n], e);
      assert ms == ms[..n] + [ms[n]];
      assert forall p :: p in ms <==> p in ms[..n] || p == ms[n];
    }
  }

  lemma {:induction false} PercentagesOfParts(a: seq<TStat>, b: seq<TStat>)
    ensures Percentages(a + b) == Percentages(a) + Percentages(b)
  {
    if |b| == 0 {
      assert a + b == a;
    } else {
      PercentagesOfParts(a, b[..|b| - 1]);
      assert (a + b)[..|a + b| - 1] == a + b[..|b| - 1];
    }
  }

  lemma {:induction false} PercentagesOfPermutation(s: seq<TStat>, t: seq<TStat>)
    requires multiset(s) == multiset(t)
    ensures Percentages(s) == Percentages(t)
  {
    if |s| == 0 {
      assert |multiset(t)| == 0;
    } else {
      var n := |s| - 1;
      var k := TakeOut(s, t);
      PercentagesOfPermutation(s[..n], t[..k] + t[k + 1..]);
      assert t == t[..k] + ([s[n]] + t[k + 1..]);
      PercentagesOfParts(t[..k], t[k + 1..]);
      PercentagesOfParts(t[..k], [s[n]] + t[k + 1..]);
      PercentagesOfParts([s[n]], t[k + 1..]);
      assert Percentages([s[n]]) == if s[n].state == 'E' then 0 else s[n].pmem;
    }
  }

  /** What the memory percentage of the entry of a group should be. */
  ghost predicate MemoryShown(kind: Kind, s: seq<TStat>, e: TStat) {
    var ms := Members(kind, s, e);
    (forall p :: p in s ==> p.pmem >= -1) ==> e.pmem == if SomeUnknown(ms) then -1 else Percentages(ms)
  }

  /** The entries that should come out for the processes s, which may stand in any order. */
  ghost predicate IsGroupedTotal(kind: Kind, s: seq<TStat>, gs: seq<TStat>) {
    && |gs| <= |s|
    && OneEntryPerKey(kind, gs)
    && (forall p :: p in s ==> HasEntry(kind, gs, p))
    && (forall e :: e in gs ==> e.pid == |Members(kind, s, e)| > 0 && IsEntry(e))
    && (forall e, f :: e in gs ==> Out(f, e) == Total(f, Members(kind, s, e)))
    && (forall e :: e in gs ==> MemoryShown(kind, s, e))
    && (forall f :: Shown(f, gs) == Total(f, s))
  }

  lemma GroupFigures(kind: Kind, s: seq<TStat>, t: seq<TStat>, e: TStat, f: Figure)
    requires multiset(s) == multiset(t) && IsAccumulated(kind, t, e)
    ensures Out(f, e) == Total(f, Members(kind, s, e))
    ensures e.pid == |Members(kind, s, e)| > 0 && IsEntry(e)
  {
    hide In, Members, SameKey, IsEntry;
    EntryOfSome(Members(kind, t, e), SetKey(kind, ZERO, e));
    MembersOfPermutation(kind, s, e);
    MembersOfPermutation(kind, t, e);
    var ms, mt := Members(kind, s, e), Members(kind, t, e);
    assert multiset(ms) == multiset(mt);
    assert |ms| == |multiset(ms)| == |multiset(mt)| == |mt|;
    FreshShowsNothing(f, kind, e);
    EntryShowsGroup(f, mt, SetKey(kind, ZERO, e));
    TotalOfPermutation(f, ms, mt);
    FreshShowsNothing(Processes, kind, e);
    EntryShowsGroup(Processes, mt, SetKey(kind, ZERO, e));
    TotalProcesses(mt);
  }

  lemma GroupMemory(kind: Kind, s: seq<TStat>, t: seq<TStat>, e: TStat)
    requires multiset(s) == multiset(t) && IsAccumulated(kind, t, e)
    ensures MemoryShown(kind, s, e)
  {
    hide Members, SameKey, AccumulateAll, SetKey, SomeUnknown;
    MembersOfPermutation(kind, s, e);
    MembersOfPermutation(kind, t, e);
    var ms, mt := Members(kind, s, e), Members(kind, t, e);
    assert multiset(ms) == multiset(mt);
    if forall p :: p in s ==> p.pmem >= -1 {
      forall p | p in mt
        ensures p.pmem >= -1
      {
        assert p in multiset(mt);
        assert p in multiset(s);
      }
      NothingRemembered(kind, e);
      MemoryOfGroup(mt, SetKey(kind, ZERO, e));
      PercentagesOfPermutation(ms, mt);
      UnknownOfPermutation(ms, mt);
    }
  }

  lemma NothingRemembered(kind: Kind, e: TStat)
    ensures SetKey(kind, ZERO, e).pmem == 0
  {
  }

  lemma UnknownOfPermutation(s: seq<TStat>, t: seq<TStat>)
    requires multiset(s) == multiset(t)
    ensures SomeUnknown(s) <==> SomeUnknown(t)
  {
    forall p: TStat
      ensures p in s <==> p in t
    {
      assert p in s <==> p in multiset(s);
    }
  }

  /** Sorting first makes the entries right for the processes in any order. */
  lemma GroupsOfSorted(kind: Kind, s: seq<TStat>, t: seq<TStat>)
    requires multiset(s) == multiset(t) && Sorted(kind, t)
    ensures IsGroupedTotal(kind, s, Cum(kind, t))
  {
    hide Cum, Sorted, Members, Out, Total, Shown, SameKey, IsAccumulated, MemoryShown;
    var gs := Cum(kind, t);
    SortedIsAdjacent(kind, t);
    GroupsAreKeys(kind, t);
    assert |s| == |multiset(s)| == |multiset(t)| == |t|;
    forall e, f | e in gs
      ensures Out(f, e) == Total(f, Members(kind, s, e))
    {
      GroupFigures(kind, s, t, e, f);
    }
    forall e | e in gs
      ensures e.pid == |Members(kind, s, e)| > 0 && IsEntry(e)
    {
      GroupFigures(kind, s, t, e, Processes);
    }
    forall e | e in gs
      ensures MemoryShown(kind, s, e)
    {
      GroupMemory(kind, s, t, e);
    }
    forall f
      ensures Shown(f, gs) == Total(f, s)
    {
      CumConserves(f, kind, t);
      TotalOfPermutation(f, s, t);
    }
    forall p | p in s
      ensures HasEntry(kind, gs, p)
    {
      assert p in multiset(t);
    }
  }

  /** The memory percentage of an entry is unknown exactly when that of a living member is. */
  lemma {:induction false} UnknownMemory(ms: seq<TStat>, e: TStat)
    requires e.pmem >= 0 && forall p :: p in ms ==> p.pmem >= -1
    ensures AccumulateAll(ms, e).pmem >= -1
    ensures AccumulateAll(ms, e).pmem == -1 <==> exists p :: p in ms && p.state != 'E' && p.pmem == -1
  {
    if |ms| > 0 {
      var n := |ms| - 1;
      UnknownMemory(ms[..n], e);
      assert ms == ms[..n] + [ms[n]];
      assert forall p :: p in ms <==> p in ms[..n] || p == ms[n];
    }
  }

  // ------------------------------------------------------------------ the list is sorted first

  lemma {:induction false} StrLeTransitive(a: string, b: string, c: string)
    requires StrLe(a, b) && StrLe(b, c)
    ensures StrLe(a, c)
  {
    if |a| > 0 && a[0] == b[0] == c[0] { StrLeTransitive(a[1..], b[1..], c[1..]); }
  }

  lemma {:induction false} StrLeTotal(a: string, b: string)
    ensures StrLe(a, b) || StrLe(b, a)
  {
    if |a| > 0 && |b| > 0 && a[0] == b[0] { StrLeTotal(a[1..], b[1..]); }
  }

  lemma InOrderTransitive(kind: Kind, a: TStat, b: TStat, c: TStat)
    requires InOrder(kind, a, b) && InOrder(kind, b, c)
    ensures InOrder(kind, a, c)
  {
    match kind
    case ByUser =>
    case ByProgram => StrLeTransitive(a.name, b.name, c.name);
    case ByContainer => StrLeTransitive(a.container, b.container, c.container);
  }

  lemma InOrderTotal(kind: Kind, a: TStat, b: TStat)
    ensures InOrder(kind, a, b) || InOrder(kind, b, a)
  {
    match kind
    case ByUser =>
    case ByProgram => StrLeTotal(a.name, b.name);
    case ByContainer => StrLeTotal(a.container, b.container);
  }

  function Insert(kind: Kind, p: TStat, s: seq<TStat>): (r: seq<TStat>)
    ensures multiset(r) == multiset([p] + s)
  {
    if |s| == 0 || InOrder(kind, p, s[0]) then [p] + s
    else
      assert s == [s[0]] + s[1..];
      [s[0]] + Insert(kind, p, s[1..])
  }

  lemma SameElements<T>(s: seq<T>, t: seq<T>, x: T)
    requires multiset(s) == multiset(t) && x in s
    ensures x in t
  {
    assert x in multiset(s);
  }

  lemma PrependKeepsOrder(kind: Kind, p: TStat, s: seq<TStat>)
    requires Sorted(kind, s) && forall x :: x in s ==> InOrder(kind, p, x)
    ensures Sorted(kind, [p] + s)
  {
    hide InOrder;
  }

  lemma SortedSplits(kind: Kind, s: seq<TStat>)
    requires Sorted(kind, s) && |s| > 0
    ensures Sorted(kind, s[1..])
    ensures forall i :: 1 <= i < |s| ==> InOrder(kind, s[0], s[i])
  {
    hide InOrder;
  }

  lemma {:induction false} InsertKeepsOrder(kind: Kind, p: TStat, s: seq<TStat>)
    requires Sorted(kind, s)
    ensures Sorted(kind, Insert(kind, p, s))
  {
    hide InOrder, Sorted;
    if |s| == 0 {
      PrependKeepsOrder(kind, p, s);
    } else if InOrder(kind, p, s[0]) {
      SortedSplits(kind, s);
      forall i | 1 <= i < |s| ensures InOrder(kind, p, s[i]) { InOrderTransitive(kind, p, s[0], s[i]); }
      PrependKeepsOrder(kind, p, s);
    } else {
      var r := Insert(kind, p, s[1..]);
      SortedSplits(kind, s);
      InsertKeepsOrder(kind, p, s[1..]);
      InOrderTotal(kind, p, s[0]);
      forall x | x in r ensures InOrder(kind, s[0], x) { SameElements(r, [p] + s[1..], x); }
      PrependKeepsOrder(kind, s[0], r);
    }
  }

  /** qsort: of its outcome the callers know no more than the contract says. */
  method QSort(kind: Kind, a: array<TStat>)
    modifies a
    ensures Sorted(kind, a[..]) && multiset(a[..]) == multiset(old(a[..]))
  {
    hide InOrder;
    var s, i := [], a.Length;
    while i > 0
      invariant 0 <= i <= a.Length && a[..] == old(a[..])
      invariant Sorted(kind, s) && multiset(s) == multiset(a[i..])
    {
      i := i - 1;
      assert a[i..] == [a[i]] + a[i + 1..];
      InsertKeepsOrder(kind, a[i], s);
      s := Insert(kind, a[i], s);
    }
    assert a[..] == a[0..];
    assert |s| == |multiset(s)| == |multiset(a[..])| == a.Length;
    forall j | 0 <= j < a.Length { a[j] := s[j]; }
    assert a[..] == s;
  }

  // ------------------------------------------------------------------ cumusers, cumprogs, cumconts

  /** The processes that are neither deselected nor exited while exited ones are not wanted. */
  function Selected(s: seq<TStat>, deselected: TStat -> bool, suppressExit: bool): seq<TStat> {
    if |s| == 0 then []
    else
      var p := s[|s| - 1];
      var sel := Selected(s[..|s| - 1], deselected, suppressExit);
      if deselected(p) || (p.state == 'E' && suppressExit) then sel else sel + [p]
  }

  lemma {:induction false} SelectedOfPermutation(s: seq<TStat>, deselected: TStat -> bool, suppressExit: bool)
    ensures forall x :: multiset(Selected(s, deselected, suppressExit))[x] ==
                        (if deselected(x) || (x.state == 'E' && suppressExit) then 0 else multiset(s)[x])
  {
    if |s| > 0 {
      SelectedOfPermutation(s[..|s| - 1], deselected, suppressExit);
      assert s == s[..|s| - 1] + [s[|s| - 1]];
    }
  }

  lemma {:induction false} SelectedSorted(kind: Kind, s: seq<TStat>, deselected: TStat -> bool, suppressExit: bool)
    requires Sorted(kind, s)
    ensures var sel := Selected(s, deselected, suppressExit);
      Sorted(kind, sel) && |sel| <= |s| && forall x :: x in sel ==> x in s
  {
    hide InOrder;
    if |s| > 0 {
      var t, p := s[..|s| - 1], s[|s| - 1];
      SelectedSorted(kind, t, deselected, suppressExit);
      forall x | x in t ensures InOrder(kind, x, p) {}
    }
  }

  lemma {:induction false} CumShape(kind: Kind, s: seq<TStat>)
    ensures |Cum(kind, s)| <= |s|
    ensures forall e :: e in Cum(kind, s) ==> e.pid > 0
  {
    if |s| > 0 { CumShape(kind, s[..|s| - 1]); }
  }

  /** How the array stands when the entries gs have been made and entry cur is being filled. */
  ghost predicate Filling(cums: seq<TStat>, gs: seq<TStat>, cur: nat) {
    && |gs| <= |cums|
    && (cur == if |gs| == 0 then 0 else |gs| - 1)
    && cums[..|gs|] == gs
    && forall i :: |gs| <= i < |cums| ==> cums[i] == ZERO
  }

  lemma CumAppend(kind: Kind, s: seq<TStat>, p: TStat)
    ensures var gs := Cum(kind, s);
      Cum(kind, s + [p]) ==
        if |gs| > 0 && SameKey(kind, gs[|gs| - 1], p) then gs[|gs| - 1 := Accumulate(p, gs[|gs| - 1])]
        else gs + [Accumulate(p, SetKey(kind, ZERO, p))]
  {
    hide Accumulate, SetKey, SameKey;
    assert (s + [p])[..|s|] == s;
  }

  lemma KeyOfNothing(kind: Kind, p: TStat)
    requires SameKey(kind, ZERO, p)
    ensures SetKey(kind, ZERO, p) == ZERO
  {
  }

  /** The slot that takes the next process, and how the array stands afterwards. */
  lemma CumStep(kind: Kind, cums: seq<TStat>, s: seq<TStat>, p: TStat, cur: nat)
    requires Filling(cums, Cum(kind, s), cur) && |s| < |cums|
    ensures cur < |cums| && (cums[cur].pid != 0 ==> cur + 1 < |cums|)
    ensures SameKey(kind, cums[cur], p) ==>
      Filling(cums[cur := Accumulate(p, cums[cur])], Cum(kind, s + [p]), cur)
    ensures !SameKey(kind, cums[cur], p) && cums[cur].pid == 0 ==>
      Filling(cums[cur := Accumulate(p, SetKey(kind, cums[cur], p))], Cum(kind, s + [p]), cur)
    ensures !SameKey(kind, cums[cur], p) && cums[cur].pid != 0 ==>
      Filling(cums[cur + 1 := Accumulate(p, SetKey(kind, cums[cur + 1], p))], Cum(kind, s + [p]), cur + 1)
  {
    hide Accumulate, SetKey, SameKey, Cum;
    CumShape(kind, s);
    CumAppend(kind, s, p);
    var gs := Cum(kind, s);
    if |gs| == 0 {
      if SameKey(kind, ZERO, p) { KeyOfNothing(kind, p); }
    } else {
      assert cums[cur] == cums[..|gs|][cur] == gs[cur];
      assert gs[cur] in gs;
      if SameKey(kind, cums[cur], p) {
        var e := Accumulate(p, cums[cur]);
        assert cums[cur := e][..|gs|] == gs[cur := e];
      } else {
        var e := Accumulate(p, SetKey(kind, ZERO, p));
        assert cums[cur + 1 := e][..|gs| + 1] == gs + [e];
      }
    }
  }

  method Cumulate(kind: Kind, procs: array<TStat>, cums: array<TStat>, deselected: TStat -> bool, suppressExit: bool)
    returns (n: nat)
    requires procs != cums && procs.Length <= cums.Length && cums.Length > 0
    requires forall i :: 0 <= i < cums.Length ==> cums[i] == ZERO
    modifies procs, cums
    ensures Sorted(kind, procs[..]) && multiset(procs[..]) == multiset(old(procs[..]))
    ensures n <= procs.Length && cums[..n] == Cum(kind, Selected(procs[..], deselected, suppressExit))
    ensures IsGroupedTotal(kind, Selected(old(procs[..]), deselected, suppressExit), cums[..n])
  {
    hide Accumulate, SetKey, SameKey, Sorted, IsGroupedTotal, Selected, Cum, Filling;
    QSort(kind, procs);
    ghost var t := procs[..];
    var cur := 0;
    n := 0;
    NothingFilled(kind, cums[..], t, deselected, suppressExit);
    for i := 0 to procs.Length
      invariant procs[..] == t && n == cur && cur < cums.Length
      invariant |Selected(t[..i], deselected, suppressExit)| <= i
      invariant Filling(cums[..], Cum(kind, Selected(t[..i], deselected, suppressExit)), cur)
    {
      ghost var sel := Selected(t[..i], deselected, suppressExit);
      var p := procs[i];
      SelectedNext(t, i, deselected, suppressExit);
      if deselected(p) { continue; }
      if p.state == 'E' && suppressExit { continue; }
      CumStep(kind, cums[..], sel, p, cur);
      ghost var before := cums[..];
      if !SameKey(kind, cums[cur], p) {
        if cums[cur].pid != 0 {
          n := n + 1;
          cur := cur + 1;
        }
        cums[cur] := SetKey(kind, cums[cur], p);
      }
      cums[cur] := Accumulate(p, cums[cur]);
      assert cums[..] == before[cur := cums[cur]];
    }
    ghost var sel := Selected(t, deselected, suppressExit);
    assert t[..procs.Length] == t;
    FillingEnds(kind, cums[..], sel, cur);
    if cums[cur].pid != 0 { n := n + 1; }
    assert cums[..n] == Cum(kind, sel);
    SelectedSorted(kind, t, deselected, suppressExit);
    SelectedSameMultiset(t, old(procs[..]), deselected, suppressExit);
    CumShape(kind, sel);
    GroupsOfSorted(kind, Selected(old(procs[..]), deselected, suppressExit), sel);
  }

  lemma NothingFilled(kind: Kind, cums: seq<TStat>, t: seq<TStat>, deselected: TStat -> bool, suppressExit: bool)
    requires forall i :: 0 <= i < |cums| ==> cums[i] == ZERO
    ensures Filling(cums, Cum(kind, Selected(t[..0], deselected, suppressExit)), 0)
    ensures Selected(t[..0], deselected, suppressExit) == []
  {
  }

  lemma SelectedNext(t: seq<TStat>, i: nat, deselected: TStat -> bool, suppressExit: bool)
    requires i < |t|
    ensures Selected(t[..i + 1], deselected, suppressExit) ==
      if deselected(t[i]) || (t[i].state == 'E' && suppressExit) then Selected(t[..i], deselected, suppressExit)
      else Selected(t[..i], deselected, suppressExit) + [t[i]]
  {
    assert t[..i + 1][..i] == t[..i];
  }

  /** The last entry counts only if a process went into it. */
  lemma FillingEnds(kind: Kind, cums: seq<TStat>, s: seq<TStat>, cur: nat)
    requires Filling(cums, Cum(kind, s), cur) && cur < |cums|
    ensures var n := if cums[cur].pid != 0 then cur + 1 else cur;
      n == |Cum(kind, s)| && cums[..n] == Cum(kind, s)
  {
    hide Cum;
    CumShape(kind, s);
    var gs := Cum(kind, s);
    if |gs| > 0 {
      assert cums[cur] == cums[..|gs|][cur] == gs[cur];
      assert gs[cur] in gs;
    }
  }

  lemma SelectedSameMultiset(s: seq<TStat>, t: seq<TStat>, deselected: TStat -> bool, suppressExit: bool)
    requires multiset(s) == multiset(t)
    ensures multiset(Selected(s, deselected, suppressExit)) == multiset(Selected(t, deselected, suppressExit))
  {
    SelectedOfPermutation(s, deselected, suppressExit);
    SelectedOfPermutation(t, deselected, suppressExit);
  }
}
