/** What the counters of the deviation pass mean, and how counters add up over samples. */
module Activity {
  import opened Prelude
  import opened Tasks
  import opened Deviation

  function NumProcs(s: seq<TStat>): nat {
    if |s| == 0 then 0 else NumProcs(s[..|s| - 1]) + if s[|s| - 1].isproc then 1 else 0
  }

  function NumActive(s: seq<TStat>): nat {
    if |s| == 0 then 0 else NumActive(s[..|s| - 1]) + if s[|s| - 1].wasinactive then 0 else 1
  }

  function NumActiveProcs(s: seq<TStat>): nat {
    if |s| == 0 then 0
    else NumActiveProcs(s[..|s| - 1]) + if s[|s| - 1].isproc && !s[|s| - 1].wasinactive then 1 else 0
  }

  /** Task i belongs to process q: q is the last process up to i. */
  ghost predicate Belongs(s: seq<TStat>, q: int, i: int) {
    0 <= q <= i < |s| && s[q].isproc && forall j | q < j <= i :: !s[j].isproc
  }

  /** An active thread has an active process. */
  ghost predicate ActiveAbove(s: seq<TStat>) {
    forall q, i :: Belongs(s, q, i) && !s[i].wasinactive ==> !s[q].wasinactive
  }

  ghost predicate Counted(p: Pass) {
    p.nprocall == NumProcs(p.all) && p.nprocactive == NumActiveProcs(p.all) && p.ntaskactive == NumActive(p.all)
  }

  ghost predicate ActivityInv(p: Pass) {
    && Counted(p)
    && ActiveAbove(p.all)
    && (p.all != [] ==> Belongs(p.all, p.thisproc, |p.all| - 1))
  }

  lemma Snoc(s: seq<TStat>, t: TStat)
    ensures NumProcs(s + [t]) == NumProcs(s) + if t.isproc then 1 else 0
    ensures NumActive(s + [t]) == NumActive(s) + if t.wasinactive then 0 else 1
    ensures NumActiveProcs(s + [t]) == NumActiveProcs(s) + if t.isproc && !t.wasinactive then 1 else 0
  {
    assert (s + [t])[..|s|] == s;
  }

  function Woken(s: seq<TStat>, i: nat): seq<TStat>
    requires i < |s|
  {
    s[i := s[i].(wasinactive := false)]
  }

  lemma {:induction false} WakeCounts(s: seq<TStat>, i: nat)
    requires i < |s| && s[i].isproc && s[i].wasinactive
    ensures NumProcs(Woken(s, i)) == NumProcs(s)
    ensures NumActive(Woken(s, i)) == NumActive(s) + 1
    ensures NumActiveProcs(Woken(s, i)) == NumActiveProcs(s) + 1
    decreases |s|
  {
    var n := |s| - 1;
    if i == n {
      assert Woken(s, i)[..n] == s[..n];
    } else {
      WakeCounts(s[..n], i);
      assert Woken(s, i)[..n] == Woken(s[..n], i);
    }
  }

  /** Waking up the process of the last task keeps the rule for all. */
  lemma WakeKeeps(s: seq<TStat>, i: nat)
    requires i < |s| && s[i].isproc && ActiveAbove(s)
    ensures ActiveAbove(Woken(s, i))
  {
    var t := Woken(s, i);
    forall q, j | Belongs(t, q, j) && !t[j].wasinactive
      ensures !t[q].wasinactive
    {
      forall k | q < k <= j
        ensures !s[k].isproc
      {
        assert !t[k].isproc;
      }
      assert Belongs(s, q, j);
    }
  }

  lemma OneProcess(s: seq<TStat>, q: int, q': int, i: int)
    requires Belongs(s, q, i) && Belongs(s, q', i)
    ensures q == q'
  {
  }

  /** Another task at the end: a process, or a thread whose process is active if it is. */
  lemma SnocKeeps(s: seq<TStat>, t: TStat, last: nat)
    requires ActiveAbove(s)
    requires t.isproc || (s != [] && Belongs(s, last, |s| - 1) && (t.wasinactive || !s[last].wasinactive))
    ensures ActiveAbove(s + [t])
    ensures Belongs(s + [t], if t.isproc then |s| else last, |s|)
  {
    var u := s + [t];
    assert Belongs(u, if t.isproc then |s| else last, |s|);
    forall q, i | Belongs(u, q, i) && !u[i].wasinactive
      ensures !u[q].wasinactive
    {
      if i < |s| {
        forall k | q < k <= i
          ensures !s[k].isproc
        {
          assert !u[k].isproc;
        }
        assert Belongs(s, q, i);
      } else if !t.isproc {
        OneProcess(u, q, last, i);
      }
    }
  }

  /** What one reported task adds, once the counters are adjusted. */
  lemma AppendKeeps(p: Pass, t: TStat)
    requires ActiveAbove(p.all)
    requires p.nprocall == NumProcs(p.all) + (if t.isproc then 1 else 0)
    requires p.nprocactive == NumActiveProcs(p.all) + (if t.isproc && !t.wasinactive then 1 else 0)
    requires p.ntaskactive == NumActive(p.all) + (if t.wasinactive then 0 else 1)
    requires if t.isproc then p.thisproc == |p.all|
             else p.all != [] && Belongs(p.all, p.thisproc, |p.all| - 1) &&
                  (t.wasinactive || !p.all[p.thisproc].wasinactive)
    ensures ActivityInv(p.(all := p.all + [t]))
  {
    hide ActiveAbove, Belongs;
    Snoc(p.all, t);
    SnocKeeps(p.all, t, p.thisproc);
  }

  /** CountActive, for the task that is about to be appended. */
  lemma ActiveKeeps(p: Pass, t: TStat)
    requires !t.wasinactive && ActiveAbove(p.all)
    requires p.nprocall == NumProcs(p.all) + (if t.isproc then 1 else 0)
    requires p.nprocactive == NumActiveProcs(p.all) && p.ntaskactive == NumActive(p.all)
    requires if t.isproc then p.thisproc == |p.all| else p.all != [] && Belongs(p.all, p.thisproc, |p.all| - 1)
    ensures var q := CountActive(p, t.isproc); ActivityInv(q.(all := q.all + [t]))
  {
    var q := CountActive(p, t.isproc);
    if !t.isproc && p.all[p.thisproc].wasinactive {
      WakeCounts(p.all, p.thisproc);
      WakeKeeps(p.all, p.thisproc);
      assert Belongs(q.all, p.thisproc, |p.all| - 1);
    }
    hide ActiveAbove;
    AppendKeeps(q, t);
  }

  lemma PresentKeeps(p: Pass, cur: TStat, totusedcpu: int)
    requires ActivityInv(p) && (p.all == [] ==> cur.isproc)
    ensures ActivityInv(Present(p, cur, totusedcpu))
  {
    var pre := Lookup(p.db, KeyOf(cur), cur.btime);
    var r := Remember(p, cur, pre);
    assert ActivityInv(r);
    hide Remember, Lookup, ActiveAbove, Belongs;
    var q := CountProc(r, cur);
    if pre == Some(cur) {
      AppendKeeps(q, CalcDiff(cur.(wasinactive := true), cur, false, totusedcpu));
    } else {
      var prev := if pre.Some? then pre.value else ZERO;
      ActiveKeeps(q, CalcDiff(cur.(wasinactive := false), prev, pre.None?, totusedcpu));
    }
  }

  lemma PresentAppends(p: Pass, cur: TStat, totusedcpu: int)
    ensures |Present(p, cur, totusedcpu).all| == |p.all| + 1
  {
  }

  lemma {:induction false} AllPresentKeeps(p: Pass, present: seq<TStat>, totusedcpu: int)
    requires ActivityInv(p) && (present != [] && p.all == [] ==> present[0].isproc)
    ensures ActivityInv(AllPresent(p, present, totusedcpu))
    ensures |AllPresent(p, present, totusedcpu).all| == |p.all| + |present|
    decreases |present|
  {
    hide ActivityInv, Present;
    if |present| > 0 {
      var n := |present| - 1;
      PresentAppends(AllPresent(p, present[..n], totusedcpu), present[n], totusedcpu);
      AllPresentKeeps(p, present[..n], totusedcpu);
      PresentKeeps(AllPresent(p, present[..n], totusedcpu), present[n], totusedcpu);
    }
  }

  lemma {:induction false} AllExitedKeeps(p: Pass, exits: seq<TStat>, matches: seq<Option<TStat>>)
    requires ActivityInv(p) && |exits| == |matches| && forall i | 0 <= i < |exits| :: exits[i].isproc
    ensures var q := AllExited(p, exits, matches);
            Counted(q) && ActiveAbove(q.all) && |q.all| == |p.all| + |exits|
    decreases |exits|
  {
    if |exits| > 0 {
      var n := |exits| - 1;
      hide ActivityInv, Exited;
      AllExitedKeeps(p, exits[..n], matches[..n]);
      ExitKeeps(AllExited(p, exits[..n], matches[..n]), exits[n], matches[n]);
    } else {
      hide Counted, ActiveAbove, Belongs;
    }
  }

  lemma ExitKeeps(q: Pass, cur: TStat, m: Option<TStat>)
    requires Counted(q) && ActiveAbove(q.all) && cur.isproc
    ensures var t := Exited(q, cur, m);
            Counted(t) && ActiveAbove(t.all) && |t.all| == |q.all| + 1
  {
    var t := ExitDiff(cur.(wasinactive := false), if m.Some? then m.value else ZERO);
    hide ActiveAbove;
    Snoc(q.all, t);
    SnocKeeps(q.all, t, 0);
  }

  /** With a process first in the list and only processes among the exit records, the counters
      of a sample are the true counts of its result, one entry per input task, and a process
      is reported inactive only if all its threads are. */
  lemma ActivityCounts(db: map<Key, TStat>, present: seq<TStat>, exits: seq<TStat>, totusedcpu: int,
                       matches: seq<Option<TStat>>)
    requires |exits| == |matches| && forall i | 0 <= i < |exits| :: exits[i].isproc
    requires present != [] ==> present[0].isproc
    ensures var q := End(AllExited(AllPresent(Begin(db), present, totusedcpu), exits, matches));
            && q.nprocall == NumProcs(q.all)
            && q.nprocactive == NumActiveProcs(q.all)
            && q.ntaskactive == NumActive(q.all)
            && |q.all| == |present| + |exits|
            && (forall j, i :: Belongs(q.all, j, i) && q.all[j].wasinactive ==> q.all[i].wasinactive)
  {
    AllPresentKeeps(Begin(db), present, totusedcpu);
    AllExitedKeeps(AllPresent(Begin(db), present, totusedcpu), exits, matches);
  }

  // ------------------------------------------------------------------ counters over samples

  function Low32(n: nat): nat { n % 0x1_0000_0000 }

  /** totalsyst: the deviations of consecutive samples, added up. */
  function Accumulated(samples: seq<nat>): int {
    if |samples| <= 1 then 0
    else
      var n := |samples| - 1;
      Accumulated(samples[..n]) + SubCount(Low32(samples[n]), Low32(samples[n - 1]))
  }

  lemma OneInterval(a: nat, b: nat)
    requires a <= b < a + 0x1_0000_0000
    ensures SubCount(Low32(b), Low32(a)) == b - a
  {
    var m := 0x1_0000_0000;
    assert a == m * (a / m) + Low32(a) && b == m * (b / m) + Low32(b);
    assert b / m == a / m || b / m == a / m + 1;
  }

  /** A counter of which only 32 bits are seen: if it grows by less than 2^32 per interval, the
      accumulated deviations are its true growth, however often it wrapped. */
  lemma {:induction false} Telescoping(samples: seq<nat>)
    requires |samples| > 0
    requires forall i | 0 < i < |samples| :: samples[i - 1] <= samples[i] < samples[i - 1] + 0x1_0000_0000
    ensures samples[0] + Accumulated(samples) == samples[|samples| - 1]
    decreases |samples|
  {
    var n := |samples| - 1;
    if n > 0 {
      Telescoping(samples[..n]);
      OneInterval(samples[n - 1], samples[n]);
    }
  }

  /** The bound is sharp: exactly the growth modulo 2^32 is seen. */
  lemma IntervalModulo(a: nat, b: nat)
    requires a <= b
    ensures SubCount(Low32(b), Low32(a)) == Low32(b - a)
    ensures SubCount(Low32(b), Low32(a)) == b - a <==> b - a < 0x1_0000_0000
  {
    var q: nat := (b - a) / 0x1_0000_0000;
    var b' := a + Low32(b - a);
    assert b == b' + q * 0x1_0000_0000;
    OneInterval(a, b');
    ModAdds(b', q);
  }

  lemma ModAdds(a: nat, q: nat)
    ensures Low32(a + q * 0x1_0000_0000) == Low32(a)
  {
  }

  // ------------------------------------------------------------------ the states of the present processes

  datatype ThreadState = Running | Interruptible | Uninterruptible

  function Threads(st: ThreadState, t: TStat): int {
    match st
    case Running => t.nthrrun
    case Interruptible => t.nthrslpi
    case Uninterruptible => t.nthrslpu
  }

  /** The threads in a state, of all processes that are no zombies. */
  function ThreadsIn(st: ThreadState, s: seq<TStat>): int {
    if |s| == 0 then 0
    else
      var t := s[|s| - 1];
      ThreadsIn(st, s[..|s| - 1]) + if t.isproc && t.state != 'Z' then Threads(st, t) else 0
  }

  function Zombies(s: seq<TStat>): nat {
    if |s| == 0 then 0 else Zombies(s[..|s| - 1]) + if s[|s| - 1].isproc && s[|s| - 1].state == 'Z' then 1 else 0
  }

  function TotalIn(st: ThreadState, p: Pass): int {
    match st
    case Running => p.totrun
    case Interruptible => p.totslpi
    case Uninterruptible => p.totslpu
  }

  lemma PresentTotals(p: Pass, cur: TStat, totusedcpu: int, st: ThreadState)
    ensures var q := Present(p, cur, totusedcpu);
      && TotalIn(st, q) == TotalIn(st, p) + (if cur.isproc && cur.state != 'Z' then Threads(st, cur) else 0)
      && q.totzombie == p.totzombie + if cur.isproc && cur.state == 'Z' then 1 else 0
  {
    hide CalcDiff;
  }

  lemma {:induction false} AllPresentTotals(p: Pass, present: seq<TStat>, totusedcpu: int, st: ThreadState)
    ensures var q := AllPresent(p, present, totusedcpu);
      && TotalIn(st, q) == TotalIn(st, p) + ThreadsIn(st, present)
      && q.totzombie == p.totzombie + Zombies(present)
  {
    hide Present, TotalIn, Threads;
    if |present| > 0 {
      var n := |present| - 1;
      AllPresentTotals(p, present[..n], totusedcpu, st);
      PresentTotals(AllPresent(p, present[..n], totusedcpu), present[n], totusedcpu, st);
    }
  }

  lemma {:induction false} AllExitedTotals(p: Pass, exits: seq<TStat>, matches: seq<Option<TStat>>, st: ThreadState)
    requires |exits| == |matches|
    ensures var q := AllExited(p, exits, matches); TotalIn(st, q) == TotalIn(st, p) && q.totzombie == p.totzombie
  {
    hide ExitDiff;
    if |exits| > 0 { AllExitedTotals(p, exits[..|exits| - 1], matches[..|exits| - 1], st); }
  }

  /** The totals of a sample: the threads of the present processes by state, and the zombies. */
  lemma StateTotals(db: map<Key, TStat>, present: seq<TStat>, exits: seq<TStat>, totusedcpu: int,
                    matches: seq<Option<TStat>>, st: ThreadState)
    requires |exits| == |matches|
    ensures var q := End(AllExited(AllPresent(Begin(db), present, totusedcpu), exits, matches));
      TotalIn(st, q) == ThreadsIn(st, present) && q.totzombie == Zombies(present)
  {
    AllPresentTotals(Begin(db), present, totusedcpu, st);
    AllExitedTotals(AllPresent(Begin(db), present, totusedcpu), exits, matches, st);
  }
}
