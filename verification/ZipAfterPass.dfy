/** The thread view of what the deviation pass reports. */
module ZipAfterPass {
  import opened Prelude
  import opened Tasks
  import opened Deviation
  import opened Activity
  import opened DeviateTasks
  import opened ThreadZip

  /** The lists are the same as far as tgids and the kind of the tasks go. */
  ghost predicate SameIds(a: seq<TStat>, b: seq<TStat>) {
    |a| == |b| && forall i | 0 <= i < |a| :: a[i].tgid == b[i].tgid && a[i].isproc == b[i].isproc
  }

  lemma PresentIds(p: Pass, cur: TStat, totusedcpu: int)
    ensures var all := Present(p, cur, totusedcpu).all;
      |all| == |p.all| + 1 && SameIds(all[..|p.all|], p.all) && SameIds(all[|p.all|..], [cur])
  {
  }

  lemma SameIdsBoth(a: seq<TStat>, b: seq<TStat>, n: nat, c: seq<TStat>, d: seq<TStat>)
    requires n <= |a| && SameIds(a[..n], b) && SameIds(a[n..], d) && SameIds(b, c)
    ensures SameIds(a, c + d)
  {
    forall i | 0 <= i < |a|
      ensures a[i].tgid == (c + d)[i].tgid && a[i].isproc == (c + d)[i].isproc
    {
      if i < n { assert a[i] == a[..n][i]; } else { assert a[i] == a[n..][i - n]; }
    }
  }

  lemma {:induction false} AllPresentIds(p: Pass, present: seq<TStat>, totusedcpu: int)
    requires p.all == []
    ensures SameIds(AllPresent(p, present, totusedcpu).all, present)
    decreases |present|
  {
    hide Present, SameIds;
    if |present| > 0 {
      var n := |present| - 1;
      var q := AllPresent(p, present[..n], totusedcpu);
      AllPresentIds(p, present[..n], totusedcpu);
      PresentIds(q, present[n], totusedcpu);
      SameIdsBoth(Present(q, present[n], totusedcpu).all, q.all, |q.all|, present[..n], [present[n]]);
      assert present == present[..n] + [present[n]];
    } else {
      NoIds();
    }
  }

  lemma NoIds()
    ensures SameIds([], [])
  {
  }

  lemma ExitedIds(p: Pass, cur: TStat, m: Option<TStat>)
    ensures var all := Exited(p, cur, m).all;
      |all| == |p.all| + 1 && SameIds(all[..|p.all|], p.all) && SameIds(all[|p.all|..], [cur])
  {
  }

  lemma {:induction false} AllExitedIds(p: Pass, present: seq<TStat>, exits: seq<TStat>, matches: seq<Option<TStat>>)
    requires |exits| == |matches| && SameIds(p.all, present)
    ensures SameIds(AllExited(p, exits, matches).all, present + exits)
    decreases |exits|
  {
    hide Exited, SameIds;
    if |exits| > 0 {
      var n := |exits| - 1;
      var q := AllExited(p, exits[..n], matches[..n]);
      AllExitedIds(p, present, exits[..n], matches[..n]);
      ExitedIds(q, exits[n], matches[n]);
      SameIdsBoth(Exited(q, exits[n], matches[n]).all, q.all, |q.all|, present + exits[..n], [exits[n]]);
      assert present + exits == present + exits[..n] + [exits[n]];
    } else {
      assert present + exits == present;
    }
  }

  /** Exit records behind the present tasks leave the layout as it is. */
  lemma LayoutWithExits(present: seq<TStat>, exits: seq<TStat>, all: seq<TStat>)
    requires Layout(present) && SameIds(all, present + exits)
    requires forall i | 0 <= i < |exits| :: exits[i].isproc
    ensures Layout(all)
  {
    var both := present + exits;
    forall q, t | Belongs(all, q, t) && q < t
      ensures all[t].tgid == all[q].tgid != 0
    {
      assert !all[t].isproc && !both[t].isproc && t < |present|;
      forall k | q < k <= t ensures !present[k].isproc { assert !all[k].isproc; }
      assert Belongs(present, q, t);
    }
  }

  // ------------------------------------------------------------------ the list of processes

  /** procactive or procall. */
  function Places(s: seq<TStat>, activeonly: bool): seq<nat> {
    if activeonly then ActivePlaces(s) else ProcPlaces(s)
  }

  lemma {:induction false} PlacesHold(s: seq<TStat>, activeonly: bool)
    ensures NoRepeat(Places(s, activeonly))
    ensures forall x: nat :: x in Places(s, activeonly) <==> x < |s| && s[x].isproc && Shown(s[x], activeonly)
  {
    hide NoRepeat, ActivePlaces, ProcPlaces;
    FewRepeatNothing(|s|);
    if |s| == 0 {
      PlacesNone();
    } else {
      var n := |s| - 1;
      var places := Places(s[..n], activeonly);
      var last := if s[n].isproc && Shown(s[n], activeonly) then [n] else [];
      PlacesHold(s[..n], activeonly);
      assert s == s[..n] + [s[n]];
      PlacesSnoc(s[..n], s[n]);
      assert Places(s, activeonly) == places + last;
      Apart(places, last);
      InBoth(places, last);
    }
  }

  lemma FewRepeatNothing(n: nat)
    ensures NoRepeat([]) && (n > 0 ==> NoRepeat([n - 1]))
  {
  }

  lemma PermutationNoRepeat(s: seq<nat>, t: seq<nat>)
    requires NoRepeat(s) && multiset(s) == multiset(t)
    ensures NoRepeat(t)
  {
    assert |s| == |multiset(s)| == |multiset(t)| == |t|;
    forall x | x in s ensures x in t { assert x in multiset(t); }
    forall x | x in t ensures x in s { assert x in multiset(s); }
    assert Elements(s) == Elements(t);
    ElementsCount(s);
    if !NoRepeat(t) { RepeatCount(t); }
  }

  /** However the list of processes has been sorted, it lists every (active) process once. */
  lemma SortedLists(all: seq<TStat>, curlist: seq<nat>, activeonly: bool)
    requires multiset(curlist) == multiset(Places(all, activeonly))
    ensures Listed(all, curlist, activeonly) && ListsAll(all, curlist, activeonly)
  {
    var places := Places(all, activeonly);
    PlacesHold(all, activeonly);
    PermutationNoRepeat(places, curlist);
    forall i | 0 <= i < |curlist|
      ensures curlist[i] < |all| && all[curlist[i]].isproc && Shown(all[curlist[i]], activeonly)
    {
      assert curlist[i] in multiset(curlist);
      assert curlist[i] in places;
    }
    forall q: nat | q < |all| && all[q].isproc && Shown(all[q], activeonly)
      ensures q in curlist
    {
      assert q in places;
      assert q in multiset(places);
    }
  }

  // ------------------------------------------------------------------ after a pass

  /** ntaskactive or ntaskall. */
  function NTotal(q: Pass, activeonly: bool): int { if activeonly then q.ntaskactive else |q.all| }

  /** After a pass, and however procactive or procall have been sorted: the zipped list fits the
      number of tasks that the pass counted if and only if no process overruns, and then it has
      exactly that many entries. */
  lemma ZipFits(db: map<Key, TStat>, present: seq<TStat>, exits: seq<TStat>, totusedcpu: int,
                matches: seq<Option<TStat>>, curlist: seq<nat>, activeonly: bool)
    requires Layout(present) && |exits| == |matches| && forall i | 0 <= i < |exits| :: exits[i].isproc
    requires multiset(curlist) == multiset(Places(Outcome(db, present, exits, totusedcpu, matches).all, activeonly))
    ensures var q := Outcome(db, present, exits, totusedcpu, matches);
      && Layout(q.all) && ActiveAbove(q.all) && Listed(q.all, curlist, activeonly)
      && (|Zip(q.all, curlist, activeonly)| <= NTotal(q, activeonly) <==> NoOverrun(q.all, activeonly))
      && (NoOverrun(q.all, activeonly) ==> |Zip(q.all, curlist, activeonly)| == NTotal(q, activeonly))
  {
    hide Layout, NoOverrun, Places, Zip, AllPresent, AllExited, Belongs, SameIds;
    var q := Outcome(db, present, exits, totusedcpu, matches);
    FirstIsProcess(present);
    ActivityCounts(db, present, exits, totusedcpu, matches);
    AllPresentIds(Begin(db), present, totusedcpu);
    AllExitedIds(AllPresent(Begin(db), present, totusedcpu), present, exits, matches);
    LayoutWithExits(present, exits, q.all);
    SortedLists(q.all, curlist, activeonly);
    ZipBound(q.all, curlist, activeonly);
  }

  lemma FirstIsProcess(present: seq<TStat>)
    requires Layout(present)
    ensures present != [] ==> present[0].isproc
  {
  }

  /** Who reaches whom, and who belongs to whom, depends on the ids alone. */
  lemma SameReach(a: seq<TStat>, b: seq<TStat>)
    requires SameIds(a, b)
    ensures forall p, x :: Reached(a, p, x) <==> Reached(b, p, x)
    ensures forall p, x :: Belongs(a, p, x) <==> Belongs(b, p, x)
  {
  }

  lemma SameOverrun(a: seq<TStat>, b: seq<TStat>)
    requires SameIds(a, b)
    ensures NoOverrun(a, false) <==> NoOverrun(b, false)
    ensures DistinctTgids(a) <==> DistinctTgids(b)
  {
    SameReach(a, b);
    hide Reached, Belongs;
    InRange(a);
    InRange(b);
  }

  lemma InRange(a: seq<TStat>)
    ensures forall p, x :: Reached(a, p, x) ==> 0 <= p <= x < |a|
  {
  }

  // ------------------------------------------------------------------ in terms of what came in

  /** Present task i is not what the database, as the tasks before it left it, knows of it. */
  predicate Changes(db: map<Key, TStat>, present: seq<TStat>, totusedcpu: int, i: int) {
    && 0 <= i < |present|
    && var known := AllPresent(Begin(db), present[..i], totusedcpu).db;
       Lookup(known, KeyOf(present[i]), present[i].btime) != Some(present[i])
  }

  /** Present task i will be shown as active: it changes itself, or it is the process of one that does. */
  ghost predicate Awake(db: map<Key, TStat>, present: seq<TStat>, totusedcpu: int, i: int) {
    || Changes(db, present, totusedcpu, i)
    || exists j :: Belongs(present, i, j) && Changes(db, present, totusedcpu, j)
  }

  /** When no two present tasks have the same key, the database at the start decides. */
  lemma ChangesFromStart(db: map<Key, TStat>, present: seq<TStat>, totusedcpu: int, i: nat)
    requires i < |present| && DistinctKeys(present)
    ensures Changes(db, present, totusedcpu, i) <==>
            Lookup(db, KeyOf(present[i]), present[i].btime) != Some(present[i])
  {
    hide AllPresent;
    OthersUntouched(db, present[..i], totusedcpu, KeyOf(present[i]));
  }

  lemma {:induction false} OthersUntouched(db: map<Key, TStat>, present: seq<TStat>, totusedcpu: int, k: Key)
    requires forall i | 0 <= i < |present| :: KeyOf(present[i]) != k
    ensures var d := AllPresent(Begin(db), present, totusedcpu).db; (k in d <==> k in db) && (k in d ==> d[k] == db[k])
    decreases |present|
  {
    hide Present;
    if |present| > 0 {
      var n := |present| - 1;
      OthersUntouched(db, present[..n], totusedcpu, k);
      OtherUntouched(AllPresent(Begin(db), present[..n], totusedcpu), present[n], totusedcpu, k);
    }
  }

  lemma OtherUntouched(p: Pass, cur: TStat, totusedcpu: int, k: Key)
    requires KeyOf(cur) != k
    ensures var d := Present(p, cur, totusedcpu).db; (k in d <==> k in p.db) && (k in d ==> d[k] == p.db[k])
  {
  }

  /** One more present task: it is active if it changes, and then its process is. */
  lemma PresentWakes(p: Pass, cur: TStat, totusedcpu: int)
    requires p.all != [] ==> p.thisproc < |p.all|
    ensures var q, n := Present(p, cur, totusedcpu), |p.all|;
      var changes := Lookup(p.db, KeyOf(cur), cur.btime) != Some(cur);
      && |q.all| == n + 1 && (q.all[n].wasinactive <==> !changes)
      && (forall i | 0 <= i < n ::
            q.all[i].wasinactive <==> p.all[i].wasinactive && !(changes && !cur.isproc && i == p.thisproc))
  {
  }

  lemma ChangesBefore(db: map<Key, TStat>, present: seq<TStat>, totusedcpu: int, n: nat, i: int)
    requires n <= |present| && i < n
    ensures Changes(db, present[..n], totusedcpu, i) <==> Changes(db, present, totusedcpu, i)
  {
    hide AllPresent, Lookup;
    if 0 <= i { assert present[..n][..i] == present[..i]; }
  }

  lemma BelongsBefore(s: seq<TStat>, n: nat, q: int, i: int)
    requires n <= |s| && i < n
    ensures Belongs(s[..n], q, i) <==> Belongs(s, q, i)
  {
  }

  /** The last task belongs to itself, or to the process that was the last before it. */
  lemma BelongsLast(s: seq<TStat>, n: nat, q: int, i: int)
    requires |s| == n + 1 && 0 <= i < n && Belongs(s[..n], q, n - 1)
    ensures Belongs(s, i, n) <==> !s[n].isproc && i == q
  {
  }

  lemma AwakeNext(db: map<Key, TStat>, present: seq<TStat>, totusedcpu: int, n: nat, i: int)
    requires |present| == n + 1 && 0 <= i < n
    ensures Awake(db, present, totusedcpu, i) <==>
            Awake(db, present[..n], totusedcpu, i) || (Belongs(present, i, n) && Changes(db, present, totusedcpu, n))
  {
    hide Changes, Belongs;
    ChangesBefore(db, present, totusedcpu, n, i);
    if Awake(db, present, totusedcpu, i) && !Changes(db, present, totusedcpu, i) {
      var j :| Belongs(present, i, j) && Changes(db, present, totusedcpu, j);
      InPlace(present, i, j);
      if j < n {
        ChangesBefore(db, present, totusedcpu, n, j);
        BelongsBefore(present, n, i, j);
      }
    }
    if Awake(db, present[..n], totusedcpu, i) && !Changes(db, present[..n], totusedcpu, i) {
      var j :| Belongs(present[..n], i, j) && Changes(db, present[..n], totusedcpu, j);
      InPlace(present[..n], i, j);
      ChangesBefore(db, present, totusedcpu, n, j);
      BelongsBefore(present, n, i, j);
    }
  }

  lemma InPlace(s: seq<TStat>, q: int, i: int)
    requires Belongs(s, q, i)
    ensures 0 <= q <= i < |s|
  {
  }

  lemma AwakeLast(db: map<Key, TStat>, present: seq<TStat>, totusedcpu: int, n: nat)
    requires |present| == n + 1
    ensures Awake(db, present, totusedcpu, n) <==> Changes(db, present, totusedcpu, n)
  {
    hide Changes;
  }

  /** The reported activity of the present tasks is what can be said of them beforehand. */
  lemma {:induction false} ActiveAsAwake(db: map<Key, TStat>, present: seq<TStat>, totusedcpu: int)
    requires present != [] ==> present[0].isproc
    ensures var p := AllPresent(Begin(db), present, totusedcpu);
      && |p.all| == |present|
      && (present != [] ==> Belongs(present, p.thisproc, |present| - 1))
      && (forall i | 0 <= i < |present| :: !p.all[i].wasinactive <==> Awake(db, present, totusedcpu, i))
    decreases |present|
  {
    hide Present, Awake, Belongs, Changes;
    if |present| > 0 {
      var n := |present| - 1;
      var p := AllPresent(Begin(db), present[..n], totusedcpu);
      ActiveAsAwake(db, present[..n], totusedcpu);
      if n > 0 { InPlace(present[..n], p.thisproc, n - 1); }
      LastProcess(p, present, totusedcpu, n);
      PresentWakes(p, present[n], totusedcpu);
      IsChange(db, present, totusedcpu, n, p);
      AwakeLast(db, present, totusedcpu, n);
      forall i | 0 <= i < n
        ensures !Present(p, present[n], totusedcpu).all[i].wasinactive <==> Awake(db, present, totusedcpu, i)
      {
        AwakeNext(db, present, totusedcpu, n, i);
        BelongsLast(present, n, p.thisproc, i);
      }
    }
  }

  lemma IsChange(db: map<Key, TStat>, present: seq<TStat>, totusedcpu: int, n: nat, p: Pass)
    requires n < |present| && p == AllPresent(Begin(db), present[..n], totusedcpu)
    ensures Changes(db, present, totusedcpu, n) <==>
            Lookup(p.db, KeyOf(present[n]), present[n].btime) != Some(present[n])
  {
  }

  lemma LastProcess(p: Pass, present: seq<TStat>, totusedcpu: int, n: nat)
    requires |present| == n + 1 == |p.all| + 1 && present[0].isproc
    requires n > 0 ==> Belongs(present[..n], p.thisproc, n - 1)
    ensures Belongs(present, Present(p, present[n], totusedcpu).thisproc, n)
  {
    ThisProcess(p, present[n], totusedcpu);
    hide Present;
    if n > 0 && !present[n].isproc {
      forall j | p.thisproc < j <= n
        ensures !present[j].isproc
      {
        if j < n { assert present[..n][j] == present[j]; }
      }
      assert present[..n][p.thisproc] == present[p.thisproc];
    }
  }

  lemma ThisProcess(p: Pass, cur: TStat, totusedcpu: int)
    ensures Present(p, cur, totusedcpu).thisproc == if cur.isproc then |p.all| else p.thisproc
  {
  }

  /** The tasks that come in, each marked as it will be shown; exit records always are active. */
  ghost function Incoming(db: map<Key, TStat>, present: seq<TStat>, exits: seq<TStat>, totusedcpu: int): seq<TStat> {
    seq(|present| + |exits|, i requires 0 <= i < |present| + |exits| =>
      (present + exits)[i].(wasinactive := i < |present| && !Awake(db, present, totusedcpu, i)))
  }

  lemma {:induction false} ExitsStayActive(p: Pass, exits: seq<TStat>, matches: seq<Option<TStat>>)
    requires |exits| == |matches|
    ensures var q := AllExited(p, exits, matches);
      && |q.all| == |p.all| + |exits|
      && (forall i | 0 <= i < |p.all| :: q.all[i] == p.all[i])
      && (forall i | |p.all| <= i < |q.all| :: !q.all[i].wasinactive)
    decreases |exits|
  {
    hide Exited;
    if |exits| > 0 {
      var n := |exits| - 1;
      ExitsStayActive(p, exits[..n], matches[..n]);
      ExitAppends(AllExited(p, exits[..n], matches[..n]), exits[n], matches[n]);
    }
  }

  lemma ExitAppends(p: Pass, cur: TStat, m: Option<TStat>)
    ensures var q := Exited(p, cur, m);
      |q.all| == |p.all| + 1 && q.all[..|p.all|] == p.all && !q.all[|p.all|].wasinactive
  {
  }

  /** Ids and activity are reported as they come in. */
  lemma ReportedAsIncoming(db: map<Key, TStat>, present: seq<TStat>, exits: seq<TStat>, totusedcpu: int,
                           matches: seq<Option<TStat>>)
    requires |exits| == |matches| && (present != [] ==> present[0].isproc)
    ensures var all := Outcome(db, present, exits, totusedcpu, matches).all;
      var t := Incoming(db, present, exits, totusedcpu);
      && SameIds(all, t) && SameIds(all, present + exits)
      && (forall i | 0 <= i < |all| :: all[i].wasinactive == t[i].wasinactive)
  {
    hide AllPresent, AllExited, Awake;
    var p := AllPresent(Begin(db), present, totusedcpu);
    AllPresentIds(Begin(db), present, totusedcpu);
    AllExitedIds(p, present, exits, matches);
    ActiveAsAwake(db, present, totusedcpu);
    ExitsStayActive(p, exits, matches);
  }

  lemma SameShown(a: seq<TStat>, b: seq<TStat>, activeonly: bool)
    requires SameIds(a, b) && forall i | 0 <= i < |a| :: a[i].wasinactive == b[i].wasinactive
    ensures NoOverrun(a, activeonly) <==> NoOverrun(b, activeonly)
  {
    SameReach(a, b);
    hide Reached, Belongs;
    InRange(a);
    InRange(b);
  }

  /** In terms of the tasks that came in: the list fits if and only if no process overruns among
      the present tasks, marked as the database tells, followed by the exit records. With all
      tasks shown the marks do not matter. In whatever way they are shown, the list fits and is
      filled when their processes have tgids of their own. */
  lemma ZipFitsInput(db: map<Key, TStat>, present: seq<TStat>, exits: seq<TStat>, totusedcpu: int,
                     matches: seq<Option<TStat>>, curlist: seq<nat>, activeonly: bool)
    requires Layout(present) && |exits| == |matches| && forall i | 0 <= i < |exits| :: exits[i].isproc
    requires multiset(curlist) == multiset(Places(Outcome(db, present, exits, totusedcpu, matches).all, activeonly))
    ensures var q := Outcome(db, present, exits, totusedcpu, matches);
      && Layout(q.all) && ActiveAbove(q.all) && Listed(q.all, curlist, activeonly)
      && (|Zip(q.all, curlist, activeonly)| <= NTotal(q, activeonly) <==>
          NoOverrun(Incoming(db, present, exits, totusedcpu), activeonly))
      && (!activeonly ==> (NoOverrun(Incoming(db, present, exits, totusedcpu), activeonly) <==>
                           NoOverrun(present + exits, false)))
      && (DistinctTgids(present + exits) ==> |Zip(q.all, curlist, activeonly)| == NTotal(q, activeonly))
  {
    hide Layout, NoOverrun, DistinctTgids, Places, Zip, AllPresent, AllExited, SameIds, Incoming;
    var q := Outcome(db, present, exits, totusedcpu, matches);
    ZipFits(db, present, exits, totusedcpu, matches, curlist, activeonly);
    FirstIsProcess(present);
    ReportedAsIncoming(db, present, exits, totusedcpu, matches);
    SameShown(q.all, Incoming(db, present, exits, totusedcpu), activeonly);
    SameOverrun(q.all, present + exits);
    if DistinctTgids(present + exits) { DistinctNeverOverrun(q.all, activeonly); }
  }

  /** A process that is seen while it exits: it is in the list of tasks, and its exit record
      comes in the same sample. */
  function Exiting(): TStat { ZERO.(tgid := 5, pid := 5, isproc := true, state := 'Z') }

  function ExitRecord(): TStat { ZERO.(tgid := 5, pid := 5, isproc := true, state := 'E') }

  lemma SeenOnce()
    ensures var p := AllPresent(Begin(map[]), [Exiting()], 0);
      && p.db == map[(5, true) := Exiting()] && p.ntaskactive == 1
      && |p.all| == 1 && p.all[0].tgid == 5 && p.all[0].isproc && !p.all[0].wasinactive
  {
    assert [Exiting()][..0] == [];
    assert AllPresent(Begin(map[]), [Exiting()], 0) == Present(Begin(map[]), Exiting(), 0);
  }

  lemma SeenAgain(p: Pass)
    ensures var q := AllExited(p, [ExitRecord()], [Some(Exiting())]);
      && q.ntaskactive == p.ntaskactive + 1
      && |q.all| == |p.all| + 1 && q.all[..|p.all|] == p.all
      && q.all[|p.all|].tgid == 5 && q.all[|p.all|].isproc && !q.all[|p.all|].wasinactive
  {
    assert [ExitRecord()][..0] == [] && [Some(Exiting())][..0] == [];
    assert AllExited(p, [ExitRecord()], [Some(Exiting())]) == Exited(p, ExitRecord(), Some(Exiting()));
  }

  lemma ExitMatches(p: Pass)
    requires p.db == map[(5, true) := Exiting()]
    ensures AreMatches(p, [ExitRecord()], 0, [Some(Exiting())])
  {
    assert [ExitRecord()][..0] == [] && [Some(Exiting())][..0] == [];
  }

  lemma ActiveTwo(all: seq<TStat>)
    requires |all| == 2 && forall i | 0 <= i < 2 :: all[i].isproc && !all[i].wasinactive
    ensures ActivePlaces(all) == [0, 1]
  {
    var one := all[..1];
    assert one[0] == all[0] && one[..0] == [];
    assert ActivePlaces([]) == [];
    assert ActivePlaces(one) == [0];
  }

  lemma ScanTwo(all: seq<TStat>)
    requires |all| == 2 && forall i | 0 <= i < 2 :: all[i].tgid == 5 && !all[i].wasinactive
    ensures Scan(all, 0, 1, true) == [1] && Scan(all, 1, 2, true) == []
  {
    assert Scan(all, 0, 2, true) == [];
  }

  lemma ZipTwo(all: seq<TStat>, one: seq<nat>, two: seq<nat>)
    requires |all| == 2 && Scan(all, 0, 1, true) == [1] && Scan(all, 1, 2, true) == []
    requires one == [0] && two == [0, 1]
    ensures |Zip(all, two, true)| == 3
  {
    hide Scan;
    assert one[..0] == [] && two[..1] == one;
    assert Zip(all, [], true) == [];
    assert Zip(all, one, true) == [] + [0] + [1];
  }

  /** Two active tasks are counted, and three entries are written. */
  lemma ExitOverruns(present: seq<TStat>, exits: seq<TStat>, matches: seq<Option<TStat>>, q: Pass, curlist: seq<nat>)
    requires present == [Exiting()] && exits == [ExitRecord()] && matches == [Some(Exiting())]
    requires q == Outcome(map[], present, exits, 0, matches)
    requires curlist == ActivePlaces(q.all)
    ensures AreMatches(AllPresent(Begin(map[]), present, 0), exits, 0, matches)
    ensures q.ntaskactive == 2 && |curlist| == 2 && |q.all| == 2 && (forall i | 0 <= i < 2 :: curlist[i] == i)
    ensures |Zip(q.all, curlist, true)| == 3
  {
    hide AllPresent, AllExited, AreMatches, ActivePlaces, Zip, Scan;
    SeenOnce();
    var p := AllPresent(Begin(map[]), [Exiting()], 0);
    SeenAgain(p);
    ExitMatches(p);
    assert q.all == AllExited(p, exits, matches).all;
    assert q.all[0] == q.all[..1][0];
    ActiveTwo(q.all);
    ScanTwo(q.all);
    ZipTwo(q.all, [0], curlist);
  }
}
