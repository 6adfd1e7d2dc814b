/** deviattask itself: the pass over the lists of a sample, on the linked database. */
module DeviateTasks {
  import opened Prelude
  import opened Tasks
  import opened ProcDb
  import opened ProcDbModel
  import opened Deviation
  import opened Activity

  /** The key of a present task, in use again or not since the previous sample. */
  ghost predicate NotReused(m: map<Key, TStat>, cur: TStat) {
    KeyOf(cur) in m ==> Lookup(m, KeyOf(cur), cur.btime).Some?
  }

  ghost predicate Good(db: Database)
    reads db, db.phash, db.nodes, db.presidue
  {
    db.Valid() && Unique(db.nodes)
  }

  /** The database as a pass sees it. */
  ghost function DbPass(db: Database): Pass
    requires Good(db)
    reads db, db.phash, db.nodes, db.presidue
  {
    DbOnly(Model(db.nodes), KeysIn(db.residue))
  }

  function DbOnly(m: map<Key, TStat>, ks: set<Key>): Pass { Pass(m, ks, [], 0, 0, 0, 0, 0, 0, 0, 0) }

  /** The previous figures of a present task; the current ones take their place. */
  method RememberTask(db: Database, cur: TStat) returns (pre: Option<TStat>)
    requires Good(db) && NotReused(DbPass(db).db, cur)
    modifies db, db.phash, db.nodes, db.presidue
    ensures Good(db) && fresh(db.nodes - old(db.nodes))
    ensures pre == old(Lookup(DbPass(db).db, KeyOf(cur), cur.btime))
    ensures DbPass(db) == Remember(old(DbPass(db)), cur, pre)
  {
    hide Ring, Threaded, AllChained, InBuckets, Unique, Model, KeysIn, Without, Snapshot;
    ghost var residue := db.residue;
    var pinfo := db.GetTask(cur.pid, cur.isproc, cur.btime);
    if pinfo != null {
      pre := Some(pinfo.tstat);
      Found(db.nodes, pinfo, cur.pid, cur.isproc, cur.btime);
      KeysWithout(db.nodes, residue, pinfo);
      if cur == pinfo.tstat {
        InModel(db.nodes, pinfo);
        assert Model(db.nodes)[KeyOf(cur) := cur] == Model(db.nodes);
      } else {
        SetStat(db, pinfo, cur);
      }
    } else {
      pre := None;
      NotFound(db.nodes, cur.pid, cur.isproc, cur.btime);
      var added := new PInfo(cur.(wasinactive := false));
      ModelWith(db.nodes, added);
      db.AddTask(cur.pid, added);
      ModelWith(old(db.nodes), added);
    }
  }

  /** The best match of the residue list is a match. */
  lemma BestIsMatch(nodes: set<PInfo>, residue: seq<PInfo>, x: PInfo, cur: TStat, pretime: int)
    requires Unique(nodes) && AllIn(residue, nodes) && x in residue && BestMatch(residue, x, cur)
    requires cur.pid == 0 && cur.btime <= pretime
    ensures IsMatch(DbOnly(Model(nodes), KeysIn(residue)), cur, pretime, Some(x.tstat))
  {
    InModel(nodes, x);
    if x.tstat.btime != cur.btime {
      forall k | k in KeysIn(residue) && k in Model(nodes)
        ensures !Alike(Model(nodes)[k], cur, 0)
      {
        var y :| y in residue && KeyOf(y.tstat) == k;
        InModel(nodes, y);
        assert !StartsWithin(y, cur, 0);
      }
    }
  }

  lemma NoneIsMatch(nodes: set<PInfo>, residue: seq<PInfo>, cur: TStat, pretime: int)
    requires Unique(nodes) && AllIn(residue, nodes)
    requires forall x :: x in residue ==> !StartsWithin(x, cur, 1)
    requires cur.pid == 0 && cur.btime <= pretime
    ensures IsMatch(DbOnly(Model(nodes), KeysIn(residue)), cur, pretime, None)
  {
    forall k | k in KeysIn(residue) && k in Model(nodes)
      ensures !Alike(Model(nodes)[k], cur, 1)
    {
      var y :| y in residue && KeyOf(y.tstat) == k;
      InModel(nodes, y);
      assert !StartsWithin(y, cur, 1);
    }
  }

  /** The task an exit record is about, if the database knows it. */
  method FindExited(db: Database, cur: TStat, pretime: int) returns (pinfo: PInfo?)
    requires Good(db)
    modifies db, db.nodes, db.presidue
    ensures Good(db) && db.nodes == old(db.nodes) && Model(db.nodes) == old(Model(db.nodes))
    ensures pinfo != null ==> pinfo in db.nodes
    ensures IsMatch(old(DbPass(db)), cur, pretime, if pinfo == null then None else Some(pinfo.tstat))
    ensures KeysIn(db.residue) == old(KeysIn(db.residue)) -
              if cur.pid != 0 && pinfo != null then {KeyOf(pinfo.tstat)} else {}
  {
    hide Ring, Threaded, AllChained, InBuckets, Unique, Model, KeysIn, Without, BestMatch, IsMatch;
    ghost var residue, nodes := db.residue, db.nodes;
    if cur.pid != 0 {
      pinfo := db.GetTask(cur.pid, true, cur.btime);
      if pinfo != null {
        Found(nodes, pinfo, cur.pid, true, cur.btime);
        KeysWithout(nodes, residue, pinfo);
      } else {
        NotFound(nodes, cur.pid, true, cur.btime);
      }
      ByPid(old(DbPass(db)), cur, pretime);
    } else if cur.btime > pretime {
      pinfo := null;
      TooYoung(old(DbPass(db)), cur, pretime);
    } else {
      pinfo := db.SrchResidue(cur);
      if pinfo != null {
        BestIsMatch(nodes, residue, pinfo, cur, pretime);
      } else {
        NoneIsMatch(nodes, residue, cur, pretime);
      }
    }
  }

  lemma ByPid(p: Pass, cur: TStat, pretime: int)
    requires cur.pid != 0
    ensures IsMatch(p, cur, pretime, Lookup(p.db, (cur.pid, true), cur.btime))
  {
  }

  lemma TooYoung(p: Pass, cur: TStat, pretime: int)
    requires cur.pid == 0 && cur.btime > pretime
    ensures IsMatch(p, cur, pretime, None)
  {
  }

  lemma Deletable(db: Database, x: PInfo)
    requires db.Valid() && x in db.nodes
    ensures db.chains[Bucket(x.tstat.pid)] != [] && IsKey(x, x.tstat.pid, x.tstat.isproc)
  {
  }

  lemma SameKeySameNode(nodes: set<PInfo>, x: PInfo, y: PInfo?)
    requires Unique(nodes) && x in nodes
    ensures y != null && y in nodes && IsKey(y, x.tstat.pid, x.tstat.isproc) ==> y == x
  {
    if y != null && y in nodes && IsKey(y, x.tstat.pid, x.tstat.isproc) {
      assert KeyOf(y.tstat) == KeyOf(x.tstat);
    }
  }

  /** The previous figures of an exited process, which is deleted. */
  method ForgetTask(db: Database, cur: TStat, pretime: int) returns (pre: Option<TStat>)
    requires Good(db)
    modifies db, db.phash, db.nodes, db.presidue
    ensures Good(db) && db.nodes <= old(db.nodes)
    ensures IsMatch(old(DbPass(db)), cur, pretime, pre)
    ensures DbPass(db) == Forget(old(DbPass(db)), cur, pre)
  {
    hide Ring, Threaded, AllChained, InBuckets, Unique, Model, KeysIn, Without, IsMatch;
    var pinfo := FindExited(db, cur, pretime);
    if pinfo == null { return None; }
    pre := Some(pinfo.tstat);
    if pinfo.tstat.pid > 0 {
      Deletable(db, pinfo);
      ghost var residue, nodes := db.residue, db.nodes;
      var ok;
      ghost var gone;
      ok, gone := db.DelTask(pinfo.tstat.pid, pinfo.tstat.isproc);
      SameKeySameNode(nodes, pinfo, gone);
      ModelWithout(nodes, pinfo);
      assert pinfo !in Without(residue, pinfo);
      KeysWithout(nodes, residue, pinfo);
    }
  }

  /** The deviations of one sample; the other lists hold places in taskall. */
  class DevTStat {
    var taskall: array<TStat>
    var procall: array<nat>
    var procactive: array<nat>
    var ntaskall: nat
    var nprocall: nat
    var nprocactive: nat
    var ntaskactive: nat
    var totrun: int
    var totslpi: int
    var totslpu: int
    var totzombie: int

    constructor ()
    {
      taskall, procall, procactive := new TStat[0], new nat[0], new nat[0];
      ntaskall, nprocall, nprocactive, ntaskactive := 0, 0, 0, 0;
      totrun, totslpi, totslpu, totzombie := 0, 0, 0, 0;
    }

    /** The report so far, beside a database. */
    ghost function View(db: Pass, done: nat, thisproc: nat): Pass
      requires done <= taskall.Length
      reads this, taskall
    {
      Pass(db.db, db.residue, taskall[..done], thisproc, nprocall, nprocactive, ntaskactive,
           totrun, totslpi, totslpu, totzombie)
    }

    ghost predicate Cleared() reads this {
      nprocall == nprocactive == ntaskactive == 0 && totrun == totslpi == totslpu == totzombie == 0
    }

    /** This is the report of a finished pass. */
    ghost predicate Reports(q: Pass)
      reads this, taskall, procall, procactive
    {
      && taskall[..] == q.all && ntaskall == |q.all|
      && nprocall == q.nprocall && nprocactive == q.nprocactive && ntaskactive == q.ntaskactive
      && totzombie == q.totzombie && totrun == q.totrun && totslpi == q.totslpi && totslpu == q.totslpu
      && procall[..] == ProcPlaces(q.all) && procactive[..] == ActivePlaces(q.all)
    }

    method Clear(n: nat)
      modifies this
      ensures fresh(taskall) && taskall.Length == n == ntaskall && Cleared()
    {
      ntaskall := n;
      taskall := new TStat[n];
      nprocall, nprocactive, ntaskactive := 0, 0, 0;
      totrun, totslpi, totslpu, totzombie := 0, 0, 0, 0;
    }

    /** An active task; an active thread of an inactive process makes that one active. */
    method MarkActive(isproc: bool, thisproc: nat, ghost db: Pass, ghost done: nat)
      requires done <= taskall.Length && (isproc || thisproc < done)
      modifies this`ntaskactive, this`nprocactive, taskall
      ensures View(db, done, thisproc) == CountActive(old(View(db, done, thisproc)), isproc)
    {
      ntaskactive := ntaskactive + 1;
      if isproc {
        nprocactive := nprocactive + 1;
      } else if taskall[thisproc].wasinactive {
        taskall[thisproc] := taskall[thisproc].(wasinactive := false);
        ntaskactive := ntaskactive + 1;
        nprocactive := nprocactive + 1;
      }
    }

    method ReportTask(cur: TStat, pre: Option<TStat>, c: nat, lastproc: nat, totusedcpu: int, ghost db: Pass)
      returns (thisproc: nat)
      requires c < taskall.Length && (cur.isproc || lastproc < c)
      modifies this, taskall
      ensures taskall == old(taskall) && ntaskall == old(ntaskall)
      ensures View(db, c + 1, thisproc) == Report(old(View(db, c, lastproc)), cur, pre, totusedcpu)
    {
      hide CalcDiff;
      ghost var p := View(db, c, lastproc);
      thisproc := lastproc;
      if cur.isproc {
        thisproc := c;
        nprocall := nprocall + 1;
        if cur.state == 'Z' {
          totzombie := totzombie + 1;
        } else {
          totrun, totslpi, totslpu := totrun + cur.nthrrun, totslpi + cur.nthrslpi, totslpu + cur.nthrslpu;
        }
      }
      assert View(db, c, thisproc) == CountProc(p, cur);
      if pre == Some(cur) {
        taskall[c] := CalcDiff(cur.(wasinactive := true), cur, false, totusedcpu);
      } else {
        MarkActive(cur.isproc, thisproc, db, c);
        var prestat := if pre.Some? then pre.value else ZERO;
        taskall[c] := CalcDiff(cur.(wasinactive := false), prestat, pre.None?, totusedcpu);
      }
    }

    method ReportExited(cur: TStat, pre: Option<TStat>, d: nat, ghost thisproc: nat, ghost db: Pass)
      requires d < taskall.Length
      modifies this`nprocall, this`nprocactive, this`ntaskactive, taskall
      ensures View(db, d + 1, thisproc) == ReportExit(old(View(db, d, thisproc)), cur, pre)
    {
      hide ExitDiff;
      nprocall, nprocactive, ntaskactive := nprocall + 1, nprocactive + 1, ntaskactive + 1;
      taskall[d] := ExitDiff(cur.(wasinactive := false), if pre.Some? then pre.value else ZERO);
    }

    /** The lists of processes and of active processes, each of exactly the size allocated. */
    method FillLists()
      requires taskall.Length == ntaskall
      requires nprocall == NumProcs(taskall[..]) && nprocactive == NumActiveProcs(taskall[..])
      modifies this`procall, this`procactive
      ensures procall.Length == nprocall && procactive.Length == nprocactive
      ensures procall[..] == ProcPlaces(taskall[..]) && procactive[..] == ActivePlaces(taskall[..])
    {
      hide NumProcs, NumActiveProcs, ProcPlaces, ActivePlaces;
      PlacesNone();
      procall := new nat[nprocall];
      procactive := new nat[nprocactive];
      var pall, pact := 0, 0;
      ghost var all := taskall[..];
      assert all[..0] == [];
      for c := 0 to ntaskall
        invariant pall == NumProcs(all[..c]) && pact == NumActiveProcs(all[..c])
        invariant procall.Length == nprocall && procactive.Length == nprocactive
        invariant procall != procactive && fresh(procall) && fresh(procactive)
        invariant pall <= nprocall && pact <= nprocactive
        invariant procall[..pall] == ProcPlaces(all[..c]) && procactive[..pact] == ActivePlaces(all[..c])
      {
        assert all[..c + 1] == all[..c] + [all[c]];
        NumsGrow(all, c + 1);
        PlacesSnoc(all[..c], all[c]);
        Snoc(all[..c], all[c]);
        if taskall[c].isproc {
          procall[pall] := c;
          pall := pall + 1;
          if !taskall[c].wasinactive {
            procactive[pact] := c;
            pact := pact + 1;
          }
        }
      }
      assert all[..ntaskall] == all;
    }
  }

  function ProcPlaces(s: seq<TStat>): seq<nat> {
    if |s| == 0 then [] else
      ProcPlaces(s[..|s| - 1]) + if s[|s| - 1].isproc then [|s| - 1] else []
  }

  function ActivePlaces(s: seq<TStat>): seq<nat> {
    if |s| == 0 then [] else
      ActivePlaces(s[..|s| - 1]) + if s[|s| - 1].isproc && !s[|s| - 1].wasinactive then [|s| - 1] else []
  }

  lemma PlacesNone()
    ensures NumProcs([]) == NumActiveProcs([]) == 0 && ProcPlaces([]) == ActivePlaces([]) == []
  {
  }

  lemma PlacesSnoc(s: seq<TStat>, t: TStat)
    ensures ProcPlaces(s + [t]) == ProcPlaces(s) + if t.isproc then [|s|] else []
    ensures ActivePlaces(s + [t]) == ActivePlaces(s) + if t.isproc && !t.wasinactive then [|s|] else []
  {
    assert (s + [t])[..|s|] == s;
  }

  lemma {:induction false} NumsGrow(s: seq<TStat>, c: nat)
    requires c <= |s|
    ensures NumProcs(s[..c]) <= NumProcs(s) && NumActiveProcs(s[..c]) <= NumActiveProcs(s)
    decreases |s| - c
  {
    if c == |s| {
      assert s[..c] == s;
    } else {
      NumsGrow(s, c + 1);
      assert s[..c + 1] == s[..c] + [s[c]];
      Snoc(s[..c], s[c]);
    }
  }

  // ------------------------------------------------------------------ the whole pass

  /** What the pass assumes of its input: no pid in use twice, and a process first. */
  ghost predicate Regular(m: map<Key, TStat>, present: seq<TStat>) {
    DistinctKeys(present) && NoReuse(m, present) && (present != [] ==> present[0].isproc)
  }

  /** In the middle of the list the next task is as good as at its start. */
  lemma NextIsRegular(m: map<Key, TStat>, present: seq<TStat>, c: nat, totusedcpu: int)
    requires Regular(m, present) && c < |present|
    ensures var p := AllPresent(Begin(m), present[..c], totusedcpu);
            && NotReused(p.db, present[c])
            && Lookup(p.db, KeyOf(present[c]), present[c].btime) == Lookup(m, KeyOf(present[c]), present[c].btime)
            && |p.all| == c && (present[c].isproc || p.thisproc < c)
            && AllPresent(Begin(m), present[..c + 1], totusedcpu) == Present(p, present[c], totusedcpu)
  {
    var s := present[..c];
    var p := AllPresent(Begin(m), s, totusedcpu);
    assert present[..c + 1][..c] == s;
    assert AllPresent(Begin(m), present[..c + 1], totusedcpu) == Present(p, present[c], totusedcpu);
    hide AllPresent, Present;
    AllPresentKeeps(Begin(m), s, totusedcpu);
    Mark(m, s, totusedcpu);
    NextNotReused(m, present, c, p);
  }

  lemma NextNotReused(m: map<Key, TStat>, present: seq<TStat>, c: nat, p: Pass)
    requires Regular(m, present) && c < |present| && MarkInv(m, present[..c], p)
    ensures NotReused(p.db, present[c])
    ensures Lookup(p.db, KeyOf(present[c]), present[c].btime) == Lookup(m, KeyOf(present[c]), present[c].btime)
  {
    var k := KeyOf(present[c]);
    assert k !in KeysOf(present[..c]);
    assert k in p.db <==> k in m;
    assert k in p.db ==> p.db[k] == m[k];
  }

  /** One round of the first loop; p is the pass so far. */
  method PassOne(db: Database, devt: DevTStat, cur: TStat, c: nat, lastproc: nat, totusedcpu: int, ghost p: Pass)
    returns (thisproc: nat, inactive: bool)
    requires Good(db) && c < devt.taskall.Length && (cur.isproc || lastproc < c)
    requires p == devt.View(DbPass(db), c, lastproc) && NotReused(p.db, cur)
    modifies db, db.phash, db.nodes, db.presidue, devt, devt.taskall
    ensures Good(db) && fresh(db.nodes - old(db.nodes))
    ensures devt.taskall == old(devt.taskall) && devt.ntaskall == old(devt.ntaskall)
    ensures devt.View(DbPass(db), c + 1, thisproc) == Present(p, cur, totusedcpu)
    ensures inactive <==> Lookup(p.db, KeyOf(cur), cur.btime) == Some(cur)
  {
    hide Good, DbPass, NotReused, Report, Remember, Present;
    ghost var d := DbPass(db);
    var pre := RememberTask(db, cur);
    SameRemember(p, d, cur, pre);
    ghost var q := Remember(p, cur, pre);
    label L:
    thisproc := devt.ReportTask(cur, pre, c, lastproc, totusedcpu, q);
    assert unchanged@L(db, db.phash, db.nodes, db.presidue);
    PresentParts(p, cur, totusedcpu);
    inactive := pre == Some(cur);
  }

  /** The caller's entry of a present task says afterwards whether it changed. */
  function WrittenBack(m: map<Key, TStat>, cur: TStat): TStat {
    cur.(wasinactive := Lookup(m, KeyOf(cur), cur.btime) == Some(cur))
  }

  /** The first loop: the present tasks. */
  method PassPresent(db: Database, devt: DevTStat, curtpres: array<TStat>, totusedcpu: int) returns (thisproc: nat)
    requires Good(db) && Regular(DbPass(db).db, curtpres[..]) && DbPass(db).residue == DbPass(db).db.Keys
    requires devt.taskall.Length >= curtpres.Length && devt.Cleared() && curtpres != devt.taskall
    modifies db, db.phash, db.nodes, db.presidue, devt, devt.taskall, curtpres
    ensures Good(db) && fresh(db.nodes - old(db.nodes))
    ensures devt.taskall == old(devt.taskall) && devt.ntaskall == old(devt.ntaskall)
    ensures devt.View(DbPass(db), curtpres.Length, thisproc)
         == AllPresent(Begin(old(DbPass(db).db)), old(curtpres[..]), totusedcpu)
    ensures forall i | 0 <= i < curtpres.Length :: curtpres[i] == WrittenBack(old(DbPass(db).db), old(curtpres[i]))
  {
    hide Good, DbPass, AllPresent, Present, Regular, NotReused;
    ghost var m, present := DbPass(db).db, curtpres[..];
    thisproc := 0;
    NothingYet(m, totusedcpu);
    assert devt.View(DbPass(db), 0, 0) == Begin(m);
    assert present[..0] == [];
    for c := 0 to curtpres.Length
      invariant Good(db) && fresh(db.nodes - old(db.nodes))
      invariant devt.taskall == old(devt.taskall) && devt.ntaskall == old(devt.ntaskall)
      invariant devt.View(DbPass(db), c, thisproc) == AllPresent(Begin(m), present[..c], totusedcpu)
      invariant forall i | 0 <= i < curtpres.Length ::
        curtpres[i] == if i < c then WrittenBack(m, present[i]) else present[i]
    {
      NextIsRegular(m, present, c, totusedcpu);
      var cur, inactive := curtpres[c], false;
      ghost var p := AllPresent(Begin(m), present[..c], totusedcpu);
      thisproc, inactive := PassOne(db, devt, cur, c, thisproc, totusedcpu, p);
      label L:
      curtpres[c] := cur.(wasinactive := inactive);
      assert unchanged@L(db, db.phash, db.nodes, db.presidue, devt, devt.taskall);
    }
    assert present[..|present|] == present;
  }

  lemma SameRemember(p: Pass, d: Pass, cur: TStat, pre: Option<TStat>)
    requires p.db == d.db && p.residue == d.residue
    ensures Remember(p, cur, pre) == p.(db := Remember(d, cur, pre).db, residue := Remember(d, cur, pre).residue)
  {
  }

  lemma NothingYet(m: map<Key, TStat>, totusedcpu: int)
    ensures AllPresent(Begin(m), [], totusedcpu) == Begin(m)
  {
  }

  lemma PresentParts(p: Pass, cur: TStat, totusedcpu: int)
    ensures var pre := Lookup(p.db, KeyOf(cur), cur.btime);
            Present(p, cur, totusedcpu) == Report(Remember(p, cur, pre), cur, pre, totusedcpu)
  {
  }

  /** The second loop: the exit records, in the order of the accounting file. */
  method PassExits(db: Database, devt: DevTStat, curpexit: array<TStat>, pretime: int, first: nat, ghost thisproc: nat)
    returns (ghost matches: seq<Option<TStat>>)
    requires Good(db) && first + curpexit.Length <= devt.taskall.Length && curpexit != devt.taskall
    modifies db, db.phash, db.nodes, db.presidue
    modifies devt`nprocall, devt`nprocactive, devt`ntaskactive, devt.taskall, curpexit
    ensures Good(db) && db.nodes <= old(db.nodes)
    ensures |matches| == curpexit.Length
    ensures AreMatches(old(devt.View(DbPass(db), first, thisproc)), old(curpexit[..]), pretime, matches)
    ensures devt.View(DbPass(db), first + curpexit.Length, thisproc)
         == AllExited(old(devt.View(DbPass(db), first, thisproc)), old(curpexit[..]), matches)
    ensures forall i | 0 <= i < curpexit.Length :: curpexit[i] == old(curpexit[i]).(wasinactive := false)
  {
    hide Good, DbPass, AllExited, Exited, IsMatch;
    ghost var p0, exits := devt.View(DbPass(db), first, thisproc), curpexit[..];
    matches := [];
    NoneExited(p0, exits, pretime);
    assert exits[..0] == [];
    for c := 0 to curpexit.Length
      invariant Good(db) && db.nodes <= old(db.nodes)
      invariant |matches| == c && AreMatches(p0, exits[..c], pretime, matches)
      invariant devt.View(DbPass(db), first + c, thisproc) == AllExited(p0, exits[..c], matches)
      invariant forall i | 0 <= i < curpexit.Length ::
        curpexit[i] == if i < c then exits[i].(wasinactive := false) else exits[i]
    {
      var cur := curpexit[c];
      label L:
      curpexit[c] := cur.(wasinactive := false);
      assert unchanged@L(db, db.phash, db.nodes, db.presidue, devt, devt.taskall);
      ghost var p := devt.View(DbPass(db), first + c, thisproc);
      ghost var d := DbPass(db);
      var pre := ForgetTask(db, cur, pretime);
      SameDb(p, d, cur, pretime, pre);
      ghost var q := Forget(p, cur, pre);
      devt.ReportExited(cur, pre, first + c, thisproc, q);
      OneMoreExit(p0, exits, c, pretime, matches, pre);
      matches := matches + [pre];
    }
    assert exits[..|exits|] == exits;
  }

  lemma NoneExited(p: Pass, exits: seq<TStat>, pretime: int)
    ensures AreMatches(p, [], pretime, []) && AllExited(p, [], []) == p
  {
  }

  /** Matching and forgetting are about the database alone. */
  lemma SameDb(p: Pass, d: Pass, cur: TStat, pretime: int, pre: Option<TStat>)
    requires p.db == d.db && p.residue == d.residue
    ensures IsMatch(p, cur, pretime, pre) <==> IsMatch(d, cur, pretime, pre)
    ensures Forget(p, cur, pre).db == Forget(d, cur, pre).db
    ensures Forget(p, cur, pre).residue == Forget(d, cur, pre).residue
  {
  }

  lemma OneMoreExit(p: Pass, exits: seq<TStat>, c: nat, pretime: int, matches: seq<Option<TStat>>, pre: Option<TStat>)
    requires c < |exits| && |matches| == c && AreMatches(p, exits[..c], pretime, matches)
    requires IsMatch(AllExited(p, exits[..c], matches), exits[c], pretime, pre)
    ensures AreMatches(p, exits[..c + 1], pretime, matches + [pre])
    ensures AllExited(p, exits[..c + 1], matches + [pre])
         == ReportExit(Forget(AllExited(p, exits[..c], matches), exits[c], pre), exits[c], pre)
  {
    var e, m := exits[..c + 1], matches + [pre];
    assert e[..c] == exits[..c] && m[..c] == matches;
    hide IsMatch, Forget, ReportExit;
    forall i {:trigger m[i]} | 0 <= i < |e|
      ensures IsMatch(AllExited(p, e[..i], m[..i]), e[i], pretime, m[i])
    {
      assert e[..i] == exits[..c][..i] && m[..i] == matches[..i];
      if i < c { assert m[i] == matches[i]; }
    }
  }

  lemma KeyedByKey(db: Database)
    requires Good(db)
    ensures Keyed(DbPass(db).db)
  {
    ModelIsKeyed(db.nodes);
  }

  /** What should be left of database m: the present tasks that no exit record was matched with,
      each with its current sample. */
  ghost predicate SweptTo(m: map<Key, TStat>, present: seq<TStat>, matches: seq<Option<TStat>>, left: map<Key, TStat>) {
    && left.Keys == KeysOf(present) - MatchedKeys(matches)
    && (forall i | 0 <= i < |present| && KeyOf(present[i]) in left :: left[KeyOf(present[i])] == Stored(m, present[i]))
    && PositivePids(left)
  }

  lemma PassSweeps(m: map<Key, TStat>, present: seq<TStat>, exits: seq<TStat>, pretime: int, totusedcpu: int,
                   matches: seq<Option<TStat>>)
    requires Keyed(m) && Regular(m, present)
    requires PositivePids(m) && forall i | 0 <= i < |present| :: present[i].pid > 0
    requires AreMatches(AllPresent(Begin(m), present, totusedcpu), exits, pretime, matches)
    ensures SweptTo(m, present, matches, End(AllExited(AllPresent(Begin(m), present, totusedcpu), exits, matches)).db)
  {
    hide AllPresent, AllExited, IsMatch, MatchedKeys, NoReuse, DistinctKeys;
    MarkAndSweep(m, present, exits, pretime, totusedcpu, matches);
  }

  /** The deviations of a sample: the report is the one that the pass over values gives, the
      database is left with what that pass leaves, and no node is chained any more. With
      positive pids that is what mark and sweep should leave, ready for the next sample. */
  method DeviatTask(db: Database, curtpres: array<TStat>, curpexit: array<TStat>, devt: DevTStat,
                    pretime: int, totusedcpu: int) returns (ghost matches: seq<Option<TStat>>)
    requires Good(db) && Regular(DbPass(db).db, curtpres[..]) && curtpres != curpexit
    requires forall i | 0 <= i < curpexit.Length :: curpexit[i].isproc
    modifies db, db.phash, db.nodes, db.presidue, devt, curtpres, curpexit
    ensures Good(db) && db.residue == []
    ensures forall x :: x in db.nodes ==> x.prnext == null && x.prprev == null
    ensures var p := AllPresent(Begin(old(DbPass(db).db)), old(curtpres[..]), totusedcpu);
            && AreMatches(p, old(curpexit[..]), pretime, matches)
            && var q := End(AllExited(p, old(curpexit[..]), matches));
               DbPass(db).db == q.db && devt.Reports(q)
    ensures PositivePids(old(DbPass(db).db)) && (forall i | 0 <= i < curtpres.Length :: old(curtpres[i]).pid > 0) ==>
              SweptTo(old(DbPass(db).db), old(curtpres[..]), matches, DbPass(db).db)
    ensures forall i | 0 <= i < curtpres.Length :: curtpres[i] == WrittenBack(old(DbPass(db).db), old(curtpres[i]))
    ensures forall i | 0 <= i < curpexit.Length :: curpexit[i] == old(curpexit[i]).(wasinactive := false)
  {
    hide Good, DbPass, Regular, AllPresent, AllExited, PositivePids, SweptTo, Keyed, WrittenBack, IsMatch;
    hide DevTStat.View, DevTStat.Reports, NumProcs, NumActiveProcs;
    ghost var m, present, exits := DbPass(db).db, curtpres[..], curpexit[..];
    KeyedByKey(db);
    StartPass(db);
    devt.Clear(curtpres.Length + curpexit.Length);
    ghost var thisproc := PassPresent(db, devt, curtpres, totusedcpu);
    ghost var p := AllPresent(Begin(m), present, totusedcpu);
    matches := PassExits(db, devt, curpexit, pretime, curtpres.Length, thisproc);
    ghost var r := AllExited(p, exits, matches);
    ViewOfReport(devt, DbPass(db), r, thisproc);
    FinishPass(db);
    CountsHold(m, present, exits, totusedcpu, matches);
    Finish(devt, r, thisproc);
    if PositivePids(m) && forall i | 0 <= i < |present| :: present[i].pid > 0 {
      PassSweeps(m, present, exits, pretime, totusedcpu, matches);
    }
  }

  lemma ViewOfReport(devt: DevTStat, d: Pass, r: Pass, thisproc: nat)
    requires devt.ntaskall == devt.taskall.Length && devt.View(d, devt.ntaskall, thisproc) == r
    ensures devt.View(r, devt.ntaskall, thisproc) == r && r.db == d.db && r.residue == d.residue
  {
  }

  /** The lists at the end of the pass. */
  method Finish(devt: DevTStat, ghost r: Pass, ghost thisproc: nat)
    requires devt.taskall.Length == devt.ntaskall && devt.View(r, devt.ntaskall, thisproc) == r
    requires r.nprocall == NumProcs(r.all) && r.nprocactive == NumActiveProcs(r.all)
    modifies devt`procall, devt`procactive
    ensures devt.Reports(r) && devt.Reports(End(r))
  {
    assert devt.taskall[..devt.ntaskall] == devt.taskall[..];
    devt.FillLists();
  }

  method StartPass(db: Database)
    requires Good(db)
    modifies db, db.nodes, db.presidue
    ensures Good(db) && db.nodes == old(db.nodes) && DbPass(db).db == old(DbPass(db).db)
    ensures DbPass(db).residue == DbPass(db).db.Keys
  {
    hide AllChained, InBuckets, Ring, Threaded, Unique, Model, KeysIn;
    db.MakeResidue();
    AllKeys(db.nodes, db.residue);
  }

  method FinishPass(db: Database)
    requires Good(db)
    modifies db, db.phash, db.nodes, db.presidue
    ensures Good(db) && db.residue == []
    ensures DbPass(db).db == old(DbPass(db).db) - old(DbPass(db).residue)
    ensures forall x :: x in db.nodes ==> x.prnext == null && x.prprev == null
  {
    hide AllChained, InBuckets, Ring, Swept, Unique, Threaded, Model, KeysIn;
    ghost var nodes, residue := db.nodes, db.residue;
    db.CleanResidue();
    NoLinks(db);
    assert forall x :: x in nodes ==> x.tstat == old(x.tstat);
    assert old(Unique(nodes)) && Unique(nodes) && Unique(db.nodes);
    assert Swept(nodes, residue, db.nodes) && AllIn(residue, nodes);
    assert KeysIn(residue) == old(KeysIn(residue));
    ModelSwept(nodes, residue, db.nodes);
    assert Model(nodes) == old(Model(nodes));
  }

  lemma NoLinks(db: Database)
    requires db.Valid() && db.residue == []
    ensures forall x :: x in db.nodes ==> x.prnext == null && x.prprev == null
  {
  }

  lemma CountsHold(m: map<Key, TStat>, present: seq<TStat>, exits: seq<TStat>, totusedcpu: int,
                   matches: seq<Option<TStat>>)
    requires Regular(m, present) && |matches| == |exits| && forall i | 0 <= i < |exits| :: exits[i].isproc
    ensures var q := AllExited(AllPresent(Begin(m), present, totusedcpu), exits, matches);
            q.nprocall == NumProcs(q.all) && q.nprocactive == NumActiveProcs(q.all)
  {
    ActivityCounts(m, present, exits, totusedcpu, matches);
  }
}
