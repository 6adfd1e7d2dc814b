/** What the reports of consecutive passes add up to, for one task. */
module TaskReports {
  import opened Prelude
  import opened Tasks
  import opened Deviation

  datatype Counter =
    | SystemTime | UserTime | MinorFaults | MajorFaults
    | Reads | ReadSize | Writes | WriteSize | Cancelled
    | TcpSent | TcpReceived
    | Virtual | Resident

  /** The counter in a sample. */
  function Value(c: Counter, t: TStat): int {
    match c
    case SystemTime => t.stime
    case UserTime => t.utime
    case MinorFaults => t.minflt
    case MajorFaults => t.majflt
    case Reads => t.rio
    case ReadSize => t.rsz
    case Writes => t.wio
    case WriteSize => t.wsz
    case Cancelled => t.cwsz
    case TcpSent => t.tcpsnd
    case TcpReceived => t.tcprcv
    case Virtual => t.vmem
    case Resident => t.rmem
  }

  /** Its deviation in a report; the growth of memory has figures of its own. */
  function Growth(c: Counter, d: TStat): int {
    match c
    case Virtual => d.vgrow
    case Resident => d.rgrow
    case _ => Value(c, d)
  }

  /** The counters of an exit record that continue those of the samples. */
  predicate InExitRecord(c: Counter) { c.SystemTime? || c.UserTime? || c.MinorFaults? || c.MajorFaults? }

  // ------------------------------------------------------------------ one entry of a report

  /** What a pass reports of a present task. */
  function Reported(pre: Option<TStat>, cur: TStat, totusedcpu: int): TStat {
    if pre == Some(cur) then CalcDiff(cur.(wasinactive := true), cur, false, totusedcpu)
    else CalcDiff(cur.(wasinactive := false), if pre.Some? then pre.value else ZERO, pre.None?, totusedcpu)
  }

  lemma ReportedIsLast(p: Pass, cur: TStat, totusedcpu: int)
    ensures |Present(p, cur, totusedcpu).all| == |p.all| + 1
    ensures Present(p, cur, totusedcpu).all[|p.all|]
         == Reported(Lookup(p.db, KeyOf(cur), cur.btime), cur, totusedcpu)
  {
    hide CalcDiff;
  }

  /** What is known of a counter before. */
  function Had(c: Counter, pre: Option<TStat>): int { if pre.Some? then Value(c, pre.value) else 0 }

  /** A counter does not decrease, and cpu time grows by no more than all cpus used; memory may do what it likes. */
  predicate Ascends(c: Counter, had: int, cur: TStat, totusedcpu: int) {
    var growth := Value(c, cur) - had;
    (c.Virtual? || c.Resident? || 0 <= growth) && (c.SystemTime? || c.UserTime? ==> growth <= totusedcpu)
  }

  lemma ReportedGrowth(c: Counter, pre: Option<TStat>, cur: TStat, totusedcpu: int)
    requires Ascends(c, Had(c, pre), cur, totusedcpu)
    ensures Growth(c, Reported(pre, cur, totusedcpu)) == Value(c, cur) - Had(c, pre)
  {
  }

  /** What a counter shows that was had and is now value: counters of the network start over when their module is
      reloaded, memory may shrink, all others have lost the top of their 32 bits; more cpu time than was used in all is
      not believed. */
  function Shows(c: Counter, had: int, value: int, totusedcpu: int): int {
    var growth := if value < had && !c.Virtual? && !c.Resident? then value - had + 0x1_0000_0000 else value - had;
    if (c.TcpSent? || c.TcpReceived?) && value < had then value
    else if (c.SystemTime? || c.UserTime?) && totusedcpu < growth then 1
    else growth
  }

  lemma ReportedShows(c: Counter, pre: Option<TStat>, cur: TStat, totusedcpu: int)
    requires totusedcpu >= 0
    ensures Growth(c, Reported(pre, cur, totusedcpu)) == Shows(c, Had(c, pre), Value(c, cur), totusedcpu)
  {
  }

  /** A report is about its task; new ones and inactive ones are marked as such. */
  lemma ReportedMarks(pre: Option<TStat>, cur: TStat, totusedcpu: int)
    ensures var d := Reported(pre, cur, totusedcpu);
      && KeyOf(d) == KeyOf(cur) && d.tgid == cur.tgid && d.name == cur.name && d.container == cur.container
      && d.ruid == cur.ruid && d.rgid == cur.rgid && d.state == cur.state && d.btime == cur.btime
      && d.nthr == cur.nthr && d.nthrrun == cur.nthrrun && d.nthrslpi == cur.nthrslpi && d.nthrslpu == cur.nthrslpu
      && d.cmdline == cur.cmdline && d.vmem == cur.vmem && d.rmem == cur.rmem && d.pmem == cur.pmem
      && (d.wasinactive <==> pre == Some(cur))
      && (pre.Some? || cur.excode < 0 ==> d.excode == cur.excode)
      && (pre.None? && cur.excode >= 0 ==> d.excode == cur.excode - 0x8000_0000)
      && (0 <= cur.excode < 0x8000_0000 ==> (d.excode < 0 <==> pre == None))
  {
  }

  /** No report shows more cpu than was used at all (but a tick), or a negative number of packets. */
  lemma ReportedSane(pre: Option<TStat>, cur: TStat, totusedcpu: int)
    requires totusedcpu >= 0 && cur.tcpsnd >= 0 && cur.tcprcv >= 0
    ensures var d := Reported(pre, cur, totusedcpu);
      && (d.stime <= totusedcpu || d.stime == 1) && (d.utime <= totusedcpu || d.utime == 1)
      && d.tcpsnd >= 0 && d.tcprcv >= 0
  {
  }

  /** An entry may be marked active later in the pass, and nothing else happens to it. */
  predicate SameFigures(a: TStat, b: TStat) { a == b.(wasinactive := a.wasinactive) }

  lemma SameGrowth(c: Counter, a: TStat, b: TStat)
    requires SameFigures(a, b)
    ensures Growth(c, a) == Growth(c, b)
  {
  }

  lemma LaterTaskKeeps(p: Pass, cur: TStat, totusedcpu: int, i: nat)
    requires i < |p.all|
    ensures |Present(p, cur, totusedcpu).all| == |p.all| + 1
    ensures SameFigures(Present(p, cur, totusedcpu).all[i], p.all[i])
  {
    hide CalcDiff;
  }

  lemma SameForBoth(a: TStat, b: TStat, c: TStat)
    requires SameFigures(a, b) && SameFigures(b, c)
    ensures SameFigures(a, c)
  {
  }

  lemma SameAsItself(a: TStat)
    ensures SameFigures(a, a)
  {
  }

  /** The entry of each present task is its deviation from what the database held at the start. */
  lemma {:induction false} EntryOfPresent(db: map<Key, TStat>, present: seq<TStat>, totusedcpu: int, i: nat)
    requires DistinctKeys(present) && NoReuse(db, present) && i <= |present|
    ensures var all := AllPresent(Begin(db), present, totusedcpu).all;
      && |all| == |present|
      && (i < |present| ==>
            SameFigures(all[i], Reported(Lookup(db, KeyOf(present[i]), present[i].btime), present[i], totusedcpu)))
    decreases |present|
  {
    hide Present, SameFigures, Reported, NoReuse, Lookup;
    if |present| > 0 {
      var n := |present| - 1;
      var s, cur := present[..n], present[n];
      var p := AllPresent(Begin(db), s, totusedcpu);
      StillNoReuse(db, present, n);
      EntryOfPresent(db, s, totusedcpu, if i < n then i else n);
      ReportedIsLast(p, cur, totusedcpu);
      if i < n {
        LaterTaskKeeps(p, cur, totusedcpu, i);
        SameForBoth(Present(p, cur, totusedcpu).all[i], p.all[i],
                    Reported(Lookup(db, KeyOf(s[i]), s[i].btime), s[i], totusedcpu));
      } else {
        Mark(db, s, totusedcpu);
        NotYetMarked(db, s, cur, p);
        SameAsItself(Reported(Lookup(db, KeyOf(cur), cur.btime), cur, totusedcpu));
      }
    }
  }

  lemma StillNoReuse(db: map<Key, TStat>, present: seq<TStat>, n: nat)
    requires NoReuse(db, present) && n <= |present|
    ensures NoReuse(db, present[..n])
  {
    forall i | 0 <= i < n && KeyOf(present[..n][i]) in db
      ensures Lookup(db, KeyOf(present[..n][i]), present[..n][i].btime).Some?
    {
      assert present[..n][i] == present[i];
    }
  }

  /** The entry of an exited process is its deviation from the figures it was matched with. */
  function ReportedExit(exit: TStat, m: Option<TStat>): TStat {
    ExitDiff(exit.(wasinactive := false), if m.Some? then m.value else ZERO)
  }

  lemma ExitIsLast(p: Pass, exit: TStat, m: Option<TStat>)
    ensures Exited(p, exit, m).all == p.all + [ReportedExit(exit, m)]
  {
    hide ExitDiff;
  }

  lemma {:induction false} EntriesOfExits(p: Pass, exits: seq<TStat>, matches: seq<Option<TStat>>)
    requires |exits| == |matches|
    ensures var all := AllExited(p, exits, matches).all;
      && |all| == |p.all| + |exits| && all[..|p.all|] == p.all
      && forall j :: 0 <= j < |exits| ==> all[|p.all| + j] == ReportedExit(exits[j], matches[j])
    decreases |exits|
  {
    hide Exited, ReportedExit;
    if |exits| > 0 {
      var n := |exits| - 1;
      EntriesOfExits(p, exits[..n], matches[..n]);
      ExitIsLast(AllExited(p, exits[..n], matches[..n]), exits[n], matches[n]);
    }
  }

  // ------------------------------------------------------------------ rounds

  /** What one sample brings, with the matches that the pass finds for its exit records. */
  datatype Round = Round(present: seq<TStat>, exits: seq<TStat>, matches: seq<Option<TStat>>,
                         pretime: int, usedcpu: int)

  ghost predicate IsDatabase(db: map<Key, TStat>) { Keyed(db) && PositivePids(db) }

  ghost predicate IsRound(db: map<Key, TStat>, r: Round) {
    && DistinctKeys(r.present) && NoReuse(db, r.present) && (forall i | 0 <= i < |r.present| :: r.present[i].pid > 0)
    && |r.exits| == |r.matches|
    && AreMatches(AllPresent(Begin(db), r.present, r.usedcpu), r.exits, r.pretime, r.matches)
  }

  /** The report of the round, and the database it leaves. */
  function Result(db: map<Key, TStat>, r: Round): Pass {
    if |r.exits| == |r.matches| then Outcome(db, r.present, r.exits, r.usedcpu, r.matches) else Begin(db)
  }

  /** Each round starts from the database that the round before left. */
  ghost predicate AreRounds(db: map<Key, TStat>, rounds: seq<Round>)
    decreases |rounds|
  {
    |rounds| == 0 || (IsRound(db, rounds[0]) && AreRounds(Result(db, rounds[0]).db, rounds[1..]))
  }

  function LeftBy(db: map<Key, TStat>, rounds: seq<Round>): map<Key, TStat>
    decreases |rounds|
  {
    if |rounds| == 0 then db else LeftBy(Result(db, rounds[0]).db, rounds[1..])
  }

  /** The place of a task in a list. */
  ghost function Place(s: seq<TStat>, k: Key): (i: nat)
    requires k in KeysOf(s)
    ensures i < |s| && KeyOf(s[i]) == k
  {
    var i :| 0 <= i < |s| && KeyOf(s[i]) == k; i
  }

  /** The task is present in the round, and no exit record is matched with it. */
  ghost predicate Stays(r: Round, k: Key) { k in KeysOf(r.present) && k !in MatchedKeys(r.matches) }

  ghost function Sample(r: Round, k: Key): TStat
    requires k in KeysOf(r.present)
  {
    r.present[Place(r.present, k)]
  }

  /** Entry i of a report. */
  ghost function Entry(db: map<Key, TStat>, r: Round, i: nat): TStat {
    var all := Result(db, r).all;
    if i < |all| then all[i] else ZERO
  }

  /** What the report of the round shows of a counter of the task, while it is present. */
  ghost function GrowthIn(c: Counter, db: map<Key, TStat>, r: Round, k: Key): int {
    if k in KeysOf(r.present) then Growth(c, Entry(db, r, Place(r.present, k))) else 0
  }

  ghost function TotalGrowth(c: Counter, db: map<Key, TStat>, rounds: seq<Round>, k: Key): int
    decreases |rounds|
  {
    if |rounds| == 0 then 0
    else GrowthIn(c, db, rounds[0], k) + TotalGrowth(c, Result(db, rounds[0]).db, rounds[1..], k)
  }

  /** The counter ascends from round to round. */
  ghost predicate AscendsOver(c: Counter, had: int, rounds: seq<Round>, k: Key)
    decreases |rounds|
  {
    |rounds| == 0 || (
      && k in KeysOf(rounds[0].present)
      && Ascends(c, had, Sample(rounds[0], k), rounds[0].usedcpu)
      && AscendsOver(c, Value(c, Sample(rounds[0], k)), rounds[1..], k))
  }

  function Known(db: map<Key, TStat>, k: Key): Option<TStat> { if k in db then Some(db[k]) else None }

  lemma KnownIsFound(db: map<Key, TStat>, present: seq<TStat>, i: nat)
    requires NoReuse(db, present) && i < |present|
    ensures Lookup(db, KeyOf(present[i]), present[i].btime) == Known(db, KeyOf(present[i]))
  {
  }

  lemma EntryIsReported(db: map<Key, TStat>, r: Round, i: nat)
    requires IsRound(db, r) && i < |r.present|
    ensures SameFigures(Entry(db, r, i), Reported(Known(db, KeyOf(r.present[i])), r.present[i], r.usedcpu))
  {
    hide SameFigures, Reported, AllPresent, AllExited, AreMatches, NoReuse, Lookup, Known;
    EntryOfPresent(db, r.present, r.usedcpu, i);
    var p := AllPresent(Begin(db), r.present, r.usedcpu);
    EntriesOfExits(p, r.exits, r.matches);
    assert Result(db, r).all[i] == Result(db, r).all[..|p.all|][i];
    KnownIsFound(db, r.present, i);
  }

  /** One round shows the growth of the task since the figures that the database held. */
  lemma RoundReports(c: Counter, db: map<Key, TStat>, r: Round, k: Key)
    requires IsRound(db, r) && k in KeysOf(r.present)
    requires Ascends(c, Had(c, Known(db, k)), Sample(r, k), r.usedcpu)
    ensures GrowthIn(c, db, r, k) == Value(c, Sample(r, k)) - Had(c, Known(db, k))
  {
    hide Growth, Value, Had, Reported, SameFigures, Ascends, IsRound, Entry, KeysOf;
    var i := Place(r.present, k);
    EntryIsReported(db, r, i);
    SameGrowth(c, Entry(db, r, i), Reported(Known(db, k), r.present[i], r.usedcpu));
    ReportedGrowth(c, Known(db, k), r.present[i], r.usedcpu);
  }

  /** Every figure of an entry, for any values of the counters. */
  lemma EntryShows(c: Counter, db: map<Key, TStat>, r: Round, i: nat)
    requires IsRound(db, r) && i < |r.present| && r.usedcpu >= 0
    ensures var cur := r.present[i];
      Growth(c, Entry(db, r, i)) == Shows(c, Had(c, Known(db, KeyOf(cur))), Value(c, cur), r.usedcpu)
  {
    hide Growth, Value, Had, Reported, SameFigures, IsRound, Entry, Shows;
    EntryIsReported(db, r, i);
    SameGrowth(c, Entry(db, r, i), Reported(Known(db, KeyOf(r.present[i])), r.present[i], r.usedcpu));
    ReportedShows(c, Known(db, KeyOf(r.present[i])), r.present[i], r.usedcpu);
  }

  /** Entry i of the report of a round is about present task i; it is marked new if and only if the
      database did not know the task, and shows no more cpu than was used in all (but a tick). */
  lemma EntryIsAbout(db: map<Key, TStat>, r: Round, i: nat)
    requires IsRound(db, r) && i < |r.present| && r.usedcpu >= 0 && r.present[i].tcpsnd >= 0 && r.present[i].tcprcv >= 0
    ensures var d, cur := Entry(db, r, i), r.present[i];
      && KeyOf(d) == KeyOf(cur) && d.tgid == cur.tgid && d.name == cur.name && d.container == cur.container
      && d.ruid == cur.ruid && d.rgid == cur.rgid && d.state == cur.state && d.btime == cur.btime
      && d.nthr == cur.nthr && d.nthrrun == cur.nthrrun && d.nthrslpi == cur.nthrslpi && d.nthrslpu == cur.nthrslpu
      && d.cmdline == cur.cmdline && d.vmem == cur.vmem && d.rmem == cur.rmem && d.pmem == cur.pmem
      && (0 <= cur.excode < 0x8000_0000 ==> (d.excode < 0 <==> KeyOf(cur) !in db))
      && d.excode == (if KeyOf(cur) in db || cur.excode < 0 then cur.excode else cur.excode - 0x8000_0000)
      && (d.stime <= r.usedcpu || d.stime == 1) && (d.utime <= r.usedcpu || d.utime == 1)
      && d.tcpsnd >= 0 && d.tcprcv >= 0
  {
    hide Reported, IsRound, Result;
    EntryIsReported(db, r, i);
    ReportedMarks(Known(db, KeyOf(r.present[i])), r.present[i], r.usedcpu);
    ReportedSane(Known(db, KeyOf(r.present[i])), r.present[i], r.usedcpu);
  }

  /** A round leaves a database, with the sample of the task as it is stored if the task stays. */
  lemma RoundLeaves(db: map<Key, TStat>, r: Round, k: Key)
    requires IsDatabase(db) && IsRound(db, r)
    ensures IsDatabase(Result(db, r).db)
    ensures Stays(r, k) ==> k in Result(db, r).db && Result(db, r).db[k] == Stored(db, Sample(r, k))
  {
    hide AllPresent, AllExited, AreMatches, MatchedKeys, NoReuse, DistinctKeys, Stored;
    MarkAndSweep(db, r.present, r.exits, r.pretime, r.usedcpu, r.matches);
    var left := Result(db, r).db;
    forall l | l in left
      ensures KeyOf(left[l]) == l && l.0 > 0
    {
      var i :| 0 <= i < |r.present| && KeyOf(r.present[i]) == l;
      assert left[l] == Stored(db, r.present[i]);
      StoredKey(db, r.present[i]);
    }
  }

  lemma StoredKey(db: map<Key, TStat>, cur: TStat)
    ensures KeyOf(Stored(db, cur)) == KeyOf(cur)
    ensures forall c :: Value(c, Stored(db, cur)) == Value(c, cur)
  {
  }

  /** What is known of the counter after the rounds. */
  ghost function LastValue(c: Counter, had: int, rounds: seq<Round>, k: Key): int
  {
    if |rounds| > 0 && k in KeysOf(rounds[|rounds| - 1].present) then Value(c, Sample(rounds[|rounds| - 1], k)) else had
  }

  ghost predicate StaysOver(rounds: seq<Round>, k: Key) { forall i | 0 <= i < |rounds| :: Stays(rounds[i], k) }

  /** The reports of any number of rounds add up to the growth of the counter, from what the
      first database held of the task to its last sample, which is what the last one holds. */
  lemma {:induction false} ReportsAddUp(c: Counter, db: map<Key, TStat>, rounds: seq<Round>, k: Key)
    requires IsDatabase(db) && AreRounds(db, rounds) && StaysOver(rounds, k)
    requires AscendsOver(c, Had(c, Known(db, k)), rounds, k)
    ensures IsDatabase(LeftBy(db, rounds))
    ensures var last := LastValue(c, Had(c, Known(db, k)), rounds, k);
      && TotalGrowth(c, db, rounds, k) == last - Had(c, Known(db, k))
      && Had(c, Known(LeftBy(db, rounds), k)) == last
    decreases |rounds|
  {
    hide Ascends, Value, IsDatabase, IsRound, Result, GrowthIn, Stored, KeysOf, MatchedKeys, Sample;
    if |rounds| > 0 {
      var r := rounds[0];
      var next := Result(db, r).db;
      assert Stays(r, k);
      RoundReports(c, db, r, k);
      RoundLeaves(db, r, k);
      StoredKey(db, Sample(r, k));
      ReportsAddUp(c, next, rounds[1..], k);
    }
  }

  /** Every tick, fault, transfer and growth of a task that was not known at first is reported
      exactly once: the reports add up to its last sample. */
  lemma ReportedOnce(c: Counter, db: map<Key, TStat>, rounds: seq<Round>, k: Key)
    requires IsDatabase(db) && k !in db && AreRounds(db, rounds) && StaysOver(rounds, k)
    requires AscendsOver(c, 0, rounds, k)
    ensures TotalGrowth(c, db, rounds, k) == LastValue(c, 0, rounds, k)
  {
    hide AscendsOver, AreRounds, TotalGrowth, LeftBy, IsDatabase;
    ReportsAddUp(c, db, rounds, k);
  }

  // ------------------------------------------------------------------ the end of a task

  /** The database when an exit record comes: the present tasks, and fewer than the residue. */
  lemma MatchedIsHeld(db: map<Key, TStat>, r: Round, j: nat)
    requires IsDatabase(db) && IsRound(db, r) && j < |r.exits| && r.matches[j].Some?
    ensures var p, t := AllPresent(Begin(db), r.present, r.usedcpu), r.matches[j].value;
      KeyOf(t) in p.db && p.db[KeyOf(t)] == t
  {
    hide AllPresent, AllExited, IsMatch, MatchedKeys;
    var p, t := AllPresent(Begin(db), r.present, r.usedcpu), r.matches[j].value;
    Mark(db, r.present, r.usedcpu);
    MarkedIsDatabase(db, r.present, p);
    MatchesBefore(p, r.exits, r.pretime, r.matches, j);
    Match(p, r.exits[..j], r.pretime, r.matches[..j]);
    var q := AllExited(p, r.exits[..j], r.matches[..j]);
    MatchIsHeld(q, r.exits[j], r.pretime, t);
  }

  /** With its pid an exit record means the task of that pid; without, a task of the same user, group and name that was
      known before the interval and is not present any more. Either started within a second of it. */
  lemma MatchIsThatTask(db: map<Key, TStat>, r: Round, j: nat)
    requires IsDatabase(db) && IsRound(db, r) && j < |r.exits| && r.matches[j].Some?
    ensures var t, exit := r.matches[j].value, r.exits[j];
      && -1 <= t.btime - exit.btime <= 1
      && (exit.pid != 0 ==> KeyOf(t) == (exit.pid, true))
      && (exit.pid == 0 ==>
            && t.ruid == exit.ruid && t.rgid == exit.rgid && t.name == exit.name && exit.btime <= r.pretime
            && KeyOf(t) in db && db[KeyOf(t)] == t && KeyOf(t) !in KeysOf(r.present))
  {
    hide AllPresent, AllExited, IsMatch, MatchedKeys;
    var p, t := AllPresent(Begin(db), r.present, r.usedcpu), r.matches[j].value;
    Mark(db, r.present, r.usedcpu);
    MarkedIsDatabase(db, r.present, p);
    MatchesBefore(p, r.exits, r.pretime, r.matches, j);
    Match(p, r.exits[..j], r.pretime, r.matches[..j]);
    MatchIsThat(AllExited(p, r.exits[..j], r.matches[..j]), r.exits[j], r.pretime, t);
  }

  lemma MatchIsThat(q: Pass, exit: TStat, pretime: int, t: TStat)
    requires Keyed(q.db) && IsMatch(q, exit, pretime, Some(t))
    ensures -1 <= t.btime - exit.btime <= 1 && KeyOf(t) in q.db && q.db[KeyOf(t)] == t
    ensures exit.pid != 0 ==> KeyOf(t) == (exit.pid, true)
    ensures exit.pid == 0 ==>
      && t.ruid == exit.ruid && t.rgid == exit.rgid && t.name == exit.name && exit.btime <= pretime
      && KeyOf(t) in q.residue
  {
  }

  lemma MarkedIsDatabase(db: map<Key, TStat>, present: seq<TStat>, p: Pass)
    requires IsDatabase(db) && MarkInv(db, present, p) && forall i | 0 <= i < |present| :: present[i].pid > 0
    ensures IsDatabase(p.db)
  {
    hide Stored;
    forall k | k in p.db
      ensures KeyOf(p.db[k]) == k && k.0 > 0
    {
      if k in KeysOf(present) {
        var i :| 0 <= i < |present| && KeyOf(present[i]) == k;
        StoredKey(db, present[i]);
      }
    }
  }

  lemma MatchesBefore(p: Pass, exits: seq<TStat>, pretime: int, matches: seq<Option<TStat>>, j: nat)
    requires AreMatches(p, exits, pretime, matches) && j < |exits|
    ensures AreMatches(p, exits[..j], pretime, matches[..j])
    ensures IsMatch(AllExited(p, exits[..j], matches[..j]), exits[j], pretime, matches[j])
  {
    hide IsMatch, AllExited;
    forall i {:trigger matches[..j][i]} | 0 <= i < j
      ensures IsMatch(AllExited(p, exits[..j][..i], matches[..j][..i]), exits[..j][i], pretime, matches[..j][i])
    {
      assert exits[..j][..i] == exits[..i] && matches[..j][..i] == matches[..i];
      assert matches[..j][i] == matches[i];
    }
  }

  lemma MatchIsHeld(q: Pass, exit: TStat, pretime: int, t: TStat)
    requires Keyed(q.db) && IsMatch(q, exit, pretime, Some(t))
    ensures KeyOf(t) in q.db && q.db[KeyOf(t)] == t
  {
  }

  /** What is known of the counter when the exit record comes: the last sample, of this round if the task was still
      present. */
  ghost function ValueAtExit(c: Counter, rounds: seq<Round>, r: Round, k: Key): int {
    if k in KeysOf(r.present) then Value(c, Sample(r, k)) else LastValue(c, 0, rounds, k)
  }

  ghost predicate AscendsToExit(c: Counter, rounds: seq<Round>, r: Round, k: Key) {
    && AscendsOver(c, 0, rounds, k)
    && (k in KeysOf(r.present) ==> Ascends(c, LastValue(c, 0, rounds, k), Sample(r, k), r.usedcpu))
  }

  /** The rounds of a task, and the one in which exit record j is matched with it. */
  ghost predicate EndsIn(db: map<Key, TStat>, rounds: seq<Round>, r: Round, j: nat, k: Key) {
    && IsDatabase(db) && k !in db && AreRounds(db, rounds) && StaysOver(rounds, k)
    && IsRound(LeftBy(db, rounds), r)
    && j < |r.exits| == |r.matches| && r.matches[j].Some? && KeyOf(r.matches[j].value) == k
  }

  /** Up to the exit record the reports have shown what its match holds. */
  lemma ReportedUpToExit(c: Counter, db: map<Key, TStat>, rounds: seq<Round>, r: Round, j: nat, k: Key)
    requires EndsIn(db, rounds, r, j, k) && AscendsToExit(c, rounds, r, k)
    ensures var total := TotalGrowth(c, db, rounds, k) + GrowthIn(c, LeftBy(db, rounds), r, k);
      total == ValueAtExit(c, rounds, r, k) == Value(c, r.matches[j].value)
  {
    hide AscendsOver, AreRounds, TotalGrowth, LeftBy, IsDatabase, IsRound, Value, Ascends, StaysOver, Sample, LastValue;
    var left := LeftBy(db, rounds);
    ReportsAddUp(c, db, rounds, k);
    MatchedValue(c, left, r, j, k);
    if k in KeysOf(r.present) {
      RoundReports(c, left, r, k);
    } else {
      NotShown(c, left, r, k);
    }
  }

  lemma NotShown(c: Counter, db: map<Key, TStat>, r: Round, k: Key)
    requires k !in KeysOf(r.present)
    ensures GrowthIn(c, db, r, k) == 0
  {
  }

  /** The match holds the sample of this round, or what the database held before. */
  lemma MatchedValue(c: Counter, db: map<Key, TStat>, r: Round, j: nat, k: Key)
    requires IsDatabase(db) && IsRound(db, r)
    requires j < |r.exits| && r.matches[j].Some? && KeyOf(r.matches[j].value) == k
    ensures Value(c, r.matches[j].value) ==
            if k in KeysOf(r.present) then Value(c, Sample(r, k)) else Had(c, Known(db, k))
  {
    hide AllPresent, AreMatches, NoReuse, DistinctKeys, Value, Stored;
    MatchedIsHeld(db, r, j);
    Mark(db, r.present, r.usedcpu);
    if k in KeysOf(r.present) { StoredKey(db, Sample(r, k)); }
  }

  /** The entry of exit record j. */
  ghost function ExitEntry(db: map<Key, TStat>, r: Round, j: nat): TStat { Entry(db, r, |r.present| + j) }

  lemma ExitIsReported(db: map<Key, TStat>, r: Round, j: nat)
    requires IsRound(db, r) && j < |r.exits|
    ensures ExitEntry(db, r, j) == ReportedExit(r.exits[j], r.matches[j])
  {
    hide ReportedExit, AllPresent, AllExited, AreMatches, Reported;
    EntryOfPresent(db, r.present, r.usedcpu, |r.present|);
    EntriesOfExits(AllPresent(Begin(db), r.present, r.usedcpu), r.exits, r.matches);
  }

  lemma ExitMarks(exit: TStat, m: Option<TStat>)
    ensures var d := ReportedExit(exit, m);
      && d.tgid == exit.tgid && d.isproc == exit.isproc && d.ruid == exit.ruid && d.rgid == exit.rgid
      && d.name == exit.name && d.container == exit.container && d.state == exit.state && d.btime == exit.btime
      && d.nthr == exit.nthr && d.nthrrun == exit.nthrrun
      && d.nthrslpi == exit.nthrslpi && d.nthrslpu == exit.nthrslpu
      && d.pid == (if exit.pid != 0 then exit.pid else if m.Some? then m.value.pid else 0)
      && d.cmdline == (if m.Some? then m.value.cmdline else "")
      && d.excode == (if (m.Some? && m.value.pid != 0) || exit.excode < 0 then exit.excode
                      else exit.excode - 0x8000_0000)
      && !d.wasinactive
      && d.vmem == d.rmem == d.pmem == d.vgrow == d.rgrow == 0
      && d.rsz == d.wio == d.wsz == d.cwsz == d.tcpsnd == d.tcprcv == 0
  {
  }

  /** The entry of exit record j is about the process of that record; what the record does not have, its pid and its
      command line, comes from the match. It is marked new if and only if no task was matched, and shows no figures but
      those that an exit record continues. */
  lemma ExitEntryIsAbout(db: map<Key, TStat>, r: Round, j: nat)
    requires IsDatabase(db) && IsRound(db, r) && j < |r.exits|
    ensures var d, exit, m := ExitEntry(db, r, j), r.exits[j], r.matches[j];
      && d.tgid == exit.tgid && d.isproc == exit.isproc && d.ruid == exit.ruid && d.rgid == exit.rgid
      && d.name == exit.name && d.container == exit.container && d.state == exit.state && d.btime == exit.btime
      && d.nthr == exit.nthr && d.nthrrun == exit.nthrrun
      && d.nthrslpi == exit.nthrslpi && d.nthrslpu == exit.nthrslpu
      && d.pid == (if exit.pid != 0 then exit.pid else if m.Some? then m.value.pid else 0)
      && d.cmdline == (if m.Some? then m.value.cmdline else "")
      && (0 <= exit.excode < 0x8000_0000 ==> (d.excode < 0 <==> m == None))
      && d.excode == (if m.Some? || exit.excode < 0 then exit.excode else exit.excode - 0x8000_0000)
      && !d.wasinactive
      && d.vmem == d.rmem == d.pmem == d.vgrow == d.rgrow == 0
      && d.rsz == d.wio == d.wsz == d.cwsz == d.tcpsnd == d.tcprcv == 0
  {
    hide ReportedExit, AllPresent, AllExited, AreMatches, NoReuse, DistinctKeys, Stored, ExitEntry;
    ExitIsReported(db, r, j);
    ExitMarks(r.exits[j], r.matches[j]);
    if r.matches[j].Some? { MatchedPid(db, r, j); }
  }

  /** A match has a pid. */
  lemma MatchedPid(db: map<Key, TStat>, r: Round, j: nat)
    requires IsDatabase(db) && IsRound(db, r) && j < |r.exits| && r.matches[j].Some?
    ensures r.matches[j].value.pid > 0
  {
    hide AllPresent, AllExited, AreMatches, NoReuse, DistinctKeys, Stored;
    MatchedIsHeld(db, r, j);
    Mark(db, r.present, r.usedcpu);
    MarkedIsDatabase(db, r.present, AllPresent(Begin(db), r.present, r.usedcpu));
  }

  lemma ExitGrowth(c: Counter, exit: TStat, t: TStat)
    requires InExitRecord(c)
    ensures Growth(c, ReportedExit(exit, Some(t))) ==
            if Value(c, exit) > Value(c, t) then Value(c, exit) - Value(c, t) else 0
  {
  }

  /** With the entry of its exit record, all reports of a task add up to what the record says, or
      to its last sample if that saw more. */
  lemma ReportedToTheEnd(c: Counter, db: map<Key, TStat>, rounds: seq<Round>, r: Round, j: nat, k: Key)
    requires EndsIn(db, rounds, r, j, k) && AscendsToExit(c, rounds, r, k) && InExitRecord(c)
    ensures var left, last := LeftBy(db, rounds), ValueAtExit(c, rounds, r, k);
      TotalGrowth(c, db, rounds, k) + GrowthIn(c, left, r, k) + Growth(c, ExitEntry(left, r, j)) ==
      if Value(c, r.exits[j]) > last then Value(c, r.exits[j]) else last
  {
    hide AscendsOver, AreRounds, TotalGrowth, GrowthIn, IsDatabase, IsRound, Value, Growth, ExitEntry, ValueAtExit;
    hide AscendsToExit, ReportedExit, LeftBy, StaysOver;
    ReportedUpToExit(c, db, rounds, r, j, k);
    ExitIsReported(LeftBy(db, rounds), r, j);
    ExitGrowth(c, r.exits[j], r.matches[j].value);
  }

  lemma ExitTransfers(exit: TStat, t: TStat)
    ensures ReportedExit(exit, Some(t)).rio == if exit.rio > t.rio + t.wio then exit.rio - t.rio - t.wio else 0
  {
  }

  /** The exit record does not tell reads from writes: their number is continued as one. */
  lemma TransfersToTheEnd(db: map<Key, TStat>, rounds: seq<Round>, r: Round, j: nat, k: Key)
    requires EndsIn(db, rounds, r, j, k) && AscendsToExit(Reads, rounds, r, k) && AscendsToExit(Writes, rounds, r, k)
    ensures var left := LeftBy(db, rounds);
      var last := ValueAtExit(Reads, rounds, r, k) + ValueAtExit(Writes, rounds, r, k);
      TotalGrowth(Reads, db, rounds, k) + GrowthIn(Reads, left, r, k)
      + TotalGrowth(Writes, db, rounds, k) + GrowthIn(Writes, left, r, k) + ExitEntry(left, r, j).rio ==
      if r.exits[j].rio > last then r.exits[j].rio else last
  {
    hide AscendsOver, AreRounds, TotalGrowth, GrowthIn, IsDatabase, IsRound, ExitEntry, ValueAtExit;
    hide AscendsToExit, ReportedExit, LeftBy, StaysOver;
    ReportedUpToExit(Reads, db, rounds, r, j, k);
    ReportedUpToExit(Writes, db, rounds, r, j, k);
    ExitIsReported(LeftBy(db, rounds), r, j);
    ExitTransfers(r.exits[j], r.matches[j].value);
  }
}
