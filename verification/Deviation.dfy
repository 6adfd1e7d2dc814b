/**
 The deviation pass as a function of values: what one sample does to the database of the
 previous one, and what it reports. The imperative pass in DeviateTasks is proved to
 compute this function.
 */
module Deviation {
  import opened Prelude
  import opened Tasks

  // ------------------------------------------------------------------ differences

  const MAX32BITVAL: int := 0x1_0000_0000

  /** A difference of counters, of which the kernel may keep only 32 bits. */
  function SubCount(newval: int, oldval: int): int {
    if newval >= oldval then newval - oldval else MAX32BITVAL + newval - oldval
  }

  /** Network counters restart when the module that counts them is reloaded. */
  function NetCount(newval: int, oldval: int): int {
    if newval >= oldval then SubCount(newval, oldval) else newval
  }

  /** excode |= ~(INT_MAX): the sign bit marks a task that started in this interval. */
  function MarkNew(excode: int): int { if excode >= 0 then excode - 0x8000_0000 else excode }

  function Sane(used: int, totusedcpu: int): int { if used > totusedcpu then 1 else used }

  /** The deviation of a present task. */
  function CalcDiff(cur: TStat, pre: TStat, newtask: bool, totusedcpu: int): TStat {
    var d := cur.(excode := if newtask then MarkNew(cur.excode) else cur.excode);
    if cur.wasinactive then
      d.(stime := 0, utime := 0, minflt := 0, majflt := 0, vgrow := 0, rgrow := 0,
         rio := 0, rsz := 0, wio := 0, wsz := 0, cwsz := 0, tcpsnd := 0, tcprcv := 0)
    else
      d.(stime := Sane(SubCount(cur.stime, pre.stime), totusedcpu),
         utime := Sane(SubCount(cur.utime, pre.utime), totusedcpu),
         minflt := SubCount(cur.minflt, pre.minflt), majflt := SubCount(cur.majflt, pre.majflt),
         vgrow := cur.vmem - pre.vmem, rgrow := cur.rmem - pre.rmem,
         rio := SubCount(cur.rio, pre.rio), rsz := SubCount(cur.rsz, pre.rsz),
         wio := SubCount(cur.wio, pre.wio), wsz := SubCount(cur.wsz, pre.wsz),
         cwsz := SubCount(cur.cwsz, pre.cwsz),
         tcpsnd := NetCount(cur.tcpsnd, pre.tcpsnd), tcprcv := NetCount(cur.tcprcv, pre.tcprcv))
  }

  function Over(newval: int, oldval: int): int { if newval > oldval then newval - oldval else 0 }

  /** The deviation of an exited process; exit records are less precise than samples. */
  function ExitDiff(cur: TStat, pre: TStat): TStat {
    ZERO.(tgid := cur.tgid, pid := if cur.pid == 0 then pre.pid else cur.pid, isproc := cur.isproc,
          ruid := cur.ruid, rgid := cur.rgid, name := cur.name, container := cur.container, state := cur.state,
          excode := if pre.pid == 0 then MarkNew(cur.excode) else cur.excode,
          btime := cur.btime, cmdline := pre.cmdline, nthr := cur.nthr,
          nthrrun := cur.nthrrun, nthrslpi := cur.nthrslpi, nthrslpu := cur.nthrslpu,
          stime := Over(cur.stime, pre.stime), utime := Over(cur.utime, pre.utime),
          minflt := Over(cur.minflt, pre.minflt), majflt := Over(cur.majflt, pre.majflt),
          rio := Over(cur.rio, pre.rio + pre.wio))
  }

  // ------------------------------------------------------------------ the pass

  /** db and residue are the database by key; all is the reported list; thisproc is the
      place of the last process in it. */
  datatype Pass = Pass(db: map<Key, TStat>, residue: set<Key>, all: seq<TStat>, thisproc: nat,
                       nprocall: nat, nprocactive: nat, ntaskactive: nat,
                       totrun: int, totslpi: int, totslpu: int, totzombie: int)

  function Begin(db: map<Key, TStat>): Pass {
    Pass(db, db.Keys, [], 0, 0, 0, 0, 0, 0, 0, 0)
  }

  /** The previous figures of a task, with a start time that differs by at most a second. */
  function Lookup(db: map<Key, TStat>, k: Key, btime: int): Option<TStat> {
    if k in db && -1 <= db[k].btime - btime <= 1 then Some(db[k]) else None
  }

  /** Every process counts, by its state. */
  function CountProc(p: Pass, cur: TStat): Pass {
    if !cur.isproc then p
    else
      var q := p.(thisproc := |p.all|, nprocall := p.nprocall + 1);
      if cur.state == 'Z' then q.(totzombie := p.totzombie + 1)
      else q.(totrun := p.totrun + cur.nthrrun, totslpi := p.totslpi + cur.nthrslpi,
              totslpu := p.totslpu + cur.nthrslpu)
  }

  /** An active task counts; an active thread makes its process active as well. */
  function CountActive(p: Pass, isproc: bool): Pass {
    if isproc then p.(ntaskactive := p.ntaskactive + 1, nprocactive := p.nprocactive + 1)
    else if p.thisproc < |p.all| && p.all[p.thisproc].wasinactive then
      p.(all := p.all[p.thisproc := p.all[p.thisproc].(wasinactive := false)],
         ntaskactive := p.ntaskactive + 2, nprocactive := p.nprocactive + 1)
    else p.(ntaskactive := p.ntaskactive + 1)
  }

  /** The database keeps the current figures of a task it knew, and those of a new one. */
  function Remember(p: Pass, cur: TStat, pre: Option<TStat>): Pass {
    if pre.Some? then p.(db := p.db[KeyOf(cur) := cur], residue := p.residue - {KeyOf(cur)})
    else p.(db := p.db[KeyOf(cur) := cur.(wasinactive := false)])
  }

  /** Nothing changed since the previous sample: the task was inactive. */
  function Report(p: Pass, cur: TStat, pre: Option<TStat>, totusedcpu: int): Pass {
    var q := CountProc(p, cur);
    if pre == Some(cur) then
      q.(all := q.all + [CalcDiff(cur.(wasinactive := true), cur, false, totusedcpu)])
    else
      var t := CountActive(q, cur.isproc);
      var prev := if pre.Some? then pre.value else ZERO;
      t.(all := t.all + [CalcDiff(cur.(wasinactive := false), prev, pre.None?, totusedcpu)])
  }

  /** One present task. */
  function Present(p: Pass, cur: TStat, totusedcpu: int): Pass {
    var pre := Lookup(p.db, KeyOf(cur), cur.btime);
    Report(Remember(p, cur, pre), cur, pre, totusedcpu)
  }

  function AllPresent(p: Pass, present: seq<TStat>, totusedcpu: int): Pass
    decreases |present|
  {
    if |present| == 0 then p
    else Present(AllPresent(p, present[..|present| - 1], totusedcpu), present[|present| - 1], totusedcpu)
  }

  function Gone(m: Option<TStat>): set<Key> { if m.Some? then {KeyOf(m.value)} else {} }

  /** A matched task is no residue any more, and is deleted (a match has a pid). */
  function Forget(p: Pass, cur: TStat, pre: Option<TStat>): Pass {
    if pre.None? then p
    else
      var q := if cur.pid != 0 then p.(residue := p.residue - Gone(pre)) else p;
      if pre.value.pid > 0 then q.(residue := q.residue - Gone(pre), db := q.db - Gone(pre)) else q
  }

  function ReportExit(p: Pass, cur: TStat, pre: Option<TStat>): Pass {
    p.(nprocall := p.nprocall + 1, nprocactive := p.nprocactive + 1, ntaskactive := p.ntaskactive + 1,
       all := p.all + [ExitDiff(cur.(wasinactive := false), if pre.Some? then pre.value else ZERO)])
  }

  /** One exited process; pre holds the previous figures it is matched with, if any. */
  function Exited(p: Pass, cur: TStat, pre: Option<TStat>): Pass {
    ReportExit(Forget(p, cur, pre), cur, pre)
  }

  /** With a pid the match is by key; without it, a process that started before this interval
      is matched with one of the residue. */
  ghost predicate IsMatch(p: Pass, cur: TStat, pretime: int, pre: Option<TStat>) {
    if cur.pid != 0 then pre == Lookup(p.db, (cur.pid, true), cur.btime)
    else if cur.btime > pretime then pre.None?
    else match pre
      case Some(t) =>
        && KeyOf(t) in p.residue && KeyOf(t) in p.db && p.db[KeyOf(t)] == t
        && Alike(t, cur, 1)
        && (t.btime != cur.btime ==> forall k | k in p.residue && k in p.db :: !Alike(p.db[k], cur, 0))
      case None => forall k | k in p.residue && k in p.db :: !Alike(p.db[k], cur, 1)
  }

  predicate Alike(t: TStat, cur: TStat, seconds: int) {
    t.ruid == cur.ruid && t.rgid == cur.rgid && t.name == cur.name && -seconds <= t.btime - cur.btime <= seconds
  }

  function AllExited(p: Pass, exits: seq<TStat>, matches: seq<Option<TStat>>): Pass
    requires |exits| == |matches|
    decreases |exits|
  {
    if |exits| == 0 then p
    else
      var n := |exits| - 1;
      Exited(AllExited(p, exits[..n], matches[..n]), exits[n], matches[n])
  }

  ghost predicate AreMatches(p: Pass, exits: seq<TStat>, pretime: int, matches: seq<Option<TStat>>) {
    && |exits| == |matches|
    && forall i {:trigger matches[i]} | 0 <= i < |exits| ::
         IsMatch(AllExited(p, exits[..i], matches[..i]), exits[i], pretime, matches[i])
  }

  /** The tasks that nothing referred to are deleted. */
  function End(p: Pass): Pass { p.(db := p.db - p.residue, residue := {}) }

  /** The report of a whole pass, and the database it leaves. */
  function Outcome(db: map<Key, TStat>, present: seq<TStat>, exits: seq<TStat>, totusedcpu: int,
                   matches: seq<Option<TStat>>): Pass
    requires |exits| == |matches|
  {
    End(AllExited(AllPresent(Begin(db), present, totusedcpu), exits, matches))
  }

  // ------------------------------------------------------------------ mark and sweep

  predicate DistinctKeys(present: seq<TStat>) {
    forall i, j :: 0 <= i < j < |present| ==> KeyOf(present[i]) != KeyOf(present[j])
  }

  /** No pid was reused in the interval: a present task with a known key is the known task. */
  predicate NoReuse(db: map<Key, TStat>, present: seq<TStat>) {
    forall i | 0 <= i < |present| ::
      KeyOf(present[i]) in db ==> Lookup(db, KeyOf(present[i]), present[i].btime).Some?
  }

  ghost predicate Keyed(db: map<Key, TStat>) { forall k | k in db :: KeyOf(db[k]) == k }

  ghost function KeysOf(present: seq<TStat>): set<Key> {
    set i | 0 <= i < |present| :: KeyOf(present[i])
  }

  /** The current sample, as it is stored: a new task is stored as active. */
  function Stored(db: map<Key, TStat>, cur: TStat): TStat {
    if KeyOf(cur) in db then cur else cur.(wasinactive := false)
  }

  ghost predicate MarkInv(db: map<Key, TStat>, present: seq<TStat>, p: Pass) {
    && p.db.Keys == db.Keys + KeysOf(present)
    && p.residue == db.Keys - KeysOf(present)
    && (forall i | 0 <= i < |present| :: p.db[KeyOf(present[i])] == Stored(db, present[i]))
    && (forall k | k in db && k !in KeysOf(present) :: p.db[k] == db[k])
  }

  lemma KeysOfSnoc(s: seq<TStat>, t: TStat)
    ensures KeysOf(s + [t]) == KeysOf(s) + {KeyOf(t)}
  {
    var s' := s + [t];
    forall k | k in KeysOf(s) + {KeyOf(t)}
      ensures k in KeysOf(s')
    {
      if k == KeyOf(t) {
        assert k == KeyOf(s'[|s|]);
      } else {
        var i :| 0 <= i < |s| && KeyOf(s[i]) == k;
        assert k == KeyOf(s'[i]);
      }
    }
  }

  lemma {:induction false} Mark(db: map<Key, TStat>, present: seq<TStat>, totusedcpu: int)
    requires DistinctKeys(present) && NoReuse(db, present)
    ensures MarkInv(db, present, AllPresent(Begin(db), present, totusedcpu))
    decreases |present|
  {
    if |present| > 0 {
      var n := |present| - 1;
      var s, cur := present[..n], present[n];
      Mark(db, s, totusedcpu);
      KeysOfSnoc(s, cur);
      assert present == s + [cur];
      MarkOne(db, s, cur, AllPresent(Begin(db), s, totusedcpu), totusedcpu);
    }
  }

  lemma MarkOne(db: map<Key, TStat>, s: seq<TStat>, cur: TStat, p: Pass, totusedcpu: int)
    requires MarkInv(db, s, p) && KeysOf(s + [cur]) == KeysOf(s) + {KeyOf(cur)}
    requires forall i | 0 <= i < |s| :: KeyOf(s[i]) != KeyOf(cur)
    requires KeyOf(cur) in db ==> Lookup(db, KeyOf(cur), cur.btime).Some?
    ensures MarkInv(db, s + [cur], Present(p, cur, totusedcpu))
  {
    hide Present, Stored, MarkInv;
    NotYetMarked(db, s, cur, p);
    PresentDb(p, cur, totusedcpu);
    Marked(db, s, cur, p, Present(p, cur, totusedcpu));
  }

  lemma NotYetMarked(db: map<Key, TStat>, s: seq<TStat>, cur: TStat, p: Pass)
    requires MarkInv(db, s, p)
    requires forall i | 0 <= i < |s| :: KeyOf(s[i]) != KeyOf(cur)
    ensures KeyOf(cur) !in KeysOf(s) && (KeyOf(cur) in p.db <==> KeyOf(cur) in db)
    ensures Stored(p.db, cur) == Stored(db, cur)
    ensures Lookup(p.db, KeyOf(cur), cur.btime) == Lookup(db, KeyOf(cur), cur.btime)
  {
    assert KeyOf(cur) !in KeysOf(s);
  }

  lemma Marked(db: map<Key, TStat>, s: seq<TStat>, cur: TStat, p: Pass, q: Pass)
    requires MarkInv(db, s, p) && KeysOf(s + [cur]) == KeysOf(s) + {KeyOf(cur)} && KeyOf(cur) !in KeysOf(s)
    requires forall i | 0 <= i < |s| :: KeyOf(s[i]) != KeyOf(cur)
    requires q.db == p.db[KeyOf(cur) := Stored(db, cur)]
    requires q.residue == if KeyOf(cur) in p.db then p.residue - {KeyOf(cur)} else p.residue
    ensures MarkInv(db, s + [cur], q)
  {
    hide Stored;
    var t := s + [cur];
    forall i | 0 <= i < |t|
      ensures KeyOf(t[i]) in q.db && q.db[KeyOf(t[i])] == Stored(db, t[i])
    {
      if i < |s| { assert t[i] == s[i] && KeyOf(s[i]) in KeysOf(s); }
    }
  }

  /** What a present task that was not reused does to the database. */
  lemma PresentDb(p: Pass, cur: TStat, totusedcpu: int)
    requires KeyOf(cur) in p.db ==> Lookup(p.db, KeyOf(cur), cur.btime).Some?
    ensures var k, q := KeyOf(cur), Present(p, cur, totusedcpu);
            q.db == p.db[k := Stored(p.db, cur)] && q.residue == if k in p.db then p.residue - {k} else p.residue
  {
    hide Report;
    ReportKeepsDb(Remember(p, cur, Lookup(p.db, KeyOf(cur), cur.btime)), cur,
                  Lookup(p.db, KeyOf(cur), cur.btime), totusedcpu);
  }

  lemma ReportKeepsDb(p: Pass, cur: TStat, pre: Option<TStat>, totusedcpu: int)
    ensures var q := Report(p, cur, pre, totusedcpu); q.db == p.db && q.residue == p.residue
  {
    hide CalcDiff;
  }

  /** The keys of the tasks that exit records were matched with. */
  ghost function MatchedKeys(matches: seq<Option<TStat>>): set<Key> {
    set i | 0 <= i < |matches| && matches[i].Some? :: KeyOf(matches[i].value)
  }

  lemma MatchedKeysSnoc(matches: seq<Option<TStat>>, m: Option<TStat>)
    ensures MatchedKeys(matches + [m]) == MatchedKeys(matches) + Gone(m)
  {
    var ms := matches + [m];
    forall k | k in MatchedKeys(matches) + Gone(m)
      ensures k in MatchedKeys(ms)
    {
      if m.Some? && k == KeyOf(m.value) {
        assert k == KeyOf(ms[|matches|].value);
      } else {
        var i :| 0 <= i < |matches| && matches[i].Some? && KeyOf(matches[i].value) == k;
        assert k == KeyOf(ms[i].value);
      }
    }
  }

  ghost predicate PositivePids(db: map<Key, TStat>) { forall k | k in db :: k.0 > 0 }

  /** q is p without the tasks ks. */
  ghost predicate Dropped(p: Pass, q: Pass, ks: set<Key>) {
    && q.db == p.db - ks && q.residue == p.residue - ks
    && Keyed(q.db) && PositivePids(q.db)
  }

  lemma ExitedDb(p: Pass, cur: TStat, pretime: int, m: Option<TStat>)
    requires Keyed(p.db) && PositivePids(p.db) && IsMatch(p, cur, pretime, m)
    ensures Dropped(p, Exited(p, cur, m), Gone(m))
  {
    hide ExitDiff;
  }

  lemma DroppedBoth(p: Pass, q: Pass, t: Pass, before: set<Key>, gone: set<Key>)
    requires Dropped(p, q, before) && Dropped(q, t, gone)
    ensures Dropped(p, t, before + gone)
  {
  }

  lemma DroppedNone(p: Pass)
    requires Keyed(p.db) && PositivePids(p.db)
    ensures Dropped(p, p, {})
  {
  }

  lemma AllExitedSnoc(p: Pass, exits: seq<TStat>, matches: seq<Option<TStat>>)
    requires |exits| == |matches| > 0
    ensures var n := |exits| - 1;
            AllExited(p, exits, matches) == Exited(AllExited(p, exits[..n], matches[..n]), exits[n], matches[n])
  {
  }

  lemma {:induction false} Match(p: Pass, exits: seq<TStat>, pretime: int, matches: seq<Option<TStat>>)
    requires Keyed(p.db) && PositivePids(p.db) && AreMatches(p, exits, pretime, matches)
    ensures Dropped(p, AllExited(p, exits, matches), MatchedKeys(matches))
    decreases |exits|, 1
  {
    if |exits| > 0 {
      hide *;
      MatchLast(p, exits, pretime, matches);
    } else {
      assert MatchedKeys(matches) == {};
      DroppedNone(p);
    }
  }

  lemma {:induction false} MatchLast(p: Pass, exits: seq<TStat>, pretime: int, matches: seq<Option<TStat>>)
    requires Keyed(p.db) && PositivePids(p.db) && AreMatches(p, exits, pretime, matches)
    requires |exits| > 0
    ensures Dropped(p, AllExited(p, exits, matches), MatchedKeys(matches))
    decreases |exits|, 0
  {
    hide AreMatches, IsMatch, Exited, AllExited, MatchedKeys, Gone, Dropped, Keyed, PositivePids;
    var n := |exits| - 1;
    AreMatchesInit(p, exits, pretime, matches);
    Match(p, exits[..n], pretime, matches[..n]);
    var q := AllExited(p, exits[..n], matches[..n]);
    StillKeyed(p, q, MatchedKeys(matches[..n]));
    ExitedDb(q, exits[n], pretime, matches[n]);
    AllExitedSnoc(p, exits, matches);
    assert matches == matches[..n] + [matches[n]];
    MatchedKeysSnoc(matches[..n], matches[n]);
    DroppedBoth(p, q, AllExited(p, exits, matches), MatchedKeys(matches[..n]), Gone(matches[n]));
  }

  lemma StillKeyed(p: Pass, q: Pass, keys: set<Key>)
    requires Dropped(p, q, keys)
    ensures Keyed(q.db) && PositivePids(q.db)
  {
  }

  lemma AreMatchesInit(p: Pass, exits: seq<TStat>, pretime: int, matches: seq<Option<TStat>>)
    requires AreMatches(p, exits, pretime, matches) && |exits| > 0
    ensures |exits| == |matches|
    ensures var n := |exits| - 1;
            && AreMatches(p, exits[..n], pretime, matches[..n])
            && IsMatch(AllExited(p, exits[..n], matches[..n]), exits[n], pretime, matches[n])
  {
    var n := |exits| - 1;
    assert IsMatch(AllExited(p, exits[..n], matches[..n]), exits[n], pretime, matches[n]);
    hide IsMatch, AllExited;
    forall i {:trigger matches[..n][i]} | 0 <= i < n
      ensures IsMatch(AllExited(p, exits[..n][..i], matches[..n][..i]), exits[..n][i], pretime, matches[..n][i])
    {
      assert exits[..n][..i] == exits[..i] && matches[..n][..i] == matches[..i];
      assert matches[..n][i] == matches[i];
    }
  }

  /** Whole pass: the database holds exactly the present tasks without the ones an exit record
      was matched with, each with the current sample, and no residue is left. */
  lemma MarkAndSweep(db: map<Key, TStat>, present: seq<TStat>, exits: seq<TStat>, pretime: int, totusedcpu: int,
                     matches: seq<Option<TStat>>)
    requires Keyed(db) && DistinctKeys(present) && NoReuse(db, present)
    requires PositivePids(db) && forall i | 0 <= i < |present| :: present[i].pid > 0
    requires AreMatches(AllPresent(Begin(db), present, totusedcpu), exits, pretime, matches)
    ensures var q := End(AllExited(AllPresent(Begin(db), present, totusedcpu), exits, matches));
            && q.residue == {}
            && q.db.Keys == KeysOf(present) - MatchedKeys(matches)
            && (forall i | 0 <= i < |present| && KeyOf(present[i]) in q.db ::
                  q.db[KeyOf(present[i])] == Stored(db, present[i]))
  {
    var p := AllPresent(Begin(db), present, totusedcpu);
    Mark(db, present, totusedcpu);
    assert Keyed(p.db);
    Match(p, exits, pretime, matches);
  }
}
