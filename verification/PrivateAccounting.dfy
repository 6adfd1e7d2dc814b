/**
 Private accounting: monitors that find no accounting active share one accounting file.
 Semaphore 0 is a mutex; semaphore 1 starts at 100 and goes down by one per user. Each
 system call (or each uninterrupted group of them inside the mutex) is one step of one monitor.
 */
module PrivateAccounting {
  type Pid = nat

  const ATOPACCTTOT: int := 100
  const MAXFILERECS: nat := 3276800   // 200 megabytes of 64-byte records

  datatype Point =
    | Idle
    // acctswon
    | OnCheck | OnMkdir | OnCreate | OnOpen | OnDecrement | OnRelease | OnVersion
    | Active
    // acctswoff
    | OffIncrement | OffCheck | OffProbe | OffRemove | OffRelease
    // acctrestarttrial
    | TrialWait | TrialTest | TrialStop | TrialTruncate | TrialStart | TrialRelease

  datatype Monitor = Monitor(pc: Point, acctsize: nat)

  /** What all monitors share. on: the kernel writes to the private file. stale: file and
      accounting were left behind by a monitor that was killed before this run. */
  datatype Shared = Shared(mutex: int, counter: int, on: bool, present: bool, size: nat, stale: bool)

  datatype State = State(sh: Shared, monitors: map<Pid, Monitor>)

  datatype Action =
    | ProcessExits                 // the kernel adds a record
    | Start(p: Pid) | Stop(p: Pid) | Restart(p: Pid)
    | Skip(p: Pid, n: nat)         // reposition behind n records that have been counted
    | Read(p: Pid)                 // read one record
    | Go(p: Pid)                   // the next system call of whatever p is doing

  function Init(stale: bool, size: nat): State {
    State(Shared(1, ATOPACCTTOT, stale, stale, size, stale), map[])
  }

  function MonitorOf(s: State, p: Pid): Monitor {
    if p in s.monitors then s.monitors[p] else Monitor(Idle, 0)
  }

  function Grow(sh: Shared): Shared { if sh.on then sh.(size := sh.size + 1) else sh }

  function Claim(sh: Shared, m: Monitor, pc: Point): (Shared, Monitor) {
    if sh.mutex > 0 then (sh.(mutex := sh.mutex - 1), m.(pc := pc)) else (sh, m)
  }

  function Release(sh: Shared, m: Monitor, pc: Point): (Shared, Monitor) {
    (sh.(mutex := sh.mutex + 1), m.(pc := pc))
  }

  /** The next system call of a monitor. */
  function Next(sh: Shared, m: Monitor): (Shared, Monitor) {
    match m.pc
    case Idle => (sh, m)
    case OnCheck => (sh, m.(pc := if sh.counter == ATOPACCTTOT then OnMkdir else OnOpen))
    case OnMkdir =>
      // an existing directory is cleaned up first
      (sh.(on := sh.on && !sh.present, present := false, stale := false), m.(pc := OnCreate))
    case OnCreate => (sh.(present := true, size := 0, on := true), m.(pc := OnOpen))
    case OnOpen => (sh, Monitor(OnDecrement, 0))
    case OnDecrement =>
      if sh.counter > 0 then (sh.(counter := sh.counter - 1), m.(pc := OnRelease)) else (sh, m)
    case OnRelease => Release(sh, m, OnVersion)
    case OnVersion =>
      // the first record tells the version: if there is none yet, a child exits to make one;
      // reading starts at the end of the file
      if sh.size == 0 then (Grow(sh), m) else (sh, Monitor(Active, sh.size))
    case Active => (sh, m)
    case OffIncrement => (sh.(counter := sh.counter + 1), m.(pc := OffCheck))
    case OffCheck => (sh, m.(pc := if sh.counter == ATOPACCTTOT then OffProbe else OffRelease))
    case OffProbe =>
      // a child exits, to see whether that adds a record
      (Grow(sh), m.(pc := if Grow(sh).size > sh.size then OffRemove else OffRelease))
    case OffRemove => (sh.(on := false, present := false, size := 0), m.(pc := OffRelease))
    case OffRelease => Release(sh, m, Idle)
    case TrialWait => Claim(sh, m, TrialTest)
    case TrialTest => (sh, m.(pc := if sh.counter < ATOPACCTTOT - 1 then TrialRelease else TrialStop))
    case TrialStop => (sh.(on := false), m.(pc := TrialTruncate))
    case TrialTruncate => (sh.(size := 0), m.(pc := TrialStart))
    case TrialStart => (sh.(on := true), Monitor(TrialRelease, 0))
    case TrialRelease => Release(sh, m, Active)
  }

  /** The file has grown too long, and all of it has been read. */
  predicate MayRestart(sh: Shared, m: Monitor) { m.pc.Active? && m.acctsize == sh.size && m.acctsize > MAXFILERECS }

  /** What monitor m does on action a. */
  function Step(sh: Shared, m: Monitor, a: Action): (Shared, Monitor) {
    match a
    case ProcessExits => (Grow(sh), m)
    case Start(_) => if m.pc.Idle? then Claim(sh, m, OnCheck) else (sh, m)
    case Stop(_) => if m.pc.Active? then Claim(sh, m, OffIncrement) else (sh, m)
    case Restart(_) => if MayRestart(sh, m) then (sh, m.(pc := TrialWait)) else (sh, m)
    case Skip(_, n) =>
      if m.pc.Active? && m.acctsize + n <= sh.size then (sh, m.(acctsize := m.acctsize + n)) else (sh, m)
    case Read(_) => if m.pc.Active? && m.acctsize < sh.size then (sh, m.(acctsize := m.acctsize + 1)) else (sh, m)
    case Go(_) => Next(sh, m)
  }

  function Set(s: State, p: Pid, r: (Shared, Monitor)): State { State(r.0, s.monitors[p := r.1]) }

  function Apply(s: State, a: Action): State {
    if a.ProcessExits? then s.(sh := Grow(s.sh)) else Set(s, a.p, Step(s.sh, MonitorOf(s, a.p), a))
  }

  function Run(s: State, acts: seq<Action>): State
    decreases |acts|
  {
    if |acts| == 0 then s else Run(Apply(s, acts[0]), acts[1..])
  }

  // ------------------------------------------------------------------ invariant

  predicate InMutex(pc: Point) { !pc.Idle? && !pc.OnVersion? && !pc.Active? && !pc.TrialWait? }

  /** Counted by semaphore 1. */
  predicate IsUser(pc: Point) {
    match pc
    case OnRelease => true
    case OnVersion => true
    case Active => true
    case OffIncrement => true
    case TrialWait => true
    case TrialTest => true
    case TrialStop => true
    case TrialTruncate => true
    case TrialStart => true
    case TrialRelease => true
    case _ => false
  }

  ghost function UsersOf(ms: map<Pid, Monitor>): set<Pid> { set p | p in ms && IsUser(ms[p].pc) }

  ghost function Users(s: State): set<Pid> { UsersOf(s.monitors) }

  ghost predicate MutexInv(s: State) {
    && (s.sh.mutex == 0 || s.sh.mutex == 1)
    && (forall p | p in s.monitors :: InMutex(s.monitors[p].pc) ==> s.sh.mutex == 0)
    && (forall p, q | p in s.monitors && q in s.monitors ::
          InMutex(s.monitors[p].pc) && InMutex(s.monitors[q].pc) ==> p == q)
  }

  ghost predicate CountInv(s: State) {
    s.sh.counter + |Users(s)| == ATOPACCTTOT && s.sh.counter >= 0
  }

  predicate Recording(sh: Shared) { sh.on && sh.present && !sh.stale }

  predicate Stopped(sh: Shared) { !sh.on && !sh.present && !sh.stale }

  /** Accounting is on and the file exists exactly while there are users. */
  predicate Settled(sh: Shared, users: set<Pid>) {
    if users == {} then sh.on == sh.present == sh.stale else Recording(sh)
  }

  /** What is true of the file and the users while a monitor p is at pc. */
  predicate PointInv(sh: Shared, users: set<Pid>, p: Pid, m: Monitor) {
    match m.pc
    case OnMkdir => users == {} && Settled(sh, users)
    case OnCreate => users == {} && Stopped(sh)
    case OnOpen => Recording(sh)
    case OnDecrement => Recording(sh) && m.acctsize == 0
    case OffCheck => Recording(sh)
    case OffProbe => users == {} && Recording(sh)
    case OffRemove => users == {} && Recording(sh)
    case TrialStop => users == {p} && Recording(sh)
    case TrialTruncate => users == {p} && !sh.on && sh.present && !sh.stale
    case TrialStart => users == {p} && !sh.on && sh.present && !sh.stale
    case Idle => true
    case OnVersion => true
    case Active => true
    case TrialWait => true
    case _ => Settled(sh, users)
  }

  ghost predicate PointsInv(s: State) {
    && (forall p | p in s.monitors :: PointInv(s.sh, Users(s), p, s.monitors[p]))
    && (s.sh.mutex == 1 ==> Settled(s.sh, Users(s)))
  }

  /** A user that is not about to rewind does not stand beyond the end of the file. */
  predicate OffsetOk(sh: Shared, m: Monitor) {
    IsUser(m.pc) && !m.pc.TrialStart? ==> m.acctsize <= sh.size
  }

  ghost predicate OffsetInv(s: State) {
    forall p | p in s.monitors :: OffsetOk(s.sh, s.monitors[p])
  }

  ghost predicate Inv(s: State) { MutexInv(s) && CountInv(s) && PointsInv(s) && OffsetInv(s) }

  // ------------------------------------------------------------------ preservation

  /** The users after p went to another point. */
  lemma UsersAfter(ms: map<Pid, Monitor>, p: Pid, m: Monitor)
    ensures UsersOf(ms[p := m]) == (if IsUser(m.pc) then UsersOf(ms) + {p} else UsersOf(ms) - {p})
    ensures |UsersOf(ms[p := m])|
         == |UsersOf(ms)| + (if IsUser(m.pc) then 1 else 0) - (if p in UsersOf(ms) then 1 else 0)
  {
    var us := UsersOf(ms[p := m]);
    if IsUser(m.pc) {
      assert us == UsersOf(ms) + {p};
    } else {
      assert us == UsersOf(ms) - {p};
    }
  }

  /** What the users become when p becomes m. */
  ghost function UsersWith(s: State, p: Pid, m: Monitor): set<Pid> {
    if IsUser(m.pc) then Users(s) + {p} else Users(s) - {p}
  }

  /** What a step of monitor p has to respect, as far as p can see. */
  ghost predicate StepOk(s: State, p: Pid, sh: Shared, m: Monitor) {
    var m0 := MonitorOf(s, p);
    && sh.mutex == s.sh.mutex + (if InMutex(m0.pc) then 1 else 0) - (if InMutex(m.pc) then 1 else 0)
    && sh.mutex >= 0
    && sh.counter == s.sh.counter + (if IsUser(m0.pc) then 1 else 0) - (if IsUser(m.pc) then 1 else 0)
    && sh.counter >= 0
    && PointInv(sh, UsersWith(s, p, m), p, m)
    && (InMutex(m0.pc) && !InMutex(m.pc) ==> Settled(sh, UsersWith(s, p, m)))
    && (!InMutex(m0.pc) ==>
          && sh == s.sh.(mutex := sh.mutex, size := sh.size)
          && (InMutex(m.pc) ==> s.sh.mutex == 1) && UsersWith(s, p, m) == Users(s))
    && (s.sh.size <= sh.size || Users(s) <= {p})
    && OffsetOk(sh, m)
  }

  lemma StepMutex(s: State, p: Pid, sh: Shared, m: Monitor)
    requires MutexInv(s) && StepOk(s, p, sh, m)
    ensures MutexInv(Set(s, p, (sh, m)))
    ensures InMutex(MonitorOf(s, p).pc) ==> forall q | q in s.monitors && q != p :: !InMutex(s.monitors[q].pc)
  {
    hide PointInv, Settled, UsersOf, OffsetOk;
  }

  lemma StepOffsets(s: State, p: Pid, sh: Shared, m: Monitor)
    requires OffsetInv(s) && StepOk(s, p, sh, m)
    ensures OffsetInv(Set(s, p, (sh, m)))
  {
    var t := Set(s, p, (sh, m));
    forall q | q in t.monitors
      ensures OffsetOk(sh, t.monitors[q])
    {
      if q != p && IsUser(t.monitors[q].pc) { assert q in Users(s); }
    }
  }

  /** Outside the mutex there is nothing to know. */
  lemma OutsideKnowsNothing(sh: Shared, users: set<Pid>, q: Pid, m: Monitor)
    requires !InMutex(m.pc)
    ensures PointInv(sh, users, q, m)
  {
  }

  lemma MutexIsNoMatter(sh: Shared, k: int, size: nat, users: set<Pid>, q: Pid, m: Monitor)
    requires PointInv(sh, users, q, m)
    ensures PointInv(sh.(mutex := k, size := size), users, q, m)
  {
  }

  lemma StepPoints(s: State, p: Pid, sh: Shared, m: Monitor)
    requires MutexInv(s) && PointsInv(s) && StepOk(s, p, sh, m)
    ensures var t := Set(s, p, (sh, m)); Users(t) == UsersWith(s, p, m) && PointsInv(t)
  {
    var t := Set(s, p, (sh, m));
    StepMutex(s, p, sh, m);
    UsersAfter(s.monitors, p, m);
    hide PointInv, MutexInv, UsersOf, IsUser;
    forall q | q in t.monitors
      ensures PointInv(sh, Users(t), q, t.monitors[q])
    {
      if q == p {
      } else if InMutex(MonitorOf(s, p).pc) {
        OutsideKnowsNothing(sh, Users(t), q, t.monitors[q]);
      } else {
        assert PointInv(s.sh, Users(s), q, s.monitors[q]);
        MutexIsNoMatter(s.sh, sh.mutex, sh.size, Users(s), q, s.monitors[q]);
      }
    }
  }

  lemma StepKeeps(s: State, p: Pid, sh: Shared, m: Monitor)
    requires Inv(s) && StepOk(s, p, sh, m)
    ensures Inv(Set(s, p, (sh, m)))
  {
    StepMutex(s, p, sh, m);
    StepOffsets(s, p, sh, m);
    StepPoints(s, p, sh, m);
    UsersAfter(s.monitors, p, m);
    assert p in Users(s) <==> IsUser(MonitorOf(s, p).pc);
    hide MutexInv, OffsetInv, UsersOf, IsUser, PointsInv, PointInv;
  }

  /** What a monitor knows before its step. */
  ghost predicate Knows(s: State, p: Pid) {
    var m := MonitorOf(s, p);
    && (s.sh.mutex == 0 || s.sh.mutex == 1) && s.sh.counter >= 0
    && PointInv(s.sh, Users(s), p, m)
    && (s.sh.counter == ATOPACCTTOT <==> Users(s) == {})
    && (p in Users(s) <==> IsUser(m.pc))
    && (p in Users(s) && s.sh.counter >= ATOPACCTTOT - 1 ==> Users(s) == {p})
    && (s.sh.mutex == 1 ==> Settled(s.sh, Users(s)) && !InMutex(m.pc))
    && OffsetOk(s.sh, m)
  }

  lemma KnowsBefore(s: State, p: Pid)
    requires Inv(s)
    ensures Knows(s, p)
  {
    if p in Users(s) && |Users(s)| == 1 { assert |Users(s) - {p}| == 0; }
  }

  lemma StepIsOk(s: State, a: Action)
    requires !a.ProcessExits? && Knows(s, a.p)
    ensures var r := Step(s.sh, MonitorOf(s, a.p), a); StepOk(s, a.p, r.0, r.1)
  {
    hide UsersOf;
  }

  lemma GrowKeeps(s: State)
    requires Inv(s)
    ensures Inv(s.(sh := Grow(s.sh)))
  {
    hide UsersOf;
    assert Users(s.(sh := Grow(s.sh))) == Users(s);
  }

  lemma ApplyKeeps(s: State, a: Action)
    requires Inv(s)
    ensures Inv(Apply(s, a))
  {
    hide Inv, Step, Knows, StepOk;
    if a.ProcessExits? {
      GrowKeeps(s);
    } else {
      KnowsBefore(s, a.p);
      StepIsOk(s, a);
      var r := Step(s.sh, MonitorOf(s, a.p), a);
      StepKeeps(s, a.p, r.0, r.1);
    }
  }

  lemma {:induction false} RunKeeps(s: State, acts: seq<Action>)
    requires Inv(s)
    ensures Inv(Run(s, acts))
    decreases |acts|
  {
    hide Inv, Apply;
    if |acts| > 0 {
      ApplyKeeps(s, acts[0]);
      RunKeeps(Apply(s, acts[0]), acts[1..]);
    }
  }

  // ------------------------------------------------------------------ what every run guarantees

  lemma InitKeeps(stale: bool, size: nat)
    ensures Inv(Init(stale, size))
  {
    assert UsersOf(map[]) == {};
  }

  /** Over every interleaving: semaphore 1 plus the number of users is 100, and whenever the
      mutex is free the kernel records to the private file exactly while there are users
      (a leftover of a killed monitor lasts until the first start). */
  lemma EveryRun(stale: bool, size: nat, acts: seq<Action>)
    ensures var s := Run(Init(stale, size), acts);
            && s.sh.counter + |Users(s)| == ATOPACCTTOT
            && (s.sh.mutex == 1 && Users(s) != {} ==> s.sh.on && s.sh.present)
            && (s.sh.mutex == 1 && Users(s) == {} ==> s.sh.on == s.sh.present == s.sh.stale)
  {
    InitKeeps(stale, size);
    RunKeeps(Init(stale, size), acts);
  }

  /** In every reachable state: accounting is switched on only for the first user, or again
      by the only one; the file is removed only when nobody uses it; it shrinks only under a
      monitor that is its only user; accounting is switched off only in these cases. */
  lemma OnlyWhenAlone(stale: bool, size: nat, acts: seq<Action>, a: Action)
    requires !a.ProcessExits?
    ensures var s := Run(Init(stale, size), acts);
            var t := Apply(s, a);
            && (s.sh.on != t.sh.on ==> Users(s) <= {a.p})
            && (s.sh.present && !t.sh.present ==> Users(s) == {})
            && (!s.sh.present && t.sh.present ==> Users(s) == {})
            && (t.sh.size < s.sh.size ==> Users(s) <= {a.p})
            && (t.sh.size < s.sh.size && Users(s) == {a.p} ==> MonitorOf(s, a.p).pc == TrialTruncate)
  {
    hide Run, Inv, Init, Apply, Knows, MonitorOf, UsersOf;
    var s := Run(Init(stale, size), acts);
    InitKeeps(stale, size);
    RunKeeps(Init(stale, size), acts);
    KnowsBefore(s, a.p);
    StepAlone(s, a);
  }

  lemma StepAlone(s: State, a: Action)
    requires !a.ProcessExits? && Knows(s, a.p)
    ensures var t := Apply(s, a);
            && (s.sh.on != t.sh.on ==> Users(s) <= {a.p})
            && (s.sh.present && !t.sh.present ==> Users(s) == {})
            && (!s.sh.present && t.sh.present ==> Users(s) == {})
            && (t.sh.size < s.sh.size ==> Users(s) <= {a.p})
            && (t.sh.size < s.sh.size && Users(s) == {a.p} ==> MonitorOf(s, a.p).pc == TrialTruncate)
  {
    hide UsersOf;
  }

  /** A user that counts its new records never finds itself beyond the end of the file, so
      the reset of acctprocnt is never needed for the private file. */
  lemma NeverBeyondTheEnd(stale: bool, size: nat, acts: seq<Action>, p: Pid)
    ensures var s := Run(Init(stale, size), acts);
            MonitorOf(s, p).pc == Active ==> MonitorOf(s, p).acctsize <= s.sh.size
  {
    InitKeeps(stale, size);
    RunKeeps(Init(stale, size), acts);
    KnowsBefore(Run(Init(stale, size), acts), p);
  }

  // ------------------------------------------------------------------ what a restart loses

  /** From the test that everything has been read up to the truncation. */
  predicate InTrial(pc: Point) { pc.TrialWait? || pc.TrialTest? || pc.TrialStop? || pc.TrialTruncate? }

  /** A process exits: anyone's, or the child of a monitor that looks for a record. */
  predicate Exits(s: State, a: Action) {
    a.ProcessExits? || (a.Go? && MonitorOf(s, a.p).pc.OnVersion? && s.sh.size == 0)
  }

  /** The records that the kernel adds during a run because processes exit. */
  function Recorded(s: State, acts: seq<Action>): nat
    decreases |acts|
  {
    if |acts| == 0 then 0
    else (if Exits(s, acts[0]) && s.sh.on then 1 else 0) + Recorded(Apply(s, acts[0]), acts[1..])
  }

  /** While p is in its trial nobody else shortens the file or adds to it, and p does not read. */
  lemma TrialStep(s: State, a: Action, p: Pid)
    requires Inv(s) && InTrial(MonitorOf(s, p).pc) && a != Restart(p)
    ensures var t := Apply(s, a);
            InTrial(MonitorOf(t, p).pc) ==>
              && MonitorOf(t, p).acctsize == MonitorOf(s, p).acctsize
              && t.sh.size == s.sh.size + if Exits(s, a) && s.sh.on then 1 else 0
  {
    KnowsBefore(s, p);
    if !a.ProcessExits? {
      KnowsBefore(s, a.p);
      hide Inv, UsersOf;
      assert p in Users(s);
    }
  }

  lemma {:induction false} NeverBack(s: State, acts: seq<Action>, p: Pid)
    requires !InTrial(MonitorOf(s, p).pc) && forall i | 0 <= i < |acts| :: acts[i] != Restart(p)
    ensures !InTrial(MonitorOf(Run(s, acts), p).pc)
    decreases |acts|
  {
    if |acts| > 0 {
      OutsideTrial(s, acts[0], p);
      hide Apply, InTrial;
      NeverBack(Apply(s, acts[0]), acts[1..], p);
    }
  }

  lemma OutsideTrial(s: State, a: Action, p: Pid)
    requires !InTrial(MonitorOf(s, p).pc) && a != Restart(p)
    ensures !InTrial(MonitorOf(Apply(s, a), p).pc)
  {
  }

  lemma {:induction false} TrialCounts(s: State, acts: seq<Action>, p: Pid)
    requires Inv(s) && InTrial(MonitorOf(s, p).pc) && forall i | 0 <= i < |acts| :: acts[i] != Restart(p)
    requires InTrial(MonitorOf(Run(s, acts), p).pc)
    ensures var t := Run(s, acts);
            && MonitorOf(t, p).acctsize == MonitorOf(s, p).acctsize
            && t.sh.size == s.sh.size + Recorded(s, acts)
    decreases |acts|
  {
    hide Inv, Apply, InTrial, MonitorOf;
    if |acts| > 0 {
      var t := Apply(s, acts[0]);
      if !InTrial(MonitorOf(t, p).pc) { NeverBack(t, acts[1..], p); }
      TrialStep(s, acts[0], p);
      ApplyKeeps(s, acts[0]);
      TrialCounts(t, acts[1..], p);
    }
  }

  /** A monitor that has read everything of a file of more than 200 megabytes starts a trial, and
      some interleaving takes it to the point of truncation. What is then lost are exactly the
      records of the processes that exited while accounting was still on; nothing is lost if and
      only if there were none. */
  lemma RestartLoses(stale: bool, size: nat, before: seq<Action>, p: Pid, acts: seq<Action>)
    requires var s := Run(Init(stale, size), before); MayRestart(s.sh, MonitorOf(s, p))
    requires forall i | 0 <= i < |acts| :: acts[i] != Restart(p)
    requires MonitorOf(Run(Apply(Run(Init(stale, size), before), Restart(p)), acts), p).pc == TrialTruncate
    ensures var s := Apply(Run(Init(stale, size), before), Restart(p));
            var t := Run(s, acts);
            && t.sh.size - MonitorOf(t, p).acctsize == Recorded(s, acts)
            && Users(t) == {p} && t.sh.size > 3276800 && Apply(t, Go(p)).sh.size == 0
  {
    hide Run, Apply, Inv, Init, UsersOf, MonitorOf;
    var s0 := Run(Init(stale, size), before);
    var s := Apply(s0, Restart(p));
    InitKeeps(stale, size);
    RunKeeps(Init(stale, size), before);
    ApplyKeeps(s0, Restart(p));
    EntersTrial(s0, p);
    TrialCounts(s, acts, p);
    RunKeeps(s, acts);
    AtTruncation(Run(s, acts), p);
  }

  lemma EntersTrial(s: State, p: Pid)
    requires MayRestart(s.sh, MonitorOf(s, p))
    ensures var t := Apply(s, Restart(p)); MonitorOf(t, p) == Monitor(TrialWait, s.sh.size) && t.sh == s.sh
  {
  }

  lemma AtTruncation(s: State, p: Pid)
    requires Inv(s) && MonitorOf(s, p).pc == TrialTruncate
    ensures Users(s) == {p} && Apply(s, Go(p)).sh.size == 0
  {
    KnowsBefore(s, p);
  }
}
