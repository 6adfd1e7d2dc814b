/**
 How a monitor gets through acctswon, acctswoff and a restart, whatever the others do in between,
 which records it passes on its way, and how it can all come to a standstill.
 */
module PrivateRuns {
  import opened PrivateAccounting

  // ------------------------------------------------------------------ a monitor inside the mutex

  /** No action of p. */
  predicate NotBy(p: Pid, acts: seq<Action>) {
    forall i | 0 <= i < |acts| :: acts[i].ProcessExits? || acts[i].p != p
  }

  predicate NoneBy(p: Pid, gaps: seq<seq<Action>>) { forall i | 0 <= i < |gaps| :: NotBy(p, gaps[i]) }

  /** The next system calls of p, one behind each gap. */
  function Woven(p: Pid, gaps: seq<seq<Action>>): seq<Action> {
    if |gaps| == 0 then [] else gaps[0] + [Go(p)] + Woven(p, gaps[1..])
  }

  /** What p can see: the shared state, its own, and who counts as a user. */
  datatype Seat = Seat(sh: Shared, m: Monitor, users: set<Pid>)

  ghost function SeatOf(s: State, p: Pid): Seat { Seat(s.sh, MonitorOf(s, p), Users(s)) }

  /** From there, after records have been added, one system call of p. */
  ghost function Moved(v: Seat, p: Pid, size: nat): Seat {
    var r := Next(v.sh.(size := size), v.m);
    Seat(r.0, r.1, if IsUser(r.1.pc) then v.users + {p} else v.users - {p})
  }

  lemma {:induction false} RunConcat(s: State, a: seq<Action>, b: seq<Action>)
    ensures Run(s, a + b) == Run(Run(s, a), b)
    decreases |a|
  {
    hide Apply;
    if |a| == 0 {
      assert a + b == b;
    } else {
      RunConcat(Apply(s, a[0]), a[1..], b);
      assert (a + b)[0] == a[0] && (a + b)[1..] == a[1..] + b;
    }
  }

  lemma RunOne(s: State, a: Action)
    ensures Run(s, [a]) == Apply(s, a)
  {
    hide Apply;
    assert [a][1..] == [];
  }

  /** While p is inside the mutex, the others can add records to the file and no more. */
  lemma OtherWaits(s: State, a: Action, p: Pid)
    requires Inv(s) && InMutex(MonitorOf(s, p).pc) && NotBy(p, [a])
    ensures var t := Apply(s, a);
      && Inv(t) && MonitorOf(t, p) == MonitorOf(s, p) && Users(t) == Users(s)
      && t.sh == s.sh.(size := s.sh.size + if Exits(s, a) && s.sh.on then 1 else 0)
  {
    ApplyKeeps(s, a);
    assert [a][0] == a;
    if !a.ProcessExits? {
      KnowsBefore(s, a.p);
      StepIsOk(s, a);
      InsideAlone(s, p, a.p);
      var r := Step(s.sh, MonitorOf(s, a.p), a);
      UsersAfter(s.monitors, a.p, r.1);
      hide Inv, Step, UsersOf, PointInv, IsUser;
      OutsideCounts(s, a);
    } else {
      GrowsOnly(s);
    }
  }

  lemma GrowsOnly(s: State)
    ensures var t := Apply(s, ProcessExits);
      t.monitors == s.monitors && t.sh == s.sh.(size := s.sh.size + if s.sh.on then 1 else 0)
  {
  }

  lemma InsideAlone(s: State, p: Pid, q: Pid)
    requires Inv(s) && InMutex(MonitorOf(s, p).pc) && q != p
    ensures s.sh.mutex == 0 && !InMutex(MonitorOf(s, q).pc)
  {
  }

  /** Outside the mutex the file grows by the records of the processes that exit. */
  lemma OutsideCounts(s: State, a: Action)
    requires !a.ProcessExits? && !InMutex(MonitorOf(s, a.p).pc)
    ensures Step(s.sh, MonitorOf(s, a.p), a).0.size == s.sh.size + if Exits(s, a) && s.sh.on then 1 else 0
  {
  }

  lemma {:induction false} OthersWait(s: State, acts: seq<Action>, p: Pid)
    requires Inv(s) && InMutex(MonitorOf(s, p).pc) && NotBy(p, acts)
    ensures var t := Run(s, acts);
      && Inv(t) && SeatOf(t, p) == SeatOf(s, p).(sh := s.sh.(size := s.sh.size + Recorded(s, acts)))
      && (!s.sh.on ==> Recorded(s, acts) == 0)
    decreases |acts|
  {
    hide Inv, Apply, UsersOf, MonitorOf, Exits;
    if |acts| > 0 {
      OtherWaits(s, acts[0], p);
      OthersWait(Apply(s, acts[0]), acts[1..], p);
    }
  }

  /** One gap, and one system call of p. */
  function Turned(s: State, p: Pid, gap: seq<Action>): State { Apply(Run(s, gap), Go(p)) }

  lemma Turn(s: State, p: Pid, gap: seq<Action>)
    requires Inv(s) && InMutex(MonitorOf(s, p).pc) && NotBy(p, gap)
    ensures Inv(Turned(s, p, gap))
    ensures SeatOf(Turned(s, p, gap), p) == Moved(SeatOf(s, p), p, s.sh.size + Recorded(s, gap))
    ensures !s.sh.on ==> Recorded(s, gap) == 0
  {
    hide Inv, Run, Recorded, Apply, Next, UsersOf, MonitorOf;
    OthersWait(s, gap, p);
    CallMoves(Run(s, gap), p);
  }

  lemma CallMoves(s: State, p: Pid)
    requires Inv(s)
    ensures Inv(Apply(s, Go(p))) && SeatOf(Apply(s, Go(p)), p) == Moved(SeatOf(s, p), p, s.sh.size)
  {
    hide Inv, Next;
    ApplyKeeps(s, Go(p));
    UsersAfter(s.monitors, p, Next(s.sh, MonitorOf(s, p)).1);
    assert s.sh.(size := s.sh.size) == s.sh;
  }

  lemma WovenFirst(s: State, p: Pid, gaps: seq<seq<Action>>)
    requires |gaps| > 0
    ensures Run(s, Woven(p, gaps)) == Run(Turned(s, p, gaps[0]), Woven(p, gaps[1..]))
  {
    hide Run, Apply;
    var rest := Woven(p, gaps[1..]);
    RunConcat(s, gaps[0] + [Go(p)], rest);
    RunConcat(s, gaps[0], [Go(p)]);
    RunOne(Run(s, gaps[0]), Go(p));
  }

  lemma WovenNone(s: State, p: Pid)
    ensures Run(s, Woven(p, [])) == s
  {
  }

  /** What is known at a place where the mutex is free. */
  lemma AtRest(s: State, p: Pid)
    requires Inv(s) && s.sh.mutex == 1
    ensures Settled(s.sh, Users(s)) && (p in Users(s) <==> IsUser(MonitorOf(s, p).pc))
    ensures s.sh.counter + |Users(s)| == ATOPACCTTOT
    ensures s.sh.counter == ATOPACCTTOT <==> Users(s) == {}
    ensures p in Users(s) ==> (s.sh.counter == ATOPACCTTOT - 1 <==> Users(s) == {p})
  {
    KnowsBefore(s, p);
  }

  // ------------------------------------------------------------------ acctswoff

  /** How many system calls it takes from pc on, for the only user and for another. */
  function CallsToLeave(pc: Point, alone: bool): nat {
    match pc
    case OffIncrement => if alone then 5 else 3
    case OffCheck => if alone then 4 else 2
    case OffProbe => 3
    case OffRemove => 2
    case OffRelease => 1
    case _ => 0
  }

  /** Where p stands on its way out, compared with v, where it began. */
  ghost predicate OnTheWayOut(v: Seat, p: Pid, w: Seat) {
    var alone := v.users == {p};
    var same := v.sh.(mutex := w.sh.mutex, counter := v.sh.counter + 1, size := w.sh.size);
    match w.m.pc
    case OffIncrement =>
      w.sh == same.(mutex := 0, counter := v.sh.counter) && w.users == v.users && w.sh.size >= v.sh.size
    case OffCheck => w.sh == same.(mutex := 0) && w.users == v.users - {p} && w.sh.size >= v.sh.size
    case OffProbe => w.sh == same.(mutex := 0) && w.users == v.users - {p} && alone
    case OffRemove => w.sh == same.(mutex := 0) && w.users == v.users - {p} && alone
    case OffRelease => Left(v, p, w) && w.sh.mutex == 0
    case Idle => Left(v, p, w) && w.sh.mutex == 1
    case _ => false
  }

  /** p is out: accounting is off and the file gone if nobody else was there, and untouched otherwise. */
  ghost predicate Left(v: Seat, p: Pid, w: Seat) {
    && w.users == v.users - {p} && w.sh.counter == v.sh.counter + 1
    && (if v.users == {p} then !w.sh.on && !w.sh.present && w.sh.size == 0
        else w.sh == v.sh.(mutex := w.sh.mutex, counter := w.sh.counter, size := w.sh.size) && w.sh.size >= v.sh.size)
  }

  lemma WayOut(v: Seat, p: Pid, w: Seat, k: nat)
    requires OnTheWayOut(v, p, w) && CallsToLeave(w.m.pc, v.users == {p}) > 0
    requires k >= w.sh.size && (!w.sh.on ==> k == w.sh.size)
    requires Recording(v.sh) && (v.sh.counter == ATOPACCTTOT - 1 <==> v.users == {p})
    ensures var next := Moved(w, p, k);
      && OnTheWayOut(v, p, next)
      && CallsToLeave(next.m.pc, v.users == {p}) == CallsToLeave(w.m.pc, v.users == {p}) - 1
  {
  }

  lemma {:induction false} GoesOut(v: Seat, s: State, p: Pid, gaps: seq<seq<Action>>)
    requires Inv(s) && OnTheWayOut(v, p, SeatOf(s, p)) && NoneBy(p, gaps)
    requires Recording(v.sh) && (v.sh.counter == ATOPACCTTOT - 1 <==> v.users == {p})
    requires |gaps| == CallsToLeave(MonitorOf(s, p).pc, v.users == {p})
    ensures var t := Run(s, Woven(p, gaps));
      Inv(t) && MonitorOf(t, p).pc.Idle? && OnTheWayOut(v, p, SeatOf(t, p))
    decreases |gaps|
  {
    hide Inv, Run, Recorded, Turned, Moved, OnTheWayOut, Recording, UsersOf, MonitorOf, NotBy, Woven;
    if |gaps| > 0 {
      assert InMutex(MonitorOf(s, p).pc) && NotBy(p, gaps[0]) && NoneBy(p, gaps[1..]);
      Turn(s, p, gaps[0]);
      var t := Turned(s, p, gaps[0]);
      var k := s.sh.size + Recorded(s, gaps[0]);
      WayOut(v, p, SeatOf(s, p), k);
      GoesOut(v, t, p, gaps[1..]);
      WovenFirst(s, p, gaps);
    } else {
      WovenNone(s, p);
      assert MonitorOf(s, p).pc.Idle? by { OutAtLast(v, p, SeatOf(s, p)); }
    }
  }

  lemma OutAtLast(v: Seat, p: Pid, w: Seat)
    requires OnTheWayOut(v, p, w) && CallsToLeave(w.m.pc, v.users == {p}) == 0
    ensures w.m.pc.Idle?
  {
  }

  /** A monitor that stops while the mutex is free gets out with its next system calls, whatever the others do between
      them: its place is free again, the mutex as well, and accounting ends with its last user and not before. */
  lemma Leaves(s: State, p: Pid, gaps: seq<seq<Action>>)
    requires Inv(s) && MonitorOf(s, p).pc.Active? && s.sh.mutex == 1 && NoneBy(p, gaps)
    requires |gaps| == if Users(s) == {p} then 5 else 3
    ensures var t := Run(Apply(s, Stop(p)), Woven(p, gaps));
      && Inv(t) && MonitorOf(t, p).pc.Idle? && t.sh.mutex == 1
      && Users(t) == Users(s) - {p} && t.sh.counter == s.sh.counter + 1
      && (if Users(s) == {p} then !t.sh.on && !t.sh.present && t.sh.size == 0
          else t.sh == s.sh.(counter := s.sh.counter + 1, size := t.sh.size) && t.sh.size >= s.sh.size)
  {
    var v, u := SeatOf(s, p), Apply(s, Stop(p));
    AtRest(s, p);
    ApplyKeeps(s, Stop(p));
    UsersAfter(s.monitors, p, MonitorOf(u, p));
    hide Inv, Run, UsersOf;
    assert SeatOf(u, p) == Seat(s.sh.(mutex := 0), MonitorOf(s, p).(pc := OffIncrement), v.users);
    GoesOut(v, u, p, gaps);
  }

  // ------------------------------------------------------------------ acctswon

  function CallsToEnter(pc: Point, first: bool): nat {
    match pc
    case OnCheck => if first then 6 else 4
    case OnMkdir => 5
    case OnCreate => 4
    case OnOpen => 3
    case OnDecrement => 2
    case OnRelease => 1
    case _ => 0
  }

  /** Where p stands on its way in, compared with v, where it began. */
  ghost predicate OnTheWayIn(v: Seat, p: Pid, w: Seat) {
    var first := v.users == {};
    match w.m.pc
    case OnCheck => w.sh == v.sh.(mutex := 0, size := w.sh.size) && w.users == v.users && w.sh.size >= v.sh.size
    case OnMkdir => first && w.users == {} && w.sh.mutex == 0 && w.sh.counter == v.sh.counter
    case OnCreate => first && w.users == {} && w.sh.mutex == 0 && w.sh.counter == v.sh.counter && !w.sh.stale
    case OnOpen => Prepared(v, w) && w.users == v.users && w.sh.counter == v.sh.counter && w.sh.mutex == 0
    case OnDecrement => Prepared(v, w) && w.users == v.users && w.sh.counter == v.sh.counter && w.sh.mutex == 0
    case OnRelease => In(v, p, w) && w.sh.mutex == 0
    case OnVersion => In(v, p, w) && w.sh.mutex == 1
    case _ => false
  }

  /** The file is there and accounting on: made for the first user, left alone for another. */
  ghost predicate Prepared(v: Seat, w: Seat) {
    if v.users == {} then Recording(w.sh)
    else w.sh == v.sh.(mutex := w.sh.mutex, counter := w.sh.counter, size := w.sh.size) && w.sh.size >= v.sh.size
  }

  ghost predicate In(v: Seat, p: Pid, w: Seat) {
    Prepared(v, w) && w.users == v.users + {p} && w.sh.counter == v.sh.counter - 1
  }

  lemma WayIn(v: Seat, p: Pid, w: Seat, k: nat)
    requires OnTheWayIn(v, p, w) && CallsToEnter(w.m.pc, v.users == {}) > 0 && k >= w.sh.size
    requires p !in v.users && v.sh.counter > 0 && (v.sh.counter == ATOPACCTTOT <==> v.users == {})
    ensures var next := Moved(w, p, k);
      && OnTheWayIn(v, p, next)
      && CallsToEnter(next.m.pc, v.users == {}) == CallsToEnter(w.m.pc, v.users == {}) - 1
  {
  }

  lemma {:induction false} GoesIn(v: Seat, s: State, p: Pid, gaps: seq<seq<Action>>)
    requires Inv(s) && OnTheWayIn(v, p, SeatOf(s, p)) && NoneBy(p, gaps)
    requires p !in v.users && v.sh.counter > 0 && (v.sh.counter == ATOPACCTTOT <==> v.users == {})
    requires |gaps| == CallsToEnter(MonitorOf(s, p).pc, v.users == {})
    ensures var t := Run(s, Woven(p, gaps));
      Inv(t) && MonitorOf(t, p).pc.OnVersion? && OnTheWayIn(v, p, SeatOf(t, p))
    decreases |gaps|
  {
    hide Inv, Run, Recorded, Turned, Moved, OnTheWayIn, UsersOf, MonitorOf, NotBy, Woven;
    if |gaps| > 0 {
      assert InMutex(MonitorOf(s, p).pc) && NotBy(p, gaps[0]) && NoneBy(p, gaps[1..]);
      Turn(s, p, gaps[0]);
      var t := Turned(s, p, gaps[0]);
      var k := s.sh.size + Recorded(s, gaps[0]);
      WayIn(v, p, SeatOf(s, p), k);
      GoesIn(v, t, p, gaps[1..]);
      WovenFirst(s, p, gaps);
    } else {
      WovenNone(s, p);
      assert MonitorOf(s, p).pc.OnVersion? by { InAtLast(v, p, SeatOf(s, p)); }
    }
  }

  lemma InAtLast(v: Seat, p: Pid, w: Seat)
    requires OnTheWayIn(v, p, w) && CallsToEnter(w.m.pc, v.users == {}) == 0
    ensures w.m.pc.OnVersion?
  {
  }

  lemma {:induction false} RecordedConcat(s: State, a: seq<Action>, b: seq<Action>)
    ensures Recorded(s, a + b) == Recorded(s, a) + Recorded(Run(s, a), b)
    decreases |a|
  {
    hide Apply, Exits;
    if |a| == 0 {
      assert a + b == b;
    } else {
      RecordedConcat(Apply(s, a[0]), a[1..], b);
      assert (a + b)[0] == a[0] && (a + b)[1..] == a[1..] + b;
    }
  }

  lemma CallRecordsNothing(s: State, p: Pid)
    requires InMutex(MonitorOf(s, p).pc)
    ensures Recorded(s, [Go(p)]) == 0
  {
    assert [Go(p)][1..] == [];
  }

  lemma RecordedWoven(s: State, p: Pid, gaps: seq<seq<Action>>)
    requires |gaps| > 0 && InMutex(MonitorOf(Run(s, gaps[0]), p).pc)
    ensures Recorded(s, Woven(p, gaps)) == Recorded(s, gaps[0]) + Recorded(Turned(s, p, gaps[0]), Woven(p, gaps[1..]))
  {
    hide Run, Apply, Recorded;
    RecordedConcat(s, gaps[0] + [Go(p)], Woven(p, gaps[1..]));
    RecordedConcat(s, gaps[0], [Go(p)]);
    RunConcat(s, gaps[0], [Go(p)]);
    RunOne(Run(s, gaps[0]), Go(p));
    CallRecordsNothing(Run(s, gaps[0]), p);
  }

  /** With the file there, it grows on the way in by exactly the records of the processes that exit. */
  lemma {:induction false} FileCounts(s: State, p: Pid, gaps: seq<seq<Action>>)
    requires Inv(s) && NoneBy(p, gaps) && |gaps| == CallsToEnter(MonitorOf(s, p).pc, false)
    requires MonitorOf(s, p).pc in {OnCheck, OnOpen, OnDecrement, OnRelease, OnVersion}
    requires MonitorOf(s, p).pc.OnCheck? ==> s.sh.counter != ATOPACCTTOT
    requires s.sh.counter > 0 || MonitorOf(s, p).pc in {OnRelease, OnVersion}
    ensures Run(s, Woven(p, gaps)).sh.size == s.sh.size + Recorded(s, Woven(p, gaps))
    decreases |gaps|
  {
    hide Inv, Run, Recorded, Turned, UsersOf, MonitorOf, NotBy, Woven, Exits, Apply;
    if |gaps| > 0 {
      assert InMutex(MonitorOf(s, p).pc) && NotBy(p, gaps[0]) && NoneBy(p, gaps[1..]);
      Turn(s, p, gaps[0]);
      OthersWait(s, gaps[0], p);
      RecordedWoven(s, p, gaps);
      WovenFirst(s, p, gaps);
      FileCounts(Turned(s, p, gaps[0]), p, gaps[1..]);
    } else {
      NothingWoven(s, p);
    }
  }

  lemma NothingWoven(s: State, p: Pid)
    ensures Run(s, Woven(p, [])) == s && Recorded(s, Woven(p, [])) == 0
  {
  }

  /** The first user's file is new: after the third of its system calls it is there and empty. */
  lemma NewFile(s: State, p: Pid, gaps: seq<seq<Action>>)
    requires Inv(s) && MonitorOf(s, p).pc.OnCheck? && s.sh.counter == ATOPACCTTOT && NoneBy(p, gaps) && |gaps| == 6
    ensures var made := Run(s, Woven(p, gaps[..3]));
      && Inv(made) && MonitorOf(made, p).pc.OnOpen? && made.sh.size == 0 && made.sh.counter == ATOPACCTTOT
      && Run(s, Woven(p, gaps)) == Run(made, Woven(p, gaps[3..]))
  {
    hide Inv, Run, Recorded, Turned, UsersOf, MonitorOf, NotBy, Woven, Exits, Apply;
    assert NotBy(p, gaps[0]) && NotBy(p, gaps[1]) && NotBy(p, gaps[2]);
    var a := Turned(s, p, gaps[0]);
    Turn(s, p, gaps[0]);
    var b := Turned(a, p, gaps[1]);
    Turn(a, p, gaps[1]);
    var made := Turned(b, p, gaps[2]);
    Turn(b, p, gaps[2]);
    ThreeWoven(s, p, gaps);
    ThreeWoven(s, p, gaps[..3]);
    NothingWoven(made, p);
    assert gaps[..3][3..] == [];
  }

  lemma ThreeWoven(s: State, p: Pid, gaps: seq<seq<Action>>)
    requires |gaps| >= 3
    ensures Run(s, Woven(p, gaps)) ==
            Run(Turned(Turned(Turned(s, p, gaps[0]), p, gaps[1]), p, gaps[2]), Woven(p, gaps[3..]))
  {
    hide Run, Turned, Woven;
    WovenFirst(s, p, gaps);
    WovenFirst(Turned(s, p, gaps[0]), p, gaps[1..]);
    WovenFirst(Turned(Turned(s, p, gaps[0]), p, gaps[1]), p, gaps[2..]);
    assert gaps[1..][1..] == gaps[2..] && gaps[2..][1..] == gaps[3..];
  }

  /** What a monitor finds in the file when it is in: all that was there and has been recorded since, or, when it was
      the first, the records of the processes that exited after the file was made. */
  lemma FileOnEntry(s: State, p: Pid, gaps: seq<seq<Action>>)
    requires Inv(s) && MonitorOf(s, p).pc.Idle? && s.sh.mutex == 1 && s.sh.counter > 0 && NoneBy(p, gaps)
    requires |gaps| == if Users(s) == {} then 6 else 4
    ensures var u := Apply(s, Start(p));
      var t := Run(u, Woven(p, gaps));
      if Users(s) == {} then
        var made := Run(u, Woven(p, gaps[..3]));
        made.sh.size == 0 && t.sh.size == Recorded(made, Woven(p, gaps[3..]))
      else t.sh.size == s.sh.size + Recorded(u, Woven(p, gaps))
  {
    hide Inv, Run, Recorded, UsersOf, NotBy, Woven, Exits, Apply;
    AtRest(s, p);
    ClaimsToEnter(s, p);
    var u := Apply(s, Start(p));
    if Users(s) == {} {
      NewFile(u, p, gaps);
      assert NoneBy(p, gaps[3..]);
      FileCounts(Run(u, Woven(p, gaps[..3])), p, gaps[3..]);
    } else {
      FileCounts(u, p, gaps);
    }
  }

  /** A monitor that starts while the mutex is free, with a place left, gets in with its next system calls, whatever the
      others do between them: one place less, the mutex free, accounting on, and a file that others use untouched. */
  lemma Enters(s: State, p: Pid, gaps: seq<seq<Action>>)
    requires Inv(s) && MonitorOf(s, p).pc.Idle? && s.sh.mutex == 1 && s.sh.counter > 0 && NoneBy(p, gaps)
    requires |gaps| == if Users(s) == {} then 6 else 4
    ensures var t := Run(Apply(s, Start(p)), Woven(p, gaps));
      && Inv(t) && MonitorOf(t, p).pc.OnVersion? && t.sh.mutex == 1
      && Users(t) == Users(s) + {p} && t.sh.counter == s.sh.counter - 1
      && t.sh.on && t.sh.present && !t.sh.stale
      && (Users(s) != {} ==> t.sh == s.sh.(counter := s.sh.counter - 1, size := t.sh.size) && t.sh.size >= s.sh.size)
  {
    hide Inv, Run, UsersOf, Apply;
    var v := SeatOf(s, p);
    AtRest(s, p);
    ClaimsToEnter(s, p);
    GoesIn(v, Apply(s, Start(p)), p, gaps);
  }

  lemma ClaimsToEnter(s: State, p: Pid)
    requires Inv(s) && MonitorOf(s, p).pc.Idle? && s.sh.mutex == 1
    ensures var u := Apply(s, Start(p));
      Inv(u) && SeatOf(u, p) == Seat(s.sh.(mutex := 0), MonitorOf(s, p).(pc := OnCheck), Users(s))
  {
    hide Inv, UsersOf;
    var u := Apply(s, Start(p));
    AtRest(s, p);
    ApplyKeeps(s, Start(p));
    UsersAfter(s.monitors, p, MonitorOf(u, p));
  }

  /** Two more system calls, and it is active at the end of a file that is not empty. */
  lemma BecomesActive(s: State, p: Pid)
    requires Inv(s) && MonitorOf(s, p).pc.OnVersion? && s.sh.on
    ensures var t := Apply(Apply(s, Go(p)), Go(p));
      && MonitorOf(t, p) == Monitor(Active, t.sh.size) && t.sh.size > 0
      && t.sh == s.sh.(size := if s.sh.size == 0 then 1 else s.sh.size)
  {
    hide Inv;
  }

  // ------------------------------------------------------------------ a restart

  function CallsToRestart(pc: Point, alone: bool): nat {
    match pc
    case TrialTest => if alone then 5 else 2
    case TrialStop => 4
    case TrialTruncate => 3
    case TrialStart => 2
    case TrialRelease => 1
    case _ => 0
  }

  ghost predicate InRestart(v: Seat, p: Pid, w: Seat) {
    var alone := v.users == {p};
    var off := v.sh.(mutex := 0, on := false, size := w.sh.size);
    && w.users == v.users
    && match w.m.pc
       case TrialTest => Untouched(v, w) && w.sh.mutex == 0
       case TrialStop => alone && Untouched(v, w) && w.sh.mutex == 0
       case TrialTruncate => alone && w.sh == off
       case TrialStart => alone && w.sh == off
       case TrialRelease => Restarted(v, p, w) && w.sh.mutex == 0
       case Active => Restarted(v, p, w) && w.sh.mutex == 1
       case _ => false
  }

  ghost predicate Untouched(v: Seat, w: Seat) {
    w.sh == v.sh.(mutex := w.sh.mutex, size := w.sh.size) && w.sh.size >= v.sh.size && w.m.acctsize == v.m.acctsize
  }

  /** The only user stands at the start of a new file; any other where it was. */
  ghost predicate Restarted(v: Seat, p: Pid, w: Seat) {
    if v.users == {p} then w.sh == v.sh.(mutex := w.sh.mutex, size := w.sh.size) && w.m.acctsize == 0
    else Untouched(v, w)
  }

  lemma WayThrough(v: Seat, p: Pid, w: Seat, k: nat)
    requires InRestart(v, p, w) && CallsToRestart(w.m.pc, v.users == {p}) > 0 && k >= w.sh.size
    requires p in v.users && Recording(v.sh) && (v.sh.counter == ATOPACCTTOT - 1 <==> v.users == {p})
    requires v.sh.counter < ATOPACCTTOT
    ensures var next := Moved(w, p, k);
      && InRestart(v, p, next)
      && CallsToRestart(next.m.pc, v.users == {p}) == CallsToRestart(w.m.pc, v.users == {p}) - 1
  {
  }

  lemma {:induction false} GoesThrough(v: Seat, s: State, p: Pid, gaps: seq<seq<Action>>)
    requires Inv(s) && InRestart(v, p, SeatOf(s, p)) && NoneBy(p, gaps)
    requires p in v.users && Recording(v.sh) && (v.sh.counter == ATOPACCTTOT - 1 <==> v.users == {p})
    requires v.sh.counter < ATOPACCTTOT
    requires |gaps| == CallsToRestart(MonitorOf(s, p).pc, v.users == {p})
    ensures var t := Run(s, Woven(p, gaps));
      Inv(t) && MonitorOf(t, p).pc.Active? && InRestart(v, p, SeatOf(t, p))
    decreases |gaps|
  {
    hide Inv, Run, Recorded, Turned, Moved, InRestart, Recording, UsersOf, MonitorOf, NotBy, Woven;
    if |gaps| > 0 {
      assert InMutex(MonitorOf(s, p).pc) && NotBy(p, gaps[0]) && NoneBy(p, gaps[1..]);
      Turn(s, p, gaps[0]);
      var t := Turned(s, p, gaps[0]);
      var k := s.sh.size + Recorded(s, gaps[0]);
      WayThrough(v, p, SeatOf(s, p), k);
      GoesThrough(v, t, p, gaps[1..]);
      WovenFirst(s, p, gaps);
    } else {
      WovenNone(s, p);
      assert MonitorOf(s, p).pc.Active? by { ThroughAtLast(v, p, SeatOf(s, p)); }
    }
  }

  lemma ThroughAtLast(v: Seat, p: Pid, w: Seat)
    requires InRestart(v, p, w) && CallsToRestart(w.m.pc, v.users == {p}) == 0
    ensures w.m.pc.Active?
  {
  }

  /** A restart that gets the mutex comes to its end, whatever the others do meanwhile: accounting is on again and the
      mutex free. The only user is then at the start of the file; with others around nothing has happened. */
  lemma Restarts(s: State, p: Pid, gaps: seq<seq<Action>>)
    requires Inv(s) && MonitorOf(s, p).pc.TrialWait? && s.sh.mutex == 1 && NoneBy(p, gaps)
    requires |gaps| == if Users(s) == {p} then 5 else 2
    ensures var t := Run(Apply(s, Go(p)), Woven(p, gaps));
      && Inv(t) && MonitorOf(t, p).pc.Active? && t.sh == s.sh.(size := t.sh.size) && Users(t) == Users(s)
      && (if Users(s) == {p} then MonitorOf(t, p).acctsize == 0
          else MonitorOf(t, p).acctsize == MonitorOf(s, p).acctsize && t.sh.size >= s.sh.size)
  {
    hide Inv, Run, UsersOf, Apply, Recording, Settled;
    var v := SeatOf(s, p);
    AtRest(s, p);
    ClaimsForTrial(s, p);
    UserRecords(s, p);
    GoesThrough(v, Apply(s, Go(p)), p, gaps);
  }

  lemma ClaimsForTrial(s: State, p: Pid)
    requires Inv(s) && MonitorOf(s, p).pc.TrialWait? && s.sh.mutex == 1
    ensures var u := Apply(s, Go(p));
      Inv(u) && SeatOf(u, p) == Seat(s.sh.(mutex := 0), MonitorOf(s, p).(pc := TrialTest), Users(s))
  {
    hide Inv, UsersOf;
    var u := Apply(s, Go(p));
    AtRest(s, p);
    ApplyKeeps(s, Go(p));
    UsersAfter(s.monitors, p, MonitorOf(u, p));
  }

  lemma UserRecords(s: State, p: Pid)
    requires Inv(s) && IsUser(MonitorOf(s, p).pc) && s.sh.mutex == 1
    ensures p in Users(s) && Recording(s.sh) && s.sh.counter < ATOPACCTTOT
  {
    AtRest(s, p);
  }

  // ------------------------------------------------------------------ the records on the way

  function Range(lo: nat, hi: nat): seq<nat> { if lo >= hi then [] else Range(lo, hi - 1) + [hi - 1] }

  lemma {:induction false} RangeConcat(a: nat, b: nat, c: nat)
    requires a <= b <= c
    ensures Range(a, b) + Range(b, c) == Range(a, c)
  {
    if b < c {
      RangeConcat(a, b, c - 1);
      assert Range(a, b) + (Range(b, c - 1) + [c - 1]) == Range(a, b) + Range(b, c - 1) + [c - 1];
    } else {
      assert Range(b, c) == [];
    }
  }

  /** The numbers in the file of the records that p reads or skips in an action. */
  function PassedIn(s: State, a: Action, p: Pid): seq<nat> {
    var off := MonitorOf(s, p).acctsize;
    if a == Read(p) && off < s.sh.size then [off]
    else if a.Skip? && a.p == p && off + a.n <= s.sh.size then Range(off, off + a.n)
    else []
  }

  function Passed(s: State, acts: seq<Action>, p: Pid): seq<nat>
    decreases |acts|
  {
    if |acts| == 0 then [] else PassedIn(s, acts[0], p) + Passed(Apply(s, acts[0]), acts[1..], p)
  }

  predicate StaysActive(p: Pid, acts: seq<Action>) {
    forall i | 0 <= i < |acts| :: acts[i] != Stop(p) && acts[i] != Restart(p)
  }

  lemma PassesOne(s: State, a: Action, p: Pid)
    requires Inv(s) && MonitorOf(s, p).pc.Active? && a != Stop(p) && a != Restart(p)
    ensures var t := Apply(s, a);
      && Inv(t) && MonitorOf(t, p).pc.Active? && MonitorOf(s, p).acctsize <= MonitorOf(t, p).acctsize <= t.sh.size
      && PassedIn(s, a, p) == Range(MonitorOf(s, p).acctsize, MonitorOf(t, p).acctsize)
  {
    hide Inv, UsersOf, Range;
    var off := MonitorOf(s, p).acctsize;
    WithinFile(s, p);
    assert Range(off, off + 1) == [off] by { RangeOne(off); }
    ApplyKeeps(s, a);
    assert MonitorOf(Apply(s, a), p).pc.Active? by { KeepsActive(s, a, p); }
    WithinFile(Apply(s, a), p);
  }

  lemma KeepsActive(s: State, a: Action, p: Pid)
    requires MonitorOf(s, p).pc.Active? && a != Stop(p) && a != Restart(p)
    ensures MonitorOf(Apply(s, a), p).pc.Active?
  {
  }

  lemma RangeOne(n: nat)
    ensures Range(n, n + 1) == [n]
  {
    assert Range(n, n) == [];
  }

  /** Of what has been counted any number can be skipped; a read takes one record, if there is one. */
  lemma SkipsOrReads(s: State, p: Pid, n: nat)
    requires Inv(s) && MonitorOf(s, p).pc.Active?
    ensures MonitorOf(s, p).acctsize <= s.sh.size
    ensures n <= s.sh.size - MonitorOf(s, p).acctsize ==>
            MonitorOf(Apply(s, Skip(p, n)), p) == Monitor(Active, MonitorOf(s, p).acctsize + n)
    ensures MonitorOf(Apply(s, Read(p)), p).acctsize ==
            MonitorOf(s, p).acctsize + if MonitorOf(s, p).acctsize < s.sh.size then 1 else 0
  {
    hide Inv;
    WithinFile(s, p);
  }

  /** Between start, restart and stop the records that a monitor reads and skips are the consecutive ones from where it
      stood to where it stands, each exactly once. */
  lemma {:induction false} PassesAll(s: State, acts: seq<Action>, p: Pid)
    requires Inv(s) && MonitorOf(s, p).pc.Active? && StaysActive(p, acts)
    ensures var t := Run(s, acts);
      && MonitorOf(t, p).pc.Active? && MonitorOf(s, p).acctsize <= MonitorOf(t, p).acctsize <= t.sh.size
      && Passed(s, acts, p) == Range(MonitorOf(s, p).acctsize, MonitorOf(t, p).acctsize)
    decreases |acts|
  {
    hide Inv, Apply, MonitorOf, PassedIn, Range;
    if |acts| > 0 {
      var t := Apply(s, acts[0]);
      PassesOne(s, acts[0], p);
      assert StaysActive(p, acts[1..]);
      PassesAll(t, acts[1..], p);
      RangeConcat(MonitorOf(s, p).acctsize, MonitorOf(t, p).acctsize, MonitorOf(Run(s, acts), p).acctsize);
    } else {
      WithinFile(s, p);
    }
  }

  lemma WithinFile(s: State, p: Pid)
    requires Inv(s) && MonitorOf(s, p).pc.Active?
    ensures MonitorOf(s, p).acctsize <= s.sh.size
    ensures Range(MonitorOf(s, p).acctsize, MonitorOf(s, p).acctsize) == []
  {
    KnowsBefore(s, p);
  }

  // ------------------------------------------------------------------ one too many

  /** Nobody gets anywhere: p is inside the mutex, and waits for a place that only somebody inside could give up. */
  ghost predicate Stuck(s: State, p: Pid) { MonitorOf(s, p).pc.OnDecrement? && s.sh.counter == 0 }

  lemma StuckStep(s: State, p: Pid, a: Action)
    requires Inv(s) && Stuck(s, p)
    ensures Inv(Apply(s, a)) && Stuck(Apply(s, a), p) && Users(Apply(s, a)) == Users(s)
  {
    hide Inv, UsersOf, Apply;
    ApplyKeeps(s, a);
    if !a.ProcessExits? && a.p == p {
      OwnStepStuck(s, a);
    } else {
      assert NotBy(p, [a]);
      OtherWaits(s, a, p);
    }
  }

  lemma OwnStepStuck(s: State, a: Action)
    requires !a.ProcessExits? && Stuck(s, a.p)
    ensures Apply(s, a) == s
  {
    assert s.monitors[a.p := s.monitors[a.p]] == s.monitors;
  }

  lemma {:induction false} StuckForever(s: State, p: Pid, acts: seq<Action>)
    requires Inv(s) && Stuck(s, p)
    ensures Stuck(Run(s, acts), p) && Users(Run(s, acts)) == Users(s)
    decreases |acts|
  {
    hide Inv, Apply, Stuck, UsersOf;
    if |acts| > 0 {
      StuckStep(s, p, acts[0]);
      StuckForever(Apply(s, acts[0]), p, acts[1..]);
    }
  }

  /** When all 100 places are taken, one more monitor that starts brings everything to a standstill: it never gets in,
      and none of the others ever gets out. */
  lemma OneTooMany(s: State, p: Pid, gaps: seq<seq<Action>>, acts: seq<Action>)
    requires Inv(s) && MonitorOf(s, p).pc.Idle? && s.sh.mutex == 1 && s.sh.counter == 0
    requires NoneBy(p, gaps) && |gaps| == 2
    ensures var t := Run(Run(Apply(s, Start(p)), Woven(p, gaps)), acts);
      MonitorOf(t, p).pc.OnDecrement? && t.sh.mutex == 0 && t.sh.counter == 0 && Users(t) == Users(s)
  {
    hide Inv, Run, UsersOf, Apply, NotBy, Woven, MonitorOf, Turned;
    ClaimsToEnter(s, p);
    NoPlaceLeft(s, p);
    var u := Apply(s, Start(p));
    var t := Run(u, Woven(p, gaps));
    GetsStuck(u, p, gaps);
    StuckForever(t, p, acts);
    StuckInside(t, p, acts);
  }

  lemma NoPlaceLeft(s: State, p: Pid)
    requires Inv(s) && s.sh.mutex == 1 && s.sh.counter == 0
    ensures Users(s) != {}
  {
    AtRest(s, p);
  }

  lemma GetsStuck(s: State, p: Pid, gaps: seq<seq<Action>>)
    requires Inv(s) && MonitorOf(s, p).pc.OnCheck? && s.sh.counter == 0 && NoneBy(p, gaps) && |gaps| == 2
    ensures var t := Run(s, Woven(p, gaps)); Inv(t) && Stuck(t, p) && Users(t) == Users(s)
  {
    hide Inv, Run, UsersOf, Apply, NotBy, Woven, MonitorOf, Turned;
    assert NotBy(p, gaps[0]) && NotBy(p, gaps[1]);
    var t := Turned(s, p, gaps[0]);
    Turn(s, p, gaps[0]);
    assert MonitorOf(t, p).pc.OnOpen? && t.sh.counter == 0 && Users(t) == Users(s) by { NotAUser(s, p); }
    Turn(t, p, gaps[1]);
    assert Stuck(Turned(t, p, gaps[1]), p) && Users(Turned(t, p, gaps[1])) == Users(t) by { NotAUser(t, p); }
    WovenFirst(s, p, gaps);
    WovenFirst(t, p, gaps[1..]);
    assert gaps[1..][1..] == [];
    WovenNone(Turned(t, p, gaps[1]), p);
  }

  lemma NotAUser(s: State, p: Pid)
    requires Inv(s) && !IsUser(MonitorOf(s, p).pc)
    ensures p !in Users(s)
  {
  }

  lemma StuckInside(s: State, p: Pid, acts: seq<Action>)
    requires Inv(s) && Stuck(Run(s, acts), p)
    ensures Run(s, acts).sh.mutex == 0
  {
    RunKeeps(s, acts);
  }

  // ------------------------------------------------------------------ two runs from the start

  function Nothing(n: nat): seq<seq<Action>> { if n == 0 then [] else [[]] + Nothing(n - 1) }

  lemma {:induction false} NothingByNobody(p: Pid, n: nat)
    ensures NoneBy(p, Nothing(n)) && |Nothing(n)| == n
  {
    if n > 0 { NothingByNobody(p, n - 1); }
  }

  /** The acts of a monitor that starts undisturbed. */
  function Entrance(p: Pid, n: nat): seq<Action> { [Start(p)] + Woven(p, Nothing(n)) }

  /** n monitors can be there at a time, for every n up to 100. */
  lemma {:induction false} ManyAtOnce(n: nat) returns (acts: seq<Action>)
    requires n <= 100
    ensures var s := Run(Init(false, 0), acts);
      Inv(s) && s.sh.mutex == 1 && s.sh.counter == 100 - n && forall p :: p in s.monitors ==> p < n
  {
    hide Inv, Run, UsersOf, Apply, NoneBy, Woven, Nothing;
    acts := [];
    InitKeeps(false, 0);
    assert Run(Init(false, 0), []) == Init(false, 0) by { RunNothing(Init(false, 0)); }
    if n > 0 {
      acts := ManyAtOnce(n - 1);
      var s, p := Run(Init(false, 0), acts), n - 1;
      var k := if Users(s) == {} then 6 else 4;
      NothingByNobody(p, k);
      Enters(s, p, Nothing(k));
      RunConcat(Init(false, 0), acts, Entrance(p, k));
      RunConcat(s, [Start(p)], Woven(p, Nothing(k)));
      RunOne(s, Start(p));
      OnlyOneMore(s, p, k);
      acts := acts + Entrance(p, k);
    }
  }

  lemma RunNothing(s: State)
    ensures Run(s, []) == s
  {
  }

  lemma OnlyOneMore(s: State, p: Pid, n: nat)
    ensures Run(Apply(s, Start(p)), Woven(p, Nothing(n))).monitors.Keys == s.monitors.Keys + {p}
  {
    hide Run;
    OnlyBy(Apply(s, Start(p)), p, n);
  }

  lemma {:induction false} OnlyBy(s: State, p: Pid, n: nat)
    requires p in s.monitors
    ensures Run(s, Woven(p, Nothing(n))).monitors.Keys == s.monitors.Keys
    decreases n
  {
    hide Run, Woven, Apply;
    if n == 0 {
      WovenNone(s, p);
    } else {
      WovenFirst(s, p, Nothing(n));
      assert Nothing(n)[1..] == Nothing(n - 1);
      RunNothing(s);
      OnlyP(s, p);
      OnlyBy(Apply(s, Go(p)), p, n - 1);
    }
  }

  lemma OnlyP(s: State, p: Pid)
    requires p in s.monitors
    ensures Apply(s, Go(p)).monitors.Keys == s.monitors.Keys
  {
    hide Next;
  }

  /** From the start it takes a hundred and one monitors: then none gets in or out any more, whatever happens. */
  lemma Standstill(later: seq<Action>) returns (acts: seq<Action>, p: Pid)
    ensures var s := Run(Init(false, 0), acts);
      var t := Run(s, later);
      && MonitorOf(s, p).pc.OnDecrement? && |Users(s)| == 100
      && MonitorOf(t, p).pc.OnDecrement? && Users(t) == Users(s) && t.sh.mutex == 0
  {
    hide Inv, Run, UsersOf, Apply, NotBy, NoneBy, Woven, Nothing;
    acts := ManyAtOnce(100);
    p := 100;
    var s := Run(Init(false, 0), acts);
    assert MonitorOf(s, p).pc.Idle?;
    NothingByNobody(p, 2);
    AtRest(s, p);
    OneTooMany(s, p, Nothing(2), []);
    OneTooMany(s, p, Nothing(2), later);
    RunConcat(Init(false, 0), acts, Entrance(p, 2));
    RunConcat(s, [Start(p)], Woven(p, Nothing(2)));
    RunOne(s, Start(p));
    RunNothing(Run(Init(false, 0), acts + Entrance(p, 2)));
    acts := acts + Entrance(p, 2);
  }

  function ManyExits(n: nat): seq<Action> { if n == 0 then [] else [ProcessExits] + ManyExits(n - 1) }

  lemma {:induction false} FileGrows(s: State, n: nat)
    requires s.sh.on
    ensures Run(s, ManyExits(n)) == s.(sh := s.sh.(size := s.sh.size + n))
    decreases n
  {
    if n > 0 {
      assert ManyExits(n)[1..] == ManyExits(n - 1);
      FileGrows(Apply(s, ProcessExits), n - 1);
    }
  }

  /** Only p is there. */
  function Alone(p: Pid, pc: Point, on: bool, size: nat, off: nat): State {
    State(Shared(if InMutex(pc) then 0 else 1, 99, on, true, size, false), map[p := Monitor(pc, off)])
  }

  /** p restarts at the end of a file of n records; a process exits before accounting is stopped. */
  function Losing(p: Pid): seq<Action> { [Restart(p), Go(p), Go(p), ProcessExits, Go(p)] }

  lemma Loses(p: Pid, n: nat)
    requires n > MAXFILERECS
    ensures Run(Alone(p, Active, true, n, n), Losing(p)) == Alone(p, TrialTruncate, false, n + 1, n)
  {
    hide Run, Apply;
    LosesStep(p, n);
    RunFive(Alone(p, Active, true, n, n), Restart(p), Go(p), Go(p), ProcessExits, Go(p));
  }

  lemma RunFive(s: State, a: Action, b: Action, c: Action, d: Action, e: Action)
    ensures Run(s, [a, b, c, d, e]) == Apply(Apply(Apply(Apply(Apply(s, a), b), c), d), e)
  {
    hide Run, Apply;
    RunConcat(s, [a, b, c, d], [e]);
    RunConcat(s, [a, b, c], [d]);
    RunConcat(s, [a, b], [c]);
    RunConcat(s, [a], [b]);
    assert [a] + [b] == [a, b] && [a, b] + [c] == [a, b, c] && [a, b, c] + [d] == [a, b, c, d];
    assert [a, b, c, d] + [e] == [a, b, c, d, e];
    RunOne(s, a);
    RunOne(Run(s, [a]), b);
    RunOne(Run(s, [a, b]), c);
    RunOne(Run(s, [a, b, c]), d);
    RunOne(Run(s, [a, b, c, d]), e);
  }

  lemma LosesStep(p: Pid, n: nat)
    requires n > MAXFILERECS
    ensures Apply(Alone(p, Active, true, n, n), Restart(p)) == Alone(p, TrialWait, true, n, n)
    ensures Apply(Alone(p, TrialWait, true, n, n), Go(p)) == Alone(p, TrialTest, true, n, n)
    ensures Apply(Alone(p, TrialTest, true, n, n), Go(p)) == Alone(p, TrialStop, true, n, n)
    ensures Apply(Alone(p, TrialStop, true, n, n), ProcessExits) == Alone(p, TrialStop, true, n + 1, n)
    ensures Apply(Alone(p, TrialStop, true, n + 1, n), Go(p)) == Alone(p, TrialTruncate, false, n + 1, n)
  {
  }

  lemma FirstOne(p: Pid) returns (k: nat)
    ensures var acts := Entrance(p, 6) + [Go(p), Go(p)];
      Run(Init(false, 0), acts) == Alone(p, Active, true, k, k)
  {
    hide Run, UsersOf, Apply, NoneBy, Woven, Nothing;
    var s := Init(false, 0);
    InitKeeps(false, 0);
    NothingByNobody(p, 6);
    assert Users(s) == {} by { NoUsersYet(); }
    Enters(s, p, Nothing(6));
    OnlyOneMore(s, p, 6);
    var t := Run(Apply(s, Start(p)), Woven(p, Nothing(6)));
    BecomesActive(t, p);
    RunConcat(s, Entrance(p, 6), [Go(p), Go(p)]);
    RunConcat(s, [Start(p)], Woven(p, Nothing(6)));
    RunOne(s, Start(p));
    assert [Go(p)] + [Go(p)] == [Go(p), Go(p)];
    RunConcat(t, [Go(p)], [Go(p)]);
    RunOne(t, Go(p));
    RunOne(Apply(t, Go(p)), Go(p));
    var u := Apply(Apply(t, Go(p)), Go(p));
    assert u.monitors.Keys == {p} by { OnlyP(t, p); OnlyP(Apply(t, Go(p)), p); }
    k := u.sh.size;
    assert u.monitors == map[p := Monitor(Active, k)];
  }

  lemma NoUsersYet()
    ensures Users(Init(false, 0)) == {}
  {
  }

  /** It does happen: the only monitor has read a file that has grown too long, a process exits before accounting is
      stopped, and its record, which nobody has read, goes with the file. */
  lemma RestartLosesOne(p: Pid) returns (acts: seq<Action>)
    ensures var s := Run(Init(false, 0), acts);
      && MonitorOf(s, p).pc.TrialTruncate? && s.sh.size == MonitorOf(s, p).acctsize + 1
      && Apply(s, Go(p)).sh.size == 0
  {
    hide Run, Apply, Entrance, ManyExits, Losing;
    var k := FirstOne(p);
    var first := Entrance(p, 6) + [Go(p), Go(p)];
    var s1, n := Alone(p, Active, true, k, k), k + MAXFILERECS + 1;
    FileGrows(s1, MAXFILERECS + 1);
    var s2 := Alone(p, Active, true, n, k);
    assert Apply(s2, Skip(p, n - k)) == Alone(p, Active, true, n, n) by { SkipsAll(p, n, k); }
    Loses(p, n);
    RunConcat(Init(false, 0), first, ManyExits(MAXFILERECS + 1));
    RunConcat(Init(false, 0), first + ManyExits(MAXFILERECS + 1), [Skip(p, n - k)]);
    RunOne(s2, Skip(p, n - k));
    acts := first + ManyExits(MAXFILERECS + 1) + [Skip(p, n - k)];
    RunConcat(Init(false, 0), acts, Losing(p));
    acts := acts + Losing(p);
    Truncates(p, n);
  }

  lemma SkipsAll(p: Pid, n: nat, k: nat)
    requires k <= n
    ensures Apply(Alone(p, Active, true, n, k), Skip(p, n - k)) == Alone(p, Active, true, n, n)
  {
  }

  lemma Truncates(p: Pid, n: nat)
    ensures Apply(Alone(p, TrialTruncate, false, n + 1, n), Go(p)).sh.size == 0
  {
  }
}
