/**
 What the daemon's functions do while clients act between their system calls, as a function of
 what the clients are going to do: the loop of gcshadows, and the reset after the last client.
 Batches, collections and clean resets are runs of the step system.
 */
module ShadowSchedule {
  import opened Prelude
  import opened ShadowProtocol

  /** The system calls of one batch, in order; those that are not reached leave the state alone. */
  function BatchScript(batch: seq<Record>, room1: bool, room2: bool): seq<Action> {
    [Receive(batch), PassFirst(room1), CreateNext, WipeCurrent, WriteCurrent, PassRest(room2)]
  }

  function GcRound(): seq<Action> { [GcTest, GcRelease, GcRemove] }

  /** n files removed, and one more test that ends the collection. */
  function GcScript(n: nat): seq<Action> {
    [GcStart] + GcRounds(n) + [GcTest]
  }

  function GcRounds(n: nat): seq<Action> {
    if n == 0 then [] else GcRounds(n - 1) + GcRound()
  }

  lemma {:induction false} RunConcat(s: State, a: seq<Action>, b: seq<Action>)
    ensures Run(s, a + b) == Run(Run(s, a), b)
    decreases |a|
  {
    hide Apply;
    if |a| == 0 {
      assert a + b == b;
    } else {
      RunConcat(Apply(s, a[0]), a[1..], b);
      assert (a + b)[0] == a[0] && (a + b)[1..] == a[1..] + b;
    }
  }

  lemma RunOne(s: State, a: Action)
    ensures Run(s, [a]) == Apply(s, a)
  {
    hide Apply;
    assert [a][1..] == [];
  }

  lemma RunFirst(s: State, a: Action, rest: seq<Action>)
    ensures Run(s, [a] + rest) == Run(Apply(s, a), rest)
  {
    hide Apply;
    assert ([a] + rest)[0] == a && ([a] + rest)[1..] == rest;
  }

  /** The steps of one batch, written out. */
  lemma BatchRun(s: State, batch: seq<Record>, room1: bool, room2: bool)
    ensures Run(s, BatchScript(batch, room1, room2)) ==
            PassRestPart(PublishNew(Truncate(CreateFile(PassFirstPart(ReceiveBatch(s, batch), room1)))), room2)
  {
    hide ReceiveBatch, PassFirstPart, CreateFile, Truncate, PublishNew, PassRestPart;
    var s1 := ReceiveBatch(s, batch);
    var s2 := PassFirstPart(s1, room1);
    var s3 := CreateFile(s2);
    var s4 := Truncate(s3);
    var s5 := PublishNew(s4);
    RunFirst(s, Receive(batch), [PassFirst(room1), CreateNext, WipeCurrent, WriteCurrent, PassRest(room2)]);
    RunFirst(s1, PassFirst(room1), [CreateNext, WipeCurrent, WriteCurrent, PassRest(room2)]);
    RunFirst(s2, CreateNext, [WipeCurrent, WriteCurrent, PassRest(room2)]);
    RunFirst(s3, WipeCurrent, [WriteCurrent, PassRest(room2)]);
    RunFirst(s4, WriteCurrent, [PassRest(room2)]);
    RunFirst(s5, PassRest(room2), []);
    assert [PassRest(room2)] + [] == [PassRest(room2)];
    assert [WriteCurrent] + [PassRest(room2)] == [WriteCurrent, PassRest(room2)];
    assert [WipeCurrent] + [WriteCurrent, PassRest(room2)] == [WipeCurrent, WriteCurrent, PassRest(room2)];
    assert [CreateNext] + [WipeCurrent, WriteCurrent, PassRest(room2)]
        == [CreateNext, WipeCurrent, WriteCurrent, PassRest(room2)];
    assert [PassFirst(room1)] + [CreateNext, WipeCurrent, WriteCurrent, PassRest(room2)]
        == [PassFirst(room1), CreateNext, WipeCurrent, WriteCurrent, PassRest(room2)];
    assert [Receive(batch)] + [PassFirst(room1), CreateNext, WipeCurrent, WriteCurrent, PassRest(room2)]
        == BatchScript(batch, room1, room2);
  }

  /** After the last client the reset takes the place of the whole batch. */
  lemma BatchWithoutClients(s: State, batch: seq<Record>, room1: bool, room2: bool)
    requires s.pc.Waiting? && 0 < |batch| <= BUFRECS && NumClients(s.disk) == 0
    ensures Run(s, BatchScript(batch, room1, room2)) == if s.shadowbusy then Reset(s) else s
  {
    BatchRun(s, batch, room1, room2);
  }

  /** The files lo..hi-1 are gone from the table. */
  function Without(files: map<nat, seq<Record>>, lo: nat, hi: nat): map<nat, seq<Record>> {
    map k | k in files && !(lo <= k < hi) :: files[k]
  }

  lemma WithoutNext(files: map<nat, seq<Record>>, lo: nat, hi: nat)
    requires lo <= hi
    ensures Without(files, lo, hi + 1) == Without(files, lo, hi) - {hi}
  {
  }

  /** s after the removal of its n oldest files. */
  function Collected(s: State, n: nat): State {
    s.(disk := s.disk.(files := Without(s.disk.files, s.oldshadow, s.oldshadow + n)), oldshadow := s.oldshadow + n)
  }

  lemma CollectOne(s: State)
    requires s.pc.GcTry? && s.oldshadow < s.curshadow && s.oldshadow in s.disk.files
    requires !ReadLocked(s.disk, s.oldshadow)
    ensures Run(s, GcRound()) ==
            s.(disk := s.disk.(files := s.disk.files - {s.oldshadow}), oldshadow := s.oldshadow + 1)
  {
    hide ReadLocked;
    var s1 := s.(pc := GcHeld);
    var s2 := s.(pc := GcUnlink);
    RunFirst(s, GcTest, [GcRelease, GcRemove]);
    RunFirst(s1, GcRelease, [GcRemove]);
    RunOne(s2, GcRemove);
    assert [GcRelease] + [GcRemove] == [GcRelease, GcRemove];
    assert [GcTest] + [GcRelease, GcRemove] == GcRound();
  }

  lemma {:induction false} CollectMany(s: State, n: nat)
    requires s.pc.GcTry? && s.oldshadow + n <= s.curshadow
    requires forall k: nat :: s.oldshadow <= k < s.oldshadow + n ==> k in s.disk.files && !ReadLocked(s.disk, k)
    ensures Run(s, GcRounds(n)) == Collected(s, n)
  {
    hide ReadLocked, Run;
    if n == 0 {
      assert Without(s.disk.files, s.oldshadow, s.oldshadow) == s.disk.files;
      assert Run(s, []) == s by { RunNone(s); }
    } else {
      CollectMany(s, n - 1);
      var t := Collected(s, n - 1);
      RunConcat(s, GcRounds(n - 1), GcRound());
      SameLocks(s.disk, t.disk, t.oldshadow);
      CollectOne(t);
      WithoutNext(s.disk.files, s.oldshadow, t.oldshadow);
    }
  }

  lemma DaemonNone()
    ensures Daemon([]) == []
  {
  }

  lemma WithoutNone(files: map<nat, seq<Record>>, lo: nat)
    ensures Without(files, lo, lo) == files
  {
  }

  lemma StillThere(files: map<nat, seq<Record>>, lo: nat, hi: nat)
    ensures hi in Without(files, lo, hi) <==> hi in files
  {
  }

  lemma NobodyLocks(s: State)
    requires Inv(s) && NumClients(s.disk) == 0
    ensures s.oldshadow <= s.curshadow && forall k: nat :: s.oldshadow <= k <= s.curshadow ==> k in s.disk.files
    ensures forall k: nat :: k in s.disk.files ==> s.oldshadow <= k <= s.curshadow
    ensures s.disk.clients == map[] && forall d: Disk, k: nat :: d.clients == s.disk.clients ==> !ReadLocked(d, k)
  {
    assert s.disk.clients == map[];
  }

  lemma AllGone(files: map<nat, seq<Record>>, lo: nat, hi: nat)
    requires forall k: nat :: k in files ==> lo <= k < hi
    ensures Without(files, lo, hi) == map[]
  {
  }

  lemma RunNone(s: State)
    ensures Run(s, []) == s
  {
  }

  lemma SameLocks(d: Disk, e: Disk, k: nat)
    requires d.clients == e.clients
    ensures ReadLocked(d, k) == ReadLocked(e, k)
  {
  }

  lemma CollectionStarts(s: State)
    requires s.pc.Waiting? && s.shadowbusy
    ensures Apply(s, GcStart) == s.(pc := GcTry)
  {
  }

  lemma CollectionStops(s: State)
    requires s.pc.GcTry?
    requires s.oldshadow >= s.curshadow || s.oldshadow !in s.disk.files || ReadLocked(s.disk, s.oldshadow)
    ensures Apply(s, GcTest) == s.(pc := Waiting)
  {
  }

  /** A whole collection: it ends at the first file in use, or at the newest. */
  lemma CollectRun(s: State, n: nat)
    requires s.pc.Waiting? && s.shadowbusy && s.oldshadow + n <= s.curshadow
    requires forall k: nat :: s.oldshadow <= k < s.oldshadow + n ==> k in s.disk.files && !ReadLocked(s.disk, k)
    requires var k := s.oldshadow + n; k == s.curshadow || k !in s.disk.files || ReadLocked(s.disk, k)
    ensures Run(s, GcScript(n)) == Collected(s, n)
  {
    hide Run, Apply, ReadLocked, Without;
    var s1 := s.(pc := GcTry);
    CollectMany(s1, n);
    var s2 := Collected(s1, n);
    RunConcat(s, [GcStart], GcRounds(n) + [GcTest]);
    RunOne(s, GcStart);
    CollectionStarts(s);
    RunConcat(s1, GcRounds(n), [GcTest]);
    RunOne(s2, GcTest);
    SameLocks(s.disk, s2.disk, s2.oldshadow);
    StillThere(s.disk.files, s.oldshadow, s2.oldshadow);
    CollectionStops(s2);
    assert GcScript(n) == [GcStart] + (GcRounds(n) + [GcTest]);
  }

  lemma NewestExists(s: State)
    requires Inv(s)
    ensures s.oldshadow <= s.curshadow
    ensures forall k: nat :: s.oldshadow <= k <= s.curshadow ==> k in s.disk.files
  {
  }

  // ------------------------------------------------------------------ clients in between

  /** The daemon's own actions in a run. */
  function Daemon(acts: seq<Action>): seq<Action> {
    if |acts| == 0 then []
    else
      var n := |acts| - 1;
      if acts[n].ByClient? then Daemon(acts[..n]) else Daemon(acts[..n]) + [acts[n]]
  }

  lemma {:induction false} DaemonConcat(a: seq<Action>, b: seq<Action>)
    ensures Daemon(a + b) == Daemon(a) + Daemon(b)
  {
    if |b| == 0 {
      assert a + b == a;
    } else {
      DaemonConcat(a, b[..|b| - 1]);
      assert (a + b)[..|a + b| - 1] == a + b[..|b| - 1];
    }
  }

  lemma DaemonOne(a: Action)
    ensures Daemon([a]) == if a.ByClient? then [] else [a]
  {
    assert [a][..0] == [];
  }

  lemma DaemonSnoc(acts: seq<Action>, a: Action)
    ensures Daemon(acts + [a]) == if a.ByClient? then Daemon(acts) else Daemon(acts) + [a]
  {
    DaemonConcat(acts, [a]);
    DaemonOne(a);
  }

  /** One action of the daemon, and then some of clients. */
  lemma StepAndClients(s: State, acts: seq<Action>, t: State, a: Action, clients: seq<Action>)
    requires Run(s, acts) == t && Daemon(clients) == [] && !a.ByClient?
    ensures Run(s, acts + [a] + clients) == Run(Apply(t, a), clients)
    ensures Daemon(acts + [a] + clients) == Daemon(acts) + [a]
  {
    hide Run, Apply, Daemon;
    RunSnoc(s, acts, a);
    RunConcat(s, acts + [a], clients);
    DaemonSnoc(acts, a);
    DaemonConcat(acts + [a], clients);
  }

  lemma RunSnoc(s: State, acts: seq<Action>, a: Action)
    ensures Run(s, acts + [a]) == Apply(Run(s, acts), a)
  {
    hide Run, Apply;
    RunConcat(s, acts, [a]);
    RunOne(Run(s, acts), a);
  }

  /** A client's call changes what is on disk, and depends on nothing but that and the collector's lock. */
  lemma CallsSeeTheDisk(s: State, t: State, id: ClientId, call: ClientCall)
    requires s.disk == t.disk && s.oldshadow == t.oldshadow && s.pc == t.pc
    ensures CallOf(s, id, call) == s.(disk := CallOf(t, id, call).disk)
  {
  }

  lemma TestPasses(s: State)
    requires s.pc.GcTry? && s.oldshadow < s.curshadow && s.oldshadow in s.disk.files && !ReadLocked(s.disk, s.oldshadow)
    ensures Apply(s, GcTest) == s.(pc := GcHeld)
  {
  }

  lemma LockGoes(s: State)
    requires s.pc.GcHeld?
    ensures Apply(s, GcRelease) == s.(pc := GcUnlink)
  {
  }

  lemma FileGoes(s: State)
    requires s.pc.GcUnlink?
    ensures Apply(s, GcRemove) ==
      s.(disk := s.disk.(files := s.disk.files - {s.oldshadow}), oldshadow := s.oldshadow + 1, pc := GcTry)
  {
  }

  datatype Call = Call(id: ClientId, call: ClientCall)

  function Acts(calls: seq<Call>): seq<Action> {
    if |calls| == 0 then []
    else
      var n := |calls| - 1;
      Acts(calls[..n]) + [ByClient(calls[n].id, calls[n].call)]
  }

  lemma {:induction false} ActsConcat(a: seq<Call>, b: seq<Call>)
    ensures Acts(a + b) == Acts(a) + Acts(b)
  {
    if |b| == 0 {
      assert a + b == a;
    } else {
      ActsConcat(a, b[..|b| - 1]);
      assert (a + b)[..|a + b| - 1] == a + b[..|b| - 1];
    }
  }

  lemma RunActs(s: State, calls: seq<Call>, n: nat)
    requires n < |calls|
    ensures Run(s, Acts(calls[..n + 1])) == CallOf(Run(s, Acts(calls[..n])), calls[n].id, calls[n].call)
    ensures Acts(calls[..n + 1]) == Acts(calls[..n]) + [ByClient(calls[n].id, calls[n].call)]
  {
    hide Run, CallOf;
    assert calls[..n + 1][..n] == calls[..n];
    RunSnoc(s, Acts(calls[..n]), ByClient(calls[n].id, calls[n].call));
  }

  lemma {:induction false} ActsByClients(calls: seq<Call>)
    ensures Daemon(Acts(calls)) == []
  {
    hide Daemon;
    DaemonNone();
    if |calls| > 0 {
      var n := |calls| - 1;
      ActsByClients(calls[..n]);
      DaemonSnoc(Acts(calls[..n]), ByClient(calls[n].id, calls[n].call));
    }
  }

  /** Client calls change the table of clients and nothing else. */
  lemma {:induction false} ActsKeep(s: State, calls: seq<Call>)
    ensures var t := Run(s, Acts(calls));
      t == s.(disk := s.disk.(clients := t.disk.clients, sempub := t.disk.sempub))
  {
    hide CallOf, Run;
    if |calls| == 0 {
      RunNone(s);
    } else {
      var n := |calls| - 1;
      assert calls[..n + 1] == calls;
      ActsKeep(s, calls[..n]);
      RunActs(s, calls, n);
      CallKeeps(Run(s, Acts(calls[..n])), calls[n].id, calls[n].call);
    }
  }

  lemma CallKeeps(s: State, id: ClientId, call: ClientCall)
    ensures var t := CallOf(s, id, call);
      t == s.(disk := s.disk.(clients := t.disk.clients, sempub := t.disk.sempub))
  {
  }

  // ------------------------------------------------------------------ a schedule of client calls

  /** The calls before the next system call of the daemon, and those further on. */
  function Gap(schedule: seq<seq<Call>>): seq<Call> { if schedule == [] then [] else schedule[0] }

  function Later(schedule: seq<seq<Call>>): seq<seq<Call>> { if schedule == [] then [] else schedule[1..] }

  /** All calls of a schedule, in order. */
  function Flat(schedule: seq<seq<Call>>): seq<Call> {
    if |schedule| == 0 then [] else schedule[0] + Flat(schedule[1..])
  }

  lemma FlatGap(schedule: seq<seq<Call>>)
    ensures Flat(schedule) == Gap(schedule) + Flat(Later(schedule))
  {
  }

  /** The state, and what clients are going to do. */
  datatype Moment = Moment(s: State, schedule: seq<seq<Call>>)

  function Served(m: Moment): Moment { Moment(Run(m.s, Acts(Gap(m.schedule))), Later(m.schedule)) }

  lemma ServedKeeps(m: Moment)
    ensures var t := Served(m).s;
      t == m.s.(disk := m.s.disk.(clients := t.disk.clients, sempub := t.disk.sempub))
    ensures Served(m).schedule == Later(m.schedule)
    ensures m.schedule == [] ==> Served(m) == m
  {
    ActsKeep(m.s, Gap(m.schedule));
    RunNone(m.s);
  }

  function Stepped(m: Moment, a: Action): Moment { m.(s := Apply(m.s, a)) }

  function Moved(m: Moment, pc: Point): Moment { m.(s := m.s.(pc := pc)) }

  // ------------------------------------------------------------------ the collector with any clients

  /** The oldest file, found unlocked, is closed and removed. */
  function Removed(m: Moment): Moment {
    Served(Stepped(Served(Stepped(Served(Moved(m, GcHeld)), GcRelease)), GcRemove))
  }

  lemma RemovedKeeps(m: Moment)
    ensures var t := Removed(m).s;
      t == m.s.(disk := m.s.disk.(files := m.s.disk.files - {m.s.oldshadow}, clients := t.disk.clients,
                                  sempub := t.disk.sempub),
                oldshadow := m.s.oldshadow + 1, pc := GcTry)
    ensures m.schedule == [] ==> Removed(m).schedule == [] && Removed(m).s.disk.clients == m.s.disk.clients
                                 && Removed(m).s.disk.sempub == m.s.disk.sempub
  {
    hide Served, Apply;
    var a := Moved(m, GcHeld);
    ServedKeeps(a);
    LockGoes(Served(a).s);
    var b := Stepped(Served(a), GcRelease);
    ServedKeeps(b);
    FileGoes(Served(b).s);
    ServedKeeps(Stepped(Served(b), GcRemove));
  }

  /** The loop of gcshadows. */
  function Swept(m: Moment, limit: nat): Moment
    decreases limit - m.s.oldshadow
  {
    if m.s.oldshadow < limit && m.s.oldshadow in m.s.disk.files && !ReadLocked(m.s.disk, m.s.oldshadow)
    then
      RemovedKeeps(m);
      Swept(Removed(m), limit)
    else m
  }

  lemma WithoutFirst(files: map<nat, seq<Record>>, lo: nat, hi: nat)
    requires lo < hi
    ensures Without(files - {lo}, lo + 1, hi) == Without(files, lo, hi)
  {
  }

  /** The oldest files go, up to the first that is locked, missing or limit. */
  lemma {:induction false} SweptKeeps(m: Moment, limit: nat)
    requires m.s.oldshadow <= limit && m.s.pc.GcTry?
    ensures var t := Swept(m, limit).s;
      && m.s.oldshadow <= t.oldshadow <= limit
      && (t.oldshadow == limit || t.oldshadow !in t.disk.files || ReadLocked(t.disk, t.oldshadow))
      && t == m.s.(disk := m.s.disk.(files := Without(m.s.disk.files, m.s.oldshadow, t.oldshadow),
                                     clients := t.disk.clients, sempub := t.disk.sempub),
                   oldshadow := t.oldshadow)
      && (forall k: nat :: m.s.oldshadow <= k < t.oldshadow ==> k in m.s.disk.files)
    decreases limit - m.s.oldshadow
  {
    hide Removed, ReadLocked, Without;
    if m.s.oldshadow < limit && m.s.oldshadow in m.s.disk.files && !ReadLocked(m.s.disk, m.s.oldshadow) {
      RemovedKeeps(m);
      SweptKeeps(Removed(m), limit);
      WithoutFirst(m.s.disk.files, m.s.oldshadow, Swept(m, limit).s.oldshadow);
      forall k: nat | m.s.oldshadow <= k < Swept(m, limit).s.oldshadow
        ensures k in m.s.disk.files
      {
        assert k == m.s.oldshadow || k in Removed(m).s.disk.files;
      }
    } else {
      WithoutNone(m.s.disk.files, m.s.oldshadow);
    }
  }

  /** When clients do nothing, exactly unlocked files go. */
  lemma {:induction false} SweptAlone(m: Moment, limit: nat)
    requires m.schedule == []
    ensures var t := Swept(m, limit);
      && t.schedule == [] && t.s.disk.clients == m.s.disk.clients && t.s.disk.sempub == m.s.disk.sempub
      && (forall k: nat :: m.s.oldshadow <= k < t.s.oldshadow ==> !ReadLocked(m.s.disk, k))
    decreases limit - m.s.oldshadow
  {
    hide Removed, ReadLocked;
    if m.s.oldshadow < limit && m.s.oldshadow in m.s.disk.files && !ReadLocked(m.s.disk, m.s.oldshadow) {
      var r := Removed(m);
      RemovedKeeps(m);
      SweptAlone(r, limit);
      forall k: nat | m.s.oldshadow < k
        ensures ReadLocked(m.s.disk, k) == ReadLocked(r.s.disk, k)
      {
        SameLocks(m.s.disk, r.s.disk, k);
      }
    }
  }

  lemma {:induction false} RoundsFirst(n: nat)
    ensures GcRounds(n + 1) == GcRound() + GcRounds(n)
  {
    if n > 0 { RoundsFirst(n - 1); }
  }

  /** Below the newest file a removal is a round of the step system's collector, with the clients in between. */
  lemma RemovedIsRun(m: Moment) returns (acts: seq<Action>)
    requires m.s.pc.GcTry? && m.s.oldshadow < m.s.curshadow && m.s.oldshadow in m.s.disk.files
    requires !ReadLocked(m.s.disk, m.s.oldshadow)
    ensures Removed(m).s == Run(m.s, acts) && Daemon(acts) == GcRound()
  {
    hide Run, Daemon, Apply, ReadLocked, Acts;
    var a := Moved(m, GcHeld);
    TestPasses(m.s);
    assert Daemon([]) == [] by { DaemonNone(); }
    RunNone(m.s);
    ActsByClients(Gap(a.schedule));
    StepAndClients(m.s, [], m.s, GcTest, Acts(Gap(a.schedule)));
    acts := [] + [GcTest] + Acts(Gap(a.schedule));
    var b := Stepped(Served(a), GcRelease);
    ActsByClients(Gap(b.schedule));
    StepAndClients(m.s, acts, Served(a).s, GcRelease, Acts(Gap(b.schedule)));
    acts := acts + [GcRelease] + Acts(Gap(b.schedule));
    var c := Stepped(Served(b), GcRemove);
    ActsByClients(Gap(c.schedule));
    StepAndClients(m.s, acts, Served(b).s, GcRemove, Acts(Gap(c.schedule)));
    acts := acts + [GcRemove] + Acts(Gap(c.schedule));
  }

  lemma {:induction false} SweptIsRun(m: Moment, limit: nat) returns (acts: seq<Action>)
    requires m.s.pc.GcTry? && m.s.oldshadow <= limit <= m.s.curshadow
    ensures Swept(m, limit).s == Run(m.s, acts)
    ensures m.s.oldshadow <= Swept(m, limit).s.oldshadow
    ensures Daemon(acts) == GcRounds(Swept(m, limit).s.oldshadow - m.s.oldshadow)
    decreases limit - m.s.oldshadow
  {
    hide Run, Daemon, Removed, ReadLocked, GcRounds, GcRound;
    RunNone(m.s);
    DaemonNone();
    SweptKeeps(m, limit);
    acts := [];
    if m.s.oldshadow < limit && m.s.oldshadow in m.s.disk.files && !ReadLocked(m.s.disk, m.s.oldshadow) {
      RemovedKeeps(m);
      var first := RemovedIsRun(m);
      var rest := SweptIsRun(Removed(m), limit);
      RunConcat(m.s, first, rest);
      DaemonConcat(first, rest);
      RoundsFirst(Swept(m, limit).s.oldshadow - m.s.oldshadow - 1);
      acts := first + rest;
    } else {
      NoRounds();
    }
  }

  lemma NoRounds()
    ensures GcRounds(0) == []
  {
  }

  lemma Wiping(s: State)
    requires s.pc.Wipe?
    ensures Apply(s, WipeCurrent) == s.(disk := s.disk.(current := None), pc := Publish(s.pc.rest))
  {
  }

  lemma Publishing(s: State)
    requires s.pc.Publish?
    ensures Apply(s, WriteCurrent) == s.(disk := s.disk.(current := Some(s.curshadow)), stotsize := 0,
                                         pc := if s.pc.rest == [] then Waiting else WriteRest(s.pc.rest))
  {
  }

  // ------------------------------------------------------------------ the reset with any clients

  /** Everything is removed and file 0 made and published, while clients go on calling. */
  function Restarted(m: Moment): Moment {
    FromZero(Swept(Moved(m, GcTry), m.s.curshadow + 1))
  }

  function FromZero(g: Moment): Moment { Published(Served(g.(s := AtZero(g.s)))) }

  /** 'current' names file 0, and the counters start again. */
  function Published(z: Moment): Moment {
    var w := Served(Stepped(z, WipeCurrent));
    w.(s := Reset(w.s).(disk := w.s.disk.(current := Some(0))))
  }

  lemma RestartedAlone(m: Moment)
    requires m.schedule == []
    ensures Restarted(m).schedule == []
  {
    hide Swept, Apply, Served;
    SweptAlone(Moved(m, GcTry), m.s.curshadow + 1);
    var g := Swept(Moved(m, GcTry), m.s.curshadow + 1);
    ServedKeeps(g.(s := AtZero(g.s)));
    ServedKeeps(Stepped(g.(s := AtZero(g.s)), WipeCurrent));
  }

  /** File 0 is made. */
  function AtZero(s: State): State {
    s.(disk := s.disk.(files := s.disk.files[0 := []]), sfd := 0, oldshadow := 0, curshadow := 0, stotsize := 0,
       pc := Wipe([]))
  }

  predicate Unattached(d: Disk) { forall id | id in d.clients :: !d.clients[id].Attached? }

  /** Nobody can attach now. */
  predicate Refuses(d: Disk) {
    d.current.None? || d.current.value !in d.files || d.files[d.current.value] == []
  }

  predicate NoAttach(calls: seq<Call>) { forall j | 0 <= j < |calls| :: !calls[j].call.Attach? }

  ghost predicate Quiet(schedule: seq<seq<Call>>) { forall i | 0 <= i < |schedule| :: NoAttach(schedule[i]) }

  /** Nobody is attached, and nobody is going to be. */
  ghost predicate Calm(m: Moment) { Unattached(m.s.disk) && (Refuses(m.s.disk) || Quiet(m.schedule)) }

  /** s and r have the same clients. */
  predicate Agree(s: State, r: State) { s.disk.clients == r.disk.clients && s.disk.sempub == r.disk.sempub }

  lemma CallAgrees(s: State, r: State, id: ClientId, call: ClientCall)
    requires Agree(s, r) && Unattached(s.disk) && Refuses(r.disk) && (Refuses(s.disk) || !call.Attach?)
    ensures var t := CallOf(s, id, call); Agree(t, CallOf(r, id, call)) && Unattached(t.disk)
  {
    hide NewEntry, Refuses, Agree, Unattached;
    var e := Entry(s, id);
    SameEntry(s, r, id);
    RefusesAttach(s);
    RefusesAttach(r);
    EntryAgrees(s, r, e, call);
    SetAgrees(s, r, id, NewEntry(s, e, call));
  }

  lemma SameEntry(s: State, r: State, id: ClientId)
    requires Agree(s, r) && Unattached(s.disk)
    ensures Entry(s, id) == Entry(r, id) && (Entry(s, id).Some? ==> !Entry(s, id).value.Attached?)
    ensures s.disk.sempub == r.disk.sempub
  {
  }

  lemma RefusesAttach(s: State)
    ensures Refuses(s.disk) ==> !CanAttach(s)
  {
  }

  lemma EntryAgrees(s: State, r: State, e: Option<Client>, call: ClientCall)
    requires s.disk.sempub == r.disk.sempub && (e.Some? ==> !e.value.Attached?)
    requires !CanAttach(r) && (!CanAttach(s) || !call.Attach?)
    ensures var f := NewEntry(s, e, call); f == NewEntry(r, e, call) && (f.Some? ==> !f.value.Attached?)
  {
    hide CanAttach, WriteLocked;
  }

  lemma SetAgrees(s: State, r: State, id: ClientId, e: Option<Client>)
    requires Agree(s, r) && Unattached(s.disk) && (e.Some? ==> !e.value.Attached?)
    ensures Agree(SetEntry(s, id, e), SetEntry(r, id, e)) && Unattached(SetEntry(s, id, e).disk)
  {
  }

  lemma {:induction false} ActsAgree(s: State, r: State, calls: seq<Call>)
    requires Agree(s, r) && Unattached(s.disk) && Refuses(r.disk) && (Refuses(s.disk) || NoAttach(calls))
    ensures var t := Run(s, Acts(calls)); Agree(t, Run(r, Acts(calls))) && Unattached(t.disk)
  {
    hide Run, CallOf, Agree, Unattached, Refuses;
    if |calls| == 0 {
      RunNone(s);
      RunNone(r);
    } else {
      var n := |calls| - 1;
      assert calls[..n + 1] == calls;
      ActsAgree(s, r, calls[..n]);
      RunActs(s, calls, n);
      RunActs(r, calls, n);
      ActsKeep(s, calls[..n]);
      ActsKeep(r, calls[..n]);
      var t, u := Run(s, Acts(calls[..n])), Run(r, Acts(calls[..n]));
      SameDoor(s.disk, t.disk);
      SameDoor(r.disk, u.disk);
      CallAgrees(t, u, calls[n].id, calls[n].call);
    }
  }

  lemma SameDoor(d: Disk, e: Disk)
    requires d.files == e.files && d.current == e.current
    ensures Refuses(d) == Refuses(e)
  {
  }

  /** The clients that act in a gap do the same to r. */
  lemma ServedAgrees(m: Moment, r: State)
    requires Calm(m) && Agree(m.s, r) && Refuses(r.disk)
    ensures var t := Run(r, Acts(Gap(m.schedule))); Agree(Served(m).s, t) && Refuses(t.disk)
    ensures Calm(Served(m))
  {
    hide Run, Agree, Unattached, Refuses, NoAttach, Acts;
    if Quiet(m.schedule) {
      assert NoAttach(Gap(m.schedule)) by { NobodyCalls(); }
      forall i | 0 <= i < |Later(m.schedule)|
        ensures NoAttach(Later(m.schedule)[i])
      {
        assert Later(m.schedule)[i] == m.schedule[i + 1];
      }
    }
    ActsAgree(m.s, r, Gap(m.schedule));
    ActsKeep(m.s, Gap(m.schedule));
    ActsKeep(r, Gap(m.schedule));
    SameDoor(m.s.disk, Served(m).s.disk);
    SameDoor(r.disk, Run(r, Acts(Gap(m.schedule))).disk);
  }

  lemma NobodyCalls()
    ensures NoAttach([])
  {
  }

  /** Two gaps after each other. */
  lemma Twice(r: State, a: seq<Call>, b: seq<Call>)
    ensures Run(Run(r, Acts(a)), Acts(b)) == Run(r, Acts(a + b))
  {
    hide Run, Acts;
    RunConcat(r, Acts(a), Acts(b));
    ActsConcat(a, b);
  }

  /** The calls that a removal lets through. */
  lemma RemovedCalm(m: Moment, r: State) returns (calls: seq<Call>)
    requires Calm(m) && Agree(m.s, r) && Refuses(r.disk) && m.s.pc.GcTry?
    ensures Calm(Removed(m)) && Agree(Removed(m).s, Run(r, Acts(calls))) && Refuses(Run(r, Acts(calls)).disk)
    ensures Flat(m.schedule) == calls + Flat(Removed(m).schedule)
  {
    hide Run, Agree, Unattached, Refuses, Quiet, Calm, Acts, Apply, Flat;
    var a := Moved(m, GcHeld);
    MovesCalm(m, a, r);
    ServedAgrees(a, r);
    ServedKeeps(a);
    FlatGap(a.schedule);
    LockGoes(Served(a).s);
    var b := Stepped(Served(a), GcRelease);
    var r1 := Run(r, Acts(Gap(a.schedule)));
    MovesCalm(Served(a), b, r1);
    ServedAgrees(b, r1);
    ServedKeeps(b);
    FlatGap(b.schedule);
    FileGoes(Served(b).s);
    var c := Stepped(Served(b), GcRemove);
    var r2 := Run(r1, Acts(Gap(b.schedule)));
    GoneCalm(Served(b), c, r2);
    ServedAgrees(c, r2);
    FlatGap(c.schedule);
    Twice(r, Gap(a.schedule), Gap(b.schedule));
    calls := Gap(a.schedule) + Gap(b.schedule) + Gap(c.schedule);
    Twice(r, Gap(a.schedule) + Gap(b.schedule), Gap(c.schedule));
    assert Flat(m.schedule) == Gap(a.schedule) + (Gap(b.schedule) + (Gap(c.schedule) + Flat(Later(c.schedule))));
  }

  lemma MovesCalm(m: Moment, t: Moment, r: State)
    requires Calm(m) && Agree(m.s, r) && t.schedule == m.schedule && t.s.disk == m.s.disk
    ensures Calm(t) && Agree(t.s, r)
  {
  }

  lemma GoneCalm(m: Moment, t: Moment, r: State)
    requires Calm(m) && Agree(m.s, r) && t.schedule == m.schedule
    requires exists k: nat :: t.s.disk == m.s.disk.(files := m.s.disk.files - {k})
    ensures Calm(t) && Agree(t.s, r)
  {
    var k: nat :| t.s.disk == m.s.disk.(files := m.s.disk.files - {k});
    assert Refuses(m.s.disk) ==> Refuses(t.s.disk);
  }

  /** When nobody can attach, every file goes. */
  lemma {:induction false} SweptCalm(m: Moment, limit: nat, r: State) returns (calls: seq<Call>)
    requires Calm(m) && Agree(m.s, r) && Refuses(r.disk) && m.s.pc.GcTry? && m.s.oldshadow <= limit
    requires forall k: nat :: m.s.oldshadow <= k < limit ==> k in m.s.disk.files
    ensures var t := Swept(m, limit);
      && Calm(t) && Agree(t.s, Run(r, Acts(calls))) && Refuses(Run(r, Acts(calls)).disk)
      && t.s.oldshadow == limit && Flat(m.schedule) == calls + Flat(t.schedule)
    decreases limit - m.s.oldshadow
  {
    hide Run, Agree, Unattached, Refuses, Quiet, Calm, Acts, Removed, ReadLocked, Flat;
    if m.s.oldshadow < limit {
      assert !ReadLocked(m.s.disk, m.s.oldshadow) by { CalmLocks(m, m.s.oldshadow); }
      RemovedKeeps(m);
      var first := RemovedCalm(m, r);
      var rest := SweptCalm(Removed(m), limit, Run(r, Acts(first)));
      Twice(r, first, rest);
      calls := first + rest;
      assert Flat(m.schedule) == first + (rest + Flat(Swept(m, limit).schedule));
    } else {
      calls := [];
      assert Acts([]) == [] by { NoActs(); }
      RunNone(r);
    }
  }

  lemma NoActs()
    ensures Acts([]) == []
  {
  }

  lemma CalmLocks(m: Moment, k: nat)
    requires Calm(m)
    ensures !ReadLocked(m.s.disk, k)
  {
  }

  /** When nobody can attach, or nobody tries, the reset is the step system's, followed by what clients
      did meanwhile. */
  lemma CleanReset(m: Moment) returns (calls: seq<Call>)
    requires Inv(m.s) && m.s.pc.Waiting? && m.s.shadowbusy && NumClients(m.s.disk) == 0
    requires Refuses(m.s.disk) || Quiet(m.schedule)
    ensures Restarted(m).s == Run(Reset(m.s), Acts(calls))
    ensures Flat(m.schedule) == calls + Flat(Restarted(m).schedule)
    ensures Inv(Restarted(m).s)
  {
    hide Run, Inv, Refuses, Quiet, Acts, Apply, Flat, Without, ReadLocked, NumClients;
    hide Calm, Agree, Unattached, Swept, Served;
    NobodyLocks(m.s);
    var r0, a, hi := Reset(m.s), Moved(m, GcTry), m.s.curshadow + 1;
    FreshStart(m, a, r0);
    calls := SweptCalm(a, hi, r0);
    SweptKeeps(a, hi);
    AllGone(m.s.disk.files, m.s.oldshadow, hi);
    var g := Swept(a, hi);
    var r1 := Run(r0, Acts(calls));
    var y := g.(s := AtZero(g.s));
    ZeroCalm(g, y, r1);
    ServedAgrees(y, r1);
    ServedKeeps(y);
    var z := Served(y);
    FlatGap(y.schedule);
    var r2 := Run(r1, Acts(Gap(y.schedule)));
    Twice(r0, calls, Gap(y.schedule));
    assert Flat(m.schedule) == calls + (Gap(y.schedule) + Flat(Later(y.schedule)));
    calls := calls + Gap(y.schedule);
    Wiping(z.s);
    var x := Stepped(z, WipeCurrent);
    WipedCalm(z, x, r2);
    ServedAgrees(x, r2);
    ServedKeeps(x);
    FlatGap(x.schedule);
    Twice(r0, calls, Gap(x.schedule));
    assert Flat(m.schedule) == calls + (Gap(x.schedule) + Flat(Later(x.schedule)));
    calls := calls + Gap(x.schedule);
    ActsKeep(r0, calls);
    AgreeAll(Restarted(m).s, Run(r0, Acts(calls)), Served(x).s, m.s);
    ResetRuns(m.s, calls);
  }

  lemma FreshStart(m: Moment, a: Moment, r: State)
    requires m.s.disk.clients == map[] && a == Moved(m, GcTry) && r == Reset(m.s)
    requires Refuses(m.s.disk) || Quiet(m.schedule)
    ensures Calm(a) && Agree(a.s, r) && Refuses(r.disk)
  {
  }

  lemma ZeroCalm(g: Moment, y: Moment, r: State)
    requires Calm(g) && Agree(g.s, r) && g.s.disk.files == map[] && y == g.(s := AtZero(g.s))
    ensures Calm(y) && Agree(y.s, r)
  {
  }

  lemma WipedCalm(z: Moment, x: Moment, r: State)
    requires Calm(z) && Agree(z.s, r) && x.schedule == z.schedule && x.s.disk == z.s.disk.(current := None)
    ensures Calm(x) && Agree(x.s, r)
  {
  }

  lemma AgreeAll(s: State, t: State, w: State, first: State)
    requires s == Reset(w).(disk := w.disk.(current := Some(0))) && w.disk.files == map[0 := []]
    requires var r := Reset(first);
      Agree(w, t) && t == r.(disk := r.disk.(clients := t.disk.clients, sempub := t.disk.sempub))
    ensures s == t
  {
  }

  lemma ResetRuns(s: State, calls: seq<Call>)
    requires Inv(s) && s.pc.Waiting? && s.shadowbusy && NumClients(s.disk) == 0
    ensures Inv(Run(Reset(s), Acts(calls)))
  {
    hide Inv, Run, Acts;
    assert Apply(s, Receive([0])) == Reset(s);
    ApplyKeeps(s, Receive([0]));
    RunKeeps(Reset(s), Acts(calls));
  }

  /** A client that turns up while the oldest file is being removed: behind its test, before its unlinking. */
  function Late(id: ClientId): seq<seq<Call>> { [[], [Call(id, Claim), Call(id, Attach)]] }

  /** It holds the newest file to the end, and the invariant is gone. */
  lemma LateAttach(m: Moment, id: ClientId)
    requires Inv(m.s) && m.s.pc.Waiting? && NumClients(m.s.disk) == 0
    requires m.s.disk.files[m.s.curshadow] != [] && m.schedule == Late(id)
    ensures Restarted(m).s.disk.clients == map[id := Attached(m.s.curshadow, m.s.curshadow)]
    ensures !Restarted(m).s.shadowbusy && !Inv(Restarted(m).s)
  {
    hide Inv, Run, Removed, Swept, Apply, ReadLocked, NumClients, Served;
    NobodyLocks(m.s);
    var a, limit := Moved(m, GcTry), m.s.curshadow + 1;
    LateRemoved(m, a, id);
    RemovedKeeps(a);
    SweptFirst(a, limit);
    SweptAlone(Removed(a), limit);
    SweptKeeps(a, limit);
    var y := Swept(a, limit).(s := AtZero(Swept(a, limit).s));
    ServedKeeps(y);
    Wiping(y.s);
    ServedKeeps(Stepped(y, WipeCurrent));
    AttachedAndIdle(Restarted(m).s, id);
  }

  lemma SweptFirst(m: Moment, limit: nat)
    requires m.s.oldshadow < limit && m.s.oldshadow in m.s.disk.files && !ReadLocked(m.s.disk, m.s.oldshadow)
    ensures Swept(m, limit) == Swept(Removed(m), limit)
  {
    hide Removed, ReadLocked;
  }

  lemma AttachedAndIdle(s: State, id: ClientId)
    requires id in s.disk.clients && s.disk.clients[id].Attached? && !s.shadowbusy
    ensures !Inv(s)
  {
    assert !ClientInv(s, s.disk.clients[id]);
  }

  lemma LateRemoved(m: Moment, a: Moment, id: ClientId)
    requires Inv(m.s) && m.s.pc.Waiting? && NumClients(m.s.disk) == 0 && m.s.disk.clients == map[]
    requires m.s.disk.files[m.s.curshadow] != [] && m.schedule == Late(id) && a == Moved(m, GcTry)
    ensures Removed(a).schedule == []
    ensures Removed(a).s.disk.clients == map[id := Attached(m.s.curshadow, m.s.curshadow)]
  {
    hide Inv, Run, Apply, Acts, NumClients, CallOf;
    var b := Moved(a, GcHeld);
    assert Acts([]) == [] by { NoActs(); }
    RunNone(b.s);
    assert Served(b) == Moment(b.s, [Late(id)[1]]);
    LockGoes(b.s);
    var c := Stepped(Served(b), GcRelease);
    var calls := [Call(id, Claim), Call(id, Attach)];
    RunActs(c.s, calls, 0);
    RunActs(c.s, calls, 1);
    assert calls[..0] == [] && calls[..2] == calls;
    RunNone(c.s);
    LateCalls(m.s, c.s, id);
    assert Gap(c.schedule) == calls;
    FileGoes(Served(c).s);
    ServedKeeps(Stepped(Served(c), GcRemove));
  }

  lemma LateCalls(s: State, t: State, id: ClientId)
    requires Inv(s) && NumClients(s.disk) == 0 && s.disk.clients == map[] && s.pc.Waiting?
    requires s.disk.files[s.curshadow] != [] && t == s.(pc := GcUnlink)
    ensures var u := CallOf(CallOf(t, id, Claim), id, Attach);
      u == t.(disk := t.disk.(clients := map[id := Attached(s.curshadow, s.curshadow)], sempub := SEMTOTAL - 1))
  {
    assert CurrentInv(s) && ClientsInv(s);
    var t1 := CallOf(t, id, Claim);
    assert t1 == t.(disk := t.disk.(clients := map[id := Claimed], sempub := SEMTOTAL - 1));
    assert NewEntry(t1, Entry(t1, id), Attach) == Some(Attached(s.curshadow, s.curshadow));
  }

  /** While the test lock is still held nobody gets the file: a client that comes then does no harm. */
  lemma EarlyAttach(m: Moment, id: ClientId)
    requires Inv(m.s) && m.s.pc.Waiting? && NumClients(m.s.disk) == 0 && m.s.oldshadow == m.s.curshadow
    requires m.schedule == [[Call(id, Claim), Call(id, Attach)]]
    ensures Restarted(m).s.disk.clients == map[id := Claimed] && Restarted(m).s.disk.files == map[0 := []]
  {
    hide Inv, Run, Removed, Swept, Apply, ReadLocked, NumClients, Served, Without;
    NobodyLocks(m.s);
    var a, limit := Moved(m, GcTry), m.s.curshadow + 1;
    EarlyRemoved(m, a, id);
    RemovedKeeps(a);
    SweptFirst(a, limit);
    SweptEnds(Removed(a), limit);
    assert Swept(a, limit) == Removed(a);
    var y := Removed(a).(s := AtZero(Removed(a).s));
    ServedKeeps(y);
    Wiping(y.s);
    ServedKeeps(Stepped(y, WipeCurrent));
    assert Removed(a).s.disk.files == map[];
  }

  lemma SweptEnds(m: Moment, limit: nat)
    requires m.s.oldshadow == limit
    ensures Swept(m, limit) == m
  {
  }

  lemma EarlyRemoved(m: Moment, a: Moment, id: ClientId)
    requires Inv(m.s) && m.s.pc.Waiting? && NumClients(m.s.disk) == 0 && m.s.disk.clients == map[]
    requires m.s.oldshadow == m.s.curshadow && a == Moved(m, GcTry)
    requires m.schedule == [[Call(id, Claim), Call(id, Attach)]]
    ensures Removed(a).schedule == [] && Removed(a).s.disk.clients == map[id := Claimed]
  {
    hide Inv, Run, Apply, Acts, NumClients, CallOf;
    var b := Moved(a, GcHeld);
    var calls := [Call(id, Claim), Call(id, Attach)];
    assert Acts([]) == [] by { NoActs(); }
    RunActs(b.s, calls, 0);
    RunActs(b.s, calls, 1);
    assert calls[..0] == [] && calls[..2] == calls;
    RunNone(b.s);
    EarlyCalls(m.s, b.s, id);
    assert Gap(b.schedule) == calls && Later(b.schedule) == [];
    LockGoes(Served(b).s);
    var c := Stepped(Served(b), GcRelease);
    ServedKeeps(c);
    FileGoes(c.s);
    ServedKeeps(Stepped(c, GcRemove));
  }

  lemma EarlyCalls(s: State, t: State, id: ClientId)
    requires Inv(s) && NumClients(s.disk) == 0 && s.disk.clients == map[] && s.pc.Waiting?
    requires s.oldshadow == s.curshadow && t == s.(pc := GcHeld)
    ensures var u := CallOf(CallOf(t, id, Claim), id, Attach);
      u == t.(disk := t.disk.(clients := map[id := Claimed], sempub := SEMTOTAL - 1))
  {
    assert CurrentInv(s) && ClientsInv(s);
    var t1 := CallOf(t, id, Claim);
    assert t1 == t.(disk := t.disk.(clients := map[id := Claimed], sempub := SEMTOTAL - 1));
    assert NewEntry(t1, Entry(t1, id), Attach) == Some(Claimed);
  }

  lemma NewestRefuses(s: State)
    requires Inv(s) && s.pc.Waiting?
    ensures s.curshadow in s.disk.files && (Refuses(s.disk) <==> s.disk.files[s.curshadow] == [])
  {
  }

  /** The reset is safe from clients, whatever they do meanwhile, if and only if the newest file has
      no record in it. */
  lemma ResetIsSafe(s: State)
    requires Inv(s) && s.pc.Waiting? && s.shadowbusy && NumClients(s.disk) == 0
    ensures s.curshadow in s.disk.files
    ensures (forall schedule :: Inv(Restarted(Moment(s, schedule)).s)) <==> s.disk.files[s.curshadow] == []
  {
    hide Inv, Restarted, NumClients, Refuses;
    NewestRefuses(s);
    if s.disk.files[s.curshadow] == [] {
      forall schedule
        ensures Inv(Restarted(Moment(s, schedule)).s)
      {
        var _ := CleanReset(Moment(s, schedule));
      }
    } else {
      LateAttach(Moment(s, Late(0)), 0);
    }
  }
}
