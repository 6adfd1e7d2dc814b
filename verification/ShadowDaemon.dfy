/**
 The daemon's own code, with its statics as fields: awaitprocterm, pass2shadow, createshadow,
 setcurrent and gcshadows. Clients make their calls between its system calls. Each function is
 proved to be a walk through the step system, so what holds of every run there holds of this
 code; the reset after the last client is one as long as nobody attaches during it.
 */
module ShadowDaemon {
  import opened Prelude
  import opened ShadowProtocol
  import opened ShadowSchedule

  /** With clients a batch is accepted: as much of it as fits is for this file, the rest for the next. */
  lemma Accepted(s: State, batch: seq<Record>)
    requires Inv(s) && s.pc.Waiting? && 0 < |batch| <= BUFRECS && NumClients(s.disk) != 0
    ensures s.stotsize < MAXSHADOWREC && s.sfd in s.disk.files
    ensures var cut := if s.stotsize + |batch| <= MAXSHADOWREC then |batch| else MAXSHADOWREC - s.stotsize;
      && 0 < cut <= |batch|
      && ReceiveBatch(s, batch) == s.(shadowbusy := true, offered := s.offered + batch,
                                      pc := WriteFirst(batch[..cut], batch[cut..]))
  {
  }

  /** Without work the steps of a batch do nothing. */
  lemma IdleSteps(s: State, room2: bool)
    requires s.pc.Waiting?
    ensures Run(s, [CreateNext, WipeCurrent, WriteCurrent, PassRest(room2)]) == s
  {
    hide CreateFile, Truncate, PublishNew, PassRestPart;
    RunFirst(s, CreateNext, [WipeCurrent, WriteCurrent, PassRest(room2)]);
    RunFirst(s, WipeCurrent, [WriteCurrent, PassRest(room2)]);
    RunFirst(s, WriteCurrent, [PassRest(room2)]);
    RunOne(s, PassRest(room2));
    assert [WriteCurrent] + [PassRest(room2)] == [WriteCurrent, PassRest(room2)];
    assert [WipeCurrent] + [WriteCurrent, PassRest(room2)] == [WipeCurrent, WriteCurrent, PassRest(room2)];
    assert [CreateNext] + [WipeCurrent, WriteCurrent, PassRest(room2)]
        == [CreateNext, WipeCurrent, WriteCurrent, PassRest(room2)];
    assert CreateFile(s) == s && Truncate(s) == s && PublishNew(s) == s && PassRestPart(s, room2) == s by {
      DoneAlready(s, room2);
    }
  }

  lemma DoneAlready(s: State, room2: bool)
    requires s.pc.Waiting?
    ensures CreateFile(s) == s && Truncate(s) == s && PublishNew(s) == s && PassRestPart(s, room2) == s
  {
  }

  /** No action of a client is among these. */
  lemma {:induction false} AllDaemon(acts: seq<Action>)
    requires forall i | 0 <= i < |acts| :: !acts[i].ByClient?
    ensures Daemon(acts) == acts
  {
    if |acts| > 0 {
      var n := |acts| - 1;
      AllDaemon(acts[..n]);
      assert acts == acts[..n] + [acts[n]];
    }
  }

  lemma FirstPartOf(s: State, room1: bool)
    requires s.pc.WriteFirst?
    ensures var t := Pass(s, s.pc.part, room1);
      Apply(s, PassFirst(room1)) == if t.stotsize >= MAXSHADOWREC then t.(pc := Create(s.pc.rest))
                                    else t.(pc := Waiting, dropped := t.dropped + |s.pc.rest|)
  {
  }

  /** Without scheduled calls nobody attaches, and nobody calls. */
  lemma NoPlan(schedule: seq<seq<Call>>)
    ensures schedule == [] ==> Quiet(schedule) && Flat(schedule) == [] && Acts([]) == []
  {
  }

  class ShadowWriter {
    var disk: Disk
    var sfd: nat               // the file that is open under the daemon's descriptor number
    var oldshadow: nat
    var curshadow: nat
    var stotsize: nat
    var shadowbusy: bool
    var schedule: seq<seq<Call>>   // what clients do between the daemon's system calls, gap by gap
    ghost var stream: seq<Record>
    ghost var offered: seq<Record>
    ghost var dropped: nat

    constructor (schedule: seq<seq<Call>>)
      ensures View() == Init() && this.schedule == schedule
    {
      this.schedule := schedule;
      disk := Disk(map[0 := []], Some(0), map[], SEMTOTAL);
      sfd, oldshadow, curshadow, stotsize, shadowbusy := 0, 0, 0, 0, false;
      stream, offered, dropped := [], [], 0;
    }

    ghost function At(pc: Point): State
      reads this
    {
      State(disk, sfd, oldshadow, curshadow, stotsize, shadowbusy, pc, stream, offered, dropped)
    }

    /** Between two batches. */
    ghost function View(): State reads this { At(Waiting) }

    /** The clients make the calls that are scheduled now, while the daemon is at pc. */
    method ClientsAct(pc: Point) returns (ghost acts: seq<Action>)
      modifies this`disk, this`schedule
      ensures acts == Acts(Gap(old(schedule))) && schedule == Later(old(schedule))
      ensures At(pc) == Run(old(At(pc)), acts)
      ensures Daemon(acts) == [] && disk.files == old(disk.files) && disk.current == old(disk.current)
    {
      hide Run, CallOf, Daemon, Acts;
      ghost var s0 := At(pc);
      var calls := Gap(schedule);
      schedule := Later(schedule);
      assert calls[..0] == [] && Acts([]) == [] by { NoActs(); }
      RunNone(s0);
      for i := 0 to |calls|
        invariant schedule == Later(old(schedule)) && At(pc) == Run(s0, Acts(calls[..i]))
      {
        var seen := State(disk, 0, oldshadow, 0, 0, false, pc, [], [], 0);
        CallsSeeTheDisk(At(pc), seen, calls[i].id, calls[i].call);
        RunActs(s0, calls, i);
        disk := CallOf(seen, calls[i].id, calls[i].call).disk;
      }
      assert calls[..|calls|] == calls;
      ActsKeep(s0, calls);
      ActsByClients(calls);
      return Acts(calls);
    }

    method CreateShadow(seqno: nat)
      modifies this`disk, this`sfd
      ensures sfd == seqno && disk == old(disk).(files := old(disk).files[seqno := []])
    {
      disk := disk.(files := disk.files[seqno := []]);
      sfd := seqno;
    }

    /** 'current' gets the number of the newest file; rest is what the caller has yet to write. */
    method SetCurrent(seqno: nat, rest: seq<Record>) returns (ghost acts: seq<Action>)
      requires seqno == curshadow
      modifies this`disk, this`schedule
      ensures acts == [WipeCurrent] + Acts(Gap(old(schedule))) + [WriteCurrent] && schedule == Later(old(schedule))
      ensures disk.files == old(disk.files)
      ensures var z := Moment(old(At(Wipe(rest))), old(schedule));
        disk == Served(Stepped(z, WipeCurrent)).s.disk.(current := Some(seqno))
      ensures At(if rest == [] then Waiting else WriteRest(rest)).(stotsize := 0) == Run(old(At(Wipe(rest))), acts)
      ensures Daemon(acts) == [WipeCurrent, WriteCurrent]
    {
      hide Run, Daemon, Apply, Acts;
      ghost var s0 := At(Wipe(rest));
      disk := disk.(current := None);          // ftruncate
      RunNone(s0);
      Wiping(s0);
      acts := ClientsAct(Publish(rest));
      assert Daemon([]) == [] by { DaemonNone(); }
      StepAndClients(s0, [], s0, WipeCurrent, acts);
      acts := [] + [WipeCurrent] + acts;
      ghost var s1 := At(Publish(rest));
      disk := disk.(current := Some(seqno));   // write
      Publishing(s1);
      StepAndClients(s0, acts, s1, WriteCurrent, []);
      RunNone(Apply(s1, WriteCurrent));
      acts := acts + [WriteCurrent] + [];
    }

    /** All records or none are written; the number written is returned. */
    method Pass2Shadow(sbuf: seq<Record>, room: bool, ghost pc: Point) returns (ssz: nat)
      requires sfd in disk.files
      modifies this`disk, this`stream, this`dropped
      ensures ssz == if room then |sbuf| else 0
      ensures At(pc).(stotsize := stotsize + ssz) == Pass(old(At(pc)), sbuf, room)
    {
      if !room {
        dropped := dropped + |sbuf|;
        return 0;
      }
      disk := disk.(files := disk.files[sfd := disk.files[sfd] + sbuf]);
      stream := stream + sbuf;
      return |sbuf|;
    }

    /** The oldest file, with the test lock held, is closed and removed. */
    method RemoveOldestFile()
      modifies this`disk, this`oldshadow, this`schedule
      ensures Moment(At(GcTry), schedule) == Removed(Moment(old(At(GcTry)), old(schedule)))
    {
      hide Run, Apply, Acts;
      ghost var acts := ClientsAct(GcHeld);
      LockGoes(At(GcHeld));
      acts := ClientsAct(GcUnlink);
      FileGoes(At(GcUnlink));
      disk := disk.(files := disk.files - {oldshadow});
      oldshadow := oldshadow + 1;
      acts := ClientsAct(GcTry);
    }

    /** The oldest file goes, unless it is missing or locked. */
    method TryOldest() returns (removed: bool)
      modifies this`disk, this`oldshadow, this`schedule
      ensures removed <==> old(oldshadow) in old(disk).files && !ReadLocked(old(disk), old(oldshadow))
      ensures Moment(At(GcTry), schedule) ==
        (var m := Moment(old(At(GcTry)), old(schedule)); if removed then Removed(m) else m)
    {
      hide ReadLocked, Removed;
      if oldshadow !in disk.files { return false; }
      if ReadLocked(disk, oldshadow) { return false; }
      RemoveOldestFile();
      return true;
    }

    /** Removes the oldest files up to the first that is locked, missing or limit, while the clients make their calls
        between its system calls. */
    method GcShadows(limit: nat)
      requires oldshadow <= limit
      modifies this`disk, this`oldshadow, this`schedule
      ensures Moment(At(GcTry), schedule) == Swept(Moment(old(At(GcTry)), old(schedule)), limit)
      ensures old(oldshadow) <= oldshadow <= limit
      ensures oldshadow == limit || oldshadow !in disk.files || ReadLocked(disk, oldshadow)
      ensures disk.files == Without(old(disk).files, old(oldshadow), oldshadow)
    {
      hide ReadLocked, Removed, Without;
      ghost var m := Moment(At(GcTry), schedule);
      SweptKeeps(m, limit);
      while oldshadow < limit
        invariant Swept(Moment(At(GcTry), schedule), limit) == Swept(m, limit)
        invariant oldshadow <= limit
        decreases limit - oldshadow
      {
        ghost var n := Moment(At(GcTry), schedule);
        RemovedKeeps(n);
        var removed := TryOldest();
        if !removed { break; }
      }
    }

    /** The main loop's call when the shadow files are in use and enough time has passed: a run of the step system in
        which the daemon does exactly a collection, and clients whatever they like. */
    method CollectGarbage() returns (ghost acts: seq<Action>)
      requires Inv(View())
      modifies this`disk, this`oldshadow, this`schedule
      ensures Inv(View()) && View() == Run(old(View()), acts)
      ensures old(oldshadow) <= oldshadow <= curshadow
      ensures if old(shadowbusy) then Daemon(acts) == GcScript(oldshadow - old(oldshadow)) else acts == []
      ensures old(shadowbusy) ==> oldshadow == curshadow || ReadLocked(disk, oldshadow)
      ensures old(schedule) == [] && old(shadowbusy) ==> View() == Collected(old(View()), oldshadow - old(oldshadow))
    {
      hide Inv, ReadLocked, Run, Daemon, Without, GcRounds, Swept;
      ghost var s0 := View();
      NewestExists(s0);
      acts := [];
      RunNone(s0);
      if shadowbusy {
        ghost var m := Moment(At(GcTry), schedule);
        SweptKeeps(m, curshadow);
        if schedule == [] { SweptAlone(m, curshadow); }
        ghost var rounds := SweptIsRun(m, curshadow);
        GcShadows(curshadow);
        assert Apply(s0, GcStart) == m.s;
        RunOne(s0, GcStart);
        RunConcat(s0, [GcStart], rounds);
        ghost var t := At(GcTry);
        assert Apply(t, GcTest) == View();
        RunSnoc(s0, [GcStart] + rounds, GcTest);
        DaemonOne(GcStart);
        DaemonConcat([GcStart], rounds);
        DaemonSnoc([GcStart] + rounds, GcTest);
        acts := [GcStart] + rounds + [GcTest];
        RunKeeps(s0, acts);
        NewestExists(View());
      }
    }

    /** The counters start again, and file 0 is made. */
    method MakeZero()
      modifies this`disk, this`sfd, this`oldshadow, this`curshadow, this`stotsize, this`schedule
      ensures Moment(At(Wipe([])), schedule) == Served(Moment(AtZero(old(At(GcTry))), old(schedule)))
    {
      hide Run, Acts;
      oldshadow, curshadow, stotsize := 0, 0, 0;
      CreateShadow(curshadow);
      assert At(Wipe([])) == AtZero(old(At(GcTry)));
      ghost var acts := ClientsAct(Wipe([]));
    }

    /** File 0 is made and published. */
    method StartAtZero()
      modifies this
      ensures Moment(View(), schedule) == FromZero(Moment(old(At(GcTry)), old(schedule)))
    {
      hide Run, Apply, Acts, Served;
      ServedKeeps(Moment(AtZero(At(GcTry)), schedule));
      MakeZero();
      ghost var z := Moment(At(Wipe([])), schedule);
      ServedKeeps(Stepped(z, WipeCurrent));
      ghost var acts := SetCurrent(curshadow, []);
      shadowbusy := false;
      stream, offered, dropped := [], [], 0;
      assert Moment(View(), schedule) == Published(z);
    }

    /** The last client is gone: remove everything and start at sequence 0, while new clients make their calls. */
    method StartAfresh()
      requires Inv(View()) && NumClients(disk) == 0
      modifies this
      ensures Moment(View(), schedule) == Restarted(Moment(old(View()), old(schedule)))
    {
      hide Swept, Inv, NumClients, FromZero, Without, ReadLocked;
      assert oldshadow <= curshadow by { NewestExists(View()); }
      GcShadows(curshadow + 1);
      StartAtZero();
    }

    /** With clients a batch is for this file as far as it fits. */
    method Accept(abuf: seq<Record>) returns (partsz: nat, ghost acts: seq<Action>)
      requires Inv(View()) && 0 < |abuf| <= BUFRECS && NumClients(disk) != 0
      modifies this
      ensures partsz <= |abuf| && sfd in disk.files
      ensures At(WriteFirst(abuf[..partsz], abuf[partsz..])) == Run(old(View()), acts)
      ensures Daemon(acts) == [Receive(abuf)]
      ensures acts == [Receive(abuf)] + Acts(Gap(old(schedule))) && schedule == Later(old(schedule))
    {
      hide Inv, ReceiveBatch, Run, Daemon;
      ghost var s0 := View();
      Accepted(s0, abuf);
      shadowbusy := true;
      offered := offered + abuf;
      partsz := if stotsize + |abuf| <= MAXSHADOWREC then |abuf| else MAXSHADOWREC - stotsize;
      var pc := WriteFirst(abuf[..partsz], abuf[partsz..]);
      RunNone(s0);
      DaemonNone();
      assert Apply(s0, Receive(abuf)) == At(pc);
      acts := ClientsAct(pc);
      StepAndClients(s0, [], s0, Receive(abuf), acts);
      acts := [] + [Receive(abuf)] + acts;
    }

    /** What fits goes to the current file; pc is where this leaves the daemon. */
    method FillCurrent(part: seq<Record>, rest: seq<Record>, room1: bool) returns (pc: Point, ghost acts: seq<Action>)
      requires sfd in disk.files
      modifies this
      ensures pc == if stotsize >= MAXSHADOWREC then Create(rest) else Waiting
      ensures At(pc) == Run(old(At(WriteFirst(part, rest))), acts) && Daemon(acts) == [PassFirst(room1)]
      ensures acts == [PassFirst(room1)] + Acts(Gap(old(schedule))) && schedule == Later(old(schedule))
    {
      hide Run, Daemon, PassFirstPart;
      ghost var s0 := At(WriteFirst(part, rest));
      var ssz := Pass2Shadow(part, room1, s0.pc);
      if ssz > 0 { stotsize := stotsize + ssz; }
      if stotsize < MAXSHADOWREC { dropped := dropped + |rest|; }
      pc := if stotsize >= MAXSHADOWREC then Create(rest) else Waiting;
      FirstPartOf(s0, room1);
      assert Apply(s0, PassFirst(room1)) == At(pc);
      RunNone(s0);
      DaemonNone();
      acts := ClientsAct(pc);
      StepAndClients(s0, [], s0, PassFirst(room1), acts);
      acts := [] + [PassFirst(room1)] + acts;
    }

    /** The next file is there before anybody is told of it. */
    method MakeNext(rest: seq<Record>) returns (ghost acts: seq<Action>)
      modifies this`disk, this`sfd, this`curshadow, this`schedule
      ensures sfd == curshadow && sfd in disk.files
      ensures acts == [CreateNext] + Acts(Gap(old(schedule))) && schedule == Later(old(schedule))
      ensures At(Wipe(rest)) == Run(old(At(Create(rest))), acts) && Daemon(acts) == [CreateNext]
    {
      hide Run, Daemon, Acts;
      ghost var s0 := At(Create(rest));
      curshadow := curshadow + 1;
      CreateShadow(curshadow);
      assert Apply(s0, CreateNext) == At(Wipe(rest));
      RunNone(s0);
      DaemonNone();
      acts := ClientsAct(Wipe(rest));
      StepAndClients(s0, [], s0, CreateNext, acts);
      acts := [] + [CreateNext] + acts;
    }

    /** On to the next file, when this one is full. */
    method NextShadow(rest: seq<Record>) returns (ghost acts: seq<Action>)
      modifies this`disk, this`sfd, this`curshadow, this`stotsize, this`schedule
      ensures sfd in disk.files
      ensures At(if rest == [] then Waiting else WriteRest(rest)) == Run(old(At(Create(rest))), acts)
      ensures Daemon(acts) == [CreateNext, WipeCurrent, WriteCurrent]
      ensures old(schedule) == [] ==> schedule == [] && acts == [CreateNext, WipeCurrent, WriteCurrent]
    {
      hide Run, Daemon;
      ghost var s0 := At(Create(rest));
      acts := MakeNext(rest);
      ghost var more := SetCurrent(curshadow, rest);
      stotsize := 0;
      ghost var last := ClientsAct(if rest == [] then Waiting else WriteRest(rest));
      RunConcat(s0, acts, more);
      DaemonConcat(acts, more);
      RunConcat(s0, acts + more, last);
      DaemonConcat(acts + more, last);
      acts := acts + more + last;
    }

    /** What did not fit goes to the file that has just been made. */
    method FillNext(rest: seq<Record>, room2: bool) returns (ghost acts: seq<Action>)
      requires sfd in disk.files
      modifies this
      ensures At(Waiting) == Run(old(At(if rest == [] then Waiting else WriteRest(rest))), acts)
      ensures Daemon(acts) == [PassRest(room2)]
      ensures acts == [PassRest(room2)] && schedule == old(schedule)
    {
      hide Run, Daemon;
      ghost var s0 := At(if rest == [] then Waiting else WriteRest(rest));
      acts := [PassRest(room2)];
      RunOne(s0, PassRest(room2));
      DaemonOne(PassRest(room2));
      if rest != [] {
        var ssz := Pass2Shadow(rest, room2, s0.pc);
        if ssz > 0 { stotsize := stotsize + ssz; }
      }
    }

    /** Fill the current file; only when it is full, go on with the next. Clients act between
        the system calls: this is a run whose daemon actions are exactly those of one batch. */
    method Transfer(abuf: seq<Record>, room1: bool, room2: bool) returns (ghost acts: seq<Action>)
      requires Inv(View()) && 0 < |abuf| <= BUFRECS && NumClients(disk) != 0
      modifies this
      ensures View() == Run(old(View()), acts) && Daemon(acts) == BatchScript(abuf, room1, room2)
      ensures old(schedule) == [] ==> schedule == [] && acts == BatchScript(abuf, room1, room2)
    {
      hide Inv, Run, Daemon, Apply;
      ghost var s0 := View();
      var partsz, pc;
      partsz, acts := Accept(abuf);
      ghost var more;
      pc, more := FillCurrent(abuf[..partsz], abuf[partsz..], room1);
      RunConcat(s0, acts, more);
      DaemonConcat(acts, more);
      acts := acts + more;
      more := [CreateNext, WipeCurrent, WriteCurrent, PassRest(room2)];
      if stotsize >= MAXSHADOWREC {
        more := NextShadow(abuf[partsz..]);
        ghost var last := FillNext(abuf[partsz..], room2);
        DaemonConcat(more, last);
        RunConcat(s0, acts, more);
        RunConcat(s0, acts + more, last);
        assert acts + (more + last) == acts + more + last;
        more := more + last;
      } else {
        IdleSteps(View(), room2);
        AllDaemon(more);
        RunConcat(s0, acts, more);
      }
      DaemonConcat(acts, more);
      acts := acts + more;
    }

    /** One round of the main loop: a batch of records from the source file, if there is one. When it resets the files,
        it does so as Restarted says; it is a run whenever no client can attach meanwhile, or none tries. */
    method AwaitProcTerm(abuf: seq<Record>, room1: bool, room2: bool) returns (rv: int, ghost acts: seq<Action>)
      requires Inv(View()) && |abuf| <= BUFRECS
      modifies this
      ensures abuf == [] ==> rv == 0 && View() == old(View()) && acts == []
      ensures abuf != [] ==> rv == 1 && Daemon(acts) == BatchScript(abuf, room1, room2)
      ensures abuf != [] && old(NumClients(disk)) == 0 && old(shadowbusy) ==>
        Moment(View(), schedule) == Restarted(Moment(old(View()), old(schedule)))
      ensures old(NumClients(disk)) != 0 || !old(shadowbusy) || Refuses(old(disk)) || Quiet(old(schedule)) ==>
        Inv(View()) && View() == Run(old(View()), acts)
      ensures old(schedule) == [] && abuf != [] ==> schedule == [] && acts == BatchScript(abuf, room1, room2)
    {
      hide Inv, Run, Daemon, NumClients, Refuses, Quiet, Restarted;
      acts := [];
      RunNone(View());
      if abuf == [] { return 0, acts; }
      ghost var s0 := View();
      acts := BatchScript(abuf, room1, room2);
      AllDaemon(acts);
      if NumClients(disk) == 0 {
        BatchWithoutClients(s0, abuf, room1, room2);
        RunKeeps(s0, acts);
        if shadowbusy {
          ghost var m := Moment(s0, schedule);
          StartAfresh();
          NoPlan(m.schedule);
          if m.schedule == [] { RestartedAlone(m); }
          if Refuses(s0.disk) || Quiet(m.schedule) {
            ghost var calls := CleanReset(m);
            RunConcat(s0, acts, Acts(calls));
            DaemonConcat(acts, Acts(calls));
            ActsByClients(calls);
            acts := acts + Acts(calls);
          }
        }
        return 1, acts;
      }
      acts := Transfer(abuf, room1, room2);
      RunKeeps(s0, acts);
      return 1, acts;
    }
  }
}
