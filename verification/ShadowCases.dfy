/** Runs into the moments at which a client's view of the shadow files is short of the truth, or its file
    is removed. */
module ShadowCases {
  import opened Prelude
  import opened ShadowProtocol
  import opened ShadowSafety
  import opened ShadowReader
  import opened ShadowSchedule
  import opened ShadowDaemon

  /** While 'current' is truncated, counting only the own file is right for a reader in the
      file before the newest, and for no other. */
  lemma CountWhileWiped(s: State, fd: nat, off: nat)
    requires Inv(s) && s.disk.current.None?
    requires s.oldshadow <= fd < s.curshadow && off <= MAXSHADOWREC
    ensures MAXSHADOWREC - off <= |s.stream| - VirtualPos(fd, off)
    ensures MAXSHADOWREC - off == |s.stream| - VirtualPos(fd, off) <==> fd + 1 == s.curshadow
  {
  }

  function Zeros(n: nat): seq<Record> { seq(n, _ => 0) }

  lemma ZerosAdd(m: nat, n: nat)
    ensures Zeros(m) + Zeros(n) == Zeros(m + n)
  {
  }

  /** The files 0..f-1 are full, file f has these records. */
  function Stack(f: nat, top: seq<Record>): map<nat, seq<Record>> {
    map k: nat | k <= f :: FileAt(f, top, k)
  }

  function FileAt(f: nat, top: seq<Record>, k: nat): seq<Record> { if k < f then Zeros(MAXSHADOWREC) else top }

  lemma StackTop(f: nat, top: seq<Record>, more: seq<Record>)
    ensures Stack(f, top)[f := more] == Stack(f, more)
  {
  }

  lemma StackNext(f: nat)
    ensures Stack(f, Zeros(MAXSHADOWREC))[f + 1 := []] == Stack(f + 1, [])
  {
  }

  /** One client in file 0; file f holds n batches of a full buffer, the files below it are full. */
  function Grown(f: nat, n: nat): State {
    var stream := Zeros(f * MAXSHADOWREC + n * BUFRECS);
    State(Disk(Stack(f, Zeros(n * BUFRECS)), Some(f), map[0 := Attached(0, 0)], SEMTOTAL - 1),
          f, 0, f, n * BUFRECS, true, Waiting, stream, stream, 0)
  }

  /** File f is full and its successor not yet made. */
  function Filled(f: nat): State { Grown(f, 40).(pc := Create([])) }

  /** File f + 1 is made, and 'current' truncated but not yet written. */
  function Wiped(f: nat): State {
    var s := Grown(f + 1, 0);
    s.(disk := s.disk.(current := None), stotsize := MAXSHADOWREC, pc := Publish([]))
  }

  function Batch(): seq<Action> { [Receive(Zeros(BUFRECS)), PassFirst(true)] }

  function Batches(n: nat): seq<Action> { if n == 0 then [] else Batches(n - 1) + Batch() }

  /** One batch goes to the file. */
  lemma BatchGoes(f: nat, n: nat)
    requires (n + 1) * BUFRECS <= MAXSHADOWREC
    ensures Run(Grown(f, n), Batch()) == if (n + 1) * BUFRECS < MAXSHADOWREC then Grown(f, n + 1) else Filled(f)
  {
    hide Run, Stack, Zeros;
    var s, b := Grown(f, n), Zeros(BUFRECS);
    assert |b| == BUFRECS by { ZerosLength(BUFRECS); }
    assert b[..|b|] == b && b[|b|..] == [];
    var t := s.(offered := s.offered + b, pc := WriteFirst(b, []));
    assert ReceiveBatch(s, b) == t;
    RunFirst(s, Receive(b), [PassFirst(true)]);
    RunOne(t, PassFirst(true));
    assert Batch() == [Receive(b)] + [PassFirst(true)];
    ZerosAdd(n * BUFRECS, BUFRECS);
    ZerosAdd(f * MAXSHADOWREC + n * BUFRECS, BUFRECS);
    TopOf(f, Zeros(n * BUFRECS));
    StackTop(f, Zeros(n * BUFRECS), Zeros((n + 1) * BUFRECS));
  }

  lemma ZerosLength(n: nat)
    ensures |Zeros(n)| == n
  {
  }

  lemma TopOf(f: nat, top: seq<Record>)
    ensures f in Stack(f, top) && Stack(f, top)[f] == top
  {
  }

  lemma {:induction false} BatchesGo(f: nat, m: nat, n: nat)
    requires (m + n) * BUFRECS < MAXSHADOWREC
    ensures Run(Grown(f, m), Batches(n)) == Grown(f, m + n)
  {
    hide Run, Grown, Batch;
    if n == 0 {
      RunNone(Grown(f, m));
    } else {
      BatchesGo(f, m, n - 1);
      RunConcat(Grown(f, m), Batches(n - 1), Batch());
      BatchGoes(f, m + n - 1);
    }
  }

  /** A file is filled up. */
  lemma FileFills(f: nat, m: nat)
    requires m <= 39
    ensures Run(Grown(f, m), Batches(39 - m) + Batch()) == Filled(f)
  {
    hide Run, Grown, Filled, Batch, Batches;
    BatchesGo(f, m, 39 - m);
    RunConcat(Grown(f, m), Batches(39 - m), Batch());
    BatchGoes(f, 39);
  }

  /** The next file is made, and then published. */
  lemma FileFollows(f: nat)
    ensures Run(Filled(f), [CreateNext, WipeCurrent]) == Wiped(f)
    ensures Run(Wiped(f), [WriteCurrent]) == Grown(f + 1, 0)
  {
    hide Run, Stack, Zeros;
    StackNext(f);
    assert Zeros(0) == [] by { ZerosLength(0); }
    var s := CreateFile(Filled(f));
    RunFirst(Filled(f), CreateNext, [WipeCurrent]);
    RunOne(s, WipeCurrent);
    assert [CreateNext, WipeCurrent] == [CreateNext] + [WipeCurrent];
    RunOne(Wiped(f), WriteCurrent);
  }

  // ------------------------------------------------------------------ the runs

  /** A client has claimed the semaphore, and the daemon has written a batch. */
  function Opening(): seq<Action> { [ByClient(0, Claim)] + Batch() }

  function Opened(): State {
    var b := Zeros(BUFRECS);
    State(Disk(map[0 := b], Some(0), map[0 := Claimed], SEMTOTAL - 1), 0, 0, 0, BUFRECS, true, Waiting, b, b, 0)
  }

  lemma OpeningRun()
    ensures Run(Init(), Opening()) == Opened()
  {
    hide Run, Zeros;
    var b := Zeros(BUFRECS);
    ZerosLength(BUFRECS);
    var s1 := CallOf(Init(), 0, Claim);
    RunFirst(Init(), ByClient(0, Claim), Batch());
    RunFirst(s1, Receive(b), [PassFirst(true)]);
    assert Batch() == [Receive(b)] + [PassFirst(true)];
    assert b[..|b|] == b && b[|b|..] == [] && [] + b == b;
    RunOne(s1.(shadowbusy := true, offered := b, pc := WriteFirst(b, [])), PassFirst(true));
  }

  lemma AttachRun()
    ensures Run(Opened(), [ByClient(0, Attach)]) == Grown(0, 1)
  {
    hide Run, Zeros;
    ZerosLength(BUFRECS);
    RunOne(Opened(), ByClient(0, Attach));
    assert Stack(0, Zeros(BUFRECS)) == map[0 := Zeros(BUFRECS)];
  }

  /** The daemon fills file 0, and in the second case goes on until it has filled file 1 and made file 2. */
  function FillingFirst(): seq<Action> { Batches(38) + Batch() }

  function FillingSecond(): seq<Action> {
    FillingFirst() + [CreateNext, WipeCurrent] + [WriteCurrent] + (Batches(39) + Batch()) + [CreateNext, WipeCurrent]
  }

  lemma FillingRuns()
    ensures Run(Grown(0, 1), FillingFirst()) == Filled(0)
    ensures Run(Grown(0, 1), FillingSecond()) == Wiped(1)
  {
    hide Run, Grown, Filled, Wiped, Batches, Batch;
    var first, next, fill := FillingFirst(), [CreateNext, WipeCurrent], Batches(39) + Batch();
    FileFills(0, 1);
    FileFollows(0);
    RunConcat(Grown(0, 1), first, next);
    RunConcat(Grown(0, 1), first + next, [WriteCurrent]);
    FileFills(1, 0);
    RunConcat(Grown(0, 1), first + next + [WriteCurrent], fill);
    FileFollows(1);
    RunConcat(Grown(0, 1), first + next + [WriteCurrent] + fill, next);
  }

  lemma FullFile(s: State)
    requires Inv(s) && s.pc == Create([]) && s.curshadow == 0
    ensures |s.stream| == VirtualPos(0, MAXSHADOWREC) && 1 !in s.disk.files
  {
  }

  /** A run into the moment at which the newest file is full and the next not yet made: there
      a skip of everything that is ahead has no file to arrive in. */
  lemma FullWithoutSuccessor()
    ensures var s := Run(Init(), Opening() + [ByClient(0, Attach)] + FillingFirst());
            && Inv(s) && Entry(s, 0) == Some(Attached(0, 0))
            && |s.stream| == VirtualPos(0, MAXSHADOWREC) && s.curshadow == 0 && 1 !in s.disk.files
  {
    hide Run, Inv, VirtualPos, Init, Opening, Opened, FillingFirst, FillingSecond, Stack, Zeros;
    InitHolds();
    RunKeeps(Init(), Opening() + [ByClient(0, Attach)] + FillingFirst());
    RunConcat(Init(), Opening(), [ByClient(0, Attach)]);
    RunConcat(Init(), Opening() + [ByClient(0, Attach)], FillingFirst());
    OpeningRun();
    AttachRun();
    FillingRuns();
    FullFile(Filled(0));
  }

  lemma NoClientActs(n: nat)
    ensures OnlyOthers(Batches(n), 0)
  {
  }

  lemma {:induction false} NobodyLeftOut(acts: seq<Action>, me: ClientId)
    requires OnlyOthers(acts, me)
    ensures Others(acts, me) == acts
  {
    if |acts| > 0 {
      NobodyLeftOut(acts[1..], me);
      assert acts == [acts[0]] + acts[1..];
    }
  }

  lemma DaemonActs()
    ensures OnlyOthers(FillingSecond(), 0)
  {
    hide Batches;
    NoClientActs(38);
    NoClientActs(39);
  }

  /** The short count, from the start of the daemon: a client attaches behind the first batch,
      the daemon fills two files and is about to publish a third. The client then counts 9750
      of the 19750 records that are ahead. */
  method ShortCount() returns (numrecs: nat, reader: Reader)
    ensures reader.kernel.s == Run(Init(), Opening() + [ByClient(0, Attach)] + FillingSecond())
    ensures reader.Valid() && reader.id == 0 && reader.Pos() == BUFRECS
    ensures reader.Available() == 19750 && numrecs == 9750
  {
    hide Run, Inv, Init, Opening, FillingSecond, Stack, Zeros, Others;
    InitHolds();
    RunKeeps(Init(), Opening());
    OpeningRun();
    ZerosLength(BUFRECS);
    var kernel := new Kernel(Run(Init(), Opening()), [FillingSecond()]);
    reader := new Reader(0, kernel);
    AttachRun();
    RunOne(Opened(), ByClient(0, Attach));
    RunConcat(Init(), Opening(), [ByClient(0, Attach)]);
    DaemonActs();
    NobodyLeftOut(FillingSecond(), 0);
    kernel.Interfere(0);
    RunConcat(Init(), Opening() + [ByClient(0, Attach)], FillingSecond());
    FillingRuns();
    WipedCounts();
    numrecs := reader.AcctProcCnt();
  }

  lemma WipedCounts()
    ensures var s := Wiped(1);
      0 in s.disk.files && |s.disk.files[0]| == MAXSHADOWREC && s.disk.current.None? && |s.stream| == 20000
  {
    ZerosLength(MAXSHADOWREC);
    ZerosLength(2 * MAXSHADOWREC);
  }

  /** One client, which has claimed and not attached yet. */
  function OneClaimed(): State { Init().(disk := Init().disk.(clients := map[0 := Claimed], sempub := SEMTOTAL - 1)) }

  /** One record in file 0. */
  function OneRecord(clients: map<ClientId, Client>): State {
    State(Disk(map[0 := [7]], Some(0), clients, SEMTOTAL - |clients|), 0, 0, 0, 1, true, Waiting, [7], [7], 0)
  }

  lemma OneCall(s: State, id: ClientId, call: ClientCall)
    ensures Run(s, Acts(Gap([[Call(id, call)]]))) == CallOf(s, id, call)
  {
    hide Run, CallOf;
    var calls := [Call(id, call)];
    RunActs(s, calls, 0);
    assert calls[..0] == [] && calls[..1] == calls;
    assert Acts([]) == [] by { NoActs(); }
    RunNone(s);
  }

  lemma FirstClaim(s: State)
    requires s == Init()
    ensures CallOf(s, 0, Claim) == OneClaimed()
  {
  }

  lemma FirstRecord(s: State, batch: seq<Record>)
    requires s == OneClaimed() && batch == [7]
    ensures Run(s, BatchScript(batch, true, true)) == OneRecord(map[0 := Claimed])
  {
    hide Run;
    BatchRun(s, batch, true, true);
    assert batch[..1] == batch && batch[1..] == [];
    var t := ReceiveBatch(s, batch);
    assert t == s.(shadowbusy := true, offered := batch, pc := WriteFirst(batch, []));
    assert PassFirstPart(t, true) == OneRecord(map[0 := Claimed]);
  }

  lemma LeavesAlone(s: State)
    requires s == OneRecord(map[0 := Claimed])
    ensures CallOf(s, 0, Exit) == OneRecord(map[])
  {
    assert s.disk.clients - {0} == map[];
  }

  lemma {:induction false} StartKeeps(s: State, t: State)
    requires s == OneClaimed() && t == OneRecord(map[])
    ensures Inv(s) && Inv(t)
  {
    hide Inv, Run, CallOf;
    InitHolds();
    FirstClaim(Init());
    ApplyKeeps(Init(), ByClient(0, Claim));
    FirstRecord(s, [7]);
    RunKeeps(s, BatchScript([7], true, true));
    LeavesAlone(OneRecord(map[0 := Claimed]));
    ApplyKeeps(OneRecord(map[0 := Claimed]), ByClient(0, Exit));
  }

  /** The daemon's code from its start: a client comes and goes, and while the next call resets the files,
      another one attaches to file 0 just before it is removed. */
  method AttachDuringReset() returns (w: ShadowWriter)
    ensures fresh(w) && !Inv(w.View()) && w.disk.clients == map[1 := Attached(0, 0)] && !w.shadowbusy
  {
    hide Inv, Run, CallOf, Acts, Restarted, BatchScript, Daemon, Quiet, Refuses;
    StartKeeps(OneClaimed(), OneRecord(map[]));
    w := new ShadowWriter([[Call(0, Claim)]]);
    OneCall(w.View(), 0, Claim);
    FirstClaim(w.View());
    ghost var acts := w.ClientsAct(Waiting);
    var rv;
    assert w.View() == OneClaimed();
    FirstRecord(w.View(), [7]);
    rv, acts := w.AwaitProcTerm([7], true, true);
    w.schedule := [[Call(0, Exit)]];
    OneCall(w.View(), 0, Exit);
    LeavesAlone(w.View());
    acts := w.ClientsAct(Waiting);
    w.schedule := Late(1);
    assert w.View() == OneRecord(map[]);
    LateAttach(Moment(w.View(), w.schedule), 1);
    rv, acts := w.AwaitProcTerm([8], true, true);
  }
}
