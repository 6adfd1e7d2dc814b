/**
 The shadow files of atopacctd as a step system. One daemon cuts the stream of
 accounting records into numbered files and removes old ones; any number of
 clients count, skip and read. Every system call that another process can observe
 is one action, so a list of actions is one interleaving. An action that is not
 enabled leaves the state as it is, which makes every list of actions a run.

 Sizes are counted in records instead of bytes: the kernel writes whole records.
 */
module ShadowProtocol {
  import opened Prelude

  type Record = int                    // the contents of a record play no part here
  type ClientId = nat

  const MAXSHADOWREC: nat := 10000     // records in a full shadow file
  const BUFRECS: nat := 250            // a 16000-byte buffer of 64-byte records
  const SEMTOTAL: int := 100           // start value of the public semaphore

  /** What a client holds. Attached(lo, hi) has read locks on the files lo..hi. */
  datatype Client = Claimed | Attached(lo: nat, hi: nat) | Closed

  /** Where the daemon is between two of its system calls. */
  datatype Point =
    | Waiting                                            // awaiting a terminated process
    | WriteFirst(part: seq<Record>, rest: seq<Record>)   // records for this file, for the next
    | Create(rest: seq<Record>)                          // this file is full
    | Wipe(rest: seq<Record>)                            // next file made, 'current' still old
    | Publish(rest: seq<Record>)                         // 'current' truncated, not yet written
    | WriteRest(rest: seq<Record>)
    | GcTry | GcHeld | GcUnlink                          // test, write lock held, lock released

  /** What every process can see. */
  datatype Disk = Disk(files: map<nat, seq<Record>>, current: Option<nat>,
                       clients: map<ClientId, Client>, sempub: int)

  /** stream, offered and dropped are history: what was written to shadow files since
      the last reset, what was read from the source file, and how much was skipped. */
  datatype State = State(disk: Disk, sfd: nat,
                         oldshadow: nat, curshadow: nat, stotsize: nat, shadowbusy: bool,
                         pc: Point,
                         stream: seq<Record>, offered: seq<Record>, dropped: nat)

  datatype ClientCall = Claim | Attach | LockNext | ReleaseOld | Close | Exit

  datatype Action =
    | Receive(batch: seq<Record>)
    | PassFirst(room: bool)            // room: the file system is not filled over 95%
    | CreateNext
    | WipeCurrent
    | WriteCurrent
    | PassRest(room: bool)
    | GcStart | GcTest | GcRelease | GcRemove
    | ByClient(id: ClientId, call: ClientCall)

  predicate ReadLocked(d: Disk, k: nat) {
    exists id | id in d.clients :: d.clients[id].Attached? && d.clients[id].lo <= k <= d.clients[id].hi
  }

  function NumClients(d: Disk): int { SEMTOTAL - d.sempub }

  function Init(): State {
    State(Disk(map[0 := []], Some(0), map[], SEMTOTAL), 0, 0, 0, 0, false, Waiting, [], [], 0)
  }

  /** The last client left: every shadow file is removed and sequence 0 starts afresh. */
  function Reset(s: State): State {
    State(s.disk.(files := map[0 := []], current := Some(0)), 0, 0, 0, 0, false, Waiting, [], [], 0)
  }

  /** write() on the file that is open under the number sfd. */
  function Append(s: State, recs: seq<Record>): State {
    s.(disk := s.disk.(files := s.disk.files[s.sfd :=
         (if s.sfd in s.disk.files then s.disk.files[s.sfd] else []) + recs]),
       stotsize := s.stotsize + |recs|, stream := s.stream + recs)
  }

  function Pass(s: State, recs: seq<Record>, room: bool): State {
    if room then Append(s, recs) else s.(dropped := s.dropped + |recs|)
  }

  function ReceiveBatch(s: State, batch: seq<Record>): State {
    if !s.pc.Waiting? || !(0 < |batch| <= BUFRECS) then s
    else if NumClients(s.disk) == 0 then
      if s.shadowbusy then Reset(s) else s
    else
      var fits := s.stotsize + |batch| <= MAXSHADOWREC;
      var cut := if fits then |batch| else MAXSHADOWREC - s.stotsize;
      if 0 <= cut <= |batch| then
        s.(shadowbusy := true, offered := s.offered + batch,
           pc := WriteFirst(batch[..cut], batch[cut..]))
      else s
  }

  /** Only a full file makes the daemon go on with the rest of the batch. */
  function PassFirstPart(s: State, room: bool): State {
    if !s.pc.WriteFirst? then s
    else
      var t := Pass(s, s.pc.part, room);
      if t.stotsize >= MAXSHADOWREC then t.(pc := Create(s.pc.rest))
      else t.(pc := Waiting, dropped := t.dropped + |s.pc.rest|)
  }

  function CreateFile(s: State): State {
    if !s.pc.Create? then s
    else
      s.(curshadow := s.curshadow + 1, sfd := s.curshadow + 1,
         disk := s.disk.(files := s.disk.files[s.curshadow + 1 := []]), pc := Wipe(s.pc.rest))
  }

  function Truncate(s: State): State {
    if s.pc.Wipe? then s.(disk := s.disk.(current := None), pc := Publish(s.pc.rest)) else s
  }

  function PublishNew(s: State): State {
    if !s.pc.Publish? then s
    else
      s.(disk := s.disk.(current := Some(s.curshadow)), stotsize := 0,
         pc := if s.pc.rest == [] then Waiting else WriteRest(s.pc.rest))
  }

  function PassRestPart(s: State, room: bool): State {
    if s.pc.WriteRest? then Pass(s, s.pc.rest, room).(pc := Waiting) else s
  }

  function StartCollecting(s: State): State {
    if s.pc.Waiting? && s.shadowbusy then s.(pc := GcTry) else s
  }

  function TestOldest(s: State): State {
    if !s.pc.GcTry? then s
    else if s.oldshadow < s.curshadow && s.oldshadow in s.disk.files && !ReadLocked(s.disk, s.oldshadow)
    then s.(pc := GcHeld)
    else s.(pc := Waiting)
  }

  function ReleaseTestLock(s: State): State {
    if s.pc.GcHeld? then s.(pc := GcUnlink) else s
  }

  function RemoveOldest(s: State): State {
    if !s.pc.GcUnlink? then s
    else
      s.(disk := s.disk.(files := s.disk.files - {s.oldshadow}), oldshadow := s.oldshadow + 1, pc := GcTry)
  }

  /** The collector's test lock, which makes a client's lock attempt on the same file fail. */
  predicate WriteLocked(s: State, k: nat) { s.pc.GcHeld? && s.oldshadow == k }

  function Entry(s: State, id: ClientId): Option<Client> {
    if id in s.disk.clients then Some(s.disk.clients[id]) else None
  }

  predicate CanAttach(s: State) {
    && s.disk.current.Some?
    && s.disk.current.value in s.disk.files
    && s.disk.files[s.disk.current.value] != []
    && !WriteLocked(s, s.disk.current.value)
  }

  predicate CanLockNext(s: State, c: Client) {
    c.Attached? && c.lo == c.hi && c.lo + 1 in s.disk.files && !WriteLocked(s, c.lo + 1)
  }

  /** The table entry of a client after its call; None when it is no client (any more). */
  function NewEntry(s: State, e: Option<Client>, call: ClientCall): Option<Client> {
    match call
    case Claim => if e.None? && s.disk.sempub > 0 then Some(Claimed) else e
    case Attach =>
      if e == Some(Claimed) && CanAttach(s)
      then Some(Attached(s.disk.current.value, s.disk.current.value)) else e
    case LockNext =>
      if e.Some? && CanLockNext(s, e.value) then Some(Attached(e.value.lo, e.value.lo + 1)) else e
    case ReleaseOld =>
      if e.Some? && e.value.Attached? then Some(Attached(e.value.hi, e.value.hi)) else e
    case Close => if e.Some? && e.value.Attached? then Some(Closed) else e
    case Exit => if e.Some? && !e.value.Attached? then None else e
  }

  function SetEntry(s: State, id: ClientId, e: Option<Client>): State {
    match e
    case Some(c) =>
      s.(disk := s.disk.(clients := s.disk.clients[id := c],
                         sempub := s.disk.sempub - (if id in s.disk.clients then 0 else 1)))
    case None =>
      s.(disk := s.disk.(clients := s.disk.clients - {id},
                         sempub := s.disk.sempub + (if id in s.disk.clients then 1 else 0)))
  }

  function CallOf(s: State, id: ClientId, call: ClientCall): State {
    SetEntry(s, id, NewEntry(s, Entry(s, id), call))
  }

  function Apply(s: State, a: Action): State {
    match a
    case Receive(batch) => ReceiveBatch(s, batch)
    case PassFirst(room) => PassFirstPart(s, room)
    case CreateNext => CreateFile(s)
    case WipeCurrent => Truncate(s)
    case WriteCurrent => PublishNew(s)
    case PassRest(room) => PassRestPart(s, room)
    case GcStart => StartCollecting(s)
    case GcTest => TestOldest(s)
    case GcRelease => ReleaseTestLock(s)
    case GcRemove => RemoveOldest(s)
    case ByClient(id, call) => CallOf(s, id, call)
  }

  function Run(s: State, acts: seq<Action>): State
    decreases |acts|
  {
    if |acts| == 0 then s else Run(Apply(s, acts[0]), acts[1..])
  }

  // ------------------------------------------------------------------ invariant

  /** The files oldshadow..curshadow exist, no others, and the newest is the open one. */
  ghost predicate FilesInv(s: State) {
    && s.oldshadow <= s.curshadow
    && s.sfd == s.curshadow
    && (forall k: nat :: k in s.disk.files <==> s.oldshadow <= k <= s.curshadow)
  }

  /** Each existing file is its own slice of the stream; every file below the newest is full. */
  ghost predicate StreamInv(s: State)
    requires FilesInv(s)
  {
    && s.curshadow * MAXSHADOWREC <= |s.stream| <= (s.curshadow + 1) * MAXSHADOWREC
    && s.disk.files[s.curshadow] == s.stream[s.curshadow * MAXSHADOWREC..]
    && (forall k: nat :: s.oldshadow <= k < s.curshadow ==>
          s.disk.files[k] == Slice(s.stream, k))
  }

  /** The records of full shadow file k. */
  ghost function Slice(stream: seq<Record>, k: nat): seq<Record> {
    if (k + 1) * MAXSHADOWREC <= |stream| then stream[k * MAXSHADOWREC..(k + 1) * MAXSHADOWREC] else []
  }

  function Pending(s: State): seq<Record> {
    match s.pc
    case WriteFirst(part, rest) => part + rest
    case Create(rest) => rest
    case Wipe(rest) => rest
    case Publish(rest) => rest
    case WriteRest(rest) => rest
    case _ => []
  }

  /** The daemon's own counter agrees with the file it writes, at every point. */
  ghost predicate CounterInv(s: State)
    requires FilesInv(s)
  {
    match s.pc
    case WriteFirst(part, rest) =>
      && 0 < |part| && |part| + |rest| <= BUFRECS
      && s.stotsize == |s.disk.files[s.curshadow]|
      && s.stotsize + |part| <= MAXSHADOWREC
      && (rest != [] ==> s.stotsize + |part| == MAXSHADOWREC)
    case Create(rest) =>
      |rest| < BUFRECS && s.stotsize == MAXSHADOWREC == |s.disk.files[s.curshadow]|
    case Wipe(rest) =>
      |rest| < BUFRECS && s.disk.files[s.curshadow] == []
    case Publish(rest) =>
      |rest| < BUFRECS && s.disk.files[s.curshadow] == []
    case WriteRest(rest) =>
      0 < |rest| < BUFRECS && s.stotsize == 0 && s.disk.files[s.curshadow] == []
    case _ =>
      s.stotsize == |s.disk.files[s.curshadow]| < MAXSHADOWREC
  }

  ghost predicate CurrentInv(s: State) {
    match s.pc
    case Wipe(_) => s.curshadow > 0 && s.disk.current == Some(s.curshadow - 1)
    case Publish(_) => s.curshadow > 0 && s.disk.current == None
    case _ => s.disk.current == Some(s.curshadow)
  }

  /** A client's locked files exist, and lie above a file that the collector is removing. */
  ghost predicate ClientInv(s: State, c: Client) {
    c.Attached? ==>
      && s.shadowbusy
      && s.oldshadow <= c.lo <= c.hi <= c.lo + 1
      && c.hi <= s.curshadow
      && (s.pc.GcHeld? || s.pc.GcUnlink? ==> s.oldshadow < c.lo)
  }

  ghost predicate ClientsInv(s: State) {
    && s.disk.sempub + |s.disk.clients| == SEMTOTAL
    && s.disk.sempub >= 0
    && (forall id | id in s.disk.clients :: ClientInv(s, s.disk.clients[id]))
  }

  ghost predicate CollectorInv(s: State) {
    && (s.pc.GcHeld? || s.pc.GcUnlink? ==> s.oldshadow < s.curshadow)
    && (!s.shadowbusy ==> s.pc.Waiting? && s.stream == [] && s.curshadow == 0)
  }

  /** The shadow stream is the offered stream with `dropped` records left out. */
  ghost predicate HistoryInv(s: State) {
    && Subsequence(s.stream + Pending(s), s.offered)
    && |s.stream| + |Pending(s)| + s.dropped == |s.offered|
  }

  ghost predicate Inv(s: State) {
    && FilesInv(s) && StreamInv(s) && CounterInv(s) && CurrentInv(s)
    && ClientsInv(s) && CollectorInv(s) && HistoryInv(s)
  }

  // ------------------------------------------------------------------ preservation

  lemma PassKeepsFiles(s: State, recs: seq<Record>, room: bool)
    requires FilesInv(s) && StreamInv(s)
    requires |s.disk.files[s.curshadow]| + |recs| <= MAXSHADOWREC
    ensures var t := Pass(s, recs, room);
            FilesInv(t) && StreamInv(t) &&
            |t.disk.files[t.curshadow]| == |s.disk.files[s.curshadow]| + (if room then |recs| else 0)
  {
    if room {
      var t := Pass(s, recs, room);
      assert t.stream[s.curshadow * MAXSHADOWREC..] == s.stream[s.curshadow * MAXSHADOWREC..] + recs;
      forall k: nat | s.oldshadow <= k < s.curshadow
        ensures t.disk.files[k] == Slice(t.stream, k)
      {
        assert Slice(t.stream, k) == Slice(s.stream, k);
      }
    }
  }

  lemma DroppingEnd(s: State, kept: seq<Record>, lost: seq<Record>)
    requires Subsequence(s.stream + Pending(s), s.offered)
    requires s.stream + Pending(s) == kept + lost
    ensures Subsequence(kept, s.offered)
  {
    SubsequenceDropEnd(kept, lost, s.offered);
  }

  lemma ResetKeeps(s: State)
    requires Inv(s) && NumClients(s.disk) == 0
    ensures Inv(Reset(s))
  {
    assert s.disk.clients == map[];
  }

  lemma AcceptKeeps(s: State, batch: seq<Record>)
    requires Inv(s) && s.pc.Waiting? && 0 < |batch| <= BUFRECS && NumClients(s.disk) != 0
    ensures Inv(ReceiveBatch(s, batch))
  {
    var t := ReceiveBatch(s, batch);
    assert s.stream + Pending(s) == s.stream;
    SubsequenceBothGrow(s.stream, s.offered, batch);
    assert Pending(t) == batch;
    assert t.disk == s.disk && t.stream == s.stream;
  }

  lemma ReceiveKeeps(s: State, batch: seq<Record>)
    requires Inv(s)
    ensures Inv(ReceiveBatch(s, batch))
  {
    hide Inv;
    if s.pc.Waiting? && 0 < |batch| <= BUFRECS {
      if NumClients(s.disk) == 0 { ResetKeeps(s); } else { AcceptKeeps(s, batch); }
    }
  }

  lemma PassFirstKeepsHistory(s: State, room: bool)
    requires HistoryInv(s) && s.pc.WriteFirst?
    requires s.pc.rest == [] || s.stotsize + |s.pc.part| == MAXSHADOWREC
    requires s.stotsize < MAXSHADOWREC
    ensures HistoryInv(PassFirstPart(s, room))
  {
    var WriteFirst(part, rest) := s.pc;
    var t := PassFirstPart(s, room);
    if room {
      assert t.stream == s.stream + part;
      assert s.stream + Pending(s) == t.stream + rest;
      DroppingEnd(s, t.stream, rest);
      assert t.stream + Pending(t) == if t.pc.Create? then t.stream + rest else t.stream;
    } else {
      DroppingEnd(s, s.stream, part + rest);
      assert t.stream + Pending(t) == t.stream;
    }
  }

  lemma PassFirstKeeps(s: State, room: bool)
    requires Inv(s)
    ensures Inv(PassFirstPart(s, room))
  {
    hide FilesInv, StreamInv, CounterInv, CurrentInv, ClientsInv, CollectorInv, HistoryInv, PassFirstPart;
    if s.pc.WriteFirst? {
      FirstPartFits(s);
      PassFirstKeepsHistory(s, room);
      PassFirstKeepsFiles(s, room);
      PassFirstKeepsOthers(s, room);
    } else {
      assert PassFirstPart(s, room) == s by { NothingToPass(s, room); }
    }
  }

  lemma NothingToPass(s: State, room: bool)
    requires !s.pc.WriteFirst?
    ensures PassFirstPart(s, room) == s
  {
  }

  lemma FirstPartFits(s: State)
    requires FilesInv(s) && CounterInv(s) && s.pc.WriteFirst?
    ensures s.pc.rest == [] || s.stotsize + |s.pc.part| == MAXSHADOWREC
    ensures s.stotsize < MAXSHADOWREC
  {
  }

  lemma PassFirstKeepsFiles(s: State, room: bool)
    requires FilesInv(s) && StreamInv(s) && CounterInv(s) && s.pc.WriteFirst?
    ensures var t := PassFirstPart(s, room); FilesInv(t) && StreamInv(t) && CounterInv(t)
  {
    PassKeepsFiles(s, s.pc.part, room);
  }

  lemma PassFirstKeepsOthers(s: State, room: bool)
    requires FilesInv(s) && CounterInv(s) && s.pc.WriteFirst?
    requires CurrentInv(s) && ClientsInv(s) && CollectorInv(s)
    ensures var t := PassFirstPart(s, room); CurrentInv(t) && ClientsInv(t) && CollectorInv(t)
  {
  }

  lemma CreateKeeps(s: State)
    requires Inv(s)
    ensures Inv(CreateFile(s))
  {
    if s.pc.Create? {
      var t := CreateFile(s);
      assert s.disk.files[s.curshadow] == Slice(s.stream, s.curshadow);
      assert t.disk.files[t.curshadow] == t.stream[t.curshadow * MAXSHADOWREC..];
    }
  }

  lemma PublishingKeeps(s: State)
    requires Inv(s)
    ensures Inv(Truncate(s)) && Inv(PublishNew(s))
  {
  }

  lemma PassRestKeepsHistory(s: State, room: bool)
    requires HistoryInv(s) && s.pc.WriteRest?
    ensures HistoryInv(PassRestPart(s, room))
  {
    var t := PassRestPart(s, room);
    DroppingEnd(s, s.stream, s.pc.rest);
    assert t.stream + Pending(t) == t.stream;
  }

  lemma PassRestKeeps(s: State, room: bool)
    requires Inv(s)
    ensures Inv(PassRestPart(s, room))
  {
    if s.pc.WriteRest? {
      PassRestKeepsHistory(s, room);
      hide HistoryInv;
      PassKeepsFiles(s, s.pc.rest, room);
    }
  }

  lemma TestingKeeps(s: State)
    requires Inv(s)
    ensures Inv(StartCollecting(s)) && Inv(ReleaseTestLock(s))
  {
  }

  /** No lock on the oldest file: as locks are never below it, every lock is above it. */
  lemma UnlockedOldest(s: State)
    requires ClientsInv(s) && !ReadLocked(s.disk, s.oldshadow)
    ensures forall id | id in s.disk.clients ::
              s.disk.clients[id].Attached? ==> s.oldshadow < s.disk.clients[id].lo
  {
    forall id | id in s.disk.clients && s.disk.clients[id].Attached?
      ensures s.oldshadow < s.disk.clients[id].lo
    {
      assert ClientInv(s, s.disk.clients[id]);
    }
  }

  lemma TestOldestKeeps(s: State)
    requires Inv(s)
    ensures Inv(TestOldest(s))
  {
    if s.pc.GcTry? && !ReadLocked(s.disk, s.oldshadow) { UnlockedOldest(s); }
    hide ReadLocked;
    assert Pending(TestOldest(s)) == Pending(s);
  }

  lemma RemovingKeeps(s: State)
    requires Inv(s)
    ensures Inv(RemoveOldest(s))
  {
  }

  lemma SemaphoreCounts(s: State, id: ClientId, e: Option<Client>)
    requires s.disk.sempub >= 0 && s.disk.sempub + |s.disk.clients| == SEMTOTAL
    requires id in s.disk.clients || e.None? || s.disk.sempub > 0
    ensures var d := SetEntry(s, id, e).disk; d.sempub >= 0 && d.sempub + |d.clients| == SEMTOTAL
  {
    var d := SetEntry(s, id, e).disk;
    if e.Some? {
      assert d.clients.Keys == s.disk.clients.Keys + {id};
    } else if id in s.disk.clients {
      assert s.disk.clients.Keys == d.clients.Keys + {id};
    } else {
      assert d.clients.Keys == s.disk.clients.Keys;
    }
  }

  /** A client that locks a file locks one that exists and that nobody is removing. */
  lemma NewEntryFits(s: State, e: Option<Client>, call: ClientCall)
    requires Inv(s) && (e.Some? ==> ClientInv(s, e.value))
    ensures var f := NewEntry(s, e, call); f.Some? ==> ClientInv(s, f.value)
  {
  }

  lemma SetEntryKeepsFiles(s: State, id: ClientId, e: Option<Client>)
    requires FilesInv(s) && StreamInv(s) && CounterInv(s) && CurrentInv(s) && CollectorInv(s) && HistoryInv(s)
    ensures var t := SetEntry(s, id, e);
            FilesInv(t) && StreamInv(t) && CounterInv(t) && CurrentInv(t) && CollectorInv(t) && HistoryInv(t)
  {
    var t := SetEntry(s, id, e);
    assert t == s.(disk := s.disk.(clients := t.disk.clients, sempub := t.disk.sempub));
    assert Pending(t) == Pending(s);
  }

  lemma SetEntryKeepsTable(s: State, id: ClientId, e: Option<Client>)
    requires ClientsInv(s) && (e.Some? ==> ClientInv(s, e.value))
    requires id in s.disk.clients || e.None? || s.disk.sempub > 0
    ensures ClientsInv(SetEntry(s, id, e))
  {
    SemaphoreCounts(s, id, e);
    var t := SetEntry(s, id, e);
    forall i | i in t.disk.clients
      ensures ClientInv(t, t.disk.clients[i])
    {
      assert ClientInv(s, if i == id then e.value else s.disk.clients[i]);
    }
  }

  lemma ClientKeeps(s: State, id: ClientId, call: ClientCall)
    requires Inv(s)
    ensures Inv(CallOf(s, id, call))
  {
    var e := NewEntry(s, Entry(s, id), call);
    NewEntryFits(s, Entry(s, id), call);
    assert id in s.disk.clients || e.None? || s.disk.sempub > 0;
    hide NewEntry, FilesInv, StreamInv, CounterInv, CurrentInv, CollectorInv, HistoryInv, ClientsInv, SetEntry;
    SetEntryKeepsFiles(s, id, e);
    SetEntryKeepsTable(s, id, e);
  }

  lemma ApplyKeeps(s: State, a: Action)
    requires Inv(s)
    ensures Inv(Apply(s, a))
  {
    hide Inv, ReceiveBatch, PassFirstPart, CreateFile, Truncate, PublishNew, PassRestPart, StartCollecting, TestOldest,
      ReleaseTestLock, RemoveOldest, CallOf;
    match a
    case Receive(batch) => ReceiveKeeps(s, batch);
    case PassFirst(room) => PassFirstKeeps(s, room);
    case CreateNext => CreateKeeps(s);
    case WipeCurrent => PublishingKeeps(s);
    case WriteCurrent => PublishingKeeps(s);
    case PassRest(room) => PassRestKeeps(s, room);
    case GcStart => TestingKeeps(s);
    case GcTest => TestOldestKeeps(s);
    case GcRelease => TestingKeeps(s);
    case GcRemove => RemovingKeeps(s);
    case ByClient(id, call) => ClientKeeps(s, id, call);
  }

  lemma {:induction false} RunKeeps(s: State, acts: seq<Action>)
    requires Inv(s)
    ensures Inv(Run(s, acts))
    decreases |acts|
  {
    hide Inv, Apply;
    if |acts| > 0 {
      ApplyKeeps(s, acts[0]);
      RunKeeps(Apply(s, acts[0]), acts[1..]);
    }
  }
}
