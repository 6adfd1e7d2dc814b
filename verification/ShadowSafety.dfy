/** What every interleaving of the daemon, its collector and the clients guarantees. */
module ShadowSafety {
  import opened Prelude
  import opened ShadowProtocol

  // ------------------------------------------------------------------ collector safety

  ghost predicate Holds(s: State, id: ClientId) {
    id in s.disk.clients && s.disk.clients[id].Attached?
  }

  lemma InitHolds()
    ensures Inv(Init())
  {
  }

  /** In every run, the files oldshadow..curshadow are exactly the existing ones, the ones
      below the newest are full, and a client's own file and all later ones are among them. */
  lemma CollectorSafety(acts: seq<Action>, id: ClientId)
    ensures var s := Run(Init(), acts);
            && (forall k: nat :: k in s.disk.files <==> s.oldshadow <= k <= s.curshadow)
            && (forall k: nat :: s.oldshadow <= k < s.curshadow ==> |s.disk.files[k]| == MAXSHADOWREC)
            && (Holds(s, id) ==>
                  var c := s.disk.clients[id];
                  && s.oldshadow <= c.lo <= c.hi <= s.curshadow
                  && (forall k: nat :: c.lo <= k <= s.curshadow ==> k in s.disk.files))
  {
    InitHolds();
    RunKeeps(Init(), acts);
    hide Run;
    var s := Run(Init(), acts);
    forall k: nat | s.oldshadow <= k < s.curshadow
      ensures |s.disk.files[k]| == MAXSHADOWREC
    {
      FileOf(s, k);
    }
  }

  /** The collector's own lock never makes a client's lock request fail. */
  lemma LockNeverRefused(acts: seq<Action>, id: ClientId)
    ensures var s := Run(Init(), acts);
            && (s.disk.current.Some? ==> !WriteLocked(s, s.disk.current.value))
            && (Holds(s, id) && s.disk.clients[id].lo == s.disk.clients[id].hi ==>
                  (CanLockNext(s, s.disk.clients[id]) <==> s.disk.clients[id].lo < s.curshadow))
  {
    InitHolds();
    RunKeeps(Init(), acts);
  }

  /** While a client is attached, nothing is reset: files are only removed below it, the
      newest only grows, and the stream only grows. */
  lemma AttachedMeansNoReset(s: State, a: Action, id: ClientId)
    requires Inv(s) && Holds(s, id)
    ensures var t := Apply(s, a);
            t.oldshadow <= s.disk.clients[id].lo && s.curshadow <= t.curshadow && s.stream <= t.stream
  {
    assert |s.disk.clients| > 0;
  }

  /** Removal is oldest first and stops at a file in use: no step by anybody takes away a
      file that a client holds, or one above it. */
  lemma HeldFilesSurvive(s: State, a: Action, id: ClientId, k: nat)
    requires Inv(s) && Holds(s, id)
    requires s.disk.clients[id].lo <= k && k in s.disk.files
    ensures k in Apply(s, a).disk.files && s.disk.files[k] <= Apply(s, a).disk.files[k]
  {
    assert s.oldshadow <= k <= s.curshadow;
    hide Apply, Inv;
    AttachedMeansNoReset(s, a, id);
    ApplyKeeps(s, a);
    FilePrefix(s, Apply(s, a), k);
  }

  lemma FilePrefix(s: State, t: State, k: nat)
    requires Inv(s) && Inv(t) && s.stream <= t.stream && s.curshadow <= t.curshadow
    requires s.oldshadow <= k <= s.curshadow && t.oldshadow <= k
    ensures k in s.disk.files && k in t.disk.files && s.disk.files[k] <= t.disk.files[k]
  {
    hide Inv;
    FileOf(s, k);
    FileOf(t, k);
    SlicePrefix(s.stream, t.stream, k * MAXSHADOWREC, |s.disk.files[k]|, |t.disk.files[k]|);
  }

  lemma SlicePrefix(a: seq<Record>, b: seq<Record>, at: nat, m: nat, n: nat)
    requires a <= b && m <= n && at + m <= |a| && at + n <= |b|
    ensures a[at..at + m] <= b[at..at + n]
  {
  }

  lemma SameSlice(a: seq<Record>, b: seq<Record>, at: nat, n: nat)
    requires a <= b && at + n <= |a|
    ensures a[at..at + n] == b[at..at + n]
  {
  }

  /** An existing file is a slice of the stream. */
  lemma FileOf(s: State, k: nat)
    requires Inv(s) && s.oldshadow <= k <= s.curshadow
    ensures k in s.disk.files && k * MAXSHADOWREC <= |s.stream|
    ensures |s.disk.files[k]| == if k < s.curshadow then MAXSHADOWREC else |s.stream| - k * MAXSHADOWREC
    ensures |s.disk.files[k]| <= MAXSHADOWREC && k * MAXSHADOWREC + |s.disk.files[k]| <= |s.stream|
    ensures s.disk.files[k] == s.stream[k * MAXSHADOWREC..k * MAXSHADOWREC + |s.disk.files[k]|]
  {
    if k < s.curshadow { assert s.disk.files[k] == Slice(s.stream, k); }
  }

  // ------------------------------------------------------------------ what a client can rely on

  /** From s to t nothing happened that client `me` can notice, but that records were added. */
  ghost predicate Evolves(s: State, t: State, me: ClientId) {
    && (me in s.disk.clients <==> me in t.disk.clients)
    && (me in s.disk.clients ==> s.disk.clients[me] == t.disk.clients[me])
    && (Holds(s, me) ==> s.stream <= t.stream && s.curshadow <= t.curshadow)
  }

  predicate By(a: Action, me: ClientId) { a.ByClient? && a.id == me }

  lemma EntryFrame(s: State, a: Action, me: ClientId)
    requires !By(a, me)
    ensures Entry(Apply(s, a), me) == Entry(s, me)
  {
  }

  lemma OthersEvolve(s: State, a: Action, me: ClientId)
    requires Inv(s) && !By(a, me)
    ensures Inv(Apply(s, a)) && Evolves(s, Apply(s, a), me)
  {
    ApplyKeeps(s, a);
    EntryFrame(s, a, me);
    if Holds(s, me) { AttachedMeansNoReset(s, a, me); }
    hide Inv, Apply;
  }

  predicate OnlyOthers(acts: seq<Action>, me: ClientId) {
    forall i | 0 <= i < |acts| :: !By(acts[i], me)
  }

  lemma {:induction false} OthersRunEvolves(s: State, acts: seq<Action>, me: ClientId)
    requires Inv(s) && OnlyOthers(acts, me)
    ensures Inv(Run(s, acts)) && Evolves(s, Run(s, acts), me)
    decreases |acts|
  {
    hide Inv, Apply;
    if |acts| > 0 {
      OthersEvolve(s, acts[0], me);
      OthersRunEvolves(Apply(s, acts[0]), acts[1..], me);
    }
  }

  // ------------------------------------------------------------------ the writer's stream

  /** The contents of the files lo..hi, one after the other. */
  ghost function Concat(files: map<nat, seq<Record>>, lo: nat, hi: nat): seq<Record>
    requires lo <= hi
    requires forall k: nat :: lo <= k <= hi ==> k in files
    decreases hi - lo
  {
    if lo == hi then files[hi] else files[lo] + Concat(files, lo + 1, hi)
  }

  lemma {:induction false} ConcatFrom(s: State, lo: nat)
    requires Inv(s) && s.oldshadow <= lo <= s.curshadow
    ensures Concat(s.disk.files, lo, s.curshadow) == s.stream[lo * MAXSHADOWREC..]
    decreases s.curshadow - lo
  {
    if lo < s.curshadow {
      ConcatFrom(s, lo + 1);
      assert s.disk.files[lo] == Slice(s.stream, lo);
      assert s.stream[lo * MAXSHADOWREC..]
          == s.stream[lo * MAXSHADOWREC..(lo + 1) * MAXSHADOWREC] + s.stream[(lo + 1) * MAXSHADOWREC..];
    }
  }

  /** Whatever is skipped because the file system is full, in every run the shadow files hold
      the offered records in order with exactly `dropped` left out, and between batches the
      daemon's counter is the size of the newest file, which is never full. */
  lemma WriterUnderPressure(acts: seq<Action>)
    ensures var s := Run(Init(), acts);
            && Subsequence(s.stream, s.offered)
            && (s.pc.Waiting? ==> |s.stream| + s.dropped == |s.offered|)
            && s.oldshadow <= s.curshadow && s.oldshadow * MAXSHADOWREC <= |s.stream|
            && (forall k: nat :: s.oldshadow <= k <= s.curshadow ==> k in s.disk.files)
            && Concat(s.disk.files, s.oldshadow, s.curshadow) == s.stream[s.oldshadow * MAXSHADOWREC..]
            && (s.pc.Waiting? ==> s.stotsize == |s.disk.files[s.curshadow]| < MAXSHADOWREC)
  {
    InitHolds();
    RunKeeps(Init(), acts);
    var s := Run(Init(), acts);
    SubsequenceDropEnd(s.stream, Pending(s), s.offered);
    ConcatFrom(s, s.oldshadow);
  }

  predicate NoSkip(acts: seq<Action>) {
    forall i | 0 <= i < |acts| :: acts[i] != PassFirst(false) && acts[i] != PassRest(false)
  }

  lemma StepDropsNothing(s: State, a: Action)
    requires CounterInvOf(s) && a != PassFirst(false) && a != PassRest(false)
    ensures Apply(s, a).dropped == s.dropped || Apply(s, a).dropped == 0
  {
  }

  ghost predicate CounterInvOf(s: State) { FilesInv(s) && CounterInv(s) }

  lemma {:induction false} NothingDropped(s: State, acts: seq<Action>)
    requires Inv(s) && s.dropped == 0 && NoSkip(acts)
    ensures Run(s, acts).dropped == 0
    decreases |acts|
  {
    if |acts| > 0 {
      ApplyKeeps(s, acts[0]);
      StepDropsNothing(s, acts[0]);
      hide Apply, Inv;
      NothingDropped(Apply(s, acts[0]), acts[1..]);
    }
  }

  /** Without a skipped write, between batches the shadow files are exactly the offered
      records: the files that still exist hold everything from file oldshadow on. */
  lemma WriterStream(acts: seq<Action>)
    requires NoSkip(acts) && Run(Init(), acts).pc.Waiting?
    ensures var s := Run(Init(), acts);
            && s.oldshadow <= s.curshadow
            && (forall k: nat :: s.oldshadow <= k <= s.curshadow ==> k in s.disk.files)
            && s.oldshadow * MAXSHADOWREC <= |s.offered|
            && Concat(s.disk.files, s.oldshadow, s.curshadow) == s.offered[s.oldshadow * MAXSHADOWREC..]
            && |s.disk.files[s.curshadow]| < MAXSHADOWREC
  {
    InitHolds();
    RunKeeps(Init(), acts);
    NothingDropped(Init(), acts);
    var s := Run(Init(), acts);
    assert s.stream + Pending(s) == s.stream;
    SubsequenceWhole(s.stream, s.offered);
    ConcatFrom(s, s.oldshadow);
  }
}
