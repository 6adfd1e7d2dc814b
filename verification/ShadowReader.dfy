/**
 A client of the shadow files: acctprocnt, acctrepos, acctphotoproc and switchshadow, run
 one system call at a time while the daemon, its collector and other clients act in
 between. What they do is an arbitrary schedule, so every contract below is about every
 interleaving.
 */
module ShadowReader {
  import opened Prelude
  import opened ShadowProtocol
  import opened ShadowSafety

  /** The actions of everybody but client me. */
  function Others(acts: seq<Action>, me: ClientId): (r: seq<Action>)
    ensures OnlyOthers(r, me)
  {
    if |acts| == 0 then []
    else
      var tail := Others(acts[1..], me);
      if By(acts[0], me) then tail else [acts[0]] + tail
  }

  class Kernel {
    var s: State
    var schedule: seq<seq<Action>>    // element i happens before the client's i-th system call
    ghost var emptyReads: nat         // how often 'current' was found empty

    constructor (s: State, schedule: seq<seq<Action>>)
      ensures this.s == s && this.schedule == schedule && emptyReads == 0
    {
      this.s, this.schedule, emptyReads := s, schedule, 0;
    }

    ghost predicate Valid() reads this { Inv(s) }

    /** The other processes run. */
    method Interfere(me: ClientId)
      requires Valid()
      modifies this`s, this`schedule
      ensures Valid() && Evolves(old(s), s, me)
      ensures s == if old(schedule) == [] then old(s) else Run(old(s), Others(old(schedule)[0], me))
      ensures schedule == if old(schedule) == [] then [] else old(schedule)[1..]
    {
      if |schedule| > 0 {
        var acts := Others(schedule[0], me);
        OthersRunEvolves(s, acts, me);
        s := Run(s, acts);
        schedule := schedule[1..];
      }
    }

    /** fstat or stat of a shadow file: its size in records. */
    method Stat(me: ClientId, seqno: nat) returns (size: nat)
      requires Valid()
      modifies this`s, this`schedule
      ensures Valid() && Evolves(old(s), s, me)
      ensures old(schedule) == [] ==> s == old(s) && schedule == []
      ensures size == if seqno in s.disk.files then |s.disk.files[seqno]| else 0
    {
      Interfere(me);
      size := if seqno in s.disk.files then |s.disk.files[seqno]| else 0;
    }

    /** Open and scan 'current'; None when it is empty at this moment. */
    method ReadCurrent(me: ClientId) returns (seqno: Option<nat>)
      requires Valid()
      modifies this
      ensures Valid() && Evolves(old(s), s, me)
      ensures old(schedule) == [] ==> s == old(s) && schedule == []
      ensures seqno == s.disk.current
      ensures emptyReads == old(emptyReads) + if seqno.None? then 1 else 0
    {
      Interfere(me);
      seqno := s.disk.current;
      if seqno.None? { emptyReads := emptyReads + 1; }
    }

    method Open(me: ClientId, seqno: nat) returns (ok: bool)
      requires Valid()
      modifies this`s, this`schedule
      ensures Valid() && Evolves(old(s), s, me)
      ensures old(schedule) == [] ==> s == old(s) && schedule == []
      ensures ok == (seqno in s.disk.files)
    {
      Interfere(me);
      ok := seqno in s.disk.files;
    }

    /** A read lock on the file after the one that is held. */
    method Lock(me: ClientId) returns (ok: bool)
      requires Valid() && Holds(s, me)
      modifies this`s, this`schedule
      ensures Valid() && Grows(old(s), s)
      ensures var c := old(s).disk.clients[me];
              Entry(s, me) == Some(if ok then Attached(c.lo, c.lo + 1) else c)
      ensures old(s).disk.clients[me].lo == old(s).disk.clients[me].hi < old(s).curshadow ==> ok
      ensures old(schedule) == [] ==> schedule == [] && SameStream(old(s), s)
    {
      hide Inv, Apply, Run, CanLockNext;
      Interfere(me);
      ok := CanLockNext(s, s.disk.clients[me]);
      LockEffect(s, me);
      s := Apply(s, ByClient(me, LockNext));
    }

    /** Closing a file releases its lock. */
    method CloseOld(me: ClientId)
      requires Valid() && Holds(s, me)
      modifies this`s, this`schedule
      ensures Valid() && Grows(old(s), s)
      ensures var c := old(s).disk.clients[me]; Entry(s, me) == Some(Attached(c.hi, c.hi))
      ensures old(schedule) == [] ==> schedule == [] && SameStream(old(s), s)
    {
      hide Inv, Apply, Run;
      Interfere(me);
      ReleaseEffect(s, me);
      s := Apply(s, ByClient(me, ReleaseOld));
    }

    /** read() of one record; None at the end of the file. */
    method ReadRecord(me: ClientId, seqno: nat, pos: nat) returns (r: Option<Record>)
      requires Valid()
      modifies this`s, this`schedule
      ensures Valid() && Evolves(old(s), s, me)
      ensures r == if seqno in s.disk.files && pos < |s.disk.files[seqno]|
                   then Some(s.disk.files[seqno][pos]) else None
    {
      Interfere(me);
      r := if seqno in s.disk.files && pos < |s.disk.files[seqno]|
           then Some(s.disk.files[seqno][pos]) else None;
    }
  }

  lemma LockEffect(s: State, me: ClientId)
    requires Inv(s) && Holds(s, me)
    ensures var t, c := Apply(s, ByClient(me, LockNext)), s.disk.clients[me];
            && Inv(t) && SameStream(s, t)
            && Entry(t, me) == Some(if CanLockNext(s, c) then Attached(c.lo, c.lo + 1) else c)
            && (c.lo == c.hi < s.curshadow ==> CanLockNext(s, c))
  {
    ApplyKeeps(s, ByClient(me, LockNext));
  }

  lemma ReleaseEffect(s: State, me: ClientId)
    requires Inv(s) && Holds(s, me)
    ensures var t, c := Apply(s, ByClient(me, ReleaseOld)), s.disk.clients[me];
            Inv(t) && SameStream(s, t) && Entry(t, me) == Some(Attached(c.hi, c.hi))
  {
    ApplyKeeps(s, ByClient(me, ReleaseOld));
  }

  ghost predicate SameStream(s: State, t: State) { s.stream == t.stream && s.curshadow == t.curshadow }

  ghost predicate Grows(s: State, t: State) { s.stream <= t.stream && s.curshadow <= t.curshadow }

  /** noverflow * acctrecsz is a 32-bit unsigned product, with records of 64 bytes. */
  function WrappedSkip(noverflow: nat): (skip: nat)
    ensures skip <= noverflow
    ensures skip == noverflow <==> noverflow < 0x400_0000
  {
    var q := noverflow / 0x400_0000;
    assert noverflow * 64 == 0x1_0000_0000 * q + (noverflow % 0x400_0000) * 64;
    (noverflow * 64 % 0x1_0000_0000) / 64
  }

  /** Position p of the stream, as (sequence number, offset). The end of a full file and the
      start of the next are the same position. */
  function VirtualPos(seqno: nat, off: nat): nat { seqno * MAXSHADOWREC + off }

  lemma FileRecord(s: State, k: nat, i: nat)
    requires Inv(s) && s.oldshadow <= k <= s.curshadow
    requires k in s.disk.files && i < |s.disk.files[k]|
    ensures VirtualPos(k, i) < |s.stream| && s.disk.files[k][i] == s.stream[VirtualPos(k, i)]
  {
    FileOf(s, k);
  }

  /** What the own file alone says about the records ahead: at most all, and all unless it is full. */
  lemma OwnCount(s: State, fd: nat, off: nat)
    requires Inv(s) && s.oldshadow <= fd <= s.curshadow && VirtualPos(fd, off) <= |s.stream|
    ensures fd in s.disk.files
    ensures |s.disk.files[fd]| <= MAXSHADOWREC
    ensures |s.disk.files[fd]| - off <= |s.stream| - VirtualPos(fd, off)
    ensures |s.disk.files[fd]| < MAXSHADOWREC ==> |s.disk.files[fd]| - off == |s.stream| - VirtualPos(fd, off)
  {
    FileOf(s, fd);
  }

  /** A published sequence number leaves nothing uncounted beyond its file. */
  lemma Published(s: State, fd: nat, off: nat)
    requires Inv(s) && s.disk.current.Some?
    ensures s.disk.current.value <= s.curshadow
    ensures |s.stream| - VirtualPos(fd, off) <= (s.disk.current.value - fd + 1) * MAXSHADOWREC - off
  {
  }

  /** Full files in between, and the size of a later one. */
  lemma FarCount(s: State, fd: nat, off: nat, newseq: nat)
    requires Inv(s) && s.oldshadow <= fd < newseq <= s.curshadow
    ensures newseq in s.disk.files
    ensures var n := MAXSHADOWREC - off + (newseq - fd - 1) * MAXSHADOWREC + |s.disk.files[newseq]|;
            var all := |s.stream| - VirtualPos(fd, off);
            n <= all && (n == all || n == (newseq - fd + 1) * MAXSHADOWREC - off)
  {
    FileOf(s, newseq);
  }

  /** A client's own file exists. */
  lemma OwnRange(s: State, me: ClientId)
    requires Inv(s) && Holds(s, me)
    ensures s.oldshadow <= s.disk.clients[me].lo <= s.disk.clients[me].hi <= s.curshadow
    ensures |s.stream| <= (s.curshadow + 1) * MAXSHADOWREC
  {
  }

  /** Records beyond the end of a file are in a next file. */
  lemma EndOfFile(s: State, fd: nat)
    requires Inv(s)
    ensures VirtualPos(fd, MAXSHADOWREC) == VirtualPos(fd + 1, 0)
    ensures VirtualPos(fd, MAXSHADOWREC) < |s.stream| ==> fd < s.curshadow
  {
  }

  lemma FileExists(s: State, k: nat)
    requires Inv(s)
    ensures k in s.disk.files <==> s.oldshadow <= k <= s.curshadow
  {
  }

  /** Skipping n records, at most to the end of the stream, leads into an existing file unless
      it leads to the very end while the newest file is full and its successor not yet made. */
  lemma SkipTarget(s: State, fd: nat, off: nat, n: nat)
    requires Inv(s) && s.oldshadow <= fd <= s.curshadow && off <= MAXSHADOWREC
    requires VirtualPos(fd, off) + n <= |s.stream|
    ensures var target := fd + (off + n) / MAXSHADOWREC;
            && s.curshadow in s.disk.files
            && VirtualPos(target, (off + n) % MAXSHADOWREC) == VirtualPos(fd, off) + n
            && target <= s.curshadow + 1
            && (target in s.disk.files <==>
                 !(VirtualPos(fd, off) + n == |s.stream| && |s.disk.files[s.curshadow]| == MAXSHADOWREC))
  {
    FileOf(s, s.curshadow);
  }

  /** Every entry is filled in, with these records. */
  predicate Somes(entries: seq<Option<Record>>, recs: seq<Record>) {
    |entries| == |recs| && forall i | 0 <= i < |recs| :: entries[i] == Some(recs[i])
  }

  lemma SomesNone(entries: seq<Option<Record>>, recs: seq<Record>)
    requires |entries| == 0 && |recs| == 0
    ensures Somes(entries, recs)
  {
  }

  lemma SomesNext(entries: seq<Option<Record>>, stream: seq<Record>, p: nat, n: nat)
    requires p + n < |stream| && Somes(entries, stream[p..p + n])
    ensures Somes(entries + [Some(stream[p + n])], stream[p..p + n + 1])
  {
  }

  class Reader {
    const id: ClientId
    const kernel: Kernel
    var acctfd: nat            // sequence number of the file that is open
    var seekpos: nat           // its seek position
    var curshadowseq: nat
    var acctsize: nat

    /** Start of a client that has claimed the semaphore and finds a record in 'current'. */
    constructor (id: ClientId, kernel: Kernel)
      requires kernel.Valid()
      requires Entry(kernel.s, id) == Some(Claimed) && CanAttach(kernel.s)
      modifies kernel
      ensures Valid() && this.id == id && this.kernel == kernel
      ensures kernel.s == Apply(old(kernel.s), ByClient(id, Attach))
      ensures kernel.schedule == old(kernel.schedule)
      ensures acctfd == old(kernel.s).disk.current.value
      ensures acctsize == |old(kernel.s).disk.files[acctfd]|
    {
      var c := kernel.s.disk.current.value;
      this.id, this.kernel := id, kernel;
      acctfd, curshadowseq := c, c;
      acctsize, seekpos := |kernel.s.disk.files[c]|, |kernel.s.disk.files[c]|;
      new;
      FileOf(kernel.s, c);
      ApplyKeeps(kernel.s, ByClient(id, Attach));
      kernel.s := Apply(kernel.s, ByClient(id, Attach));
    }

    ghost function Pos(): nat reads this { VirtualPos(acctfd, acctsize) }

    /** One read lock, on the open file. */
    ghost predicate Locked()
      reads this, kernel
    {
      kernel.Valid() && Entry(kernel.s, id) == Some(Attached(acctfd, acctfd))
    }

    /** The reader is at a position of the stream. */
    ghost predicate Valid()
      reads this, kernel
    {
      && Locked()
      && curshadowseq == acctfd
      && seekpos == acctsize <= MAXSHADOWREC
      && Pos() <= |kernel.s.stream|
    }

    /** Records ahead of the reader. */
    ghost function Available(): int
      reads this, kernel
    {
      |kernel.s.stream| - Pos()
    }

    /** The own file is full and 'current' is empty. */
    ghost predicate WillBeShort()
      reads this, kernel
    {
      && acctfd in kernel.s.disk.files && |kernel.s.disk.files[acctfd]| == MAXSHADOWREC
      && kernel.s.disk.current.None?
    }

    /** The number of records to read. It is never more than what is ahead on return, and not
        less than what was ahead at the call unless 'current' was found empty (it is truncated
        and then written): in that case only the rest of the own, full, file is counted. */
    method AcctProcCnt() returns (numrecs: nat)
      requires Valid()
      modifies kernel
      ensures Valid() && Grows(old(kernel.s), kernel.s)
      ensures numrecs <= Available()
      ensures old(kernel.emptyReads) <= kernel.emptyReads <= old(kernel.emptyReads) + 1
      ensures kernel.emptyReads == old(kernel.emptyReads) ==> old(Available()) <= numrecs
      ensures kernel.emptyReads > old(kernel.emptyReads) ==>
                kernel.s.disk.current == None && numrecs == MAXSHADOWREC - acctsize
      ensures old(kernel.schedule) == [] ==>
                && kernel.s == old(kernel.s) && kernel.schedule == []
                && (kernel.emptyReads > old(kernel.emptyReads) <==> old(WillBeShort()))
    {
      hide Inv, VirtualPos;
      ghost var s0 := kernel.s;
      OwnRange(kernel.s, id);
      var size := kernel.Stat(id, acctfd);
      OwnRange(kernel.s, id);
      OwnCount(kernel.s, acctfd, acctsize);
      numrecs := size - acctsize;
      if size < MAXSHADOWREC { return; }
      ghost var s1 := kernel.s;
      var newseq := kernel.ReadCurrent(id);
      OwnRange(kernel.s, id);
      if newseq.None? { return; }
      Published(kernel.s, acctfd, acctsize);
      if newseq.value == curshadowseq { return; }
      ghost var s2 := kernel.s;
      size := kernel.Stat(id, newseq.value);
      OwnRange(kernel.s, id);
      FarCount(kernel.s, acctfd, acctsize, newseq.value);
      numrecs := numrecs + (newseq.value - curshadowseq - 1) * MAXSHADOWREC + size;
    }

    /** To the next file: its lock is taken before the old one is released. */
    method SwitchShadow() returns (ghost switched: bool)
      requires Locked() && curshadowseq == acctfd
      modifies kernel`s, kernel`schedule, this`acctfd, this`seekpos, this`curshadowseq
      ensures Locked() && Grows(old(kernel.s), kernel.s)
      ensures curshadowseq == old(acctfd) + 1
      ensures if switched then acctfd == old(acctfd) + 1 && seekpos == 0
              else acctfd == old(acctfd) && seekpos == old(seekpos)
      ensures old(acctfd) < old(kernel.s).curshadow ==> switched
      ensures old(kernel.schedule) == [] ==> kernel.schedule == [] && SameStream(old(kernel.s), kernel.s)
      ensures old(kernel.schedule) == [] && old(acctfd) == old(kernel.s).curshadow ==> !switched
    {
      hide Inv;
      OwnRange(kernel.s, id);
      switched := false;
      curshadowseq := curshadowseq + 1;
      var ok := kernel.Open(id, curshadowseq);
      OwnRange(kernel.s, id);
      FileExists(kernel.s, curshadowseq);
      if ok {
        ok := kernel.Lock(id);
        if ok {
          kernel.CloseOld(id);
          acctfd, seekpos, switched := curshadowseq, 0, true;
        }
      }
    }

    /** The file to arrive in exists. */
    ghost predicate SkipFits(noverflow: nat)
      reads this, kernel
    {
      acctfd + (acctsize + WrappedSkip(noverflow)) / MAXSHADOWREC in kernel.s.disk.files
    }

    /** Skip noverflow records (as far as 32 bits count them). The reader arrives where reading
        them one by one would have brought it, provided that the file to arrive in exists. When
        it does not, and is not made meanwhile either, the reader is back at the start of the
        file before it. */
    method AcctRepos(noverflow: nat)
      requires Valid() && WrappedSkip(noverflow) <= Available()
      modifies kernel`s, kernel`schedule, this`acctfd, this`seekpos, this`curshadowseq, this`acctsize
      ensures Locked() && Grows(old(kernel.s), kernel.s)
      ensures old(SkipFits(noverflow)) ==> Valid() && Pos() == old(Pos()) + WrappedSkip(noverflow)
      ensures !old(SkipFits(noverflow)) ==>
                || (Valid() && Pos() == old(Pos()) + WrappedSkip(noverflow))
                || (curshadowseq == acctfd + 1 && seekpos == 0 && acctfd == old(kernel.s).curshadow)
      ensures !old(SkipFits(noverflow)) && old(kernel.schedule) == [] ==> curshadowseq == acctfd + 1
      ensures old(kernel.schedule) == [] ==> kernel.schedule == [] && SameStream(old(kernel.s), kernel.s)
    {
      hide Inv, WrappedSkip;
      ghost var s0, fd0, p1 := kernel.s, acctfd, Pos() + WrappedSkip(noverflow);
      OwnRange(kernel.s, id);
      SkipTarget(kernel.s, acctfd, acctsize, WrappedSkip(noverflow));
      var virtoffset := acctsize + WrappedSkip(noverflow);
      var switches := virtoffset / MAXSHADOWREC;
      FileExists(kernel.s, fd0 + switches);
      ghost var fits := SkipFits(noverflow);
      assert fits <==> fd0 + switches <= s0.curshadow;
      acctsize := virtoffset % MAXSHADOWREC;
      assert p1 == VirtualPos(fd0 + switches, acctsize);
      hide VirtualPos;
      for i := 0 to switches
        invariant Locked() && Grows(s0, kernel.s)
        invariant curshadowseq == fd0 + i && acctsize == virtoffset % MAXSHADOWREC
        invariant acctfd == fd0 + i || (i == switches && acctfd == fd0 + i - 1 && !fits)
        invariant old(kernel.schedule) == [] ==> kernel.schedule == [] && SameStream(s0, kernel.s)
        invariant old(kernel.schedule) == [] && i == switches && !fits ==> acctfd == s0.curshadow
      {
        ghost var switched := SwitchShadow();
      }
      seekpos := acctsize;
    }

    /** The reading loop at the end of a file: on to the next one, which has to exist. */
    method NextFile() returns (size: nat)
      requires Valid() && acctsize == MAXSHADOWREC && Available() > 0
      modifies kernel`s, kernel`schedule, this`acctfd, this`seekpos, this`curshadowseq, this`acctsize
      ensures Valid() && Grows(old(kernel.s), kernel.s)
      ensures Pos() == old(Pos()) && acctsize == seekpos == 0 && acctfd == old(acctfd) + 1
      ensures Reaches(size, |old(kernel.s).stream|)
    {
      hide Inv, VirtualPos;
      ghost var s0, p0 := kernel.s, Pos();
      EndOfFile(kernel.s, acctfd);
      ghost var switched := SwitchShadow();
      acctsize := 0;
      size := FirstSize();
    }

    /** The reading loop within a file: one record, which has to be there. */
    method NextRecord() returns (r: Option<Record>)
      requires Valid() && acctsize < MAXSHADOWREC && Available() > 0
      modifies kernel`s, kernel`schedule, this`seekpos, this`acctsize
      ensures Valid() && Grows(old(kernel.s), kernel.s)
      ensures Pos() == old(Pos()) + 1 && r == Some(old(kernel.s).stream[old(Pos())])
    {
      ghost var s0 := kernel.s;
      OwnRange(kernel.s, id);
      hide Inv;
      r := kernel.ReadRecord(id, acctfd, seekpos);
      OwnRange(kernel.s, id);
      OwnCount(kernel.s, acctfd, acctsize);
      FileRecord(kernel.s, acctfd, seekpos);
      seekpos, acctsize := seekpos + 1, acctsize + 1;
    }

    /** size is a size of the open file: less than full only if everything before bound is in it. */
    ghost predicate Reaches(size: nat, bound: nat)
      reads this
    {
      size <= MAXSHADOWREC && (size < MAXSHADOWREC ==> bound <= VirtualPos(acctfd, size))
    }

    /** One round of the reading loop. */
    method ReadOne(sz: nat, ghost bound: nat, ghost s0: State) returns (r: Option<Record>, size: nat)
      requires Valid() && Grows(s0, kernel.s) && Pos() < bound <= |s0.stream| && Reaches(sz, bound)
      modifies kernel`s, kernel`schedule, this`acctfd, this`seekpos, this`curshadowseq, this`acctsize
      ensures Valid() && Grows(s0, kernel.s) && Reaches(size, bound)
      ensures Pos() == old(Pos()) + 1 && r == Some(s0.stream[old(Pos())])
    {
      size := sz;
      if acctsize >= size {
        size := NextFile();
      }
      hide Locked;
      r := NextRecord();
    }

    /** Read nrprocs records into accproc, across as many files as it takes. */
    method AcctPhotoProc(accproc: array<Option<Record>>, nrprocs: nat) returns (nrexit: nat)
      requires Valid() && nrprocs <= accproc.Length && nrprocs <= Available()
      modifies kernel`s, kernel`schedule, this`acctfd, this`seekpos, this`curshadowseq, this`acctsize, accproc
      ensures Valid() && Grows(old(kernel.s), kernel.s)
      ensures nrexit == nrprocs && Pos() == old(Pos()) + nrprocs
      ensures Somes(accproc[..nrprocs], old(kernel.s).stream[old(Pos())..old(Pos()) + nrprocs])
    {
      hide Inv;
      ghost var s0, p0 := kernel.s, Pos();
      var size: nat := FirstSize();
      assert p0 + nrprocs <= |s0.stream| && Reaches(size, p0 + nrprocs);
      hide Valid, VirtualPos, Pos, Grows, Reaches, Somes;
      nrexit := 0;
      SomesNone(accproc[..0], s0.stream[p0..p0]);
      while nrexit < nrprocs
        invariant nrexit <= nrprocs && Pos() == p0 + nrexit
        invariant Valid() && Grows(s0, kernel.s)
        invariant Reaches(size, p0 + nrprocs)
        invariant Somes(accproc[..nrexit], s0.stream[p0..p0 + nrexit])
      {
        var r;
        r, size := ReadOne(size, p0 + nrprocs, s0);
        SomesNext(accproc[..nrexit], s0.stream, p0, nrexit);
        accproc[nrexit] := r;
        nrexit := nrexit + 1;
        assert accproc[..nrexit] == accproc[..nrexit - 1] + [r];
      }
    }

    /** Size of the open file: less than full only if all records ahead are in it. */
    method FirstSize() returns (size: nat)
      requires Valid()
      modifies kernel`s, kernel`schedule
      ensures Valid() && Grows(old(kernel.s), kernel.s)
      ensures Reaches(size, |old(kernel.s).stream|) && (Available() > 0 ==> acctsize < size || size == MAXSHADOWREC)
    {
      ghost var s0 := kernel.s;
      hide Inv;
      size := kernel.Stat(id, acctfd);
      OwnRange(kernel.s, id);
      OwnCount(kernel.s, acctfd, acctsize);
    }

    /** A skip that leaves a record to read arrives in an existing file. */
    lemma SkipLeavingSome(noverflow: nat)
      requires Valid() && WrappedSkip(noverflow) < Available()
      ensures SkipFits(noverflow)
    {
      OwnRange(kernel.s, id);
      hide Inv, WrappedSkip;
      SkipTarget(kernel.s, acctfd, acctsize, WrappedSkip(noverflow));
    }

    /** One sample of the monitor: count, skip what does not fit in the buffer, read the rest.
        Records are delivered in order, right behind the skipped ones; together they are all
        the records there were at the call (unless 'current' was found empty). */
    method Sample(accproc: array<Option<Record>>) returns (nread: nat, noverflow: nat)
      requires Valid() && accproc.Length > 0
      modifies kernel, this`acctfd, this`seekpos, this`curshadowseq, this`acctsize, accproc
      ensures Valid() && Grows(old(kernel.s), kernel.s)
      ensures nread <= accproc.Length && (noverflow > 0 ==> nread == accproc.Length)
      ensures Pos() == old(Pos()) + WrappedSkip(noverflow) + nread
      ensures Somes(accproc[..nread], kernel.s.stream[Pos() - nread..Pos()])
      ensures old(Pos()) + noverflow + nread <= |kernel.s.stream|
      ensures old(kernel.emptyReads) <= kernel.emptyReads <= old(kernel.emptyReads) + 1
      ensures kernel.emptyReads == old(kernel.emptyReads) ==>
                |old(kernel.s).stream| <= old(Pos()) + noverflow + nread
      ensures old(kernel.schedule) == [] && old(kernel.s).disk.current.Some? ==>
                old(Pos()) + noverflow + nread == |old(kernel.s).stream|
    {
      hide Inv, VirtualPos, Somes;
      var count := AcctProcCnt();
      nread, noverflow := count, 0;
      if count > accproc.Length {
        nread := accproc.Length;
        noverflow := count - nread;
        SkipLeavingSome(noverflow);
        AcctRepos(noverflow);
      }
      ghost var s1, p1 := kernel.s, Pos();
      var nrexit := AcctPhotoProc(accproc, nread);
      SameSlice(s1.stream, kernel.s.stream, p1, nread);
    }

    /** Any number of samples, with what each left out and delivered. Whatever happens in
        between, the pieces lie one behind the other in the stream. If 'current' was found empty
        in fewer samples than there were, and no skip was cut, all that was ahead at the start
        is covered. */
    method Session(accproc: array<Option<Record>>, samples: nat) returns (takes: seq<Take>)
      requires Valid() && accproc.Length > 0
      modifies kernel, this`acctfd, this`seekpos, this`curshadowseq, this`acctsize, accproc
      ensures Valid() && Grows(old(kernel.s), kernel.s)
      ensures |takes| == samples && Consecutive(takes, kernel.s.stream, old(Pos()), Pos())
      ensures Replay(takes, kernel.s.stream, old(Pos())) == kernel.s.stream[old(Pos())..Pos()]
      ensures kernel.emptyReads < old(kernel.emptyReads) + samples && NoneCut(takes) ==> |old(kernel.s).stream| <= Pos()
    {
      hide Inv, VirtualPos, Consecutive, Somes, Replay;
      ghost var s0, p0, e0 := kernel.s, Pos(), kernel.emptyReads;
      takes := [];
      NothingTaken(kernel.s.stream, p0);
      for i := 0 to samples
        invariant Valid() && Grows(s0, kernel.s) && p0 <= Pos()
        invariant |takes| == i && Consecutive(takes, kernel.s.stream, p0, Pos())
        invariant kernel.emptyReads <= e0 + i
        invariant kernel.emptyReads < e0 + i && NoneCut(takes) ==> |s0.stream| <= Pos()
      {
        ghost var s1, p1 := kernel.s, Pos();
        var nread, noverflow := Sample(accproc);
        var records := Values(accproc[..nread], kernel.s.stream[Pos() - nread..Pos()]);
        TakeMore(takes, s1.stream, kernel.s.stream, p0, p1, Take(noverflow, records));
        takes := takes + [Take(noverflow, records)];
      }
      ReplayIsStream(takes, kernel.s.stream, p0, Pos());
    }
  }

  // ------------------------------------------------------------------ what a session takes

  /** One sample: the number of records that were to be skipped, and the records delivered. */
  datatype Take = Take(noverflow: nat, records: seq<Record>)

  /** The pieces lie one behind the other from position `from` to position `to`. */
  ghost predicate Consecutive(takes: seq<Take>, stream: seq<Record>, from: nat, to: nat)
    decreases |takes|
  {
    && from <= to <= |stream|
    && if |takes| == 0 then from == to
       else
         var t := takes[|takes| - 1];
         var mid := to - |t.records| - WrappedSkip(t.noverflow);
         && from <= mid && mid + t.noverflow + |t.records| <= |stream|
         && t.records == stream[to - |t.records|..to]
         && Consecutive(takes[..|takes| - 1], stream, from, mid)
  }

  /** The skipped pieces of the stream and the delivered records, in order. */
  ghost function Replay(takes: seq<Take>, stream: seq<Record>, from: nat): seq<Record>
    decreases |takes|
  {
    if |takes| == 0 then []
    else
      var t := takes[|takes| - 1];
      var done := Replay(takes[..|takes| - 1], stream, from);
      var at := from + |done|;
      done + (if at + WrappedSkip(t.noverflow) <= |stream| then stream[at..at + WrappedSkip(t.noverflow)] else [])
      + t.records
  }

  ghost predicate NoneCut(takes: seq<Take>) {
    forall i :: 0 <= i < |takes| ==> takes[i].noverflow < 0x400_0000
  }

  method Values(entries: seq<Option<Record>>, ghost recs: seq<Record>) returns (values: seq<Record>)
    requires Somes(entries, recs)
    ensures values == recs
  {
    values := seq(|entries|, i requires 0 <= i < |entries| && entries[i].Some? => entries[i].value);
  }

  lemma NothingTaken(stream: seq<Record>, from: nat)
    requires from <= |stream|
    ensures Consecutive([], stream, from, from)
  {
  }

  /** The stream only grows. */
  lemma {:induction false} StillConsecutive(takes: seq<Take>, s: seq<Record>, t: seq<Record>, from: nat, to: nat)
    requires s <= t && Consecutive(takes, s, from, to)
    ensures Consecutive(takes, t, from, to)
    decreases |takes|
  {
    hide WrappedSkip;
    if |takes| > 0 {
      var last := takes[|takes| - 1];
      SameSlice(s, t, to - |last.records|, |last.records|);
      StillConsecutive(takes[..|takes| - 1], s, t, from, to - |last.records| - WrappedSkip(last.noverflow));
    }
  }

  lemma TakeMore(takes: seq<Take>, s: seq<Record>, t: seq<Record>, from: nat, to: nat, more: Take)
    requires s <= t && Consecutive(takes, s, from, to)
    requires to + more.noverflow + |more.records| <= |t|
    requires var end := to + WrappedSkip(more.noverflow) + |more.records|;
             more.records == t[end - |more.records|..end]
    ensures Consecutive(takes + [more], t, from, to + WrappedSkip(more.noverflow) + |more.records|)
    ensures NoneCut(takes + [more]) ==> NoneCut(takes) && WrappedSkip(more.noverflow) == more.noverflow
  {
    StillConsecutive(takes, s, t, from, to);
    hide WrappedSkip;
    assert (takes + [more])[..|takes|] == takes;
    assert forall i :: 0 <= i < |takes| ==> (takes + [more])[i] == takes[i];
    assert (takes + [more])[|takes|] == more;
  }

  lemma {:induction false} ReplayIsStream(takes: seq<Take>, stream: seq<Record>, from: nat, to: nat)
    requires Consecutive(takes, stream, from, to)
    ensures Replay(takes, stream, from) == stream[from..to]
    decreases |takes|
  {
    hide WrappedSkip;
    if |takes| > 0 {
      var t := takes[|takes| - 1];
      var mid := to - |t.records| - WrappedSkip(t.noverflow);
      ReplayIsStream(takes[..|takes| - 1], stream, from, mid);
      assert stream[from..to] == stream[from..mid] + stream[mid..to - |t.records|] + stream[to - |t.records|..to];
    }
  }
}
