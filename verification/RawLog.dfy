/**
 * Browsing a raw log: the list of record offsets behind the commands next, previous, reset and branch.
 *
 * A raw log is a header, then per sample a record header of fixed size and its compressed data. Samples are
 * numbered from 0.
 */
module RawLog {
  import opened Prelude

  datatype Sample = Sample(time: nat, complen: nat)

  /** What rawread knows of the file: where the first record starts, the samples, and an incomplete end. */
  datatype Log = Log(start: nat, reclen: nat, samples: seq<Sample>, tail: nat)

  ghost predicate WellFormed(log: Log) { 0 < log.reclen && log.tail < log.reclen }

  /** What show_samp answers. Stop is the answer of a program without a screen. */
  datatype Command = Next | Previous | Reset | Branch(time: nat) | Stop

  /** A sample as it is shown; last is the flag RRLAST. */
  datatype Frame = Frame(sample: nat, last: bool)

  // ------------------------------------------------------------------ offsets

  /** Where record i starts; record |samples| is the end of the complete records. */
  function Offset(log: Log, i: nat): nat
    requires i <= |log.samples|
  {
    if i == 0 then log.start else Offset(log, i - 1) + log.reclen + log.samples[i - 1].complen
  }

  lemma {:induction false} OffsetsAreSpaced(log: Log, i: nat, j: nat)
    requires WellFormed(log) && i < j <= |log.samples|
    ensures Offset(log, i) + log.reclen + log.samples[i].complen <= Offset(log, j)
    ensures i + 1 < j ==> Offset(log, i) + 2 * log.reclen <= Offset(log, j)
    decreases j
  {
    if i + 1 < j { OffsetsAreSpaced(log, i, j - 1); }
  }

  function FileSize(log: Log): nat { Offset(log, |log.samples|) + log.tail }

  /** The record of the first n that starts at pos. */
  function RecordAt(log: Log, pos: nat, n: nat): (r: Option<nat>)
    requires n <= |log.samples|
    ensures r.Some? ==> r.value < n && Offset(log, r.value) == pos
    ensures r.None? ==> forall i :: 0 <= i < n ==> Offset(log, i) != pos
  {
    if n == 0 then None else if Offset(log, n - 1) == pos then Some(n - 1) else RecordAt(log, pos, n - 1)
  }

  lemma OffsetsDiffer(log: Log, i: nat, j: nat)
    requires WellFormed(log) && i <= |log.samples| && j <= |log.samples| && Offset(log, i) == Offset(log, j)
    ensures i == j
  {
    if i < j { OffsetsAreSpaced(log, i, j); }
    if j < i { OffsetsAreSpaced(log, j, i); }
  }

  /** The flag that announces the last sample: no more than a record header is left behind this one. */
  predicate IsFlaggedLast(log: Log, i: nat)
    requires i < |log.samples|
  {
    FileSize(log) - Offset(log, i + 1) <= log.reclen
  }

  /** The last sample carries the flag; the one before it as well when nothing but a bare header follows. */
  lemma LastFlag(log: Log, i: nat)
    requires WellFormed(log) && i < |log.samples|
    ensures IsFlaggedLast(log, i) <==>
            i == |log.samples| - 1 ||
            (i == |log.samples| - 2 && log.samples[i + 1].complen == 0 && log.tail == 0)
  {
    var n := |log.samples|;
    if i + 1 < n {
      OffsetsAreSpaced(log, i + 1, n);
    }
  }

  // ------------------------------------------------------------------ the cursor

  /** The plain meaning of a browser: the sample to come next, the begin time in force, the last command. */
  datatype Cursor = Cursor(next: nat, begin: nat, last: Command)

  /** The first sample from i on that is not before the begin time. */
  function Reach(log: Log, i: nat, begin: nat): (k: nat)
    requires i <= |log.samples|
    ensures i <= k <= |log.samples|
    ensures forall j :: i <= j < k ==> log.samples[j].time < begin
    ensures k < |log.samples| ==> begin <= log.samples[k].time
    decreases |log.samples| - i
  {
    if i < |log.samples| && begin > log.samples[i].time then Reach(log, i + 1, begin) else i
  }

  /** The sample shown next, if any. */
  function Choose(log: Log, end: nat, c: Cursor): Option<nat>
    requires c.next <= |log.samples|
  {
    var n := |log.samples|;
    var k := Reach(log, c.next, c.begin);
    // at the end of the file the last sample comes again, except after an answer that stops the program
    var stops := c.last == Stop && k == c.next;
    if k == n && (n == 0 || stops) then None
    else
      var shown := if k == n then n - 1 else k;
      if end != 0 && end < log.samples[shown].time then None else Some(shown)
  }

  /** Where the cursor goes when sample s has been shown. */
  function Move(log: Log, s: nat, cmd: Command): (c: Cursor)
    requires s < |log.samples|
    ensures c.next <= |log.samples|
  {
    match cmd
    case Previous => Cursor(if s == 0 then 0 else s - 1, 0, cmd)
    case Reset => Cursor(0, 0, cmd)
    case Branch(time) => Cursor(if time != 0 && time < log.samples[s].time then 0 else s + 1, time, cmd)
    case _ => Cursor(s + 1, 0, cmd)
  }

  /** The samples shown when these commands are given one after the other. */
  function Frames(log: Log, end: nat, c: Cursor, cmds: seq<Command>): seq<Frame>
    requires c.next <= |log.samples|
    decreases |cmds|
  {
    if |cmds| == 0 then []
    else
      match Choose(log, end, c)
      case None => []
      case Some(s) => [Frame(s, IsFlaggedLast(log, s))] + Frames(log, end, Move(log, s, cmds[0]), cmds[1..])
  }

  lemma SkipOne(log: Log, end: nat, c: Cursor, cmds: seq<Command>)
    requires c.next < |log.samples| && c.begin > log.samples[c.next].time
    ensures Frames(log, end, c, cmds) == Frames(log, end, Cursor(c.next + 1, c.begin, Next), cmds)
  {
  }

  lemma BackToLast(log: Log, end: nat, c: Cursor, cmds: seq<Command>)
    requires c.next == |log.samples| > 0 && c.last != Stop
    ensures Frames(log, end, c, cmds) == Frames(log, end, Cursor(c.next - 1, 0, c.last), cmds)
  {
    hide Reach, IsFlaggedLast;
    ReachAtOnce(log, c.next, c.begin);
    ReachAtOnce(log, c.next - 1, 0);
    var back := Cursor(c.next - 1, 0, c.last);
    SameChoice(log, end, c, back, cmds);
  }

  lemma SameChoice(log: Log, end: nat, c: Cursor, d: Cursor, cmds: seq<Command>)
    requires c.next <= |log.samples| && d.next <= |log.samples| && Choose(log, end, c) == Choose(log, end, d)
    ensures Frames(log, end, c, cmds) == Frames(log, end, d, cmds)
  {
    hide Choose, Move, IsFlaggedLast;
  }

  // ------------------------------------------------------------------ the offset list

  const OFFCHUNK := 256

  /**
   * The first cur entries are the offsets of consecutive records, the last of them the one before record i. The
   * offset of the first record may stand there twice.
   */
  ghost predicate Tracks(log: Log, list: seq<nat>, cur: nat, i: nat)
    requires i <= |log.samples|
  {
    && cur < |list| && list[0] == log.start
    && ((cur == i && forall j :: 0 <= j < cur ==> list[j] == Offset(log, j))
        || (cur == i + 1 && forall j :: 1 <= j < cur ==> list[j] == Offset(log, j - 1)))
  }

  datatype Outcome = EndOfFile | Skipped | Shown | PastEndTime

  class Browser {
    const log: Log
    const endtime: nat
    var begintime: nat
    var lastcmd: Command
    var pos: nat                 // the seek position
    var offlist: array<nat>
    var offcur: nat
    var offsize: nat
    var shown: seq<Frame>
    ghost var next: nat          // the record at pos

    ghost predicate Valid()
      reads this, offlist
    {
      && WellFormed(log)
      && offsize == offlist.Length
      && next <= |log.samples| && pos == Offset(log, next)
      && Tracks(log, offlist[..], offcur, next)
    }

    ghost function Here(): Cursor
      reads this
    {
      Cursor(next, begintime, lastcmd)
    }

    constructor (log: Log, begintime: nat, endtime: nat)
      requires WellFormed(log)
      ensures Valid() && fresh(offlist)
      ensures this.log == log && this.endtime == endtime
      ensures shown == [] && Here() == Cursor(0, begintime, Next)
    {
      this.log, this.endtime, this.begintime, this.lastcmd := log, endtime, begintime, Next;
      pos, next, shown := log.start, 0, [];
      offlist := new nat[OFFCHUNK];
      offsize := OFFCHUNK;
      new;
      offlist[0] := pos;
      offcur := 1;
    }

    /** The header of the next record is read and its offset remembered; false at the end of the file. */
    method ReadHeader() returns (found: bool, s: nat)
      requires Valid()
      modifies this`pos, this`offlist, this`offcur, this`offsize, offlist
      ensures found <==> next < |log.samples|
      ensures !found ==> offlist == old(offlist) && offcur == old(offcur) && offsize == old(offsize)
      ensures !found ==> offlist[..] == old(offlist[..])
      ensures found ==> s == next && pos == old(pos) + log.reclen
      ensures found ==> offsize == offlist.Length && Tracks(log, offlist[..], offcur, next + 1)
      ensures offlist == old(offlist) || fresh(offlist)
    {
      var record := RecordAt(log, pos, |log.samples|);
      if record.None? {
        // fewer bytes than a record header are left
        OffsetsDiffer(log, next, |log.samples|);
        found, s := false, 0;
        pos := pos + log.tail;
      } else {
        found, s := true, record.value;
        OffsetsDiffer(log, next, s);
        pos := pos + log.reclen;
        offlist[offcur] := pos - log.reclen;
        offcur := offcur + 1;
        if offcur >= offsize {
          var longer := new nat[offsize + OFFCHUNK];
          forall j | 0 <= j < offsize { longer[j] := offlist[j]; }
          offlist := longer;
          offsize := offsize + OFFCHUNK;
        }
      }
    }

    /** The command that followed sample s is carried out. */
    method Obey(s: nat, cmd: Command)
      requires Valid() && next == s + 1 && begintime == 0
      modifies this`begintime, this`lastcmd, this`pos, this`offcur, this`next
      ensures Valid() && Here() == Move(log, s, cmd)
    {
      lastcmd := cmd;
      match cmd
      case Previous =>
        if offcur >= 2 { offcur := offcur - 2; } else { offcur := 0; }
        pos := offlist[offcur];
        next := if s == 0 then 0 else s - 1;
      case Reset =>
        pos := offlist[0];
        offcur := 1;
        next := 0;
      case Branch(time) =>
        begintime := time;
        if begintime != 0 && begintime < log.samples[s].time {
          pos := offlist[0];
          offcur := 1;
          next := 0;
        }
      case _ =>
    }

    /** The end of the file: back to the sample shown last. */
    method StepBack()
      requires WellFormed(log) && offsize == offlist.Length && next == |log.samples|
      requires Tracks(log, offlist[..], offcur, next)
      modifies this`begintime, this`pos, this`offcur, this`next
      ensures Valid() && begintime == 0
      ensures next == if |log.samples| == 0 then 0 else |log.samples| - 1
    {
      begintime := 0;
      if offcur >= 1 { offcur := offcur - 1; }
      pos := offlist[offcur];
      next := if |log.samples| == 0 then 0 else |log.samples| - 1;
    }

    /** One turn of the inner loop. */
    method Turn(cmds: seq<Command>) returns (outcome: Outcome, rest: seq<Command>)
      requires Valid() && |cmds| > 0
      modifies this, offlist
      ensures outcome == PastEndTime || Valid()
      ensures outcome == EndOfFile <==> old(next) == |log.samples|
      ensures outcome == Shown ==> rest == cmds[1..]
      ensures outcome != Shown ==> rest == cmds && shown == old(shown)
      ensures outcome == Skipped ==> next == old(next) + 1 && begintime == old(begintime) > 0
      ensures outcome == EndOfFile ==>
        && begintime == 0 && lastcmd == old(lastcmd)
        && next == if |log.samples| == 0 then 0 else |log.samples| - 1
      ensures var total := old(shown) + Frames(log, endtime, old(Here()), cmds);
        if outcome == PastEndTime || (outcome == EndOfFile && (lastcmd == Stop || |log.samples| == 0))
        then shown == total
        else shown + Frames(log, endtime, Here(), rest) == total
      ensures offlist == old(offlist) || fresh(offlist)
    {
      hide Frames, Choose, Tracks, Offset, IsFlaggedLast, RecordAt, WellFormed, Move, Reach, FileSize;
      ghost var here := Here();
      rest := cmds;
      var found, s := ReadHeader();
      if !found {
        StepBack();
        EndOfLog(log, endtime, here, cmds);
        return EndOfFile, cmds;
      }
      AfterRecord(log, s);
      var time, complen := log.samples[s].time, log.samples[s].complen;
      if begintime != 0 && begintime > time {
        SkipOne(log, endtime, here, cmds);
        lastcmd := Next;
        pos, next := pos + complen, next + 1;
        return Skipped, cmds;
      }
      ShowOne(log, endtime, here, cmds);
      begintime := 0;
      if endtime != 0 && endtime < time { return PastEndTime, cmds; }
      pos, next := pos + complen, next + 1;
      shown := shown + [Frame(s, FileSize(log) - pos <= log.reclen)];
      Obey(s, cmds[0]);
      return Shown, cmds[1..];
    }

    /**
     * One pass of the outer loop: samples are shown until the file ends (more, unless the program is to stop), the
     * end time has passed, or no command is left.
     */
    method Pass(cmds: seq<Command>) returns (more: bool, rest: seq<Command>)
      requires Valid() && |cmds| > 0
      modifies this, offlist
      ensures var total := old(shown) + Frames(log, endtime, old(Here()), cmds);
        if !more then shown == total
        else
          && Valid() && lastcmd != Stop && begintime == 0 && 0 < |rest| <= |cmds|
          && shown + Frames(log, endtime, Here(), rest) == total
          && (next < |log.samples| || |log.samples| == 0)
      ensures |log.samples| == 0 && old(lastcmd) != Stop ==> more && rest == cmds && shown == old(shown)
      ensures more && old(begintime) == 0 && old(next) < |log.samples| ==> |rest| < |cmds|
      ensures offlist == old(offlist) || fresh(offlist)
    {
      hide Frames, Choose, Tracks, Offset, IsFlaggedLast, RecordAt, WellFormed;
      rest := cmds;
      ghost var total := shown + Frames(log, endtime, Here(), cmds);
      while true
        invariant Valid() && 0 < |rest| <= |cmds|
        invariant |rest| == |cmds| ==> rest == cmds && shown == old(shown) && begintime == old(begintime)
        invariant |rest| == |cmds| && begintime == 0 ==> next == old(next)
        invariant if |rest| < |cmds| then |log.samples| > 0 else |log.samples| == 0 ==> lastcmd == old(lastcmd)
        invariant shown + Frames(log, endtime, Here(), rest) == total
        invariant offlist == old(offlist) || fresh(offlist)
        decreases |rest|, |log.samples| - next
      {
        var outcome;
        outcome, rest := Turn(rest);
        if outcome == PastEndTime { return false, rest; }
        if outcome == EndOfFile {
          EndOfLog(log, endtime, Cursor(|log.samples|, begintime, lastcmd), rest);
          return lastcmd != Stop, rest;
        }
        if |rest| == 0 {
          NoCommands(log, endtime, Here());
          return false, rest;
        }
      }
    }

    /**
     * The outer loop, as long as commands come. Without samples it would go round forever, and nothing is shown; with
     * samples the browser is a cursor.
     */
    method Browse(cmds: seq<Command>)
      requires Valid() && |log.samples| > 0
      modifies this, offlist
      ensures shown == old(shown) + Frames(log, endtime, old(Here()), cmds)
    {
      hide Frames, Choose, Tracks, Offset, IsFlaggedLast, RecordAt, WellFormed;
      ghost var total := shown + Frames(log, endtime, Here(), cmds);
      if |cmds| == 0 {
        NoCommands(log, endtime, Here());
        return;
      }
      var more, rest := true, cmds;
      while more
        invariant if more then Valid() && |rest| > 0 && shown + Frames(log, endtime, Here(), rest) == total
                  else shown == total
        invariant offlist == old(offlist) || fresh(offlist)
        decreases more, |rest|, if begintime == 0 && next < |log.samples| then 0 else 1
      {
        more, rest := Pass(rest);
      }
    }
  }

  lemma NoCommands(log: Log, end: nat, c: Cursor)
    requires c.next <= |log.samples|
    ensures Frames(log, end, c, []) == []
  {
  }

  lemma AfterRecord(log: Log, s: nat)
    requires s < |log.samples|
    ensures Offset(log, s) + log.reclen + log.samples[s].complen == Offset(log, s + 1)
    ensures IsFlaggedLast(log, s) == (FileSize(log) - Offset(log, s + 1) <= log.reclen)
  {
  }

  lemma ShowOne(log: Log, end: nat, c: Cursor, cmds: seq<Command>)
    requires c.next < |log.samples| && !(c.begin != 0 && c.begin > log.samples[c.next].time) && |cmds| > 0
    ensures Frames(log, end, c, cmds) ==
            if end != 0 && end < log.samples[c.next].time then []
            else [Frame(c.next, IsFlaggedLast(log, c.next))] + Frames(log, end, Move(log, c.next, cmds[0]), cmds[1..])
  {
  }

  lemma EndOfLog(log: Log, end: nat, c: Cursor, cmds: seq<Command>)
    requires c.next == |log.samples|
    ensures |log.samples| == 0 || c.last == Stop ==> Frames(log, end, c, cmds) == []
    ensures |log.samples| > 0 && c.last != Stop ==>
            Frames(log, end, c, cmds) == Frames(log, end, Cursor(c.next - 1, 0, c.last), cmds)
    ensures |log.samples| == 0 ==> Frames(log, end, Cursor(0, 0, c.last), cmds) == []
  {
    if |log.samples| > 0 && c.last != Stop { BackToLast(log, end, c, cmds); }
  }

  // ------------------------------------------------------------------ what the user sees

  predicate IsStep(cmd: Command) { cmd.Next? || cmd.Previous? || cmd.Reset? }

  /** The sample behind sample s; the last one again at the end. */
  function Stepped(n: nat, s: nat, cmd: Command): nat
    requires s < n && IsStep(cmd)
  {
    match cmd
    case Next => if s + 1 < n then s + 1 else s
    case Previous => if s > 0 then s - 1 else 0
    case Reset => 0
  }

  /** Without times, each command moves the sample on the screen by one place or back to the first. */
  lemma {:induction false} StepsMoveByOne(log: Log, c: Cursor, cmds: seq<Command>)
    requires c.next <= |log.samples| && |log.samples| > 0 && c.begin == 0 && IsStep(c.last)
    requires forall k :: 0 <= k < |cmds| ==> IsStep(cmds[k])
    ensures var frames := Frames(log, 0, c, cmds);
      && |frames| == |cmds|
      && (|cmds| > 0 ==> frames[0].sample == if c.next < |log.samples| then c.next else c.next - 1)
      && (forall k :: 0 <= k < |frames| ==> frames[k].sample < |log.samples|)
      && (forall k :: 0 <= k < |frames| ==> frames[k].last == IsFlaggedLast(log, frames[k].sample))
      && (forall k :: 0 <= k < |frames| - 1 ==>
            frames[k + 1].sample == Stepped(|log.samples|, frames[k].sample, cmds[k]))
    decreases |cmds|
  {
    hide IsFlaggedLast;
    if |cmds| > 0 {
      var s := if c.next < |log.samples| then c.next else c.next - 1;
      assert Choose(log, 0, c) == Some(s);
      var rest := Frames(log, 0, Move(log, s, cmds[0]), cmds[1..]);
      StepsMoveByOne(log, Move(log, s, cmds[0]), cmds[1..]);
      var frames := [Frame(s, IsFlaggedLast(log, s))] + rest;
      assert Frames(log, 0, c, cmds) == frames;
      forall k | 0 <= k < |frames| - 1
        ensures frames[k + 1].sample == Stepped(|log.samples|, frames[k].sample, cmds[k])
      {
        if k > 0 { assert frames[k + 1] == rest[k] && frames[k] == rest[k - 1] && cmds[k] == cmds[1..][k - 1]; }
      }
    }
  }

  ghost predicate Ascending(log: Log) {
    forall i, j :: 0 <= i < j < |log.samples| ==> log.samples[i].time <= log.samples[j].time
  }

  /** Where a branch should land: the first sample that is not before the time, or the last sample. */
  function FirstNotBefore(log: Log, time: nat): nat
    requires |log.samples| > 0
  {
    var k := Reach(log, 0, time);
    if k < |log.samples| then k else k - 1
  }

  /**
   * A branch lands there except to the time of the sample on the screen, which is passed over, and to midnight,
   * which counts as no time at all.
   */
  lemma BranchLands(log: Log, s: nat, time: nat)
    requires s < |log.samples| && Ascending(log)
    ensures Choose(log, 0, Move(log, s, Branch(time))) == Some(FirstNotBefore(log, time)) <==>
            (time != 0 && time != log.samples[s].time) || FirstNotBefore(log, time) == s == |log.samples| - 1
  {
    hide Choose, Move, Reach;
    Branched(log, s, time);
    var here := log.samples[s].time;
    if time != 0 && here < time {
      ReachFrom(log, 0, s + 1, time);
    } else if time == 0 || here == time {
      ReachAtOnce(log, s + 1, time);
      assert FirstNotBefore(log, time) <= s;
    }
  }

  /** Two samples, the first on the screen, and a branch to its time: the second is shown. */
  lemma BranchPassesOver()
    ensures var log := Log(0, 1, [Sample(10, 1), Sample(20, 1)], 0);
      Choose(log, 0, Move(log, 0, Branch(10))) == Some(1) && FirstNotBefore(log, 10) == 0
  {
    var log := Log(0, 1, [Sample(10, 1), Sample(20, 1)], 0);
    ReachAtOnce(log, 0, 10);
    ReachAtOnce(log, 1, 10);
  }

  lemma Branched(log: Log, s: nat, time: nat)
    requires s < |log.samples|
    ensures var r := Reach(log, if time != 0 && time < log.samples[s].time then 0 else s + 1, time);
      Choose(log, 0, Move(log, s, Branch(time))) == Some(if r < |log.samples| then r else r - 1)
  {
    hide Reach;
  }

  lemma ReachAtOnce(log: Log, i: nat, time: nat)
    requires i <= |log.samples| && (i < |log.samples| ==> time <= log.samples[i].time)
    ensures Reach(log, i, time) == i
  {
  }

  lemma {:induction false} ReachFrom(log: Log, i: nat, j: nat, time: nat)
    requires i <= j <= |log.samples| && forall m :: i <= m < j ==> log.samples[m].time < time
    ensures Reach(log, i, time) == Reach(log, j, time)
    decreases j - i
  {
    if i < j { ReachFrom(log, i + 1, j, time); }
  }

  /** The first sample from i on that is past the end time. */
  function Until(log: Log, i: nat, end: nat): (k: nat)
    requires i <= |log.samples|
    ensures i <= k <= |log.samples|
    ensures forall j :: i <= j < k ==> end == 0 || log.samples[j].time <= end
    ensures k < |log.samples| ==> end != 0 && end < log.samples[k].time
    decreases |log.samples| - i
  {
    if i < |log.samples| && (end == 0 || log.samples[i].time <= end) then Until(log, i + 1, end) else i
  }

  /** Without a screen, the samples from c.next on come once each, up to the end time. */
  lemma {:induction false} PrintsOnce(log: Log, end: nat, c: Cursor, cmds: seq<Command>)
    requires c.next <= |log.samples| <= c.next + |cmds| && c.begin == 0
    requires c.last == Stop || c.next < |log.samples|
    requires forall k :: 0 <= k < |cmds| ==> cmds[k] == Stop
    ensures var frames := Frames(log, end, c, cmds);
      && c.next + |frames| == Until(log, c.next, end)
      && forall k :: 0 <= k < |frames| ==> frames[k].sample == c.next + k
    decreases |cmds|
  {
    hide IsFlaggedLast;
    var n, i := |log.samples|, c.next;
    if i == n {
      assert Frames(log, end, c, cmds) == [];
    } else {
      assert Reach(log, i, 0) == i;
      if end == 0 || log.samples[i].time <= end {
        var next := Move(log, i, cmds[0]);
        PrintsOnce(log, end, next, cmds[1..]);
        var rest := Frames(log, end, next, cmds[1..]);
        var frames := [Frame(i, IsFlaggedLast(log, i))] + rest;
        assert Frames(log, end, c, cmds) == frames;
        forall k | 0 <= k < |frames| ensures frames[k].sample == i + k {
          if k > 0 { assert frames[k] == rest[k - 1]; }
        }
      }
    }
  }

  /**
   * A program without a screen prints every sample from the begin time to the end time once, in order. When no sample
   * reaches the begin time it prints the last one all the same, unless that is past the end time.
   */
  lemma Prints(log: Log, begin: nat, end: nat, cmds: seq<Command>)
    requires |log.samples| > 0 && |cmds| >= |log.samples|
    requires forall k :: 0 <= k < |cmds| ==> cmds[k] == Stop
    ensures var frames := Frames(log, end, Cursor(0, begin, Next), cmds);
      var first := Reach(log, 0, begin);
      var from := if first < |log.samples| then first else first - 1;
      && from + |frames| == Until(log, from, end)
      && forall k :: 0 <= k < |frames| ==> frames[k].sample == from + k
  {
    hide IsFlaggedLast;
    var first := Reach(log, 0, begin);
    var from := if first < |log.samples| then first else first - 1;
    assert Reach(log, from, 0) == from;
    assert Choose(log, end, Cursor(0, begin, Next)) == Choose(log, end, Cursor(from, 0, Stop));
    assert Frames(log, end, Cursor(0, begin, Next), cmds) == Frames(log, end, Cursor(from, 0, Stop), cmds);
    PrintsOnce(log, end, Cursor(from, 0, Stop), cmds);
  }

  // ------------------------------------------------------------------ the end time

  predicate InTime(log: Log, end: nat, frame: Frame) {
    frame.sample < |log.samples| && (end == 0 || log.samples[frame.sample].time <= end)
  }

  /** The frames up to the first that is past the end time. */
  function Within(log: Log, end: nat, frames: seq<Frame>): (r: seq<Frame>)
    ensures r <= frames && forall k :: 0 <= k < |r| ==> InTime(log, end, r[k])
    ensures |r| < |frames| ==> !InTime(log, end, frames[|r|])
  {
    if |frames| == 0 || !InTime(log, end, frames[0]) then [] else [frames[0]] + Within(log, end, frames[1..])
  }

  /** Whatever the commands, an end time ends the session before the first sample that is past it, and changes
      nothing up to there. */
  lemma {:induction false} EndTimeCuts(log: Log, end: nat, c: Cursor, cmds: seq<Command>)
    requires c.next <= |log.samples|
    ensures Frames(log, end, c, cmds) == Within(log, end, Frames(log, 0, c, cmds))
    decreases |cmds|
  {
    hide Move, IsFlaggedLast, Reach;
    if |cmds| > 0 && Choose(log, 0, c).Some? {
      var s := Choose(log, 0, c).value;
      var frame := Frame(s, IsFlaggedLast(log, s));
      EndTimeCuts(log, end, Move(log, s, cmds[0]), cmds[1..]);
      var rest := Frames(log, 0, Move(log, s, cmds[0]), cmds[1..]);
      assert ([frame] + rest)[1..] == rest;
    }
  }

  predicate NoStop(cmds: seq<Command>) { forall k :: 0 <= k < |cmds| ==> cmds[k] != Stop }

  /** Without an end time every command of the user shows a sample, and each is chosen from where the one before it
      and its command have led: by StepsMoveByOne and BranchLands. */
  lemma {:induction false} CommandsShow(log: Log, c: Cursor, cmds: seq<Command>)
    requires c.next <= |log.samples| && |log.samples| > 0 && NoStop(cmds) && c.last != Stop
    ensures var frames := Frames(log, 0, c, cmds);
      && |frames| == |cmds|
      && (forall k :: 0 <= k < |frames| ==>
            frames[k].sample < |log.samples| && frames[k].last == IsFlaggedLast(log, frames[k].sample))
      && (|cmds| > 0 ==> Choose(log, 0, c) == Some(frames[0].sample))
      && (forall k :: 0 <= k < |frames| - 1 ==>
            Choose(log, 0, Move(log, frames[k].sample, cmds[k])) == Some(frames[k + 1].sample))
    decreases |cmds|
  {
    hide Move, IsFlaggedLast, Reach, NoStop;
    if |cmds| > 0 {
      assert Choose(log, 0, c).Some? by { SomethingToShow(log, c); }
      var s := Choose(log, 0, c).value;
      var next := Move(log, s, cmds[0]);
      var rest := Frames(log, 0, next, cmds[1..]);
      StillNoStop(log, s, cmds);
      CommandsShow(log, next, cmds[1..]);
      var frames := [Frame(s, IsFlaggedLast(log, s))] + rest;
      assert Frames(log, 0, c, cmds) == frames;
      forall k | 0 <= k < |frames|
        ensures frames[k].sample < |log.samples| && frames[k].last == IsFlaggedLast(log, frames[k].sample)
      {
        if k > 0 { assert frames[k] == rest[k - 1]; }
      }
      forall k | 0 <= k < |frames| - 1
        ensures Choose(log, 0, Move(log, frames[k].sample, cmds[k])) == Some(frames[k + 1].sample)
      {
        if k > 0 { assert frames[k + 1] == rest[k] && frames[k] == rest[k - 1] && cmds[k] == cmds[1..][k - 1]; }
      }
    }
  }

  lemma SomethingToShow(log: Log, c: Cursor)
    requires c.next <= |log.samples| && |log.samples| > 0 && c.last != Stop
    ensures Choose(log, 0, c).Some?
  {
  }

  lemma StillNoStop(log: Log, s: nat, cmds: seq<Command>)
    requires |cmds| > 0 && NoStop(cmds) && s < |log.samples|
    ensures NoStop(cmds[1..]) && Move(log, s, cmds[0]).last != Stop
  {
    assert cmds[0] != Stop;
  }

  /** With an end time: the session stops with a command left exactly when the sample that it would show is past it. */
  lemma StopsAtEndTime(log: Log, end: nat, c: Cursor, cmds: seq<Command>)
    requires c.next <= |log.samples| && |log.samples| > 0 && NoStop(cmds) && c.last != Stop
    ensures var frames, all := Frames(log, end, c, cmds), Frames(log, 0, c, cmds);
      && frames <= all && |all| == |cmds|
      && (forall k :: 0 <= k < |frames| ==> InTime(log, end, frames[k]))
      && (|frames| < |cmds| <==> exists k :: 0 <= k < |cmds| && !InTime(log, end, all[k]))
      && (|frames| < |cmds| ==> !InTime(log, end, all[|frames|]))
  {
    hide Frames, NoStop, Choose, Move, InTime;
    CommandsShow(log, c, cmds);
    EndTimeCuts(log, end, c, cmds);
    var frames, all := Frames(log, end, c, cmds), Frames(log, 0, c, cmds);
    if |frames| == |cmds| {
      assert frames == all;
    }
  }
}
