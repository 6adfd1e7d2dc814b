/**
 The process database: 256 hash chains of nodes, with a cyclic doubly linked residue list
 threaded through the same nodes. The chains and the residue list are ghost sequences of
 nodes; Valid ties them to the links.
 */
module ProcDb {
  import opened Tasks

  const NPHASH: nat := 256

  /** pid & (NPHASH-1) */
  function Bucket(pid: int): nat { pid % 256 }

  class PInfo {
    var phnext: PInfo?
    var prnext: PInfo?
    var prprev: PInfo?
    var tstat: TStat

    constructor (t: TStat)
      ensures phnext == null && prnext == null && prprev == null && tstat == t
    {
      phnext, prnext, prprev, tstat := null, null, null, t;
    }
  }

  // ------------------------------------------------------------------ sequences of nodes

  ghost predicate Distinct(s: seq<PInfo>) {
    forall i, j :: 0 <= i < j < |s| ==> s[i] != s[j]
  }

  ghost function RemoveAt(s: seq<PInfo>, k: nat): seq<PInfo>
    requires k < |s|
  {
    s[..k] + s[k + 1..]
  }

  /** s without x. */
  ghost function Without(s: seq<PInfo>, x: PInfo): seq<PInfo> {
    if |s| == 0 then [] else if s[0] == x then s[1..] else [s[0]] + Without(s[1..], x)
  }

  lemma {:induction false} WithoutAt(s: seq<PInfo>, k: nat)
    requires k < |s| && Distinct(s)
    ensures Without(s, s[k]) == RemoveAt(s, k)
  {
    if k > 0 {
      assert s[1..][k - 1] == s[k];
      WithoutAt(s[1..], k - 1);
      assert RemoveAt(s, k) == [s[0]] + RemoveAt(s[1..], k - 1);
    }
  }

  lemma {:induction false} WithoutAbsent(s: seq<PInfo>, x: PInfo)
    requires x !in s
    ensures Without(s, x) == s
  {
    if |s| > 0 { WithoutAbsent(s[1..], x); }
  }

  ghost function Backwards(s: seq<PInfo>): seq<PInfo> {
    if |s| == 0 then [] else [s[|s| - 1]] + Backwards(s[..|s| - 1])
  }

  ghost function Joined(chains: seq<seq<PInfo>>): seq<PInfo> {
    if |chains| == 0 then [] else Joined(chains[..|chains| - 1]) + chains[|chains| - 1]
  }

  lemma BackwardsSnoc(s: seq<PInfo>, x: PInfo)
    ensures Backwards(s + [x]) == [x] + Backwards(s)
  {
    assert (s + [x])[..|s|] == s;
  }

  // ------------------------------------------------------------------ links

  /** c is the singly linked chain that starts at head. */
  ghost predicate Chained(head: PInfo?, c: seq<PInfo>)
    reads c`phnext
  {
    && head == (if |c| > 0 then c[0] else null)
    && (forall i {:trigger c[i].phnext} :: 0 <= i < |c| ==> c[i].phnext == (if i + 1 < |c| then c[i + 1] else null))
  }

  /** ring is a cyclic doubly linked list. */
  ghost predicate Ring(ring: seq<PInfo>)
    reads ring`prnext, ring`prprev
  {
    && Distinct(ring)
    && (forall i {:trigger ring[i].prnext} :: 0 <= i < |ring| ==>
          ring[i].prnext == (if i + 1 < |ring| then ring[i + 1] else ring[0]))
    && (forall i {:trigger ring[i].prprev} :: 0 <= i < |ring| ==>
          ring[i].prprev == (if i > 0 then ring[i - 1] else ring[|ring| - 1]))
  }

  /** Unchaining node k of a ring leaves a ring. */
  method Unlink(x: PInfo, ghost ring: seq<PInfo>, ghost k: nat)
    requires Ring(ring) && 0 < k < |ring| && ring[k] == x
    modifies ring`prnext, ring`prprev
    ensures Ring(RemoveAt(ring, k))
    ensures x.prnext == old(x.prnext) && x.prprev == old(x.prprev)
  {
    assert ring[k].prnext == if k + 1 < |ring| then ring[k + 1] else ring[0];
    assert ring[k].prprev == ring[k - 1];
    x.prnext.prprev := x.prprev;
    x.prprev.prnext := x.prnext;
    ghost var r := RemoveAt(ring, k);
    assert forall i :: 0 <= i < |r| ==> r[i] == ring[if i < k then i else i + 1];
  }

  /** Chaining a node in behind the first of a ring. */
  method LinkAfterFirst(pr: PInfo, pp: PInfo, ghost ring: seq<PInfo>)
    requires Ring(ring) && |ring| > 0 && ring[0] == pr && pp !in ring
    modifies ring`prnext, ring`prprev, pp`prnext, pp`prprev
    ensures Ring([pr, pp] + ring[1..])
  {
    assert ring[0].prnext == if 1 < |ring| then ring[1] else ring[0];
    assert ring[0].prprev == ring[|ring| - 1];
    pp.prnext := pr.prnext;
    pr.prnext := pp;
    pp.prprev := pp.prnext.prprev;
    pp.prnext.prprev := pp;
    ghost var r := [pr, pp] + ring[1..];
    assert forall i :: 2 <= i < |r| ==> r[i] == ring[i - 1];
  }

  ghost predicate IsKey(x: PInfo, pid: int, isproc: bool)
    reads x`tstat
  {
    x.tstat.pid == pid && x.tstat.isproc == isproc
  }

  /** The key, and a start time that differs by at most a second. */
  ghost predicate Matches(x: PInfo, pid: int, isproc: bool, btime: int)
    reads x`tstat
  {
    IsKey(x, pid, isproc) && -1 <= x.tstat.btime - btime <= 1
  }

  /** Every chain holds nodes of its own bucket, each once, and only nodes of the database. */
  ghost predicate InBuckets(chains: seq<seq<PInfo>>, nodes: set<PInfo>)
    reads nodes`tstat
  {
    && (forall b, x :: 0 <= b < |chains| && x in chains[b] ==> x in nodes && Bucket(x.tstat.pid) == b)
    && (forall b :: 0 <= b < |chains| ==> Distinct(chains[b]))
    && (forall x :: x in nodes ==> Bucket(x.tstat.pid) < |chains| && x in chains[Bucket(x.tstat.pid)])
  }

  ghost predicate AllChained(heads: seq<PInfo?>, chains: seq<seq<PInfo>>, nodes: set<PInfo>)
    reads nodes`phnext
  {
    && |heads| == |chains|
    && (forall b :: 0 <= b < |chains| ==> AllIn(chains[b], nodes) && Chained(heads[b], chains[b]))
  }

  ghost predicate AllIn(residue: seq<PInfo>, nodes: set<PInfo>) {
    forall x :: x in residue ==> x in nodes
  }

  /** The residue list is threaded through nodes of the database; the others carry no link. */
  ghost predicate Threaded(anchor: PInfo, residue: seq<PInfo>, nodes: set<PInfo>)
    reads anchor`prnext, anchor`prprev, residue`prnext, residue`prprev, nodes`prnext, nodes`prprev
  {
    && anchor !in nodes
    && AllIn(residue, nodes)
    && Ring([anchor] + residue)
    && (forall x :: x in nodes && x !in residue ==> x.prnext == null && x.prprev == null)
  }

  lemma RingIsLinked(ring: seq<PInfo>, x: PInfo)
    requires Ring(ring) && x in ring
    ensures x.prnext != null && x.prprev != null
  {
    var i :| 0 <= i < |ring| && ring[i] == x;
    assert ring[i].prnext != null && ring[i].prprev != null;
  }

  lemma SingleRing(a: PInfo)
    requires a.prnext == a && a.prprev == a
    ensures Ring([a] + [])
  {
  }

  lemma DistinctTail(a: PInfo, s: seq<PInfo>)
    requires Ring([a] + s)
    ensures Distinct(s) && a !in s
  {
    forall i, j | 0 <= i < j < |s|
      ensures s[i] != s[j]
    {
      assert ([a] + s)[i + 1] != ([a] + s)[j + 1];
    }
    forall i | 0 <= i < |s|
      ensures s[i] != a
    {
      assert ([a] + s)[0] != ([a] + s)[i + 1];
    }
  }

  /** Take x out of the list, if it is in. */
  method Detach(x: PInfo, anchor: PInfo, ghost residue: seq<PInfo>, ghost nodes: set<PInfo>)
    requires Threaded(anchor, residue, nodes) && x in nodes
    modifies nodes`prnext, nodes`prprev, anchor`prnext, anchor`prprev
    ensures Threaded(anchor, Without(residue, x), nodes - {x}) && AllIn(Without(residue, x), nodes - {x})
    ensures x !in Without(residue, x)
  {
    hide Ring;
    DistinctTail(anchor, residue);
    if x.prnext != null {
      ghost var k :| 0 <= k < |residue| && residue[k] == x;
      WithoutAt(residue, k);
      RemoveAtParts(anchor, residue, k);
      hide Distinct, RemoveAt;
      Unlink(x, [anchor] + residue, k + 1);
    } else {
      if x in residue { RingIsLinked([anchor] + residue, x); }
      WithoutAbsent(residue, x);
    }
  }

  /** Take x out of the list, if it is in, and clear its links. */
  method Unchain(x: PInfo, anchor: PInfo, ghost residue: seq<PInfo>, ghost nodes: set<PInfo>)
    requires Threaded(anchor, residue, nodes) && x in nodes
    modifies nodes`prnext, nodes`prprev, anchor`prnext, anchor`prprev
    ensures Threaded(anchor, Without(residue, x), nodes) && AllIn(Without(residue, x), nodes)
    ensures x !in Without(residue, x)
  {
    hide Ring, Without;
    Detach(x, anchor, residue, nodes);
    ghost var ring := [anchor] + Without(residue, x);
    assert Ring(ring) && x !in ring;
    x.prnext := null;
    x.prprev := null;
    assert Ring(ring);
    forall y | y in nodes && y !in Without(residue, x)
      ensures y.prnext == null && y.prprev == null
    {
      assert y == x || y in nodes - {x};
    }
  }

  lemma ThreadedWith(anchor: PInfo, residue: seq<PInfo>, nodes: set<PInfo>, x: PInfo)
    requires Threaded(anchor, residue, nodes) && x != anchor && x.prnext == null && x.prprev == null
    ensures Threaded(anchor, residue, nodes + {x}) && AllIn(residue, nodes + {x})
  {
  }

  lemma RemoveAtParts(a: PInfo, s: seq<PInfo>, k: nat)
    requires k < |s| && Distinct(s)
    ensures [a] + RemoveAt(s, k) == RemoveAt([a] + s, k + 1)
    ensures forall y :: y in RemoveAt(s, k) <==> y in s && y != s[k]
  {
    var r := RemoveAt(s, k);
    forall y | y in s && y != s[k]
      ensures y in r
    {
      var i :| 0 <= i < |s| && s[i] == y;
      assert r[if i < k then i else i - 1] == y;
    }
  }

  /** x is the first of its chain that matches. */
  ghost predicate FirstMatch(c: seq<PInfo>, x: PInfo, pid: int, isproc: bool, btime: int)
    reads c`tstat
  {
    exists i :: 0 <= i < |c| && c[i] == x && Matches(x, pid, isproc, btime) &&
      forall j :: 0 <= j < i ==> !Matches(c[j], pid, isproc, btime)
  }

  ghost predicate FirstKey(c: seq<PInfo>, x: PInfo, pid: int, isproc: bool)
    reads c`tstat
  {
    exists i :: 0 <= i < |c| && c[i] == x && IsKey(x, pid, isproc) &&
      forall j :: 0 <= j < i ==> !IsKey(c[j], pid, isproc)
  }

  /** A node in front of its chain. */
  lemma BucketsWith(chains: seq<seq<PInfo>>, nodes: set<PInfo>, p: PInfo)
    requires InBuckets(chains, nodes) && p !in nodes && Bucket(p.tstat.pid) < |chains|
    ensures var b := Bucket(p.tstat.pid); InBuckets(chains[b := [p] + chains[b]], nodes + {p})
  {
    var b := Bucket(p.tstat.pid);
    var c := [p] + chains[b];
    assert forall x :: x in c <==> x == p || x in chains[b];
  }

  lemma ChainedWith(heads: seq<PInfo?>, chains: seq<seq<PInfo>>, nodes: set<PInfo>, b: nat, p: PInfo)
    requires AllChained(heads, chains, nodes) && b < |chains| && p !in nodes
    requires p.phnext == heads[b]
    ensures AllChained(heads[b := p], chains[b := [p] + chains[b]], nodes + {p})
  {
    var c := [p] + chains[b];
    forall i | 0 <= i < |c|
      ensures c[i].phnext == (if i + 1 < |c| then c[i + 1] else null)
    {
      if i > 0 { assert chains[b][i - 1].phnext == (if i < |chains[b]| then chains[b][i] else null); }
    }
  }

  lemma RemovedFrom(c: seq<PInfo>, i: nat)
    requires i < |c| && Distinct(c)
    ensures Distinct(RemoveAt(c, i))
    ensures forall y :: y in RemoveAt(c, i) <==> y in c && y != c[i]
  {
    var r := RemoveAt(c, i);
    forall y | y in c && y != c[i]
      ensures y in r
    {
      var k :| 0 <= k < |c| && c[k] == y;
      assert r[if k < i then k else k - 1] == y;
    }
  }

  lemma BucketsWithout(chains: seq<seq<PInfo>>, nodes: set<PInfo>, b: nat, i: nat)
    requires InBuckets(chains, nodes) && b < |chains| && i < |chains[b]|
    ensures InBuckets(chains[b := RemoveAt(chains[b], i)], nodes - {chains[b][i]})
  {
    RemovedFrom(chains[b], i);
    var x := chains[b][i];
    assert x in chains[b] && Bucket(x.tstat.pid) == b;
    hide Distinct, RemoveAt;
    var r := chains[b := RemoveAt(chains[b], i)];
    forall a, y | 0 <= a < |r| && y in r[a]
      ensures y in nodes - {x} && Bucket(y.tstat.pid) == a
    {
      assert y in chains[a];
    }
    forall y | y in nodes - {x}
      ensures y in r[Bucket(y.tstat.pid)]
    {
      assert y in chains[Bucket(y.tstat.pid)];
    }
  }

  lemma InChain(chains: seq<seq<PInfo>>, nodes: set<PInfo>, b: nat, i: nat)
    requires InBuckets(chains, nodes) && b < |chains| && i < |chains[b]|
    ensures chains[b][i] in nodes && Distinct(chains[b])
  {
    assert chains[b][i] in chains[b];
  }

  /** Cutting node i out of chain b: only the link of its predecessor changes. */
  method CutOut(phash: array<PInfo?>, b: nat, ppp: PInfo?, pp: PInfo,
                ghost chains: seq<seq<PInfo>>, ghost nodes: set<PInfo>, ghost i: nat)
    requires phash.Length == |chains| && InBuckets(chains, nodes) && AllChained(phash[..], chains, nodes)
    requires b < |chains| && i < |chains[b]| && chains[b][i] == pp
    requires ppp == if i == 0 then null else chains[b][i - 1]
    modifies phash, nodes`phnext
    ensures AllChained(phash[..], chains[b := RemoveAt(chains[b], i)], nodes - {pp})
  {
    ghost var c := chains[b];
    assert AllIn(c, nodes) && Chained(phash[..][b], c);
    if ppp == null {
      phash[b] := pp.phnext;
    } else {
      ppp.phnext := pp.phnext;
    }
    ghost var r := RemoveAt(c, i);
    RemovedFrom(c, i);
    assert forall k :: 0 <= k < |r| ==> r[k] == c[if k < i then k else k + 1];
    assert Chained(phash[..][b], r);
    forall a | 0 <= a < |chains| && a != b
      ensures Chained(phash[..][a], chains[a]) && AllIn(chains[a], nodes - {pp})
    {
      assert AllIn(chains[a], nodes) && Chained(old(phash[..])[a], chains[a]);
    }
  }

  /** The same user, group and program name: what an exit record without pid is matched on. */
  ghost predicate SameProgram(x: PInfo, t: TStat)
    reads x`tstat
  {
    x.tstat.ruid == t.ruid && x.tstat.rgid == t.rgid && x.tstat.name == t.name
  }

  ghost predicate StartsWithin(x: PInfo, t: TStat, seconds: int)
    reads x`tstat
  {
    SameProgram(x, t) && -seconds <= x.tstat.btime - t.btime <= seconds
  }

  /** The first exact match, or else the first that is a second off. */
  ghost predicate BestMatch(residue: seq<PInfo>, x: PInfo, t: TStat)
    reads residue`tstat
  {
    exists k :: 0 <= k < |residue| && residue[k] == x &&
      if x.tstat.btime == t.btime then
        SameProgram(x, t) && forall j :: 0 <= j < k ==> !StartsWithin(residue[j], t, 0)
      else
        StartsWithin(x, t, 1) && (forall j :: 0 <= j < |residue| ==> !StartsWithin(residue[j], t, 0)) &&
        forall j :: 0 <= j < k ==> !StartsWithin(residue[j], t, 1)
  }

  lemma Exact(residue: seq<PInfo>, k: nat, t: TStat)
    requires k < |residue| && StartsWithin(residue[k], t, 0)
    requires forall j :: 0 <= j < k ==> !StartsWithin(residue[j], t, 0)
    ensures BestMatch(residue, residue[k], t)
  {
  }

  lemma Near(residue: seq<PInfo>, k: nat, t: TStat)
    requires k < |residue| && StartsWithin(residue[k], t, 1)
    requires forall j :: 0 <= j < |residue| ==> !StartsWithin(residue[j], t, 0)
    requires forall j :: 0 <= j < k ==> !StartsWithin(residue[j], t, 1)
    ensures BestMatch(residue, residue[k], t)
  {
    assert !StartsWithin(residue[k], t, 0);
  }

  ghost predicate Swept(before: set<PInfo>, gone: seq<PInfo>, after: set<PInfo>) {
    after <= before && forall x :: x in before ==> (x in after <==> x !in gone)
  }

  lemma SweptNone(nodes: set<PInfo>)
    ensures Swept(nodes, [], nodes)
  {
  }

  lemma SweptOne(before: set<PInfo>, gone: seq<PInfo>, after: set<PInfo>, x: PInfo)
    requires Swept(before, gone, after)
    ensures Swept(before, gone + [x], after - {x})
  {
  }

  /** No two nodes have the same key. */
  ghost predicate Unique(nodes: set<PInfo>)
    reads nodes`tstat
  {
    forall x, y {:trigger KeyOf(x.tstat), KeyOf(y.tstat)} ::
      x in nodes && y in nodes && KeyOf(x.tstat) == KeyOf(y.tstat) ==> x == y
  }

  /** The node after x in the ring. */
  lemma RingNext(anchor: PInfo, residue: seq<PInfo>, k: nat)
    requires Ring([anchor] + residue) && k <= |residue|
    ensures ([anchor] + residue)[k].prnext == if k < |residue| then residue[k] else anchor
    ensures anchor !in residue && Distinct(residue)
  {
    var ring := [anchor] + residue;
    assert ring[k].prnext == (if k + 1 < |ring| then ring[k + 1] else ring[0]);
    DistinctTail(anchor, residue);
  }

  class Database {
    const phash: array<PInfo?>
    const presidue: PInfo
    ghost var chains: seq<seq<PInfo>>
    ghost var nodes: set<PInfo>
    ghost var residue: seq<PInfo>

    /** The chains, whatever the state of the residue list. */
    ghost predicate ChainsValid()
      reads this, phash, nodes, presidue
    {
      && phash.Length == NPHASH == |chains|
      && presidue !in nodes
      && InBuckets(chains, nodes)
      && AllChained(phash[..], chains, nodes)
    }

    ghost predicate Valid()
      reads this, phash, nodes, presidue
    {
      ChainsValid() && AllIn(residue, nodes) && Threaded(presidue, residue, nodes)
    }

    constructor ()
      ensures Valid() && nodes == {} && residue == [] && fresh(phash) && fresh(presidue)
    {
      phash := new PInfo?[NPHASH](_ => null);
      var anchor := new PInfo(ZERO);
      presidue := anchor;
      chains := seq(NPHASH, _ => []);
      nodes, residue := {}, [];
      new;
      presidue.prnext, presidue.prprev := presidue, presidue;
    }

    /** The scan of the hash chain. */
    method FindTask(pid: int, isproc: bool, btime: int) returns (pinfo: PInfo?)
      requires ChainsValid()
      ensures pinfo == null ==> forall x :: x in nodes ==> !Matches(x, pid, isproc, btime)
      ensures pinfo != null ==> pinfo in nodes && FirstMatch(chains[Bucket(pid)], pinfo, pid, isproc, btime)
    {
      var pp := phash[Bucket(pid)];
      ghost var c := chains[Bucket(pid)];
      ghost var i := 0;
      assert AllIn(c, nodes) && Chained(phash[..][Bucket(pid)], c);
      while pp != null
        invariant 0 <= i <= |c| && pp == (if i < |c| then c[i] else null)
        invariant forall j :: 0 <= j < i ==> !Matches(c[j], pid, isproc, btime)
        decreases |c| - i
      {
        if pp.tstat.pid == pid && pp.tstat.isproc == isproc {
          var diff := pp.tstat.btime - btime;
          if !(diff > 1 || diff < -1) { return pp; }
        }
        pp := pp.phnext;
        i := i + 1;
      }
      return null;
    }

    /** Look a task up; when it is found, it is no residue any more. */
    method GetTask(pid: int, isproc: bool, btime: int) returns (pinfo: PInfo?)
      requires Valid()
      modifies this`residue, nodes`prnext, nodes`prprev, presidue`prnext, presidue`prprev
      ensures Valid()
      ensures pinfo == null ==> residue == old(residue)
      ensures pinfo == null ==> forall x :: x in nodes ==> !Matches(x, pid, isproc, btime)
      ensures pinfo != null ==> pinfo in nodes && FirstMatch(chains[Bucket(pid)], pinfo, pid, isproc, btime)
      ensures pinfo != null ==> residue == Without(old(residue), pinfo) && pinfo !in residue
    {
      hide FirstMatch, Matches, AllChained, InBuckets, Threaded;
      pinfo := FindTask(pid, isproc, btime);
      if pinfo != null {
        Unchain(pinfo, presidue, residue, nodes);
        residue := Without(residue, pinfo);
      }
    }

    /** A new task comes in front of its hash chain. */
    method AddTask(pid: int, pinfo: PInfo)
      requires Valid()
      requires pinfo !in nodes && pinfo != presidue && pinfo.tstat.pid == pid
      requires pinfo.prnext == null && pinfo.prprev == null
      modifies this`chains, this`nodes, phash, pinfo`phnext
      ensures Valid()
      ensures nodes == old(nodes) + {pinfo}
      ensures chains == old(chains)[Bucket(pid) := [pinfo] + old(chains)[Bucket(pid)]]
    {
      hide Ring, Threaded, InBuckets, AllChained;
      var i := Bucket(pid);
      pinfo.phnext := phash[i];
      ThreadedWith(presidue, residue, nodes, pinfo);
      ChainedWith(phash[..], chains, nodes, i, pinfo);
      BucketsWith(chains, nodes, pinfo);
      phash[i] := pinfo;
      assert phash[..] == old(phash[..])[i := pinfo];
      chains := chains[i := [pinfo] + chains[i]];
      nodes := nodes + {pinfo};
    }

    /** The scan of DelTask: the first node with the key, and its predecessor in the chain. */
    method FindKey(pid: int, isproc: bool) returns (ppp: PInfo?, pp: PInfo?, ghost i: nat)
      requires ChainsValid()
      ensures pp == null ==> forall x :: x in nodes ==> !IsKey(x, pid, isproc)
      ensures pp != null ==> i < |chains[Bucket(pid)]| && chains[Bucket(pid)][i] == pp && IsKey(pp, pid, isproc)
      ensures pp != null ==> forall j :: 0 <= j < i ==> !IsKey(chains[Bucket(pid)][j], pid, isproc)
      ensures pp != null ==> ppp == if i == 0 then null else chains[Bucket(pid)][i - 1]
    {
      ghost var c := chains[Bucket(pid)];
      assert AllIn(c, nodes) && Chained(phash[..][Bucket(pid)], c);
      ppp, pp, i := null, phash[Bucket(pid)], 0;
      while pp != null
        invariant i <= |c| && pp == (if i < |c| then c[i] else null)
        invariant ppp == if i == 0 then null else c[i - 1]
        invariant forall j :: 0 <= j < i ==> !IsKey(c[j], pid, isproc)
        decreases |c| - i
      {
        if pp.tstat.pid == pid && pp.tstat.isproc == isproc { return; }
        ppp := pp;
        pp := pp.phnext;
        i := i + 1;
      }
    }

    /** Take node i of chain b out of its chain and out of the residue list. */
    method Drop(ppp: PInfo?, pp: PInfo, b: nat, ghost i: nat)
      requires Valid() && b < NPHASH && i < |chains[b]| && chains[b][i] == pp
      requires ppp == if i == 0 then null else chains[b][i - 1]
      modifies this, phash, nodes`phnext, nodes`prnext, nodes`prprev, presidue`prnext, presidue`prprev
      ensures Valid()
      ensures pp in old(nodes) && nodes == old(nodes) - {pp}
      ensures residue == Without(old(residue), pp)
    {
      hide Ring, Threaded, Distinct, AllChained, InBuckets, RemoveAt, Without;
      InChain(chains, nodes, b, i);
      CutOut(phash, b, ppp, pp, chains, nodes, i);
      BucketsWithout(chains, nodes, b, i);
      Detach(pp, presidue, residue, nodes);
      chains := chains[b := RemoveAt(chains[b], i)];
      nodes := nodes - {pp};
      residue := Without(residue, pp);
    }

    /** Delete the first node with the key. The bucket must not be empty. */
    method DelTask(pid: int, isproc: bool) returns (ok: bool, ghost gone: PInfo?)
      requires Valid() && chains[Bucket(pid)] != []
      modifies this, phash, nodes`phnext, nodes`prnext, nodes`prprev, presidue`prnext, presidue`prprev
      ensures Valid()
      ensures ok <==> exists x :: x in old(nodes) && IsKey(x, pid, isproc)
      ensures !ok ==> chains == old(chains) && nodes == old(nodes) && residue == old(residue)
      ensures ok ==> gone in old(nodes) && IsKey(gone, pid, isproc) && nodes == old(nodes) - {gone}
      ensures ok ==> residue == Without(old(residue), gone)
      ensures ok ==> FirstKey(old(chains)[Bucket(pid)], gone, pid, isproc)
    {
      hide Ring, Threaded, Distinct, AllChained, InBuckets, RemoveAt, Without, AllIn;
      var ppp, pp;
      ghost var i;
      ppp, pp, i := FindKey(pid, isproc);
      if pp == null { return false, null; }
      assert FirstKey(chains[Bucket(pid)], pp, pid, isproc);
      Drop(ppp, pp, Bucket(pid), i);
      return true, pp;
    }

    /** Chain all nodes into the residue list, whatever its links are at the moment. */
    method MakeResidue()
      requires ChainsValid()
      modifies this`residue, nodes`prnext, nodes`prprev, presidue`prnext, presidue`prprev
      ensures Valid()
      ensures residue == Backwards(Joined(chains))
      ensures forall x :: x in residue <==> x in nodes
    {
      hide Ring, AllChained, InBuckets;
      presidue.prnext := presidue;
      presidue.prprev := presidue;
      residue := [];
      assert Ring([presidue] + residue) by { SingleRing(presidue); }
      assert chains[..0] == [];
      for i := 0 to NPHASH
        invariant ChainsValid() && Ring([presidue] + residue)
        invariant residue == Backwards(Joined(chains[..i]))
        invariant forall x :: x in residue <==> x in nodes && Bucket(x.tstat.pid) < i
      {
        ChainBucket(i);
        AppendChain(i);
        assert chains[..i + 1][..i] == chains[..i];
      }
      assert chains[..NPHASH] == chains;
      assert forall x :: x in nodes ==> Bucket(x.tstat.pid) < NPHASH;
    }

    lemma ChainBucket(b: nat)
      requires ChainsValid() && b < NPHASH
      ensures forall x :: x in chains[b] <==> x in nodes && Bucket(x.tstat.pid) == b
      ensures Distinct(chains[b]) && Chained(phash[b], chains[b])
    {
      assert Chained(phash[..][b], chains[b]);
    }

    /** The inner loop: one hash chain. */
    method AppendChain(b: nat)
      requires b < NPHASH && ChainsValid() && Ring([presidue] + residue)
      requires Distinct(chains[b]) && Chained(phash[b], chains[b])
      requires residue == Backwards(Joined(chains[..b]))
      requires forall x :: x in residue <==> x in nodes && Bucket(x.tstat.pid) < b
      requires forall x :: x in chains[b] <==> x in nodes && Bucket(x.tstat.pid) == b
      modifies this`residue, nodes`prnext, nodes`prprev, presidue`prnext, presidue`prprev
      ensures Ring([presidue] + residue)
      ensures residue == Backwards(Joined(chains[..b]) + chains[b])
      ensures forall x :: x in residue <==> x in nodes && Bucket(x.tstat.pid) <= b
    {
      hide Ring, AllChained, InBuckets, Backwards, Joined;
      ghost var c, done := chains[b], Joined(chains[..b]);
      var pp := phash[b];
      ghost var i := 0;
      assert done + c[..0] == done;
      while pp != null
        invariant i <= |c| && pp == (if i < |c| then c[i] else null)
        invariant Ring([presidue] + residue)
        invariant residue == Backwards(done + c[..i])
        invariant forall x :: x in residue <==> x in nodes && (Bucket(x.tstat.pid) < b || x in c[..i])
        decreases |c| - i
      {
        assert pp in c && pp !in c[..i];
        assert forall x :: x in [presidue] + residue ==> x == presidue || x in nodes;
        LinkAfterFirst(presidue, pp, [presidue] + residue);
        assert [presidue, pp] + ([presidue] + residue)[1..] == [presidue] + ([pp] + residue);
        BackwardsSnoc(done + c[..i], pp);
        assert done + c[..i] + [pp] == done + c[..i + 1];
        residue := [pp] + residue;
        pp := pp.phnext;
        i := i + 1;
      }
      assert c[..i] == c;
    }

    /** The node behind the first k of the residue list. */
    lemma NextInResidue(k: nat)
      requires Valid() && k <= |residue|
      ensures (if k == 0 then presidue else residue[k - 1]).prnext == if k < |residue| then residue[k] else presidue
      ensures presidue !in residue
    {
      RingNext(presidue, residue, k);
    }

    /** An exit record without pid: look for its process among the residue. */
    method SrchResidue(t: TStat) returns (pinfo: PInfo?)
      requires Valid()
      ensures pinfo == null ==> forall x :: x in residue ==> !StartsWithin(x, t, 1)
      ensures pinfo != null ==> pinfo in residue && BestMatch(residue, pinfo, t)
    {
      hide InBuckets, AllChained, BestMatch, Threaded, AllIn;
      NextInResidue(0);
      var pr := presidue.prnext;
      var prmin: PInfo? := null;
      ghost var k, m := 0, 0;
      while pr != presidue
        invariant k <= |residue| && pr == if k < |residue| then residue[k] else presidue
        invariant forall j :: 0 <= j < k ==> !StartsWithin(residue[j], t, 0)
        invariant prmin == null ==> forall j :: 0 <= j < k ==> !StartsWithin(residue[j], t, 1)
        invariant prmin != null ==> m < k && residue[m] == prmin && StartsWithin(prmin, t, 1)
        invariant prmin != null ==> forall j :: 0 <= j < m ==> !StartsWithin(residue[j], t, 1)
        decreases |residue| - k
      {
        if pr.tstat.ruid == t.ruid && pr.tstat.rgid == t.rgid && pr.tstat.name == t.name {
          var btimediff := pr.tstat.btime - t.btime;
          if btimediff == 0 {
            assert BestMatch(residue, pr, t) by { Exact(residue, k, t); }
            return pr;
          }
          if (btimediff == -1 || btimediff == 1) && prmin == null {
            prmin := pr;
            m := k;
          }
        }
        NextInResidue(k + 1);
        pr := pr.prnext;
        k := k + 1;
      }
      if prmin != null { Near(residue, m, t); }
      return prmin;
    }

    /** Delete the first of the residue, by its key; the next one is then first. */
    method CleanFirst(pr: PInfo) returns (next: PInfo)
      requires Valid() && Unique(nodes) && residue != [] && residue[0] == pr
      modifies this, phash, nodes`phnext, nodes`prnext, nodes`prprev, presidue`prnext, presidue`prprev
      ensures Valid() && Unique(nodes) && nodes == old(nodes) - {pr}
      ensures residue == old(residue)[1..]
      ensures next == if |residue| > 0 then residue[0] else presidue
    {
      hide Ring, AllChained, Threaded;
      FirstOfResidue(pr);
      var pid := pr.tstat.pid;
      var isproc := pr.tstat.isproc;
      next := pr.prnext;
      var ok;
      ghost var gone;
      ok, gone := DelTask(pid, isproc);
      assert KeyOf(gone.tstat) == KeyOf(pr.tstat);
    }

    lemma FirstOfResidue(x: PInfo)
      requires Valid() && residue != [] && residue[0] == x
      ensures x in nodes && chains[Bucket(x.tstat.pid)] != [] && IsKey(x, x.tstat.pid, x.tstat.isproc)
      ensures x.prnext == if |residue| > 1 then residue[1] else presidue
    {
      RingNext(presidue, residue, 1);
    }

    /** Delete everything that is still residue. By key: hence the demand on the keys. */
    method CleanResidue()
      requires Valid() && Unique(nodes)
      modifies this, phash, nodes`phnext, nodes`prnext, nodes`prprev, presidue`prnext, presidue`prprev
      ensures Valid() && Unique(nodes) && residue == []
      ensures Swept(old(nodes), old(residue), nodes)
    {
      hide Ring, AllChained, InBuckets, Threaded, Unique, Swept, AllIn;
      NextInResidue(0);
      SweptNone(nodes);
      var pr := presidue.prnext;
      ghost var k := 0;
      while pr != presidue
        invariant Valid() && Unique(nodes)
        invariant nodes <= old(nodes)
        invariant k <= |old(residue)| && residue == old(residue)[k..]
        invariant Swept(old(nodes), old(residue)[..k], nodes)
        invariant pr == if |residue| > 0 then residue[0] else presidue
        decreases |residue|
      {
        PresidueIsApart();
        assert old(residue)[..k + 1] == old(residue)[..k] + [pr];
        SweptOne(old(nodes), old(residue)[..k], nodes, pr);
        pr := CleanFirst(pr);
        k := k + 1;
      }
      PresidueIsApart();
      assert old(residue)[..k] == old(residue);
    }

    lemma PresidueIsApart()
      requires Valid()
      ensures presidue !in residue
    {
    }
  }
}
