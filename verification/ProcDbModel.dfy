/** The database as a map by key, under keys that are unique. */
module ProcDbModel {
  import opened Prelude
  import opened Tasks
  import opened ProcDb
  import Deviation

  ghost function Model(nodes: set<PInfo>): map<Key, TStat>
    requires Unique(nodes)
    reads nodes`tstat
  {
    map x | x in nodes :: KeyOf(x.tstat) := x.tstat
  }

  ghost function KeysIn(residue: seq<PInfo>): set<Key>
    reads residue`tstat
  {
    set x | x in residue :: KeyOf(x.tstat)
  }

  lemma InModel(nodes: set<PInfo>, x: PInfo)
    requires Unique(nodes) && x in nodes
    ensures KeyOf(x.tstat) in Model(nodes) && Model(nodes)[KeyOf(x.tstat)] == x.tstat
  {
  }

  lemma ModelIsKeyed(nodes: set<PInfo>)
    requires Unique(nodes)
    ensures Deviation.Keyed(Model(nodes))
  {
  }

  /** Nothing in the database matches: the map has no such task. */
  lemma NotFound(nodes: set<PInfo>, pid: int, isproc: bool, btime: int)
    requires Unique(nodes) && forall x :: x in nodes ==> !Matches(x, pid, isproc, btime)
    ensures Deviation.Lookup(Model(nodes), (pid, isproc), btime) == None
  {
    var k := (pid, isproc);
    if k in Model(nodes) {
      var x :| x in nodes && KeyOf(x.tstat) == k;
      InModel(nodes, x);
      assert !Matches(x, pid, isproc, btime);
    }
  }

  lemma Found(nodes: set<PInfo>, x: PInfo, pid: int, isproc: bool, btime: int)
    requires Unique(nodes) && x in nodes && Matches(x, pid, isproc, btime)
    ensures Deviation.Lookup(Model(nodes), (pid, isproc), btime) == Some(x.tstat)
    ensures KeyOf(x.tstat) == (pid, isproc)
  {
    InModel(nodes, x);
  }

  lemma ModelWith(nodes: set<PInfo>, x: PInfo)
    requires Unique(nodes) && KeyOf(x.tstat) !in Model(nodes)
    ensures Unique(nodes + {x})
    ensures Model(nodes + {x}) == Model(nodes)[KeyOf(x.tstat) := x.tstat]
  {
    forall y | y in nodes
      ensures KeyOf(y.tstat) != KeyOf(x.tstat)
    {
      InModel(nodes, y);
    }
    assert Unique(nodes + {x});
    var m := Model(nodes + {x});
    var m' := Model(nodes)[KeyOf(x.tstat) := x.tstat];
    assert m.Keys == m'.Keys;
  }

  lemma ModelWithout(nodes: set<PInfo>, x: PInfo)
    requires Unique(nodes) && x in nodes
    ensures Unique(nodes - {x})
    ensures Model(nodes - {x}) == Model(nodes) - {KeyOf(x.tstat)}
  {
    var m := Model(nodes - {x});
    var m' := Model(nodes) - {KeyOf(x.tstat)};
    forall k | k in m'
      ensures k in m
    {
      var y :| y in nodes && KeyOf(y.tstat) == k;
      assert y in nodes - {x};
    }
    assert m.Keys == m'.Keys;
  }

  /** What is left when the residue is deleted. */
  lemma ModelSwept(before: set<PInfo>, residue: seq<PInfo>, after: set<PInfo>)
    requires Unique(before) && Unique(after) && Swept(before, residue, after) && AllIn(residue, before)
    ensures Model(after) == Model(before) - KeysIn(residue)
  {
    var m, m' := Model(after), Model(before) - KeysIn(residue);
    forall k | k in m
      ensures k in m'
    {
      var x :| x in after && KeyOf(x.tstat) == k;
      forall y | y in residue
        ensures KeyOf(y.tstat) != k
      {
        assert y in before && x in before && y != x;
      }
    }
    forall k | k in m'
      ensures k in m
    {
      var x :| x in before && KeyOf(x.tstat) == k;
      assert x !in residue;
      assert x in after;
    }
    assert m.Keys == m'.Keys;
  }

  /** All nodes are residue: so are all keys. */
  lemma AllKeys(nodes: set<PInfo>, residue: seq<PInfo>)
    requires Unique(nodes) && AllIn(residue, nodes) && forall x :: x in nodes ==> x in residue
    ensures KeysIn(residue) == Model(nodes).Keys
  {
    forall k | k in Model(nodes)
      ensures k in KeysIn(residue)
    {
      var x :| x in nodes && KeyOf(x.tstat) == k;
      assert x in residue;
    }
    forall k | k in KeysIn(residue)
      ensures k in Model(nodes)
    {
      var x :| x in residue && KeyOf(x.tstat) == k;
      InModel(nodes, x);
    }
  }

  /** One node less in the residue. */
  lemma KeysWithout(nodes: set<PInfo>, residue: seq<PInfo>, x: PInfo)
    requires Unique(nodes) && AllIn(residue, nodes) && x in nodes
    requires x !in Without(residue, x)
    ensures KeysIn(Without(residue, x)) == KeysIn(residue) - {KeyOf(x.tstat)}
  {
    WithoutParts(residue, x);
    var ks, ks' := KeysIn(Without(residue, x)), KeysIn(residue) - {KeyOf(x.tstat)};
    forall k | k in ks
      ensures k in ks'
    {
      var y :| y in Without(residue, x) && KeyOf(y.tstat) == k;
      assert y in residue && y in nodes;
    }
    forall k | k in ks'
      ensures k in ks
    {
      var y :| y in residue && KeyOf(y.tstat) == k;
      assert y in Without(residue, x);
    }
  }

  lemma {:induction false} WithoutParts(s: seq<PInfo>, x: PInfo)
    ensures forall y :: y in Without(s, x) ==> y in s
    ensures forall y :: y in s && y != x ==> y in Without(s, x)
  {
    if |s| > 0 {
      WithoutParts(s[1..], x);
      assert forall y :: y in s <==> y == s[0] || y in s[1..];
    }
  }

  /** What a database is, told without the heap: the figures of each node. */
  ghost function Snapshot(nodes: set<PInfo>): map<PInfo, TStat>
    reads nodes`tstat
  {
    map x | x in nodes :: x.tstat
  }

  ghost function SnapModel(was: map<PInfo, TStat>): map<Key, TStat>
    requires SnapUnique(was)
  {
    map x | x in was :: KeyOf(was[x]) := was[x]
  }

  ghost predicate SnapUnique(was: map<PInfo, TStat>) {
    forall x, y {:trigger KeyOf(was[x]), KeyOf(was[y])} ::
      x in was && y in was && KeyOf(was[x]) == KeyOf(was[y]) ==> x == y
  }

  lemma SnapshotModel(nodes: set<PInfo>)
    ensures Unique(nodes) <==> SnapUnique(Snapshot(nodes))
    ensures Unique(nodes) ==> Model(nodes) == SnapModel(Snapshot(nodes))
  {
    var was := Snapshot(nodes);
    assert forall x :: x in nodes <==> x in was;
    if Unique(nodes) {
      assert Model(nodes).Keys == SnapModel(was).Keys;
    }
  }

  lemma SnapOverwrite(was: map<PInfo, TStat>, x: PInfo, t: TStat)
    requires SnapUnique(was) && x in was && KeyOf(was[x]) == KeyOf(t)
    ensures SnapUnique(was[x := t])
    ensures SnapModel(was[x := t]) == SnapModel(was)[KeyOf(t) := t]
  {
    var m, m' := SnapModel(was[x := t]), SnapModel(was)[KeyOf(t) := t];
    forall k | k in m'
      ensures k in m
    {
      if k == KeyOf(t) {
        assert KeyOf(was[x := t][x]) == k;
      } else {
        var y :| y in was && KeyOf(was[y]) == k;
        assert KeyOf(was[x := t][y]) == k;
      }
    }
    assert m.Keys == m'.Keys;
  }

  ghost function SnapKeys(was: map<PInfo, TStat>, residue: seq<PInfo>): set<Key> {
    set x | x in residue && x in was :: KeyOf(was[x])
  }

  lemma SnapshotKeys(nodes: set<PInfo>, residue: seq<PInfo>)
    requires AllIn(residue, nodes)
    ensures KeysIn(residue) == SnapKeys(Snapshot(nodes), residue)
  {
  }

  lemma SnapOverwriteKeys(was: map<PInfo, TStat>, residue: seq<PInfo>, x: PInfo, t: TStat)
    requires x in was && KeyOf(was[x]) == KeyOf(t)
    ensures SnapKeys(was[x := t], residue) == SnapKeys(was, residue)
  {
    forall k | k in SnapKeys(was, residue)
      ensures k in SnapKeys(was[x := t], residue)
    {
      var y :| y in residue && y in was && KeyOf(was[y]) == k;
      assert KeyOf(was[x := t][y]) == k;
    }
  }

  ghost predicate SnapBuckets(was: map<PInfo, TStat>, chains: seq<seq<PInfo>>) {
    && (forall b, x {:trigger x in chains[b]} :: 0 <= b < |chains| && x in chains[b] ==>
          x in was && Bucket(was[x].pid) == b)
    && (forall b :: 0 <= b < |chains| ==> Distinct(chains[b]))
    && (forall x :: x in was ==> Bucket(was[x].pid) < |chains| && x in chains[Bucket(was[x].pid)])
  }

  lemma SnapshotBuckets(chains: seq<seq<PInfo>>, nodes: set<PInfo>)
    ensures InBuckets(chains, nodes) <==> SnapBuckets(Snapshot(nodes), chains)
  {
    var was := Snapshot(nodes);
    if InBuckets(chains, nodes) {
      forall x | x in was
        ensures Bucket(was[x].pid) < |chains| && x in chains[Bucket(was[x].pid)]
      {
        assert x in nodes;
      }
      assert SnapBuckets(was, chains);
    }
    if SnapBuckets(was, chains) {
      forall x | x in nodes
        ensures Bucket(x.tstat.pid) < |chains| && x in chains[Bucket(x.tstat.pid)]
      {
        assert x in was;
      }
      forall b, x | 0 <= b < |chains| && x in chains[b]
        ensures x in nodes && Bucket(x.tstat.pid) == b
      {
        assert x in was;
      }
    }
  }

  lemma SnapOverwriteBuckets(was: map<PInfo, TStat>, chains: seq<seq<PInfo>>, x: PInfo, t: TStat)
    requires SnapBuckets(was, chains) && x in was && KeyOf(was[x]) == KeyOf(t)
    ensures SnapBuckets(was[x := t], chains)
  {
    var now := was[x := t];
    assert forall y :: y in now ==> y in was && now[y].pid == was[y].pid;
    forall b, y | 0 <= b < |chains| && y in chains[b]
      ensures y in now && Bucket(now[y].pid) == b
    {
      assert y in was;
    }
  }

  /** Overwriting the figures of a node, not its key. */
  method SetStat(db: Database, x: PInfo, t: TStat)
    requires db.Valid() && Unique(db.nodes) && x in db.nodes && KeyOf(x.tstat) == KeyOf(t)
    modifies x`tstat
    ensures db.Valid() && Unique(db.nodes)
    ensures Model(db.nodes) == old(Model(db.nodes))[KeyOf(t) := t]
    ensures KeysIn(db.residue) == old(KeysIn(db.residue))
  {
    hide AllChained, Threaded, InBuckets, Unique, Model, KeysIn, SnapUnique, SnapModel, SnapBuckets, SnapKeys, AllIn;
    ghost var was := Snapshot(db.nodes);
    SnapshotModel(db.nodes);
    SnapshotKeys(db.nodes, db.residue);
    SnapshotBuckets(db.chains, db.nodes);
    SnapOverwrite(was, x, t);
    SnapOverwriteKeys(was, db.residue, x, t);
    SnapOverwriteBuckets(was, db.chains, x, t);
    x.tstat := t;
    assert Snapshot(db.nodes) == was[x := t];
    SnapshotModel(db.nodes);
    SnapshotKeys(db.nodes, db.residue);
    SnapshotBuckets(db.chains, db.nodes);
  }
}
