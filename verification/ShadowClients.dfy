/**
 What the calls of a client do to everybody: whom the collector finds on a file, how many clients
 there are, and that nothing else changes. The collector's test and the reset depend on just that.
 */
module ShadowClients {
  import opened Prelude
  import opened ShadowProtocol
  import opened ShadowSafety

  /** The client has a read lock on file k. */
  predicate Locks(d: Disk, id: ClientId, k: int) {
    id in d.clients && d.clients[id].Attached? && d.clients[id].lo <= k <= d.clients[id].hi
  }

  /** Another client has. */
  ghost predicate LockedByOther(d: Disk, id: ClientId, k: int) { exists j :: j != id && Locks(d, j, k) }

  /** Files, 'current' and the other clients are as they were. */
  ghost predicate OthersSame(d: Disk, e: Disk, id: ClientId) {
    && e.files == d.files && e.current == d.current
    && (forall j :: j != id ==> (j in e.clients <==> j in d.clients))
    && (forall j :: j != id && j in d.clients ==> e.clients[j] == d.clients[j])
  }

  lemma LockedByWhom(d: Disk, id: ClientId, k: nat)
    ensures ReadLocked(d, k) <==> Locks(d, id, k) || LockedByOther(d, id, k)
  {
    if ReadLocked(d, k) {
      var j :| j in d.clients && d.clients[j].Attached? && d.clients[j].lo <= k <= d.clients[j].hi;
      assert Locks(d, j, k);
    }
    if LockedByOther(d, id, k) {
      var j :| j != id && Locks(d, j, k);
      assert j in d.clients && d.clients[j].Attached? && d.clients[j].lo <= k <= d.clients[j].hi;
    }
  }

  lemma OtherLocksSame(d: Disk, e: Disk, id: ClientId, k: int)
    requires OthersSame(d, e, id)
    ensures LockedByOther(d, id, k) <==> LockedByOther(e, id, k)
  {
    forall j | j != id
      ensures Locks(d, j, k) <==> Locks(e, j, k)
    {
    }
  }

  /** Whatever a client calls, it changes nobody else, and the daemon not at all. */
  lemma CallIsPrivate(s: State, id: ClientId, call: ClientCall)
    ensures var t := Apply(s, ByClient(id, call));
      OthersSame(s.disk, t.disk, id) && t == s.(disk := t.disk)
  {
  }

  /** The one who locks file k after a call of id. */
  lemma LockedAfter(s: State, id: ClientId, call: ClientCall, k: nat)
    ensures var t := Apply(s, ByClient(id, call));
      ReadLocked(t.disk, k) <==> Locks(t.disk, id, k) || LockedByOther(s.disk, id, k)
  {
    var t := Apply(s, ByClient(id, call));
    CallIsPrivate(s, id, call);
    LockedByWhom(t.disk, id, k);
    OtherLocksSame(s.disk, t.disk, id, k);
  }

  /** A client that closes its file holds no lock any more: what is still locked is locked by others. */
  lemma CloseUnlocks(s: State, id: ClientId)
    requires Inv(s) && Holds(s, id)
    ensures var t := Apply(s, ByClient(id, Close));
      && Inv(t) && OthersSame(s.disk, t.disk, id) && t == s.(disk := t.disk)
      && (forall k: nat :: ReadLocked(t.disk, k) <==> LockedByOther(s.disk, id, k))
      && id in t.disk.clients && !Holds(t, id) && NumClients(t.disk) == NumClients(s.disk)
  {
    var t := Apply(s, ByClient(id, Close));
    ApplyKeeps(s, ByClient(id, Close));
    CallIsPrivate(s, id, Close);
    hide Inv, Apply, ReadLocked, LockedByOther;
    assert t.disk == s.disk.(clients := s.disk.clients[id := Closed]) by { Closes(s, id); }
    forall k: nat
      ensures ReadLocked(t.disk, k) <==> LockedByOther(s.disk, id, k)
    {
      LockedAfter(s, id, Close, k);
    }
  }

  lemma Closes(s: State, id: ClientId)
    requires Holds(s, id)
    ensures Apply(s, ByClient(id, Close)).disk == s.disk.(clients := s.disk.clients[id := Closed])
  {
  }

  lemma Exits(s: State, id: ClientId)
    requires id in s.disk.clients && !s.disk.clients[id].Attached?
    ensures Apply(s, ByClient(id, Exit)) ==
            s.(disk := s.disk.(clients := s.disk.clients - {id}, sempub := s.disk.sempub + 1))
  {
  }

  /** Closing and exiting takes a client out: its place on the semaphore is free again. */
  lemma ClosedAndGone(s: State, id: ClientId)
    requires Inv(s) && Holds(s, id)
    ensures var t := Apply(Apply(s, ByClient(id, Close)), ByClient(id, Exit));
      && Inv(t) && t == s.(disk := t.disk)
      && t.disk == s.disk.(clients := s.disk.clients - {id}, sempub := s.disk.sempub + 1)
      && NumClients(t.disk) == NumClients(s.disk) - 1
  {
    hide Inv, Apply;
    var u := Apply(s, ByClient(id, Close));
    ApplyKeeps(s, ByClient(id, Close));
    ApplyKeeps(u, ByClient(id, Exit));
    CallIsPrivate(s, id, Close);
    Closes(s, id);
    Exits(u, id);
    assert s.disk.clients[id := Closed] - {id} == s.disk.clients - {id};
  }

  /** A client comes in exactly if there is room on the semaphore, and then gets the newest file if
      'current' names it, it holds a record and the collector is not testing it. */
  lemma ComesIn(s: State, id: ClientId)
    requires Inv(s) && id !in s.disk.clients
    ensures var t := Apply(Apply(s, ByClient(id, Claim)), ByClient(id, Attach));
      var newest := s.curshadow;
      && (id in t.disk.clients <==> s.disk.sempub > 0)
      && NumClients(t.disk) == NumClients(s.disk) + (if s.disk.sempub > 0 then 1 else 0)
      && (s.disk.current == Some(newest) ==>
            (Holds(t, id) <==> s.disk.sempub > 0 && s.disk.files[newest] != []))
      && (s.disk.current == Some(newest) && Holds(t, id) ==>
            forall k: nat :: ReadLocked(t.disk, k) <==> k == newest || LockedByOther(s.disk, id, k))
      && OthersSame(s.disk, t.disk, id)
  {
    var u := Apply(s, ByClient(id, Claim));
    var t := Apply(u, ByClient(id, Attach));
    CallIsPrivate(s, id, Claim);
    CallIsPrivate(u, id, Attach);
    Enters(s, id);
    hide Apply, ReadLocked, LockedByOther, Inv;
    forall k: nat
      ensures ReadLocked(t.disk, k) <==> Locks(t.disk, id, k) || LockedByOther(s.disk, id, k)
    {
      LockedAfter(u, id, Attach, k);
      OtherLocksSame(s.disk, u.disk, id, k);
    }
  }

  lemma Enters(s: State, id: ClientId)
    requires Inv(s) && id !in s.disk.clients
    ensures var t := Apply(Apply(s, ByClient(id, Claim)), ByClient(id, Attach));
      var newest := s.curshadow;
      && newest in s.disk.files
      && (id in t.disk.clients <==> s.disk.sempub > 0)
      && t.disk.sempub == s.disk.sempub - (if s.disk.sempub > 0 then 1 else 0)
      && (s.disk.current == Some(newest) && s.disk.sempub > 0 ==>
            t.disk.clients[id] == if s.disk.files[newest] != [] then Attached(newest, newest) else Claimed)
  {
    assert !WriteLocked(s, s.curshadow);
    var u := Apply(s, ByClient(id, Claim));
    assert s.disk.sempub > 0 ==>
      u.disk == s.disk.(clients := s.disk.clients[id := Claimed], sempub := s.disk.sempub - 1);
  }

  /** When its file has a successor, a client gets a lock on that, while it keeps its own; giving up the
      old one leaves it with the new one alone. Without a successor it keeps what it has. */
  lemma MovesOn(s: State, id: ClientId)
    requires Inv(s) && Holds(s, id) && s.disk.clients[id].lo == s.disk.clients[id].hi
    ensures var f := s.disk.clients[id].lo;
      var t := Apply(s, ByClient(id, LockNext));
      var u := Apply(t, ByClient(id, ReleaseOld));
      && (forall k: nat :: ReadLocked(t.disk, k) <==>
            k == f || (k == f + 1 && f < s.curshadow) || LockedByOther(s.disk, id, k))
      && (forall k: nat :: ReadLocked(u.disk, k) <==>
            k == (if f < s.curshadow then f + 1 else f) || LockedByOther(s.disk, id, k))
      && OthersSame(s.disk, u.disk, id) && NumClients(u.disk) == NumClients(s.disk)
  {
    var t := Apply(s, ByClient(id, LockNext));
    var u := Apply(t, ByClient(id, ReleaseOld));
    CallIsPrivate(s, id, LockNext);
    CallIsPrivate(t, id, ReleaseOld);
    Steps(s, id);
    hide Apply, ReadLocked, LockedByOther, Inv;
    forall k: nat
      ensures ReadLocked(t.disk, k) <==> Locks(t.disk, id, k) || LockedByOther(s.disk, id, k)
      ensures ReadLocked(u.disk, k) <==> Locks(u.disk, id, k) || LockedByOther(s.disk, id, k)
    {
      LockedAfter(s, id, LockNext, k);
      LockedAfter(t, id, ReleaseOld, k);
      OtherLocksSame(s.disk, t.disk, id, k);
    }
  }

  lemma Steps(s: State, id: ClientId)
    requires Inv(s) && Holds(s, id) && s.disk.clients[id].lo == s.disk.clients[id].hi
    ensures var f := s.disk.clients[id].lo;
      var t := Apply(s, ByClient(id, LockNext));
      var u := Apply(t, ByClient(id, ReleaseOld));
      var g := if f < s.curshadow then f + 1 else f;
      && id in t.disk.clients && t.disk.clients[id] == Attached(f, g)
      && id in u.disk.clients && u.disk.clients[id] == Attached(g, g)
      && t.disk.sempub == s.disk.sempub == u.disk.sempub
  {
    assert ClientInv(s, s.disk.clients[id]);
  }

  /** A visit leaves no trace, whether the client got a file or not. */
  lemma VisitLeavesNothing(s: State, id: ClientId)
    requires Inv(s) && id !in s.disk.clients
    ensures var t := Apply(Apply(s, ByClient(id, Claim)), ByClient(id, Attach));
      Apply(Apply(t, ByClient(id, Close)), ByClient(id, Exit)) == s
  {
    hide Inv, Apply;
    var u := Apply(s, ByClient(id, Claim));
    var t := Apply(u, ByClient(id, Attach));
    ApplyKeeps(s, ByClient(id, Claim));
    ApplyKeeps(u, ByClient(id, Attach));
    ClaimOrNot(s, id);
    AttachOrNot(u, id);
    if Holds(t, id) {
      ClosedAndGone(t, id);
      assert t.disk.clients - {id} == s.disk.clients;
    } else if id in t.disk.clients {
      UnattachedLeaves(t, id);
      assert t.disk.clients - {id} == s.disk.clients;
    } else {
      assert t.disk.clients == t.disk.clients - {id} == u.disk.clients - {id} == s.disk.clients;
      StrangerCalls(t, id);
    }
  }

  lemma ClaimOrNot(s: State, id: ClientId)
    requires id !in s.disk.clients
    ensures Apply(s, ByClient(id, Claim)) ==
      if s.disk.sempub > 0
      then s.(disk := s.disk.(clients := s.disk.clients[id := Claimed], sempub := s.disk.sempub - 1))
      else s
  {
    assert s.disk.clients - {id} == s.disk.clients;
  }

  lemma AttachOrNot(s: State, id: ClientId)
    ensures var t := Apply(s, ByClient(id, Attach));
      && (id in t.disk.clients <==> id in s.disk.clients)
      && t == s.(disk := s.disk.(clients := t.disk.clients))
      && t.disk.clients - {id} == s.disk.clients - {id}
      && (id in s.disk.clients && s.disk.clients[id].Claimed? ==>
            t.disk.clients[id].Claimed? || t.disk.clients[id].Attached?)
  {
  }

  lemma UnattachedLeaves(s: State, id: ClientId)
    requires id in s.disk.clients && s.disk.clients[id].Claimed?
    ensures Apply(Apply(s, ByClient(id, Close)), ByClient(id, Exit)) ==
            s.(disk := s.disk.(clients := s.disk.clients - {id}, sempub := s.disk.sempub + 1))
  {
    hide Apply;
    assert Apply(s, ByClient(id, Close)) == s by { CloseIsNothing(s, id); }
    Exits(s, id);
  }

  lemma CloseIsNothing(s: State, id: ClientId)
    requires id in s.disk.clients && s.disk.clients[id].Claimed?
    ensures Apply(s, ByClient(id, Close)) == s
  {
    assert s.disk.clients[id := s.disk.clients[id]] == s.disk.clients;
  }

  lemma StrangerCalls(s: State, id: ClientId)
    requires id !in s.disk.clients
    ensures Apply(Apply(s, ByClient(id, Close)), ByClient(id, Exit)) == s
  {
    assert s.disk.clients - {id} == s.disk.clients;
  }
}
