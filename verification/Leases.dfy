/**
 Leases: grant, keepalive, revocation and expiry. Expiry scans once and then deletes key by key,
 while clients keep writing and compactors keep compacting.
 */
module Leases {
  import opened Bytes
  import opened Rows
  import opened Log
  import opened Refinement
  import opened StoreObject

  const EXPIRY_ATTEMPTS := 5

  // ---------- the scan ----------

  /** The scan joins each key with its newest row among the rows of this lease only. */
  function ScanKeys(t: set<Row>, id: int): set<Key> {
    set r | r in t && r.lease == id && !r.deleted
            && (forall x | x in t && x.key == r.key && x.lease == id :: x.rev <= r.rev) :: r.key
  }

  predicate Attached(t: Table, id: int, k: Key) {
    LiveAt(t, k, Now).Some? && LiveAt(t, k, Now).value.lease == id
  }

  /** Every attached key is scanned; a scanned key may since have moved to another lease. */
  lemma AttachedIsScanned(t: Table, id: int, k: Key)
    requires Attached(t, id, k)
    ensures k in ScanKeys(t, id)
  {
    var r := LiveAt(t, k, Now).value;
    assert r in t && r.key == k;
  }

  /** The join changes nothing: tombstones carry no lease, so any row of the lease gets its key scanned. */
  lemma ScannedIff(db: Db, id: int, k: Key)
    requires Inv(db) && id != 0
    ensures k in ScanKeys(db.table, id) <==> exists r :: r in db.table && r.key == k && r.lease == id
  {
    if r :| r in db.table && r.key == k && r.lease == id {
      var ofLease: Table := set x | x in db.table && x.lease == id;
      var n := Newest(ofLease, k, Now).value;
      assert Linked(db.history, n);
      assert forall x | x in db.table && x.key == n.key && x.lease == id :: x in ofLease;
    }
  }

  /** Whatever k shows under the lease by now was written after the scan. */
  predicate Detached(scan: Db, now: Db, id: int, k: Key) {
    Attached(now.table, id, k) ==> LiveAt(now.table, k, Now).value !in scan.history
  }

  lemma DetachedStays(scan: Db, a: Db, b: Db, id: int, k: Key)
    requires Inv(a) && Inv(b) && scan.history <= a.history && Grows(a, b) && Detached(scan, a, id, k)
    ensures Detached(scan, b, id, k)
  {
    LatestKept(a);
    LatestKept(b);
    if Attached(b.table, id, k) {
      var v := LiveAt(b.table, k, Now).value;
      if v in scan.history {
        assert IsNewest(a.history, k, Now, v);
        NewestIs(a.history, k, Now, v);
      }
    }
  }

  predicate DetachedAll(scan: Db, now: Db, id: int, keys: set<Key>) {
    forall k | k in keys :: Detached(scan, now, id, k)
  }

  lemma DetachedAllStay(scan: Db, a: Db, b: Db, id: int, keys: set<Key>)
    requires Inv(a) && Inv(b) && scan.history <= a.history && Grows(a, b) && DetachedAll(scan, a, id, keys)
    ensures DetachedAll(scan, b, id, keys)
  {
    forall k | k in keys ensures Detached(scan, b, id, k) { DetachedStays(scan, a, b, id, k); }
  }

  lemma UnscannedIsDetached(scan: Db, id: int, k: Key)
    requires k !in ScanKeys(scan.table, id)
    ensures Detached(scan, scan, id, k)
  {
    if Attached(scan.table, id, k) { AttachedIsScanned(scan.table, id, k); }
  }

  /** Whatever shows under the lease by now, under any key, was written after the scan. */
  ghost predicate AllDetached(scan: Db, now: Db, id: int) {
    forall k :: Detached(scan, now, id, k)
  }

  /** An earlier scan sees less, so what is detached from a later one is detached from it. */
  lemma DetachedFromEarlier(first: Db, scan: Db, now: Db, id: int)
    requires Grows(first, scan) && AllDetached(scan, now, id)
    ensures AllDetached(first, now, id)
  {
    forall k ensures Detached(first, now, id, k) { assert Detached(scan, now, id, k); }
  }

  /** Going over the scanned keys is enough: no other key was attached at the scan. */
  lemma ScannedIsEnough(scan: Db, now: Db, id: int)
    requires Inv(scan) && Inv(now) && Grows(scan, now) && DetachedAll(scan, now, id, ScanKeys(scan.table, id))
    ensures AllDetached(scan, now, id)
  {
    forall k ensures Detached(scan, now, id, k) {
      if k !in ScanKeys(scan.table, id) {
        UnscannedIsDetached(scan, id, k);
        DetachedStays(scan, scan, now, id, k);
      }
    }
  }

  /** A key attached at the scan that nobody rewrote since ends with a tombstone. */
  lemma UntouchedIsTombstoned(scan: Db, now: Db, id: int, k: Key)
    requires Inv(scan) && Inv(now) && Grows(scan, now)
    requires Attached(scan.table, id, k) && Detached(scan, now, id, k)
    requires forall r | r in now.history && r !in scan.history && r.key == k :: r.deleted
    ensures Newest(now.table, k, Now).Some? && Newest(now.table, k, Now).value.deleted
  {
    LatestKept(scan);
    LatestKept(now);
    assert LiveAt(scan.table, k, Now).value in now.history;
    var n := Newest(now.history, k, Now).value;
    assert n in scan.history ==> IsNewest(scan.history, k, Now, n);
  }

  /** A tombstone over a live row of the lease. */
  predicate TombstoneOver(h: set<Row>, d: Row, id: int) {
    && d in h && d.deleted
    && exists p :: p in h && p.key == d.key && d.prevRev == Some(p.rev) && !p.deleted && p.lease == id
  }

  lemma TombstoneOverStays(h: set<Row>, h': set<Row>, d: Row, id: int)
    requires TombstoneOver(h, d, id) && h <= h'
    ensures TombstoneOver(h', d, id)
  {
    var p :| p in h && p.key == d.key && d.prevRev == Some(p.rev) && !p.deleted && p.lease == id;
    assert p in h';
  }

  predicate AllTombstones(h: set<Row>, rows: set<Row>, id: int) {
    forall d | d in rows :: TombstoneOver(h, d, id)
  }

  lemma TombstonesStay(h: set<Row>, h': set<Row>, rows: set<Row>, id: int)
    requires AllTombstones(h, rows, id) && h <= h'
    ensures AllTombstones(h', rows, id)
  {
    forall d | d in rows ensures TombstoneOver(h', d, id) { TombstoneOverStays(h, h', d, id); }
  }

  lemma LeaseDelete(db: Db, k: Key, id: int, ts: int)
    requires Inv(db) && Fresh(db, ts)
    ensures var w, db' := Effect(db.table, DeleteIfLease(k, id), ts), After(db, DeleteIfLease(k, id), ts);
            && !Attached(db'.table, id, k)
            && (forall d | d in w :: TombstoneOver(db'.history, d, id))
            && db'.history == db.history + w
            && (w != {} <==> Attached(db.table, id, k))
  {
    var w := Effect(db.table, DeleteIfLease(k, id), ts);
    EffectIsBatch(db.table, DeleteIfLease(k, id), ts);
    CommitLookup(db, w, ts, k);
    var prev := LiveAt(db.table, k, Now);
    if Attached(db.table, id, k) {
      var d := Tombstone(prev.value, ts);
      assert w == {d} && d in w;
      assert prev.value in db.history;
    } else {
      assert w == {};
    }
  }

  // ---------- the lease manager ----------

  datatype Lease = Lease(id: int, ttl: int, grantedAt: int, expiresAt: int)

  /** Where Spanner fails one expiry: the scan breaks off, single deletes fail, the last delete fails. */
  datatype Faults = Faults(scanBreaksAfter: Option<nat>, failing: set<Key>, dropFails: bool)

  const NO_FAULTS := Faults(None, {}, false)

  /** The scan breaks off before it has said that it is done, or the delete of a scanned key fails. */
  predicate Disturbs(faults: Faults, keys: set<Key>) {
    (faults.scanBreaksAfter.Some? && faults.scanBreaksAfter.value <= |keys|) || !(keys !! faults.failing)
  }

  /** The counts of a delete loop that has still to go over `rest`. */
  predicate Tally(keys: set<Key>, rest: set<Key>, done: set<Key>, faults: Faults, read: nat, errs: nat) {
    && rest <= keys && read + |rest| == |keys| && done == keys - rest - faults.failing
    && (errs == 0 <==> done == keys - rest)
    && (faults.scanBreaksAfter.Some? ==> faults.scanBreaksAfter.value >= read)
  }

  lemma TallyNext(keys: set<Key>, rest: set<Key>, done: set<Key>, faults: Faults, read: nat, errs: nat, key: Key)
    requires Tally(keys, rest, done, faults, read, errs) && key in rest && faults.scanBreaksAfter != Some(read)
    ensures if key in faults.failing then Tally(keys, rest - {key}, done, faults, read + 1, errs + 1)
            else Tally(keys, rest - {key}, done + {key}, faults, read + 1, errs)
  {
    assert keys - (rest - {key}) == (keys - rest) + {key};
    assert key in keys - (rest - {key}) && key !in done;
  }

  lemma TallyBroken(keys: set<Key>, rest: set<Key>, done: set<Key>, faults: Faults, read: nat, errs: nat)
    requires Tally(keys, rest, done, faults, read, errs) && faults.scanBreaksAfter == Some(read)
    ensures Disturbs(faults, keys)
  {
  }

  lemma TallyDone(keys: set<Key>, done: set<Key>, faults: Faults, read: nat, errs: nat)
    requires Tally(keys, {}, done, faults, read, errs)
    ensures faults.scanBreaksAfter == Some(read) || errs > 0 <==> Disturbs(faults, keys)
    ensures errs == 0 ==> done == keys
  {
    assert keys - {} == keys;
    assert keys - faults.failing == keys <==> keys !! faults.failing;
  }

  /** What may happen to a lease between two attempts to expire it. */
  datatype Meanwhile = Nothing | KeptAlive(at: int) | Revoked(faults: Faults)

  datatype Outcome = Gone | Rescheduled | Expired | Stuck

  class LeaseManager {
    const store: Store
    var leases: map<int, Lease>   // in memory
    var kvLease: map<int, int>    // the kv_lease table: id to TTL
    var nextId: int

    ghost predicate Valid()
      reads this, store
    {
      && store.Valid()
      && leases.Keys <= kvLease.Keys
      && (forall id | id in leases :: leases[id].id == id)
      && forall id | id in kvLease :: id <= nextId
    }

    constructor (store: Store, now: int)
      requires store.Valid()
      ensures Valid() && this.store == store && leases == map[] && kvLease == map[]
    {
      this.store := store;
      leases, kvLease, nextId := map[], map[], now;
    }

    method Grant(ttl: int, now: int, fails: bool) returns (lease: Option<Lease>)
      requires Valid()
      modifies this
      ensures Valid()
      ensures lease.None? <==> fails
      ensures fails ==> leases == old(leases) && kvLease == old(kvLease)
      ensures !fails ==>
                var id := lease.value.id;
                && id !in old(kvLease) && id !in old(leases)
                && lease.value == Lease(id, ttl, now, now + ttl * SECOND)
                && leases == old(leases)[id := lease.value] && kvLease == old(kvLease)[id := ttl]
    {
      nextId := nextId + 1;
      if fails { return None; }
      var l := Lease(nextId, ttl, now, now + ttl * SECOND);
      kvLease := kvLease[nextId := ttl];
      leases := leases[nextId := l];
      return Some(l);
    }

    method Keepalive(id: int, now: int) returns (ttl: int)
      requires Valid()
      modifies this`leases
      ensures Valid() && leases.Keys == old(leases).Keys
      ensures forall x | x in leases && x != id :: leases[x] == old(leases)[x]
      ensures id in leases ==> ttl == leases[id].ttl && leases[id] == old(leases)[id].(expiresAt := now + ttl * SECOND)
      ensures id !in leases ==> ttl == 0
    {
      if id !in leases { return 0; }
      var l := leases[id];
      leases := leases[id := l.(expiresAt := now + l.ttl * SECOND)];
      return l.ttl;
    }

    /** One atomic re-check and delete; everything already detached stays so. */
    method DeleteKey(id: int, key: Key, ghost scan: Db, ghost done: set<Key>) returns (ghost rows: set<Row>)
      requires store.Valid() && Grows(scan, store.Snapshot())
      requires DetachedAll(scan, store.Snapshot(), id, done)
      modifies store
      ensures store.Valid() && Grows(old(store.Snapshot()), store.Snapshot()) && Grows(scan, store.Snapshot())
      ensures DetachedAll(scan, store.Snapshot(), id, done + {key})
      ensures AllTombstones(store.history, rows, id)
      ensures store.history == old(store.history) + rows
    {
      ghost var before := store.Snapshot();
      var _, ts := store.DeleteIfLease(key, id);
      rows := Effect(before.table, DeleteIfLease(key, id), ts);
      LeaseDelete(before, key, id, ts);
      GrowsTransitive(scan, before, store.Snapshot());
      DetachedAllStay(scan, before, store.Snapshot(), id, done);
    }

    /** How far a delete loop has come: what it has detached and what it has written itself. */
    ghost predicate Expiring(scan: Db, id: int, done: set<Key>, written: set<Row>, contended: bool)
      reads this, store
    {
      && store.Valid() && Grows(scan, store.Snapshot())
      && DetachedAll(scan, store.Snapshot(), id, done) && AllTombstones(store.history, written, id)
      && (!contended ==> store.history == scan.history + written)
    }

    /** The next delete of the loop, with what was written before it. */
    method DeleteNext(id: int, key: Key, ghost scan: Db, ghost done: set<Key>, ghost written: set<Row>,
        ghost contended: bool) returns (ghost written': set<Row>)
      requires Expiring(scan, id, done, written, contended)
      modifies store
      ensures Expiring(scan, id, done + {key}, written', contended)
    {
      ghost var h := store.history;
      ghost var rows := DeleteKey(id, key, scan, done);
      TombstonesStay(h, store.history, written, id);
      written' := written + rows;
    }

    /** Anything the rest of the system does between two deletes. */
    method Interlude(ghost scan: Db, id: int, ghost done: set<Key>, ghost written: set<Row>, contended: bool)
      requires Expiring(scan, id, done, written, contended)
      modifies store
      ensures Expiring(scan, id, done, written, contended)
    {
      if contended {
        ghost var before := store.Snapshot();
        store.Environment();
        GrowsTransitive(scan, before, store.Snapshot());
        DetachedAllStay(scan, before, store.Snapshot(), id, done);
        TombstonesStay(before.history, store.history, written, id);
      }
    }

    /**
     The delete loop over the scanned keys, stopped early by a broken scan, going on past single
     failures. `written` are the rows it wrote itself.
     */
    method DeleteScanned(id: int, keys: set<Key>, faults: Faults, contended: bool, ghost scan: Db)
      returns (broken: bool, deleteErrs: nat, ghost written: set<Row>)
      requires store.Valid() && scan == store.Snapshot()
      modifies store
      ensures store.Valid() && Grows(scan, store.Snapshot())
      ensures !broken && deleteErrs == 0 ==> DetachedAll(scan, store.Snapshot(), id, keys)
      ensures AllTombstones(store.history, written, id)
      ensures !contended ==> store.history == scan.history + written
      ensures broken || deleteErrs > 0 <==> Disturbs(faults, keys)
    {
      var rest := keys;
      ghost var done: set<Key> := {};
      broken, deleteErrs, written := false, 0, {};
      var read := 0;
      while rest != {}
        invariant Expiring(scan, id, done, written, contended)
        invariant Tally(keys, rest, done, faults, read, deleteErrs)
        decreases rest
      {
        Interlude(scan, id, done, written, contended);
        if faults.scanBreaksAfter == Some(read) {
          TallyBroken(keys, rest, done, faults, read, deleteErrs);
          broken := true;
          return;
        }
        var key :| key in rest;
        TallyNext(keys, rest, done, faults, read, deleteErrs, key);
        rest := rest - {key};
        read := read + 1;
        if key in faults.failing {
          deleteErrs := deleteErrs + 1;
        } else {
          written := DeleteNext(id, key, scan, done, written, contended);
          done := done + {key};
        }
      }
      TallyDone(keys, done, faults, read, deleteErrs);
      broken := faults.scanBreaksAfter == Some(read);
    }

    /**
     Expiry of a lease. Its own writes are only tombstones over live rows of this lease. When it
     reports success, every key still attached to the lease was written after the expiry began
     (so a key attached then and not written by anyone else since is tombstoned) and the kv_lease
     row is gone; when it fails in any way the kv_lease row stays.
     */
    method ExpireLeaseKeys(id: int, faults: Faults, contended: bool) returns (ok: bool, ghost written: set<Row>)
      requires store.Valid()
      modifies this`kvLease, store
      ensures store.Valid() && Grows(old(store.Snapshot()), store.Snapshot())
      ensures AllTombstones(store.history, written, id)
      ensures !contended ==> store.history == old(store.history) + written
      ensures ok ==> AllDetached(old(store.Snapshot()), store.Snapshot(), id)
      ensures kvLease == if ok then old(kvLease) - {id} else old(kvLease)
      ensures ok <==> !faults.dropFails && !Disturbs(faults, ScanKeys(old(store.table), id))
    {
      ok, written := ScanAndDelete(id, faults, contended);
      if faults.dropFails { ok := false; }
      if ok { kvLease := kvLease - {id}; }
    }

    /** The scan and its delete loop, without the kv_lease row. */
    method ScanAndDelete(id: int, faults: Faults, contended: bool) returns (ok: bool, ghost written: set<Row>)
      requires store.Valid()
      modifies store
      ensures store.Valid() && Grows(old(store.Snapshot()), store.Snapshot())
      ensures AllTombstones(store.history, written, id)
      ensures !contended ==> store.history == old(store.history) + written
      ensures ok ==> AllDetached(old(store.Snapshot()), store.Snapshot(), id)
      ensures ok <==> !Disturbs(faults, ScanKeys(old(store.table), id))
    {
      ghost var scan := store.Snapshot();
      var broken, deleteErrs;
      broken, deleteErrs, written := DeleteScanned(id, ScanKeys(store.table, id), faults, contended, scan);
      ok := !broken && deleteErrs == 0;
      if ok { ScannedIsEnough(scan, store.Snapshot(), id); }
    }

    /** The memory entry goes only after the keys and the kv_lease row. */
    method Revoke(id: int, faults: Faults, contended: bool) returns (ok: bool)
      requires Valid()
      modifies this, store
      ensures Valid() && Grows(old(store.Snapshot()), store.Snapshot()) && nextId == old(nextId)
      ensures ok ==> AllDetached(old(store.Snapshot()), store.Snapshot(), id)
      ensures kvLease == if ok then old(kvLease) - {id} else old(kvLease)
      ensures leases == if ok then old(leases) - {id} else old(leases)
      ensures ok <==> !faults.dropFails && !Disturbs(faults, ScanKeys(old(store.table), id))
    {
      var expired, _ := ExpireLeaseKeys(id, faults, contended);
      if expired { leases := leases - {id}; }
      return expired;
    }

    /** Whatever happens to a lease leaves the other leases alone. */
    twostate predicate OnlyAbout(id: int)
      reads this
    {
      leases - {id} == old(leases) - {id} && kvLease - {id} == old(kvLease) - {id}
    }

    /** A keepalive, or a client revoking the lease, while the timer is retrying. */
    method Meantime(id: int, m: Meanwhile, contended: bool)
      requires Valid()
      modifies this, store
      ensures Valid() && Grows(old(store.Snapshot()), store.Snapshot()) && OnlyAbout(id)
      ensures m.Nothing? ==> leases == old(leases) && kvLease == old(kvLease)
      ensures m.Nothing? ==> store.Snapshot() == old(store.Snapshot())
    {
      match m
      case Nothing =>
      case KeptAlive(at) => var _ := Keepalive(id, at);
      case Revoked(faults) => var _ := Revoke(id, faults, contended);
    }

    /**
     The timer of a lease fires. A lease revoked meanwhile is left alone, one kept alive for more
     than another second is rescheduled; otherwise up to five attempts, one per fault pattern, with
     anything in between. Only the first look at the expiry counts: once the attempts have begun,
     one that meets no fault expires the lease however often it is kept alive.
     */
    method TimerFires(id: int, now: int, faults: seq<Faults>, between: seq<Meanwhile>, contended: bool)
      returns (outcome: Outcome)
      requires Valid() && |faults| == |between| == EXPIRY_ATTEMPTS
      modifies this, store
      ensures Valid() && Grows(old(store.Snapshot()), store.Snapshot()) && OnlyAbout(id)
      ensures outcome.Gone? <==> id !in old(leases)
      ensures outcome.Rescheduled? <==> id in old(leases) && old(leases)[id].expiresAt - now > SECOND
      ensures outcome.Gone? || outcome.Rescheduled? ==>
                leases == old(leases) && kvLease == old(kvLease) && store.Snapshot() == old(store.Snapshot())
      ensures outcome.Expired? ==> id !in leases && id !in kvLease
      ensures outcome.Expired? ==> AllDetached(old(store.Snapshot()), store.Snapshot(), id)
      ensures outcome.Stuck? ==> forall i | 0 <= i < EXPIRY_ATTEMPTS :: faults[i] != NO_FAULTS
      ensures outcome.Stuck? && (forall i | 0 <= i < EXPIRY_ATTEMPTS :: between[i] == Nothing) ==>
                leases == old(leases) && kvLease == old(kvLease)
    {
      if id !in leases { return Gone; }
      if leases[id].expiresAt - now > SECOND { return Rescheduled; }
      ghost var start := store.Snapshot();
      for attempt := 0 to EXPIRY_ATTEMPTS
        invariant Valid() && Grows(start, store.Snapshot()) && OnlyAbout(id)
        invariant forall i | 0 <= i < attempt :: faults[i] != NO_FAULTS
        invariant (forall i | 0 <= i < attempt :: between[i] == Nothing) ==>
                    leases == old(leases) && kvLease == old(kvLease)
      {
        var ok := Attempt(id, faults[attempt], between[attempt], contended, start);
        if ok { return Expired; }
      }
      return Stuck;
    }

    /** One attempt to expire a lease, after whatever happened since the last one. */
    method Attempt(id: int, faults: Faults, m: Meanwhile, contended: bool, ghost start: Db) returns (ok: bool)
      requires Valid() && Grows(start, store.Snapshot())
      modifies this, store
      ensures Valid() && Grows(start, store.Snapshot()) && OnlyAbout(id)
      ensures ok ==> id !in leases && id !in kvLease && AllDetached(start, store.Snapshot(), id)
      ensures !ok ==> faults != NO_FAULTS
      ensures !ok && m.Nothing? ==> leases == old(leases) && kvLease == old(kvLease)
    {
      ghost var before := store.Snapshot();
      Meantime(id, m, contended);
      GrowsTransitive(start, before, store.Snapshot());
      ghost var tried := store.Snapshot();
      ok := Revoke(id, faults, contended);
      GrowsTransitive(start, tried, store.Snapshot());
      if ok { DetachedFromEarlier(start, tried, store.Snapshot(), id); }
    }

    /** Reload at start-up: every decoded row of kv_lease is tracked, entries already there are kept. */
    method LoadLeases(rows: seq<Lease>, failsAt: Option<nat>) returns (done: bool)
      requires Valid() && forall i | 0 <= i < |rows| :: rows[i].id in kvLease
      modifies this`leases
      ensures Valid()
      ensures forall id | id in old(leases) :: id in leases && leases[id] == old(leases)[id]
      ensures done ==> forall i | 0 <= i < |rows| :: rows[i].id in leases
      ensures forall id | id in leases && id !in old(leases) ::
                exists i :: 0 <= i < |rows| && leases[id]
                        == rows[i].(expiresAt := rows[i].grantedAt + rows[i].ttl * SECOND)
    {
      for i := 0 to |rows|
        invariant Valid()
        invariant forall id | id in old(leases) :: id in leases && leases[id] == old(leases)[id]
        invariant forall j | 0 <= j < i :: rows[j].id in leases
        invariant forall id | id in leases && id !in old(leases) ::
                    exists j :: 0 <= j < i && leases[id]
                            == rows[j].(expiresAt := rows[j].grantedAt + rows[j].ttl * SECOND)
      {
        if failsAt == Some(i) { return false; }
        var l := rows[i].(expiresAt := rows[i].grantedAt + rows[i].ttl * SECOND);
        if l.id !in leases { leases := leases[l.id := l]; }
      }
      return true;
    }
  }
}
