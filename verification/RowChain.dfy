/** What the linked rows of a key promise over every reachable history. */
module RowChain {
  import opened Bytes
  import opened Rows
  import opened Log
  import opened Refinement

  /** The live row a row was written over. */
  function Predecessor(h: Table, r: Row): (p: Option<Row>)
    ensures Chain(h) && r in h ==> LinksTo(p, r)
  {
    assert Chain(h) && r in h ==> Linked(h, r);
    LiveAt(h, r.key, At(r.rev - 1))
  }

  /** A revision is named as `prev_revision` by at most one row of its key. */
  lemma PrevRevisionNamedOnce(h: Table, a: Row, b: Row)
    requires Chain(h) && a in h && b in h
    requires a.key == b.key && a.prevRev.Some? && a.prevRev == b.prevRev
    ensures a == b
  {
    var p, q := Predecessor(h, a), Predecessor(h, b);
    assert p.value.rev == q.value.rev;
    // If a came before b, b would follow a (or a later row), never a's own predecessor.
  }

  /** Between two creations of a key lies a tombstone. */
  lemma TombstoneBetweenCreations(h: Table, a: Row, b: Row)
    requires Chain(h) && a in h && b in h
    requires a.key == b.key && a.created && b.created && a.rev < b.rev
    ensures exists d :: d in h && d.key == a.key && d.deleted && a.rev < d.rev < b.rev
  {
    var n := Newest(h, b.key, At(b.rev - 1));
    assert Linked(h, a) && Linked(h, b);
    assert n.Some? && n.value.deleted;
    assert !a.deleted;
    assert n.value != a;
  }

  /** Between a tombstone and any later row that is not a creation (another tombstone, say) lies a creation. */
  lemma {:induction false} CreationAfterTombstone(h: Table, a: Row, b: Row)
    requires Chain(h) && a in h && b in h
    requires a.key == b.key && a.deleted && a.rev < b.rev
    requires !b.created
    ensures exists c :: c in h && c.key == a.key && c.created && a.rev < c.rev < b.rev
    decreases b.rev - a.rev
  {
    var p := Predecessor(h, b).value;
    assert p != a;
    if !p.created { CreationAfterTombstone(h, a, p); }
  }

  /**
   `create_revision` is the revision of the creation that opened the key's current life: that
   creation exists, and every row of the key from there up to r is live and shares it.
   */
  lemma {:induction false} CreateRevisionOpensLife(h: Table, r: Row)
    requires Chain(h) && r in h
    requires forall x | x in h :: x.rev >= 2
    ensures 2 <= r.createRev <= r.rev
    ensures exists c :: c in h && c.key == r.key && c.created && c.rev == r.createRev
    ensures forall x | x in h && x.key == r.key && r.createRev <= x.rev < r.rev ::
              !x.deleted && x.createRev == r.createRev
    decreases r.rev
  {
    var p := Predecessor(h, r);
    if p.Some? {
      CreateRevisionOpensLife(h, p.value);
      forall x | x in h && x.key == r.key && r.createRev <= x.rev < r.rev
        ensures !x.deleted && x.createRev == r.createRev
      {
        assert Under(x.rev, At(r.rev - 1));
        if x.rev == p.value.rev { assert x == p.value; }
      }
    } else {
      assert r.created;
    }
  }

  /** The reported Version is 0 for an absent key and positive for a present one. */
  lemma VersionZeroIffAbsent(db: Db, k: Key, cap: Cap)
    requires Inv(db)
    ensures VersionOf(LiveAt(db.table, k, cap)) >= 0
    ensures VersionOf(LiveAt(db.table, k, cap)) == 0 <==> LiveAt(db.table, k, cap) == None
  {
    var kv := LiveAt(db.table, k, cap);
    if kv.Some? { CreateRevisionOpensLife(db.history, kv.value); }
  }

  /**
   A compare-and-swap revision is consumed at most once: after a commit that wrote over the row
   at `rev`, no later update or conditional delete naming `rev` writes anything.
   */
  lemma CasConsumedOnce(db: Db, first: Request, ts: int, later: Db, second: Request, ts': int)
    requires Inv(db) && Fresh(db, ts)
    requires (first.Update? || first.Delete?) && (second.Update? || second.Delete?)
    requires first.key == second.key && first.rev == second.rev != 0
    requires Effect(db.table, first, ts) != {}
    requires (EffectIsBatch(db.table, first, ts);
              Inv(later) && Grows(Commit(db, Effect(db.table, first, ts), ts), later))
    ensures Effect(later.table, second, ts') == {}
  {
    EffectIsBatch(db.table, first, ts);
    CasWritesOver(db, first, ts);
    var r :| r in Effect(db.table, first, ts);
    assert r in later.history;
    LiveIsNotOlder(later, r);
  }

  lemma CasWritesOver(db: Db, req: Request, ts: int)
    requires Inv(db) && Fresh(db, ts) && (req.Update? || req.Delete?) && req.rev != 0
    ensures forall r | r in Effect(db.table, req, ts) :: r.key == req.key && r.rev == ts > req.rev
  {
    var live := LiveAt(db.table, req.key, Now);
    if live.Some? { assert live.value in db.history; }
  }

  lemma LiveIsNotOlder(db: Db, r: Row)
    requires Inv(db) && r in db.history
    ensures var live := LiveAt(db.table, r.key, Now); live.Some? ==> live.value.rev >= r.rev
  {
    LatestKept(db);
  }

  // ---------- watch events ----------

  datatype ProtoKV = ProtoKV(key: Key, value: Blob, modRev: int, createRev: int, version: int, lease: int)

  datatype WatchEvent = WatchEvent(isDelete: bool, kv: ProtoKV, prevKv: Option<ProtoKV>)

  function ToProtoKV(r: Row): ProtoKV {
    ProtoKV(r.key, r.value, r.rev, r.createRev, r.rev - r.createRev + 1, r.lease)
  }

  function ToWatchEvent(r: Row): WatchEvent {
    WatchEvent(
      r.deleted,
      ToProtoKV(r),
      if r.prevRev.Some? && r.prevRev.value > 0 && r.oldValue.Some?
      then Some(ProtoKV(r.key, r.oldValue, r.prevRev.value, r.createRev, 0, 0))
      else None
    )
  }

  /**
   An event tells a client what its key became: a delete exactly when the key shows nothing at that
   revision, otherwise a put of what it shows.
   */
  lemma EventIsState(db: Db, r: Row)
    requires Inv(db) && r in db.history
    ensures var e, m := ToWatchEvent(r), View(db.history, At(r.rev));
            && e.kv.key == r.key && e.kv.modRev == r.rev
            && (e.isDelete <==> r.key !in m)
            && (r.key in m ==>
                  && e.kv.value == m[r.key].value && e.kv.lease == m[r.key].lease
                  && e.kv.createRev == m[r.key].createRev && e.kv.modRev == m[r.key].modRev
                  && e.kv.version == VersionOf(LiveAt(db.history, r.key, At(r.rev))))
  {
    assert IsNewest(db.history, r.key, At(r.rev), r);
    NewestIs(db.history, r.key, At(r.rev), r);
    ViewAt(db.history, At(r.rev), r.key);
  }

  /**
   The PrevKv of a logged event names the true predecessor, and it is there exactly when the
   predecessor exists and its value is not nil.
   */
  lemma PrevKvIsPredecessor(db: Db, r: Row)
    requires Inv(db) && r in db.history
    ensures var p := Predecessor(db.history, r);
            var prev := ToWatchEvent(r).prevKv;
            && (prev.Some? <==> p.Some? && p.value.value.Some?)
            && (prev.Some? ==>
                  && prev.value.key == p.value.key
                  && prev.value.value == p.value.value
                  && prev.value.modRev == p.value.rev
                  && prev.value.createRev == p.value.createRev
                  && prev.value.version == prev.value.lease == 0)
  {
    var p := Predecessor(db.history, r);
    assert LinksTo(p, r);
    assert p.Some? ==> p.value.rev >= 2;
  }

  /**
   The event the change-stream reader decodes from a log row. The stream captures new rows only, so
   there is never an old value; a row without a key is dropped, and an empty value decodes as nil.
   */
  function StreamEvent(r: Row): Option<WatchEvent> {
    if r.key == [] then None
    else Some(ToWatchEvent(r.(value := if r.value == Some([]) then None else r.value, oldValue := None)))
  }

  /** The same to a client: nil and empty values are one on the wire. */
  predicate SameEvent(a: WatchEvent, b: WatchEvent) {
    && a.isDelete == b.isDelete && a.prevKv == b.prevKv
    && a.kv.(value := None) == b.kv.(value := None) && Content(a.kv.value) == Content(b.kv.value)
  }

  /**
   The stream delivers every row that has a key as the log does but for PrevKv, which it never
   carries; so as the log does altogether exactly when there is no predecessor with a value.
   */
  lemma StreamEventAgreesIff(db: Db, r: Row)
    requires Inv(db) && r in db.history
    ensures var p, e := Predecessor(db.history, r), StreamEvent(r);
            && (e.Some? && SameEvent(e.value, ToWatchEvent(r))
                <==> r.key != [] && (p.None? || p.value.value.None?))
            && (e.Some? <==> r.key != [])
            && (e.Some? ==> e.value.prevKv.None? && SameEvent(e.value, ToWatchEvent(r).(prevKv := None)))
  {
    PrevKvIsPredecessor(db, r);
  }

  /** An update of a key that has a value: the log reports the previous value, the stream does not. */
  lemma StreamDropsPrevKv() returns (db: Db, r: Row)
    ensures Inv(db) && r in db.history
    ensures ToWatchEvent(r).prevKv.Some? && StreamEvent(r).Some? && StreamEvent(r).value.prevKv.None?
  {
    var first, p := FirstPut([97], Some([1]));
    r := UpdateEffect(first.table, p, Some([2]));
    db := After(first, Update([97], Some([2]), 2, 0), 4);
  }

  lemma FirstPut(k: Key, v: Blob) returns (db: Db, p: Row)
    ensures Inv(db) && db.table == {p} && db.history == {p} && p == PutRow(None, k, v, 0, 2)
  {
    p := PutRow(None, k, v, 0, 2);
    db := After(Db({}, {}, None), Create(k, v, 0), 2);
  }

  lemma UpdateEffect(t: Table, p: Row, v: Blob) returns (r: Row)
    requires t == {p} && !p.deleted && p.rev == 2
    ensures r == PutRow(Some(p), p.key, v, 0, 4) && Effect(t, Update(p.key, v, 2, 0), 4) == {r}
  {
    r := PutRow(Some(p), p.key, v, 0, 4);
    assert IsNewest(t, p.key, Now, p);
    NewestIs(t, p.key, Now, p);
  }
}
