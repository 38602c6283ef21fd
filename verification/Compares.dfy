/**
 What the compares of a Txn mean: by the writes they guard, by each other, and by what was last
 written under the key.
 */
module Compares {
  import opened Bytes
  import opened Rows
  import opened Log
  import opened Refinement
  import opened RowChain

  /** A compare as the table answers it. */
  predicate HoldsOn(t: Table, k: Key, target: Target, relation: Relation, n: int, b: Blob) {
    Holds(Compare(k, target, relation, n, b), LiveAt(t, k, Now))
  }

  // ---------- against the writes of the store ----------

  /** MOD == rev is exactly the condition under which the store's own compare-and-swap writes. */
  lemma ModEqualsIsCas(t: Table, k: Key, rev: int, v: Blob, lease: int, ts: int, b: Blob)
    requires rev > 0
    ensures HoldsOn(t, k, ModRevision, Eq, rev, b) <==> Effect(t, Update(k, v, rev, lease), ts) != {}
    ensures HoldsOn(t, k, ModRevision, Eq, rev, b) <==> Effect(t, Delete(k, rev), ts) != {}
  {
    var live := LiveAt(t, k, Now);
    if live.Some? {
      assert PutRow(live, k, v, lease, ts) in {PutRow(live, k, v, lease, ts)};
      assert Tombstone(live.value, ts) in {Tombstone(live.value, ts)};
    }
  }

  /** VERSION == 0, CREATE == 0 and MOD == 0 all say what Create finds: the key is not there. */
  lemma ZeroIsCreatable(db: Db, k: Key, target: Target, v: Blob, lease: int, ts: int, b: Blob)
    requires Inv(db) && target in {Version, CreateRevision, ModRevision}
    ensures HoldsOn(db.table, k, target, Eq, 0, b) <==> Effect(db.table, Create(k, v, lease), ts) != {}
  {
    var live := LiveAt(db.table, k, Now);
    assert PutRow(None, k, v, lease, ts) in {PutRow(None, k, v, lease, ts)};
    if live.Some? { CreateRevisionOpensLife(db.history, live.value); }
  }

  /**
   The guarded transactions clients use are the store's conditional writes: put if absent, put if
   unchanged, delete if unchanged.
   */
  lemma GuardedTxnIsCas(db: Db, k: Key, target: Target, rev: int, v: Blob, lease: int, ts: int, b: Blob)
    requires Inv(db) && rev > 0 && target in {Version, CreateRevision, ModRevision}
    ensures Effect(db.table, Txn([Compare(k, target, Eq, 0, b)], [OpPut(k, v, lease)], []), ts)
            == Effect(db.table, Create(k, v, lease), ts)
    ensures Effect(db.table, Txn([Compare(k, ModRevision, Eq, rev, b)], [OpPut(k, v, lease)], []), ts)
            == Effect(db.table, Update(k, v, rev, lease), ts)
    ensures Effect(db.table, Txn([Compare(k, ModRevision, Eq, rev, b)], [OpDelete(k)], []), ts)
            == Effect(db.table, Delete(k, rev), ts)
  {
    var t, live := db.table, LiveAt(db.table, k, Now);
    ZeroIsCreatable(db, k, target, v, lease, ts, b);
    ModEqualsIsCas(t, k, rev, v, lease, ts, b);
    OneGuard(t, Compare(k, target, Eq, 0, b), OpPut(k, v, lease), ts);
    OneGuard(t, Compare(k, ModRevision, Eq, rev, b), OpPut(k, v, lease), ts);
    OneGuard(t, Compare(k, ModRevision, Eq, rev, b), OpDelete(k), ts);
    assert PutRow(None, k, v, lease, ts) in {PutRow(None, k, v, lease, ts)};
  }

  lemma OneGuard(t: Table, c: Compare, op: TxnOp, ts: int)
    requires Mutation(op)
    ensures Effect(t, Txn([c], [op], []), ts)
            == if Holds(c, LiveAt(t, c.key, Now)) && OpRow(t, op, ts).Some? then {OpRow(t, op, ts).value} else {}
  {
    assert c in [c] && op in [op];
    assert AllHold(t, [c]) <==> Holds(c, LiveAt(t, c.key, Now));
  }

  // ---------- against the history ----------

  /** CREATE == n names the creation that opened the life of the key: the last one, never deleted since. */
  lemma CreateEqualsNamesCreation(db: Db, k: Key, n: int, b: Blob)
    requires Inv(db) && n > 0
    ensures HoldsOn(db.table, k, CreateRevision, Eq, n, b) <==>
            exists c :: && c in db.history && c.key == k && c.created && c.rev == n
                        && forall x | x in db.history && x.key == k && x.rev > n :: !x.deleted
  {
    LatestKept(db);
    var live := LiveAt(db.history, k, Now);
    if live.Some? { CreateRevisionOpensLife(db.history, live.value); }
    if c :| && c in db.history && c.key == k && c.created && c.rev == n
            && forall x | x in db.history && x.key == k && x.rev > n :: !x.deleted {
      assert Linked(db.history, c);
      LiveFrom(db, c);
    }
  }

  lemma LiveFrom(db: Db, c: Row)
    requires Inv(db) && c in db.history && c.created && !c.deleted
    requires forall x | x in db.history && x.key == c.key && x.rev > c.rev :: !x.deleted
    ensures var live := LiveAt(db.history, c.key, Now); live.Some? && live.value.createRev == c.rev
  {
    var n := Newest(db.history, c.key, Now).value;
    assert !n.deleted by { if n.rev == c.rev { assert n == c; } }
    CreateRevisionOpensLife(db.history, n);
    var o :| o in db.history && o.key == c.key && o.created && o.rev == n.createRev;
    if o.rev < c.rev {
      TombstoneBetweenCreations(db.history, o, c);
    } else if c.rev < o.rev {
      TombstoneBetweenCreations(db.history, c, o);
    }
  }

  /** VERSION counts revisions from the creation: it is n when CREATE and MOD lie n - 1 apart. */
  lemma VersionEqualsSpan(db: Db, k: Key, n: int, b: Blob)
    requires Inv(db) && n > 0
    ensures HoldsOn(db.table, k, Version, Eq, n, b) <==>
            exists c :: c > 0 && HoldsOn(db.table, k, CreateRevision, Eq, c, b)
                        && HoldsOn(db.table, k, ModRevision, Eq, c + n - 1, b)
  {
    var live := LiveAt(db.table, k, Now);
    if live.Some? {
      CreateRevisionOpensLife(db.history, live.value);
      var c := live.value.createRev;
      if HoldsOn(db.table, k, Version, Eq, n, b) {
        assert HoldsOn(db.table, k, CreateRevision, Eq, c, b) && HoldsOn(db.table, k, ModRevision, Eq, c + n - 1, b);
      }
    }
  }

  // ---------- against each other ----------

  /** On the three numeric targets the relations are those of one number. */
  lemma RelationsAgree(kv: Option<Row>, c: Compare)
    requires c.target in {Version, CreateRevision, ModRevision}
    ensures Holds(c.(relation := Neq), kv) <==> !Holds(c.(relation := Eq), kv)
    ensures Holds(c.(relation := Gt), kv) <==>
            exists m :: m > c.number && Holds(c.(relation := Eq, number := m), kv)
    ensures Holds(c.(relation := Lt), kv) <==>
            exists m :: m < c.number && Holds(c.(relation := Eq, number := m), kv)
  {
    var m := Operand(kv, c);
    assert Holds(c.(relation := Eq, number := m), kv);
  }

  /** Some number satisfies Eq, and only one does. */
  lemma Operand(kv: Option<Row>, c: Compare) returns (m: int)
    requires c.target in {Version, CreateRevision, ModRevision}
    ensures forall n :: Holds(c.(relation := Eq, number := n), kv) <==> n == m
    ensures Holds(c.(relation := Neq), kv) <==> c.number != m
    ensures Holds(c.(relation := Gt), kv) <==> m > c.number
    ensures Holds(c.(relation := Lt), kv) <==> m < c.number
  {
    m := if c.target.Version? then VersionOf(kv)
         else if kv.None? then 0
         else if c.target.CreateRevision? then kv.value.createRev
         else kv.value.rev;
  }

  /** Values are only compared for equality, and no compare on another target ever holds. */
  lemma OtherRelations(kv: Option<Row>, c: Compare)
    ensures c.target.Value? ==> (Holds(c.(relation := Neq), kv) <==> !Holds(c.(relation := Eq), kv))
    ensures c.target.Value? && c.relation in {Gt, Lt} ==> !Holds(c, kv)
    ensures c.target.Unsupported? ==> !Holds(c, kv)
  {
  }

  // ---------- against what was written ----------

  /** The same bytes to a client: nil and empty are one. */
  predicate SameBytes(a: Blob, b: Blob) {
    a == b || (a in {None, Some([])} && b in {None, Some([])})
  }

  lemma WrittenShows(db: Db, req: Request, ts: int) returns (r: Row)
    requires Inv(db) && Fresh(db, ts) && !req.Txn? && Effect(db.table, req, ts) != {}
    ensures r in Effect(db.table, req, ts) && r.key == req.key
    ensures LiveAt(After(db, req, ts).table, req.key, Now) == if r.deleted then None else Some(r)
  {
    EffectIsBatch(db.table, req, ts);
    r :| r in Effect(db.table, req, ts);
    CommitLookup(db, Effect(db.table, req, ts), ts, req.key);
  }

  /** After a put of v at ts: VALUE equals v and nothing else, MOD equals ts and nothing else. */
  lemma ComparesAfterPut(db: Db, req: Request, ts: int, w: Blob, n: int)
    requires Inv(db) && Fresh(db, ts) && (req.Create? || req.Update?) && Effect(db.table, req, ts) != {}
    ensures var t := After(db, req, ts).table;
            && (HoldsOn(t, req.key, Value, Eq, n, w) <==> SameBytes(w, req.value))
            && (HoldsOn(t, req.key, ModRevision, Eq, n, w) <==> n == ts)
  {
    var r := WrittenShows(db, req, ts);
  }

  /** After a delete: VALUE equals only the empty value, and the numbers are zero. */
  lemma ComparesAfterDelete(db: Db, req: Request, ts: int, target: Target, w: Blob, n: int)
    requires Inv(db) && Fresh(db, ts) && (req.Delete? || req.DeleteIfLease?) && Effect(db.table, req, ts) != {}
    ensures var t := After(db, req, ts).table;
            && (HoldsOn(t, req.key, Value, Eq, n, w) <==> SameBytes(w, None))
            && (target in {Version, CreateRevision, ModRevision} ==>
                  (HoldsOn(t, req.key, target, Eq, n, w) <==> n == 0))
  {
    var r := WrittenShows(db, req, ts);
    AbsentCompares(After(db, req, ts).table, req.key, target, w, n);
  }

  lemma AbsentCompares(t: Table, k: Key, target: Target, w: Blob, n: int)
    requires LiveAt(t, k, Now).None?
    ensures HoldsOn(t, k, Value, Eq, n, w) <==> SameBytes(w, None)
    ensures target in {Version, CreateRevision, ModRevision} ==> (HoldsOn(t, k, target, Eq, n, w) <==> n == 0)
  {
  }
}
