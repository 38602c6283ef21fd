/**
 The row log refines a plain map: every committed request changes the visible map as one
 map-level step, and a transaction as its operations applied one by one in any order.
 */
module Refinement {
  import opened Bytes
  import opened Rows
  import opened Log

  // ---------- the map-level store ----------

  function MapPut(m: KvMap, k: Key, v: Blob, lease: int, ts: int): KvMap {
    m[k := Item(v, lease, if k in m then m[k].createRev else ts, ts)]
  }

  function MapDelete(m: KvMap, k: Key): KvMap {
    m - {k}
  }

  function MapOp(m: KvMap, op: TxnOp, ts: int): KvMap {
    match op
    case OpPut(k, v, lease) => MapPut(m, k, v, lease, ts)
    case OpDelete(k) => MapDelete(m, k)
    case OpGet(_) => m
  }

  /** The operations applied one after the other, each to the result of the one before. */
  function MapOps(m: KvMap, ops: seq<TxnOp>, ts: int): KvMap {
    if ops == [] then m
    else MapOp(MapOps(m, ops[..|ops| - 1], ts), ops[|ops| - 1], ts)
  }

  predicate MapHolds(c: Compare, m: KvMap) {
    var it := Lookup(m, c.key);
    match c.target
    case Version => CompareInt(if it.Some? then it.value.modRev - it.value.createRev + 1 else 0, c.number, c.relation)
    case CreateRevision => CompareInt(if it.Some? then it.value.createRev else 0, c.number, c.relation)
    case ModRevision => CompareInt(if it.Some? then it.value.modRev else 0, c.number, c.relation)
    case Value => CompareBytes(if it.Some? then it.value.value else None, c.bytes, c.relation)
    case Unsupported => false
  }

  predicate MapAllHold(compares: seq<Compare>, m: KvMap) {
    forall c | c in compares :: MapHolds(c, m)
  }

  function MapApply(m: KvMap, req: Request, ts: int): KvMap {
    match req
    case Create(k, v, lease) => if k in m then m else MapPut(m, k, v, lease, ts)
    case Update(k, v, rev, lease) => if k in m && m[k].modRev == rev then MapPut(m, k, v, lease, ts) else m
    case Delete(k, rev) => if k in m && (rev == 0 || m[k].modRev == rev) then MapDelete(m, k) else m
    case DeleteIfLease(k, lease) => if k in m && m[k].lease == lease then MapDelete(m, k) else m
    case Txn(compares, success, failure) =>
      OpsOnMap(m, if MapAllHold(compares, m) then success else failure, ts)
  }

  // ---------- pointwise meaning ----------

  lemma ViewLookup(t: Table, k: Key)
    ensures Lookup(View(t, Now), k) == (if LiveAt(t, k, Now).Some? then Some(ItemOf(LiveAt(t, k, Now).value)) else None)
  {
    ViewAt(t, Now, k);
  }

  /** A committed row is what its key shows next; the other keys show what they showed. */
  lemma CommitLookup(db: Db, w: set<Row>, ts: int, k: Key)
    requires Inv(db) && Fresh(db, ts) && Batch(db.table, w, ts)
    ensures var t' := Commit(db, w, ts).table;
            && (forall r | r in w && r.key == k :: LiveAt(t', k, Now) == if r.deleted then None else Some(r))
            && ((forall r | r in w :: r.key != k) ==> LiveAt(t', k, Now) == LiveAt(db.table, k, Now))
  {
    var t' := Commit(db, w, ts).table;
    if r :| r in w && r.key == k {
      assert IsNewest(t', k, Now, r);
      NewestIs(t', k, Now, r);
    } else {
      NewestFrame(db.table, t', k, Now);
    }
  }

  lemma MapOpLookup(m: KvMap, op: TxnOp, ts: int, k: Key)
    ensures !Mutation(op) || op.key != k ==> Lookup(MapOp(m, op, ts), k) == Lookup(m, k)
  {
  }

  lemma MapOpLocal(m: KvMap, n: KvMap, op: TxnOp, ts: int)
    requires Lookup(m, op.key) == Lookup(n, op.key)
    ensures Lookup(MapOp(m, op, ts), op.key) == Lookup(MapOp(n, op, ts), op.key)
  {
  }

  lemma {:induction false} MapOpsElsewhere(m: KvMap, ops: seq<TxnOp>, ts: int, k: Key)
    requires forall i | 0 <= i < |ops| && Mutation(ops[i]) :: ops[i].key != k
    ensures Lookup(MapOps(m, ops, ts), k) == Lookup(m, k)
    decreases |ops|
  {
    if ops != [] {
      var n := |ops| - 1;
      MapOpsElsewhere(m, ops[..n], ts, k);
      MapOpLookup(MapOps(m, ops[..n], ts), ops[n], ts, k);
    }
  }

  /** With distinct mutated keys a key is decided by its one mutation, whatever else runs. */
  lemma {:induction false} MapOpsAt(m: KvMap, ops: seq<TxnOp>, ts: int, i: nat)
    requires DistinctMutations(ops) && i < |ops| && Mutation(ops[i])
    ensures Lookup(MapOps(m, ops, ts), ops[i].key) == Lookup(MapOp(m, ops[i], ts), ops[i].key)
    decreases |ops|
  {
    var n := |ops| - 1;
    var init, k := MapOps(m, ops[..n], ts), ops[i].key;
    if i == n {
      MapOpsElsewhere(m, ops[..n], ts, k);
      MapOpLocal(m, init, ops[n], ts);
    } else {
      MapOpsAt(m, ops[..n], ts, i);
      MapOpLookup(init, ops[n], ts, k);
    }
  }

  lemma TxnRowOf(t: Table, ops: seq<TxnOp>, ts: int, r: Row)
    requires r in TxnRows(t, ops, ts)
    ensures exists i :: 0 <= i < |ops| && Mutation(ops[i]) && ops[i].key == r.key && OpRow(t, ops[i], ts) == Some(r)
  {
    var op :| op in ops && OpRow(t, op, ts) == Some(r);
    OpRowLinks(t, op, ts);
    var i :| 0 <= i < |ops| && ops[i] == op;
  }

  lemma OpRowLookup(t: Table, op: TxnOp, ts: int)
    requires Mutation(op)
    ensures Lookup(MapOp(View(t, Now), op, ts), op.key)
         == match OpRow(t, op, ts)
            case None => Lookup(View(t, Now), op.key)
            case Some(r) => if r.deleted then None else Some(ItemOf(r))
  {
    ViewLookup(t, op.key);
  }

  lemma MutatedLookup(db: Db, ops: seq<TxnOp>, ts: int, i: nat)
    requires Inv(db) && Fresh(db, ts) && DistinctMutations(ops) && i < |ops| && Mutation(ops[i])
    requires Batch(db.table, TxnRows(db.table, ops, ts), ts)
    ensures Lookup(View(Commit(db, TxnRows(db.table, ops, ts), ts).table, Now), ops[i].key)
         == Lookup(MapOp(View(db.table, Now), ops[i], ts), ops[i].key)
  {
    var t, w, k := db.table, TxnRows(db.table, ops, ts), ops[i].key;
    CommitLookup(db, w, ts, k);
    ViewLookup(t, k);
    ViewLookup(Commit(db, w, ts).table, k);
    OpRowLookup(t, ops[i], ts);
    if OpRow(t, ops[i], ts).Some? {
      OpRowLinks(t, ops[i], ts);
      assert ops[i] in ops;
      assert OpRow(t, ops[i], ts).value in w;
    } else {
      forall r | r in w ensures r.key != k { TxnRowOf(t, ops, ts, r); }
    }
  }

  lemma {:induction false} TxnLookup(db: Db, ops: seq<TxnOp>, ts: int, k: Key)
    requires Inv(db) && Fresh(db, ts) && DistinctMutations(ops)
    requires Batch(db.table, TxnRows(db.table, ops, ts), ts)
    ensures Lookup(View(Commit(db, TxnRows(db.table, ops, ts), ts).table, Now), k)
         == Lookup(MapOps(View(db.table, Now), ops, ts), k)
  {
    if i :| 0 <= i < |ops| && Mutation(ops[i]) && ops[i].key == k {
      MutatedLookup(db, ops, ts, i);
      MapOpsAt(View(db.table, Now), ops, ts, i);
    } else {
      var w := TxnRows(db.table, ops, ts);
      MapOpsElsewhere(View(db.table, Now), ops, ts, k);
      forall r | r in w ensures r.key != k { TxnRowOf(db.table, ops, ts, r); }
      CommitLookup(db, w, ts, k);
      ViewLookup(db.table, k);
      ViewLookup(Commit(db, w, ts).table, k);
    }
  }

  lemma HoldsOnMap(t: Table, c: Compare)
    ensures Holds(c, LiveAt(t, c.key, Now)) <==> MapHolds(c, View(t, Now))
  {
    ViewLookup(t, c.key);
  }

  lemma SingleRowLookup(db: Db, r: Row, ts: int, k: Key)
    requires Inv(db) && Fresh(db, ts) && Batch(db.table, {r}, ts)
    ensures Lookup(View(Commit(db, {r}, ts).table, Now), k)
         == if k == r.key then (if r.deleted then None else Some(ItemOf(r))) else Lookup(View(db.table, Now), k)
  {
    CommitLookup(db, {r}, ts, k);
    ViewLookup(Commit(db, {r}, ts).table, k);
    if k == r.key {
      assert r in {r};
    } else {
      ViewLookup(db.table, k);
      assert forall x | x in {r} :: x.key != k;
    }
  }

  function After(db: Db, req: Request, ts: int): (db': Db)
    requires Inv(db) && Fresh(db, ts)
    ensures Inv(db') && Grows(db, db')
  {
    var w := Effect(db.table, req, ts);
    EffectIsBatch(db.table, req, ts);
    CommitKeepsInv(db, w, ts);
    CommitGrows(db, w, ts);
    Commit(db, w, ts)
  }

  // ---------- the refinement ----------

  lemma NoRowsNoChange(db: Db, req: Request, ts: int)
    requires Inv(db) && Fresh(db, ts) && Effect(db.table, req, ts) == {}
    ensures After(db, req, ts) == db
  {
    assert db.table + {} == db.table && db.history + {} == db.history;
  }

  /** The store and the map choose the same branch. */
  lemma BranchesAgree(t: Table, compares: seq<Compare>)
    ensures AllHold(t, compares) <==> MapAllHold(compares, View(t, Now))
  {
    forall c | c in compares ensures Holds(c, LiveAt(t, c.key, Now)) <==> MapHolds(c, View(t, Now)) {
      HoldsOnMap(t, c);
    }
  }

  lemma TxnOnMap(t: Table, req: Request, ts: int)
    requires req.Txn?
    ensures MapApply(View(t, Now), req, ts) == OpsOnMap(View(t, Now), Branch(t, req), ts)
  {
    BranchesAgree(t, req.compares);
  }

  /** A branch with two mutations of one key is refused and changes nothing. */
  function OpsOnMap(m: KvMap, ops: seq<TxnOp>, ts: int): KvMap {
    if DistinctMutations(ops) then MapOps(m, ops, ts) else m
  }

  lemma OpsRefine(db: Db, ops: seq<TxnOp>, w: set<Row>, ts: int)
    requires Inv(db) && Fresh(db, ts) && Batch(db.table, w, ts)
    requires w == if DistinctMutations(ops) then TxnRows(db.table, ops, ts) else {}
    ensures View(Commit(db, w, ts).table, Now) == OpsOnMap(View(db.table, Now), ops, ts)
  {
    var v, m := View(Commit(db, w, ts).table, Now), MapOps(View(db.table, Now), ops, ts);
    if DistinctMutations(ops) {
      forall k ensures Lookup(v, k) == Lookup(m, k) { TxnLookup(db, ops, ts, k); }
      MapsEqual(v, m);
    } else {
      assert db.table + {} == db.table;
    }
  }

  lemma TxnRefines(db: Db, req: Request, ts: int)
    requires Inv(db) && Fresh(db, ts) && req.Txn? && Batch(db.table, Effect(db.table, req, ts), ts)
    ensures View(Commit(db, Effect(db.table, req, ts), ts).table, Now) == MapApply(View(db.table, Now), req, ts)
  {
    TxnOnMap(db.table, req, ts);
    OpsRefine(db, Branch(db.table, req), Effect(db.table, req, ts), ts);
  }

  function MapRow(m: KvMap, r: Row): KvMap {
    if r.deleted then m - {r.key} else m[r.key := ItemOf(r)]
  }

  lemma CommitRow(db: Db, r: Row, ts: int)
    requires Inv(db) && Fresh(db, ts) && Batch(db.table, {r}, ts)
    ensures View(Commit(db, {r}, ts).table, Now) == MapRow(View(db.table, Now), r)
  {
    var v, m' := View(Commit(db, {r}, ts).table, Now), MapRow(View(db.table, Now), r);
    forall k ensures Lookup(v, k) == Lookup(m', k) { SingleRowLookup(db, r, ts, k); }
    MapsEqual(v, m');
  }

  lemma PutOnMap(t: Table, k: Key, v: Blob, lease: int, ts: int)
    ensures MapPut(View(t, Now), k, v, lease, ts) == MapRow(View(t, Now), PutRow(LiveAt(t, k, Now), k, v, lease, ts))
  {
    ViewLookup(t, k);
  }

  /** At the map level a single-key request is decided by the one row it writes, if any. */
  ghost predicate OneRowOnMap(t: Table, req: Request, ts: int) {
    var w, m, m' := Effect(t, req, ts), View(t, Now), MapApply(View(t, Now), req, ts);
    (w == {} && m' == m) || exists r :: w == {r} && m' == MapRow(m, r)
  }

  lemma SinglePut(t: Table, req: Request, ts: int)
    requires req.Create? || req.Update?
    ensures OneRowOnMap(t, req, ts)
  {
    var w, prev := Effect(t, req, ts), LiveAt(t, req.key, Now);
    ViewLookup(t, req.key);
    PutOnMap(t, req.key, req.value, req.lease, ts);
    if w != {} {
      var r := PutRow(prev, req.key, req.value, req.lease, ts);
      assert w == {r};
      assert MapApply(View(t, Now), req, ts) == MapRow(View(t, Now), r);
    }
  }

  lemma SingleDelete(t: Table, req: Request, ts: int)
    requires req.Delete? || req.DeleteIfLease?
    ensures OneRowOnMap(t, req, ts)
  {
    var w, prev := Effect(t, req, ts), LiveAt(t, req.key, Now);
    ViewLookup(t, req.key);
    if w != {} {
      var r := Tombstone(prev.value, ts);
      assert w == {r};
      assert MapApply(View(t, Now), req, ts) == MapRow(View(t, Now), r);
    }
  }

  lemma SingleRefines(db: Db, req: Request, ts: int)
    requires Inv(db) && Fresh(db, ts) && !req.Txn? && Batch(db.table, Effect(db.table, req, ts), ts)
    ensures View(Commit(db, Effect(db.table, req, ts), ts).table, Now) == MapApply(View(db.table, Now), req, ts)
  {
    if req.Create? || req.Update? { SinglePut(db.table, req, ts); } else { SingleDelete(db.table, req, ts); }
    if Effect(db.table, req, ts) == {} {
      assert db.table + {} == db.table;
    } else {
      var r :| Effect(db.table, req, ts) == {r}
              && MapApply(View(db.table, Now), req, ts) == MapRow(View(db.table, Now), r);
      CommitRow(db, r, ts);
    }
  }

  /** Every request, committed at a fresh timestamp, is one step of the map-level store. */
  lemma RowLogRefinesMap(db: Db, req: Request, ts: int)
    requires Inv(db) && Fresh(db, ts)
    ensures View(After(db, req, ts).table, Now) == MapApply(View(db.table, Now), req, ts)
  {
    EffectIsBatch(db.table, req, ts);
    if req.Txn? { TxnRefines(db, req, ts); } else { SingleRefines(db, req, ts); }
  }

  // ---------- order of operations ----------

  lemma {:induction false} TwoPositions(ops: seq<TxnOp>, op: TxnOp)
    requires multiset(ops)[op] >= 2
    ensures exists i, j :: 0 <= i < j < |ops| && ops[i] == op && ops[j] == op
    decreases |ops|
  {
    var n := |ops| - 1;
    assert ops == ops[..n] + [ops[n]];
    if ops[n] == op {
      assert multiset(ops[..n])[op] >= 1;
      assert op in ops[..n];
      var i :| 0 <= i < n && ops[..n][i] == op;
      assert ops[i] == op && ops[n] == op;
    } else {
      TwoPositions(ops[..n], op);
      var i, j :| 0 <= i < j < n && ops[..n][i] == op && ops[..n][j] == op;
      assert ops[i] == op && ops[j] == op;
    }
  }

  lemma PositionsCount(ops: seq<TxnOp>, i: nat, j: nat)
    requires i < j < |ops| && ops[i] == ops[j]
    ensures multiset(ops)[ops[i]] >= 2
  {
    assert ops == ops[..j] + ops[j..];
    assert ops[i] in ops[..j] && ops[j] in ops[j..];
    assert multiset(ops) == multiset(ops[..j]) + multiset(ops[j..]);
  }

  lemma PermutationKeepsDistinct(ops: seq<TxnOp>, ops': seq<TxnOp>)
    requires DistinctMutations(ops) && multiset(ops) == multiset(ops')
    ensures DistinctMutations(ops')
  {
    forall i, j | 0 <= i < j < |ops'| && Mutation(ops'[i]) && Mutation(ops'[j])
      ensures ops'[i].key != ops'[j].key
    {
      if ops'[i] == ops'[j] {
        PositionsCount(ops', i, j);
        TwoPositions(ops, ops'[i]);
      } else {
        assert ops'[i] in multiset(ops') && ops'[j] in multiset(ops');
        var a :| 0 <= a < |ops| && ops[a] == ops'[i];
        var b :| 0 <= b < |ops| && ops[b] == ops'[j];
      }
    }
  }

  /** The operations of a branch with distinct mutated keys give the same map in any order. */
  lemma {:induction false} TxnOrderIrrelevant(m: KvMap, ops: seq<TxnOp>, ops': seq<TxnOp>, ts: int)
    requires DistinctMutations(ops) && multiset(ops) == multiset(ops')
    ensures MapOps(m, ops, ts) == MapOps(m, ops', ts)
  {
    PermutationKeepsDistinct(ops, ops');
    forall k ensures Lookup(MapOps(m, ops, ts), k) == Lookup(MapOps(m, ops', ts), k) {
      if i :| 0 <= i < |ops| && Mutation(ops[i]) && ops[i].key == k {
        assert ops[i] in multiset(ops');
        var j :| 0 <= j < |ops'| && ops'[j] == ops[i];
        MapOpsAt(m, ops, ts, i);
        MapOpsAt(m, ops', ts, j);
      } else {
        forall j | 0 <= j < |ops'| && Mutation(ops'[j]) ensures ops'[j].key != k {
          assert ops'[j] in multiset(ops);
        }
        MapOpsElsewhere(m, ops, ts, k);
        MapOpsElsewhere(m, ops', ts, k);
      }
    }
    MapsEqual(MapOps(m, ops, ts), MapOps(m, ops', ts));
  }
}
