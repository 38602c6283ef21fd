/**
 The two ways the server runs the same Txn: all at once in one Spanner transaction, or compare by
 compare and operation by operation. Without interference they agree; this module says exactly
 when and up to what.
 */
module TxnPaths {
  import opened Bytes
  import opened Rows
  import opened Log
  import opened RowChain
  import opened Refinement
  import opened StoreObject

  // ---------- requests and responses ----------

  /** The operations both paths can run: one key each, no options but PrevKv. */
  datatype RequestOp =
    | ReqRange(key: Key)
    | ReqPut(key: Key, value: Blob, lease: int, prevKv: bool)
    | ReqDelete(key: Key, prevKv: bool)

  /** A response without its header, which only repeats the revision. */
  datatype ResponseOp =
    | RespRange(kv: Option<ProtoKV>)
    | RespPut(prev: Option<ProtoKV>)
    | RespDelete(deleted: int, prev: Option<ProtoKV>)

  function ToStoreOp(op: RequestOp): TxnOp {
    match op
    case ReqRange(k) => OpGet(k)
    case ReqPut(k, v, lease, _) => OpPut(k, v, lease)
    case ReqDelete(k, _) => OpDelete(k)
  }

  function ToStoreOps(ops: seq<RequestOp>): (s: seq<TxnOp>)
    ensures |s| == |ops| && forall i | 0 <= i < |ops| :: s[i] == ToStoreOp(ops[i])
  {
    seq(|ops|, i requires 0 <= i < |ops| => ToStoreOp(ops[i]))
  }

  function Maybe(wanted: bool, kv: Option<Row>): Option<ProtoKV> {
    if wanted && kv.Some? then Some(ToProtoKV(kv.value)) else None
  }

  /** The response built from a store result. */
  function Respond(op: RequestOp, res: TxnResult): ResponseOp {
    match op
    case ReqRange(_) => RespRange(Maybe(true, res.kv))
    case ReqPut(_, _, _, prevKv) => RespPut(Maybe(prevKv, res.kv))
    case ReqDelete(_, prevKv) => RespDelete(if res.ok then 1 else 0, Maybe(prevKv, res.kv))
  }

  // ---------- both paths at the level of maps ----------

  function ProtoOf(k: Key, it: Option<Item>): Option<ProtoKV> {
    if it.None? then None
    else Some(ProtoKV(k, it.value.value, it.value.modRev, it.value.createRev,
            it.value.modRev - it.value.createRev + 1, it.value.lease))
  }

  /** The response to an operation that finds the map m. */
  function MapRespond(m: KvMap, op: RequestOp): ResponseOp {
    var kv := ProtoOf(op.key, Lookup(m, op.key));
    match op
    case ReqRange(_) => RespRange(kv)
    case ReqPut(_, _, _, prevKv) => RespPut(if prevKv then kv else None)
    case ReqDelete(_, prevKv) => RespDelete(if kv.Some? then 1 else 0, if prevKv then kv else None)
  }

  lemma RespondOnMap(t: Table, op: RequestOp)
    ensures Respond(op, ResultOf(t, ToStoreOp(op))) == MapRespond(View(t, Now), op)
  {
    ViewLookup(t, op.key);
  }

  /** An operation that changes what its key shows. */
  predicate Effective(m: KvMap, op: RequestOp) {
    op.ReqPut? || (op.ReqDelete? && op.key in m)
  }

  predicate SeqMaps(ms: seq<KvMap>, stamps: seq<int>, ops: seq<RequestOp>) {
    && |ms| == |ops| + 1 && |stamps| == |ops|
    && forall i | 0 <= i < |ops| :: ms[i + 1] == MapOp(ms[i], ToStoreOp(ops[i]), stamps[i])
  }

  predicate DistinctKeys(ops: seq<RequestOp>) {
    DistinctMutations(ToStoreOps(ops))
  }

  lemma {:induction false} SeqElsewhere(ms: seq<KvMap>, stamps: seq<int>, ops: seq<RequestOp>, i: nat, j: nat, k: Key)
    requires SeqMaps(ms, stamps, ops) && i <= j <= |ops|
    requires forall x | i <= x < j && ops[x].key == k :: !Effective(ms[i], ops[x])
    ensures Lookup(ms[j], k) == Lookup(ms[i], k)
    decreases j
  {
    if i < j {
      SeqElsewhere(ms, stamps, ops, i, j - 1, k);
      var op := ops[j - 1];
      if op.key != k { MapOpLookup(ms[j - 1], ToStoreOp(op), stamps[j - 1], k); }
    }
  }

  /** With distinct mutated keys, a key is decided by its one mutation on either path. */
  lemma SeqAt(ms: seq<KvMap>, stamps: seq<int>, ops: seq<RequestOp>, i: nat, j: nat)
    requires SeqMaps(ms, stamps, ops) && DistinctKeys(ops) && i < j <= |ops| && Mutation(ToStoreOp(ops[i]))
    ensures Lookup(ms[i], ops[i].key) == Lookup(ms[0], ops[i].key)
    ensures Lookup(ms[j], ops[i].key) == Lookup(MapOp(ms[0], ToStoreOp(ops[i]), stamps[i]), ops[i].key)
  {
    var k, s := ops[i].key, ToStoreOps(ops);
    forall x | 0 <= x < |ops| && x != i && ops[x].key == k ensures !Mutation(s[x]) {
      assert s[x].key == s[i].key;
    }
    SeqElsewhere(ms, stamps, ops, 0, i, k);
    SeqElsewhere(ms, stamps, ops, i + 1, j, k);
    MapOpLocal(ms[0], ms[i], s[i], stamps[i]);
  }

  /** No operation reads a key that an earlier one has changed. */
  predicate NoReadAfterWrite(m: KvMap, ops: seq<RequestOp>) {
    forall i, j | 0 <= i < j < |ops| && ops[j].ReqRange? && ops[j].key == ops[i].key :: !Effective(m, ops[i])
  }

  predicate NewStamps(m: KvMap, stamps: seq<int>, ops: seq<RequestOp>)
    requires |stamps| == |ops|
  {
    forall k, i | k in m && 0 <= i < |ops| && ops[i].ReqPut? :: m[k].modRev < stamps[i]
  }

  lemma SeqResponseAgrees(ms: seq<KvMap>, stamps: seq<int>, ops: seq<RequestOp>, j: nat)
    requires SeqMaps(ms, stamps, ops) && DistinctKeys(ops) && j < |ops|
    requires ops[j].ReqRange? ==> forall i | 0 <= i < j && ops[i].key == ops[j].key :: !Effective(ms[0], ops[i])
    ensures MapRespond(ms[j], ops[j]) == MapRespond(ms[0], ops[j])
  {
    if ops[j].ReqRange? {
      SeqElsewhere(ms, stamps, ops, 0, j, ops[j].key);
    } else {
      SeqAt(ms, stamps, ops, j, j + 1);
    }
  }

  lemma SeqResponseDiffers(ms: seq<KvMap>, stamps: seq<int>, ops: seq<RequestOp>, i: nat, j: nat)
    requires SeqMaps(ms, stamps, ops) && DistinctKeys(ops) && NewStamps(ms[0], stamps, ops) && i < j < |ops|
    requires ops[j].ReqRange? && ops[j].key == ops[i].key && Effective(ms[0], ops[i])
    ensures MapRespond(ms[j], ops[j]) != MapRespond(ms[0], ops[j])
  {
    SeqAt(ms, stamps, ops, i, j);
  }

  /**
   Step-by-step execution answers every operation as the all-at-once execution does exactly when
   no operation reads a key that an earlier operation of the branch changed.
   */
  lemma ResponsesAgreeIff(ms: seq<KvMap>, stamps: seq<int>, ops: seq<RequestOp>)
    requires SeqMaps(ms, stamps, ops) && DistinctKeys(ops) && NewStamps(ms[0], stamps, ops)
    ensures (forall j | 0 <= j < |ops| :: MapRespond(ms[j], ops[j]) == MapRespond(ms[0], ops[j]))
            <==> NoReadAfterWrite(ms[0], ops)
  {
    if NoReadAfterWrite(ms[0], ops) {
      forall j | 0 <= j < |ops| ensures MapRespond(ms[j], ops[j]) == MapRespond(ms[0], ops[j]) {
        SeqResponseAgrees(ms, stamps, ops, j);
      }
    } else {
      var i, j :| 0 <= i < j < |ops| && ops[j].ReqRange? && ops[j].key == ops[i].key && Effective(ms[0], ops[i]);
      SeqResponseDiffers(ms, stamps, ops, i, j);
    }
  }

  /** Equal but for the revisions of this very request; keys that existed keep their creation. */
  predicate SameUpToRevision(before: Option<Item>, a: Option<Item>, b: Option<Item>) {
    match (a, b)
    case (None, None) => true
    case (Some(x), Some(y)) =>
      && x.value == y.value && x.lease == y.lease
      && (before.Some? ==> x.createRev == y.createRev)
      && (before.None? ==> x.createRev == x.modRev && y.createRev == y.modRev)
    case _ => false
  }

  predicate Mutated(ops: seq<RequestOp>, k: Key) {
    exists i :: 0 <= i < |ops| && Mutation(ToStoreOp(ops[i])) && ops[i].key == k
  }

  /** Under a mutated key the maps agree up to revisions, under any other key nothing changed. */
  predicate SameOutcome(before: KvMap, a: KvMap, b: KvMap, ops: seq<RequestOp>, k: Key) {
    if Mutated(ops, k) then SameUpToRevision(Lookup(before, k), Lookup(a, k), Lookup(b, k))
    else Lookup(a, k) == Lookup(b, k) == Lookup(before, k)
  }

  lemma {:induction false} FinalMapsAgree(ms: seq<KvMap>, stamps: seq<int>, ops: seq<RequestOp>, ts: int, k: Key)
    requires SeqMaps(ms, stamps, ops) && DistinctKeys(ops)
    ensures SameOutcome(ms[0], MapOps(ms[0], ToStoreOps(ops), ts), ms[|ops|], ops, k)
  {
    var s := ToStoreOps(ops);
    if i :| 0 <= i < |ops| && Mutation(ToStoreOp(ops[i])) && ops[i].key == k {
      MapOpsAt(ms[0], s, ts, i);
      SeqAt(ms, stamps, ops, i, |ops|);
    } else {
      MapOpsElsewhere(ms[0], s, ts, k);
      SeqElsewhere(ms, stamps, ops, 0, |ops|, k);
    }
  }

  // ---------- the sequential path on the store ----------

  /** What Put and DeleteRange ask of the store when they find the table t. */
  function SeqRequest(t: Table, op: RequestOp): Request
    requires !op.ReqRange?
  {
    match op
    case ReqPut(k, v, lease, _) =>
      var live := LiveAt(t, k, Now);
      if live.None? then Create(k, v, lease) else Update(k, v, live.value.rev, lease)
    case ReqDelete(k, _) => Delete(k, 0)
  }

  predicate Writes(t: Table, op: RequestOp) {
    op.ReqPut? || (op.ReqDelete? && LiveAt(t, op.key, Now).Some?)
  }

  ghost predicate SeqStep(db: Db, op: RequestOp, ts: int, db': Db) {
    Inv(db) && if Writes(db.table, op) then Fresh(db, ts)
            && db' == After(db, SeqRequest(db.table, op), ts) else db' == db
  }

  ghost predicate SeqRun(dbs: seq<Db>, stamps: seq<int>, ops: seq<RequestOp>) {
    && |dbs| == |ops| + 1 && |stamps| == |ops| && Inv(dbs[|ops|])
    && forall i | 0 <= i < |ops| :: SeqStep(dbs[i], ops[i], stamps[i], dbs[i + 1])
  }

  lemma SeqStepOnMap(db: Db, op: RequestOp, ts: int, db': Db)
    requires SeqStep(db, op, ts, db')
    ensures Inv(db') && Grows(db, db')
    ensures View(db'.table, Now) == MapOp(View(db.table, Now), ToStoreOp(op), ts)
  {
    if Writes(db.table, op) {
      RowLogRefinesMap(db, SeqRequest(db.table, op), ts);
      SeqRequestOnMap(db.table, op, ts);
    } else {
      NoWriteOnMap(db.table, op, ts);
    }
  }

  lemma NoWriteOnMap(t: Table, op: RequestOp, ts: int)
    requires !Writes(t, op)
    ensures MapOp(View(t, Now), ToStoreOp(op), ts) == View(t, Now)
  {
    ViewLookup(t, op.key);
  }

  lemma SeqRequestOnMap(t: Table, op: RequestOp, ts: int)
    requires !op.ReqRange?
    ensures MapApply(View(t, Now), SeqRequest(t, op), ts) == MapOp(View(t, Now), ToStoreOp(op), ts)
  {
    ViewLookup(t, op.key);
  }

  lemma SeqRunOnMaps(dbs: seq<Db>, stamps: seq<int>, ops: seq<RequestOp>) returns (ms: seq<KvMap>)
    requires SeqRun(dbs, stamps, ops)
    ensures SeqMaps(ms, stamps, ops) && forall i | 0 <= i <= |ops| :: ms[i] == View(dbs[i].table, Now)
  {
    ms := seq(|dbs|, i requires 0 <= i < |dbs| => View(dbs[i].table, Now));
    forall i | 0 <= i < |ops| ensures ms[i + 1] == MapOp(ms[i], ToStoreOp(ops[i]), stamps[i]) {
      SeqStepOnMap(dbs[i], ops[i], stamps[i], dbs[i + 1]);
    }
  }

  lemma {:induction false} SeqRunGrows(dbs: seq<Db>, stamps: seq<int>, ops: seq<RequestOp>, n: nat)
    requires SeqRun(dbs, stamps, ops) && n <= |ops|
    ensures Inv(dbs[n]) && Grows(dbs[0], dbs[n])
    decreases n
  {
    if n == 0 {
      assert |ops| > 0 ==> SeqStep(dbs[0], ops[0], stamps[0], dbs[1]);
    } else {
      SeqRunGrows(dbs, stamps, ops, n - 1);
      SeqStepOnMap(dbs[n - 1], ops[n - 1], stamps[n - 1], dbs[n]);
      GrowsTransitive(dbs[0], dbs[n - 1], dbs[n]);
    }
  }

  lemma StampsNew(dbs: seq<Db>, stamps: seq<int>, ops: seq<RequestOp>)
    requires SeqRun(dbs, stamps, ops)
    ensures NewStamps(View(dbs[0].table, Now), stamps, ops)
  {
    var m := View(dbs[0].table, Now);
    SeqRunGrows(dbs, stamps, ops, 0);
    forall k, i | k in m && 0 <= i < |ops| && ops[i].ReqPut? ensures m[k].modRev < stamps[i] {
      SeqRunGrows(dbs, stamps, ops, i);
      ViewAt(dbs[0].table, Now, k);
      assert SeqStep(dbs[i], ops[i], stamps[i], dbs[i + 1]);
      assert LiveAt(dbs[0].table, k, Now).value in dbs[i].history;
    }
  }

  /** The responses a sequential run gives: each operation answered from the table it met. */
  function SeqResponses(dbs: seq<Db>, ops: seq<RequestOp>): (rs: seq<ResponseOp>)
    requires |dbs| == |ops| + 1
    ensures |rs| == |ops|
    ensures forall i | 0 <= i < |ops| :: rs[i] == Respond(ops[i], ResultOf(dbs[i].table, ToStoreOp(ops[i])))
  {
    seq(|ops|, i requires 0 <= i < |ops| => Respond(ops[i], ResultOf(dbs[i].table, ToStoreOp(ops[i]))))
  }

  /** The responses of the atomic path: every operation answered from the table before the Txn. */
  function AtomicResponses(t: Table, ops: seq<RequestOp>): (rs: seq<ResponseOp>)
    ensures |rs| == |ops| && forall i | 0 <= i < |ops| :: rs[i] == Respond(ops[i], ResultOf(t, ToStoreOp(ops[i])))
  {
    seq(|ops|, i requires 0 <= i < |ops| => Respond(ops[i], ResultOf(t, ToStoreOp(ops[i]))))
  }

  /**
   The two paths on a store nobody else touches, for a branch with distinct mutated keys: the
   responses agree exactly when no operation reads a key changed before it in the branch, and the
   final maps always agree up to the revisions the request itself created.
   */
  lemma PathsAgree(pre: Db, compares: seq<Compare>, success: seq<RequestOp>, failure: seq<RequestOp>, ts: int,
                   dbs: seq<Db>, stamps: seq<int>)
    requires Inv(pre) && Fresh(pre, ts)
    requires var ops := if AllHold(pre.table, compares) then success else failure;
             DistinctKeys(ops) && SeqRun(dbs, stamps, ops) && dbs[0] == pre
    ensures var ops := if AllHold(pre.table, compares) then success else failure;
            var req := Txn(compares, ToStoreOps(success), ToStoreOps(failure));
            var before, atomic, stepwise :=
              View(pre.table, Now), View(After(pre, req, ts).table, Now), View(dbs[|ops|].table, Now);
            && (SeqResponses(dbs, ops) == AtomicResponses(pre.table, ops) <==> NoReadAfterWrite(before, ops))
            && forall k :: SameOutcome(before, atomic, stepwise, ops, k)
  {
    var ops := if AllHold(pre.table, compares) then success else failure;
    var req := Txn(compares, ToStoreOps(success), ToStoreOps(failure));
    var ms := SeqRunOnMaps(dbs, stamps, ops);
    StampsNew(dbs, stamps, ops);
    ResponsesAgreeIff(ms, stamps, ops);
    ResponsesOnMaps(dbs, ms, ops);
    AtomicOnMap(pre, req, ts);
    forall k ensures SameOutcome(View(pre.table, Now), View(After(pre, req, ts).table, Now), View(dbs[|ops|].table,
            Now), ops, k) {
      FinalMapsAgree(ms, stamps, ops, ts, k);
    }
  }

  lemma {:induction false} AtomicOnMap(pre: Db, req: Request, ts: int)
    requires Inv(pre) && Fresh(pre, ts) && req.Txn? && DistinctMutations(Branch(pre.table, req))
    ensures View(After(pre, req, ts).table, Now) == MapOps(View(pre.table, Now), Branch(pre.table, req), ts)
  {
    RowLogRefinesMap(pre, req, ts);
    forall c | c in req.compares ensures Holds(c, LiveAt(pre.table, c.key, Now))
            <==> MapHolds(c, View(pre.table, Now)) {
      HoldsOnMap(pre.table, c);
    }
  }

  lemma ResponsesOnMaps(dbs: seq<Db>, ms: seq<KvMap>, ops: seq<RequestOp>)
    requires |dbs| == |ms| == |ops| + 1 && forall i | 0 <= i <= |ops| :: ms[i] == View(dbs[i].table, Now)
    ensures SeqResponses(dbs, ops) == AtomicResponses(dbs[0].table, ops)
            <==> forall j | 0 <= j < |ops| :: MapRespond(ms[j], ops[j]) == MapRespond(ms[0], ops[j])
  {
    forall j | 0 <= j < |ops|
      ensures SeqResponses(dbs, ops)[j] == MapRespond(ms[j], ops[j])
      ensures AtomicResponses(dbs[0].table, ops)[j] == MapRespond(ms[0], ops[j])
    {
      RespondOnMap(dbs[j].table, ops[j]);
      RespondOnMap(dbs[0].table, ops[j]);
    }
  }
}
