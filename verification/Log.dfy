/**
 The revision log: which rows each write request appends, and the per-key chain that all
 requests together keep.
 */
module Log {
  import opened Bytes
  import opened Rows

  // ---------- requests ----------

  datatype Target = Version | CreateRevision | ModRevision | Value | Unsupported
  datatype Relation = Eq | Neq | Gt | Lt

  /** One compare of a Txn; only the operand its target names is read. */
  datatype Compare = Compare(key: Key, target: Target, relation: Relation, number: int, bytes: Blob)

  datatype TxnOp =
    | OpPut(key: Key, value: Blob, lease: int)
    | OpDelete(key: Key)
    | OpGet(key: Key)

  datatype Request =
    | Create(key: Key, value: Blob, lease: int)
    | Update(key: Key, value: Blob, rev: int, lease: int)
    | Delete(key: Key, rev: int)
    | DeleteIfLease(key: Key, lease: int)
    | Txn(compares: seq<Compare>, success: seq<TxnOp>, failure: seq<TxnOp>)

  predicate CompareInt(actual: int, expected: int, op: Relation) {
    match op
    case Eq => actual == expected
    case Neq => actual != expected
    case Gt => actual > expected
    case Lt => actual < expected
  }

  /** Byte strings are compared by content, so nil and empty are the same here. */
  function Content(b: Blob): Bytes {
    if b.Some? then b.value else []
  }

  predicate CompareBytes(actual: Blob, expected: Blob, op: Relation) {
    match op
    case Eq => Content(actual) == Content(expected)
    case Neq => Content(actual) != Content(expected)
    case _ => false
  }

  /** The Version field the server reports and compares. */
  function VersionOf(kv: Option<Row>): int {
    if kv.Some? then kv.value.rev - kv.value.createRev + 1 else 0
  }

  predicate Holds(c: Compare, kv: Option<Row>) {
    match c.target
    case Version => CompareInt(VersionOf(kv), c.number, c.relation)
    case CreateRevision => CompareInt(if kv.Some? then kv.value.createRev else 0, c.number, c.relation)
    case ModRevision => CompareInt(if kv.Some? then kv.value.rev else 0, c.number, c.relation)
    case Value => CompareBytes(if kv.Some? then kv.value.value else None, c.bytes, c.relation)
    case Unsupported => false
  }

  /** All compares read the table the transaction started from. */
  predicate AllHold(t: Table, compares: seq<Compare>) {
    forall c | c in compares :: Holds(c, LiveAt(t, c.key, Now))
  }

  predicate Mutation(op: TxnOp) {
    op.OpPut? || op.OpDelete?
  }

  predicate DistinctMutations(ops: seq<TxnOp>) {
    forall i, j | 0 <= i < j < |ops| && Mutation(ops[i]) && Mutation(ops[j]) :: ops[i].key != ops[j].key
  }

  // ---------- the rows a request appends ----------

  function PutRow(prev: Option<Row>, k: Key, v: Blob, lease: int, ts: int): Row {
    match prev
    case None => Row(k, ts, v, None, lease, false, true, ts, None)
    case Some(p) => Row(k, ts, v, p.value, lease, false, false, p.createRev, Some(p.rev))
  }

  function Tombstone(prev: Row, ts: int): Row {
    Row(prev.key, ts, None, prev.value, 0, true, false, prev.createRev, Some(prev.rev))
  }

  /** The row one transaction operation buffers, if any. */
  function OpRow(t: Table, op: TxnOp, ts: int): Option<Row> {
    var prev := LiveAt(t, op.key, Now);
    match op
    case OpPut(k, v, lease) => Some(PutRow(prev, k, v, lease, ts))
    case OpDelete(_) => if prev.Some? then Some(Tombstone(prev.value, ts)) else None
    case OpGet(_) => None
  }

  function TxnRows(t: Table, ops: seq<TxnOp>, ts: int): set<Row> {
    set op | op in ops && OpRow(t, op, ts).Some? :: OpRow(t, op, ts).value
  }

  function Branch(t: Table, req: Request): seq<TxnOp>
    requires req.Txn?
  {
    if AllHold(t, req.compares) then req.success else req.failure
  }

  /** The rows a request adds when it commits at ts after reading t. */
  function Effect(t: Table, req: Request, ts: int): set<Row> {
    match req
    case Create(k, v, lease) =>
      if LiveAt(t, k, Now).Some? then {} else {PutRow(None, k, v, lease, ts)}
    case Update(k, v, rev, lease) =>
      var prev := LiveAt(t, k, Now);
      if prev.Some? && prev.value.rev == rev then {PutRow(prev, k, v, lease, ts)} else {}
    case Delete(k, rev) =>
      var prev := LiveAt(t, k, Now);
      if prev.Some? && (rev == 0 || prev.value.rev == rev) then {Tombstone(prev.value, ts)} else {}
    case DeleteIfLease(k, lease) =>
      var prev := LiveAt(t, k, Now);
      if prev.Some? && prev.value.lease == lease then {Tombstone(prev.value, ts)} else {}
    case Txn(_, _, _) =>
      var ops := Branch(t, req);
      if DistinctMutations(ops) then TxnRows(t, ops, ts) else {}
  }

  // ---------- the database ----------

  /**
   `table` is what Spanner holds; `history` is every row ever written, kept here to state what
   compaction may and may not remove; `kvRev` is the kv_rev row (absent before the first seed).
   */
  datatype Db = Db(table: Table, history: Table, kvRev: Option<int>)

  function Horizon(db: Db): int {
    if db.kvRev.Some? then TsToRev(db.kvRev.value) else 1
  }

  /** A commit timestamp is later than every earlier one, and later than the seeded horizon. */
  predicate Fresh(db: Db, ts: int) {
    ts >= 2 && forall r | r in db.history :: r.rev < ts
  }

  /** How a row must refer to the live row it follows. */
  predicate LinksTo(prev: Option<Row>, r: Row) {
    && (r.deleted ==> r.value == None && r.lease == 0)
    && match prev
       case None => !r.deleted && r.created && r.createRev == r.rev && r.prevRev == None && r.oldValue == None
       case Some(p) => !r.created && r.createRev == p.createRev && r.prevRev == Some(p.rev) && r.oldValue == p.value
  }

  predicate Linked(h: Table, r: Row) {
    LinksTo(LiveAt(h, r.key, At(r.rev - 1)), r)
  }

  /** Every row refers to the live row just before it. */
  predicate Chain(h: Table) {
    forall r {:trigger Linked(h, r)} | r in h :: Linked(h, r)
  }

  predicate Superseded(rows: set<Row>, r: Row) {
    exists s :: s in rows && s.key == r.key && s.rev > r.rev
  }

  /** A row is in the table, or compaction had the right to remove it. */
  predicate Kept(db: Db, r: Row) {
    r in db.table || (Superseded(db.history, r) && r.rev <= Horizon(db))
  }

  predicate Inv(db: Db) {
    && db.table <= db.history
    && (forall r | r in db.history :: r.rev >= 2)
    && Chain(db.history)
    && (forall r {:trigger Kept(db, r)} | r in db.history :: Kept(db, r))
  }

  /** Rows that all commit at ts, one per key, each linked to the live row of its key. */
  predicate Batch(t: Table, w: set<Row>, ts: int) {
    && (forall r | r in w :: r.rev == ts && LinksTo(LiveAt(t, r.key, Now), r))
    && (forall a, b | a in w && b in w && a.key == b.key :: a == b)
  }

  lemma OpRowLinks(t: Table, op: TxnOp, ts: int)
    requires OpRow(t, op, ts).Some?
    ensures var r := OpRow(t, op, ts).value;
            Mutation(op) && r.key == op.key && r.rev == ts && LinksTo(LiveAt(t, op.key, Now), r)
  {
  }

  lemma TxnRowsAreBatch(t: Table, ops: seq<TxnOp>, ts: int)
    requires DistinctMutations(ops)
    ensures Batch(t, TxnRows(t, ops, ts), ts)
  {
    var w := TxnRows(t, ops, ts);
    forall r | r in w
      ensures exists i :: 0 <= i < |ops| && Mutation(ops[i]) && ops[i].key == r.key && OpRow(t, ops[i], ts) == Some(r)
      ensures r.rev == ts && LinksTo(LiveAt(t, r.key, Now), r)
    {
      var op :| op in ops && OpRow(t, op, ts) == Some(r);
      OpRowLinks(t, op, ts);
    }
  }

  lemma EffectIsBatch(t: Table, req: Request, ts: int)
    ensures Batch(t, Effect(t, req, ts), ts)
  {
    match req
    case Txn(_, _, _) =>
      var ops := Branch(t, req);
      if DistinctMutations(ops) { TxnRowsAreBatch(t, ops, ts); }
    case Create(k, v, lease) => OpRowLinks(t, OpPut(k, v, lease), ts);
    case Update(k, v, _, lease) => OpRowLinks(t, OpPut(k, v, lease), ts);
    case Delete(k, _) =>
      if LiveAt(t, k, Now).Some? { OpRowLinks(t, OpDelete(k), ts); }
    case DeleteIfLease(k, _) =>
      if LiveAt(t, k, Now).Some? { OpRowLinks(t, OpDelete(k), ts); }
  }

  lemma AppendDistinct(t: Table, w: set<Row>, ts: int)
    requires Batch(t, w, ts)
    requires forall r | r in t :: r.rev < ts
    ensures DistinctRevs(t + w)
  {
  }

  /** One commit: the batch joins the table and the history. */
  function Commit(db: Db, w: set<Row>, ts: int): Db
    requires Inv(db) && Fresh(db, ts) && Batch(db.table, w, ts)
  {
    AppendDistinct(db.table, w, ts);
    LatestKept(db);
    AppendDistinct(db.history, w, ts);
    Db(db.table + w, db.history + w, db.kvRev)
  }

  /** Compaction never removes the newest row of a key, so latest reads see the whole history. */
  lemma LatestKept(db: Db)
    requires Inv(db)
    ensures forall k :: Newest(db.table, k, Now) == Newest(db.history, k, Now)
    ensures forall k :: LiveAt(db.table, k, Now) == LiveAt(db.history, k, Now)
    ensures View(db.table, Now) == View(db.history, Now)
  {
    forall k ensures Newest(db.table, k, Now) == Newest(db.history, k, Now) {
      var n := Newest(db.history, k, Now);
      if n.Some? {
        assert Kept(db, n.value);
        assert IsNewest(db.table, k, Now, n.value);
        NewestIs(db.table, k, Now, n.value);
      }
    }
    ViewsEqual(db.table, Now, db.history, Now);
  }

  lemma ChainExtends(h: Table, h': Table, w: set<Row>, ts: int)
    requires Chain(h) && h' == h + w && Batch(h, w, ts)
    requires forall r | r in h :: r.rev < ts
    ensures Chain(h')
  {
    forall r | r in h' ensures Linked(h', r) {
      if r in w { NewIsLinked(h, h', w, ts, r); } else { OldStaysLinked(h, h', w, ts, r); }
    }
  }

  lemma OldStaysLinked(h: Table, h': Table, w: set<Row>, ts: int, r: Row)
    requires Chain(h) && h' == h + w && r in h && r.rev < ts && forall x | x in w :: x.rev == ts
    ensures Linked(h', r)
  {
    assert Linked(h, r);
    NewestFrame(h, h', r.key, At(r.rev - 1));
  }

  lemma NewIsLinked(h: Table, h': Table, w: set<Row>, ts: int, r: Row)
    requires h' == h + w && Batch(h, w, ts) && r in w && forall x | x in h :: x.rev < ts
    ensures Linked(h', r)
  {
    LatestIsBefore(h, r.key, ts);
    NewestFrame(h, h', r.key, At(r.rev - 1));
  }

  lemma CommitKeepsInv(db: Db, w: set<Row>, ts: int)
    requires Inv(db) && Fresh(db, ts) && Batch(db.table, w, ts)
    ensures Inv(Commit(db, w, ts))
  {
    var db' := Commit(db, w, ts);
    LatestKept(db);
    ChainExtends(db.history, db'.history, w, ts);
    forall r | r in db'.history ensures Kept(db', r) {
      if r !in db'.table {
        assert Kept(db, r);
        var s :| s in db.history && s.key == r.key && s.rev > r.rev;
        assert s in db'.history;
      }
    }
  }

  lemma LatestIsBefore(h: Table, k: Key, ts: int)
    requires forall r | r in h :: r.rev < ts
    ensures Newest(h, k, At(ts - 1)) == Newest(h, k, Now)
  {
    var n := Newest(h, k, Now);
    if n.Some? {
      assert IsNewest(h, k, At(ts - 1), n.value);
      NewestIs(h, k, At(ts - 1), n.value);
    }
  }

  // ---------- how a database changes over time ----------

  /** History and horizon only grow, and whatever is new is newer than everything before it. */
  predicate Grows(a: Db, b: Db) {
    && a.history <= b.history
    && Horizon(a) <= Horizon(b)
    && forall x, r | x in a.history && r in b.history && r !in a.history :: x.rev < r.rev
  }

  lemma GrowsTransitive(a: Db, b: Db, c: Db)
    requires Grows(a, b) && Grows(b, c)
    ensures Grows(a, c)
  {
  }

  /** Rows at or below a revision already reached never change. */
  lemma OldReadsFixed(a: Db, b: Db, k: Key, rev: int)
    requires Grows(a, b)
    requires forall r | r in b.history && r !in a.history :: r.rev > rev
    ensures Newest(b.history, k, At(rev)) == Newest(a.history, k, At(rev))
    ensures LiveAt(b.history, k, At(rev)) == LiveAt(a.history, k, At(rev))
  {
    NewestFrame(a.history, b.history, k, At(rev));
  }

  lemma CommitGrows(db: Db, w: set<Row>, ts: int)
    requires Inv(db) && Fresh(db, ts) && Batch(db.table, w, ts)
    ensures Grows(db, Commit(db, w, ts))
  {
  }

  /** The current revision is the newest revision ever committed: compaction cannot lower it. */
  lemma CurrentRevisionIsGlobal(db: Db)
    requires Inv(db)
    ensures CurrentRevision(db.table) == CurrentRevision(db.history)
  {
    var c := CurrentRevision(db.history);
    if c != 1 {
      var r :| r in db.history && r.rev == c;
      assert Kept(db, r) && !Superseded(db.history, r);
    }
  }

  lemma CurrentRevisionGrows(a: Db, b: Db)
    requires Inv(a) && Inv(b) && Grows(a, b)
    ensures CurrentRevision(a.table) <= CurrentRevision(b.table)
    ensures forall r | r in b.history && r !in a.history :: r.rev > CurrentRevision(a.table)
  {
    CurrentRevisionIsGlobal(a);
    CurrentRevisionIsGlobal(b);
  }
}
