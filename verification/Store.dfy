/** The store object: its writes, its transactions and its compaction loops. */
module StoreObject {
  import opened Bytes
  import opened Rows
  import opened Log
  import opened Refinement
  import opened Compaction
  import opened Reads

  datatype Err = NoErr | ErrKeyExists | ErrUnsupportedCompare | ErrDuplicateMutation

  datatype TxnResult = TxnResult(kv: Option<Row>, ok: bool)

  // ---------- what a transaction attempt computes ----------

  function ResultOf(t: Table, op: TxnOp): TxnResult {
    var prev := LiveAt(t, op.key, Now);
    match op
    case OpGet(_) => TxnResult(prev, prev.Some?)
    case OpPut(_, _, _) => TxnResult(prev, true)
    case OpDelete(_) => if prev.Some? then TxnResult(prev, true) else TxnResult(None, false)
  }

  /** The compare loop stops at the first failure; its verdict is the conjunction. */
  method EvaluateCompares(t: Table, compares: seq<Compare>) returns (succeeded: bool)
    ensures succeeded <==> AllHold(t, compares)
  {
    succeeded := true;
    for i := 0 to |compares|
      invariant succeeded
      invariant forall c | c in compares[..i] :: Holds(c, LiveAt(t, c.key, Now))
    {
      var kv := LiveAt(t, compares[i].key, Now);
      if !Holds(compares[i], kv) {
        assert compares[i] in compares;
        succeeded := false;
        return;
      }
    }
    assert compares[..|compares|] == compares;
  }

  /** Validation before any transaction is opened. */
  method FindUnsupported(compares: seq<Compare>) returns (found: bool)
    ensures found <==> exists c :: c in compares && c.target.Unsupported?
  {
    for i := 0 to |compares|
      invariant forall j | 0 <= j < i :: !compares[j].target.Unsupported?
    {
      if compares[i].target.Unsupported? { return true; }
    }
    return false;
  }

  method FindDuplicate(ops: seq<TxnOp>) returns (dup: bool)
    ensures dup <==> !DistinctMutations(ops)
  {
    var mutated: set<Key> := {};
    for i := 0 to |ops|
      invariant forall j | 0 <= j < i && Mutation(ops[j]) :: ops[j].key in mutated
      invariant forall k | k in mutated :: exists j :: 0 <= j < i && Mutation(ops[j]) && ops[j].key == k
      invariant DistinctMutations(ops[..i])
    {
      if Mutation(ops[i]) {
        if ops[i].key in mutated {
          var j :| 0 <= j < i && Mutation(ops[j]) && ops[j].key == ops[i].key;
          return true;
        }
        mutated := mutated + {ops[i].key};
      }
    }
    assert ops[..|ops|] == ops;
    return false;
  }

  /** One pass over the operations: results in order, rows buffered, all reads from t. */
  method ExecuteOps(t: Table, ops: seq<TxnOp>, ts: int)
      returns (results: seq<TxnResult>, rows: set<Row>, hasMutations: bool)
    ensures |results| == |ops| && forall i | 0 <= i < |ops| :: results[i] == ResultOf(t, ops[i])
    ensures rows == TxnRows(t, ops, ts)
    ensures hasMutations <==> rows != {}
  {
    results, rows, hasMutations := [], {}, false;
    for i := 0 to |ops|
      invariant |results| == i && forall j | 0 <= j < i :: results[j] == ResultOf(t, ops[j])
      invariant forall r | r in rows :: exists j :: 0 <= j < i && OpRow(t, ops[j], ts) == Some(r)
      invariant forall j | 0 <= j < i && OpRow(t, ops[j], ts).Some? :: OpRow(t, ops[j], ts).value in rows
      invariant hasMutations <==> rows != {}
    {
      var op := ops[i];
      var prev := LiveAt(t, op.key, Now);
      match op
      case OpGet(_) =>
        results := results + [TxnResult(prev, prev.Some?)];
      case OpPut(k, v, lease) =>
        rows := rows + {PutRow(prev, k, v, lease, ts)};
        hasMutations := true;
        results := results + [TxnResult(prev, true)];
      case OpDelete(_) =>
        if prev.None? {
          results := results + [TxnResult(None, false)];
        } else {
          rows := rows + {Tombstone(prev.value, ts)};
          hasMutations := true;
          results := results + [TxnResult(prev, true)];
        }
    }
    forall r ensures r in rows <==> r in TxnRows(t, ops, ts) {
      if r in rows {
        var j :| 0 <= j < |ops| && OpRow(t, ops[j], ts) == Some(r);
        assert ops[j] in ops;
      }
    }
  }

  /** What one run of the transaction callback leaves behind: nothing but these values. */
  datatype Attempt = Duplicate | Done(succeeded: bool, results: seq<TxnResult>, rows: set<Row>, hasMutations: bool)

  function BranchOps(t: Table, compares: seq<Compare>, success: seq<TxnOp>, failure: seq<TxnOp>): seq<TxnOp> {
    Branch(t, Txn(compares, success, failure))
  }

  predicate ResultsOf(t: Table, ops: seq<TxnOp>, results: seq<TxnResult>) {
    |results| == |ops| && forall i | 0 <= i < |ops| :: results[i] == ResultOf(t, ops[i])
  }

  predicate IsAttempt(t: Table, compares: seq<Compare>, success: seq<TxnOp>, failure: seq<TxnOp>, ts: int, a: Attempt) {
    var ops := BranchOps(t, compares, success, failure);
    && (a.Duplicate? <==> !DistinctMutations(ops))
    && (a.Done? ==>
          && a.succeeded == AllHold(t, compares) && ResultsOf(t, ops, a.results)
          && a.rows == TxnRows(t, ops, ts) && (a.hasMutations <==> a.rows != {}))
  }

  method RunAttempt(t: Table, compares: seq<Compare>, success: seq<TxnOp>, failure: seq<TxnOp>, ts: int)
    returns (a: Attempt)
    ensures IsAttempt(t, compares, success, failure, ts, a)
  {
    var succeeded := EvaluateCompares(t, compares);
    var ops := if succeeded then success else failure;
    var dup := FindDuplicate(ops);
    if dup { return Duplicate; }
    var results, rows, hasMutations := ExecuteOps(t, ops, ts);
    return Done(succeeded, results, rows, hasMutations);
  }

  /** The database after the transaction committed on `pre`. */
  ghost predicate TxnCommitted(pre: Db, post: Db, req: Request, commitRev: int)
    requires Inv(pre) && req.Txn?
  {
    if exists op :: op in Branch(pre.table, req) && OpRow(pre.table, op, 0).Some?
    then Fresh(pre, commitRev) && post == After(pre, req, commitRev)
    else commitRev == CurrentRevision(pre.table) && post == pre
  }

  // ---------- compaction batches ----------

  method ScanCompactBatch(t: Table, target: int) returns (batch: set<Row>)
    ensures ScanAnswer(t, target, batch)
  {
    var all := EligibleRows(t, target);
    batch := TakeSome(all, COMPACT_BATCH_SIZE);
  }

  /** Some rows up to a limit, all of them if they fit: a LIMIT without an order. */
  method TakeSome(all: set<Row>, limit: nat) returns (batch: set<Row>)
    ensures batch <= all && |batch| <= limit && (|batch| < limit ==> batch == all)
  {
    var rest := all;
    batch := {};
    while rest != {} && |batch| < limit
      invariant batch !! rest && batch + rest == all && |batch| <= limit
      decreases rest
    {
      var row :| row in rest;
      rest := rest - {row};
      batch := batch + {row};
    }
  }

  class Store {
    var table: Table
    var kvRev: Option<int>
    ghost var history: Table

    ghost function Snapshot(): Db
      reads this
    {
      Db(table, history, kvRev)
    }

    ghost predicate Valid()
      reads this
    {
      Inv(Snapshot())
    }

    constructor ()
      ensures Valid() && Snapshot() == Db({}, {}, None)
    {
      table, kvRev, history := {}, None, {};
    }

    /**
     Other replicas and other goroutines: any number of commits and compaction steps. Callers
     know only that the invariant holds and the database grew.
     */
    method Environment()
      requires Valid()
      modifies this
      ensures Valid() && Grows(old(Snapshot()), Snapshot())
      ensures old(kvRev.Some? ==> kvRev.value >= 1) ==> (kvRev.Some? ==> kvRev.value >= 1)
    {
    }

    /** The commit timestamp Spanner assigns: later than every earlier one, otherwise unknown. */
    method CommitTimestamp() returns (ts: int)
      requires Valid()
      ensures Fresh(Snapshot(), ts)
    {
      ts := CurrentRevision(table) + 1;
      CurrentRevisionIsGlobal(Snapshot());
    }

    /** Buffered rows reach the table in one commit. */
    method Insert(rows: set<Row>, ts: int)
      requires Valid() && Fresh(Snapshot(), ts) && Batch(table, rows, ts)
      modifies this
      ensures Valid() && Snapshot() == Commit(old(Snapshot()), rows, ts)
    {
      CommitKeepsInv(Snapshot(), rows, ts);
      AppendDistinct(table, rows, ts);
      LatestKept(Snapshot());
      AppendDistinct(history, rows, ts);
      table := table + rows;
      history := history + rows;
    }

    method Create(key: Key, value: Blob, lease: int) returns (rev: int, err: Err)
      requires Valid()
      modifies this
      ensures Valid()
      ensures err in {NoErr, ErrKeyExists}
      ensures err == ErrKeyExists <==> old(LiveAt(table, key, Now)).Some?
      ensures err == ErrKeyExists ==> rev == 0 && Snapshot() == old(Snapshot())
      ensures err == NoErr ==>
                Fresh(old(Snapshot()), rev) && Snapshot()
                        == After(old(Snapshot()), Request.Create(key, value, lease), rev)
    {
      var exists_ := LiveAt(table, key, Now).Some?;
      if exists_ { return 0, ErrKeyExists; }
      var ts := CommitTimestamp();
      EffectIsBatch(table, Request.Create(key, value, lease), ts);
      Insert({Row(key, ts, value, None, lease, false, true, ts, None)}, ts);
      return ts, NoErr;
    }

    method Update(key: Key, value: Blob, revision: int, lease: int) returns (rev: int, prev: Option<Row>, ok: bool)
      requires Valid()
      modifies this
      ensures Valid() && prev == old(LiveAt(table, key, Now))
      ensures ok <==> prev.Some? && prev.value.rev == revision
      ensures !ok ==> rev == CurrentRevision(table) && Snapshot() == old(Snapshot())
      ensures ok ==>
                Fresh(old(Snapshot()), rev) && Snapshot()
                        == After(old(Snapshot()), Request.Update(key, value, revision, lease), rev)
    {
      prev := LiveAt(table, key, Now);
      if prev.None? || prev.value.rev != revision {
        rev := CurrentRevision(table);
        return rev, prev, false;
      }
      var ts := CommitTimestamp();
      EffectIsBatch(table, Request.Update(key, value, revision, lease), ts);
      Insert({Row(key, ts, value, prev.value.value, lease, false, false, prev.value.createRev,
              Some(prev.value.rev))}, ts);
      return ts, prev, true;
    }

    method Delete(key: Key, revision: int) returns (rev: int, prev: Option<Row>, ok: bool)
      requires Valid()
      modifies this
      ensures Valid() && prev == old(LiveAt(table, key, Now))
      ensures ok <==> prev.Some? && (revision == 0 || prev.value.rev == revision)
      ensures !ok ==> rev == CurrentRevision(table) && Snapshot() == old(Snapshot())
      ensures ok ==>
                Fresh(old(Snapshot()), rev) && Snapshot() == After(old(Snapshot()), Request.Delete(key, revision), rev)
    {
      prev := LiveAt(table, key, Now);
      if prev.None? || (revision != 0 && prev.value.rev != revision) {
        rev := CurrentRevision(table);
        return rev, prev, false;
      }
      var ts := CommitTimestamp();
      EffectIsBatch(table, Request.Delete(key, revision), ts);
      Insert({Row(key, ts, None, prev.value.value, 0, true, false, prev.value.createRev, Some(prev.value.rev))}, ts);
      return ts, prev, true;
    }

    method DeleteIfLease(key: Key, lease: int) returns (deleted: bool, ghost ts: int)
      requires Valid()
      modifies this
      ensures Valid()
      ensures deleted <==> old(LiveAt(table, key, Now)).Some? && old(LiveAt(table, key, Now)).value.lease == lease
      ensures !deleted ==> Snapshot() == old(Snapshot())
      ensures Fresh(old(Snapshot()), ts) && Snapshot() == After(old(Snapshot()), Request.DeleteIfLease(key, lease), ts)
    {
      var prev := LiveAt(table, key, Now);
      var commitTs := CommitTimestamp();
      ts := commitTs;
      EffectIsBatch(table, Request.DeleteIfLease(key, lease), ts);
      if prev.None? || prev.value.lease != lease {
        NoRowsNoChange(Snapshot(), Request.DeleteIfLease(key, lease), ts);
        return false, ts;
      }
      Insert({Row(key, commitTs, None, prev.value.value, 0, true, false, prev.value.createRev,
              Some(prev.value.rev))}, commitTs);
      return true, ts;
    }

    /** The callback, run again after every abort on whatever the database has become. */
    method Attempts(compares: seq<Compare>, success: seq<TxnOp>, failure: seq<TxnOp>, aborts: nat)
      returns (a: Attempt, ts: int)
      requires Valid()
      modifies this
      ensures Valid() && Grows(old(Snapshot()), Snapshot()) && Fresh(Snapshot(), ts)
      ensures IsAttempt(table, compares, success, failure, ts, a)
    {
      var left := aborts;
      while left > 0
        invariant Valid() && Grows(old(Snapshot()), Snapshot())
      {
        ts := CommitTimestamp();
        a := RunAttempt(table, compares, success, failure, ts);
        if a.Duplicate? { return; }
        ghost var before := Snapshot();
        Environment();
        GrowsTransitive(old(Snapshot()), before, Snapshot());
        left := left - 1;
      }
      ts := CommitTimestamp();
      a := RunAttempt(table, compares, success, failure, ts);
    }

    method CommitAttempt(a: Attempt, ts: int, ghost req: Request) returns (commitRev: int)
      requires Valid() && Fresh(Snapshot(), ts) && req.Txn?
      requires a.Done? && IsAttempt(table, req.compares, req.success, req.failure, ts, a)
      modifies this
      ensures Valid() && TxnCommitted(old(Snapshot()), Snapshot(), req, commitRev)
    {
      AttemptCommits(Snapshot(), req, ts, a);
      if a.hasMutations {
        Insert(a.rows, ts);
        commitRev := ts;
      } else {
        commitRev := CurrentRevision(table);
      }
    }

    /**
     Compares and operations in one read-write transaction. Spanner may abort it any number of
     times and run the callback again on a database that has moved on; whatever happened before,
     the outcome is that of the last attempt alone, as if it had run on `pre`.
     */
    method AtomicTxn(compares: seq<Compare>, success: seq<TxnOp>, failure: seq<TxnOp>, aborts: nat)
      returns (succeeded: bool, results: seq<TxnResult>, commitRev: int, err: Err, ghost pre: Db)
      requires Valid()
      modifies this
      ensures Valid() && Inv(pre) && Grows(old(Snapshot()), pre)
      ensures err in {NoErr, ErrUnsupportedCompare, ErrDuplicateMutation}
      ensures err == ErrUnsupportedCompare <==> exists c :: c in compares && c.target.Unsupported?
      ensures err == ErrUnsupportedCompare ==> pre == old(Snapshot())
      ensures err == ErrDuplicateMutation ==> !DistinctMutations(BranchOps(pre.table, compares, success, failure))
      ensures err != NoErr ==> Snapshot() == pre && results == [] && !succeeded && commitRev == 0
      ensures err == NoErr ==>
                var ops := BranchOps(pre.table, compares, success, failure);
                && succeeded == AllHold(pre.table, compares)
                && DistinctMutations(ops) && ResultsOf(pre.table, ops, results)
                && TxnCommitted(pre, Snapshot(), Txn(compares, success, failure), commitRev)
    {
      pre := Snapshot();
      var invalid := FindUnsupported(compares);
      if invalid {
        return false, [], 0, ErrUnsupportedCompare, pre;
      }
      var a, ts := Attempts(compares, success, failure, aborts);
      pre := Snapshot();
      if a.Duplicate? {
        return false, [], 0, ErrDuplicateMutation, pre;
      }
      commitRev := CommitAttempt(a, ts, Txn(compares, success, failure));
      return a.succeeded, a.results, commitRev, NoErr, pre;
    }

    // ---------- compaction ----------

    /** kv_rev moves forward only. */
    method RecordHorizon(target: int)
      requires Valid() && (kvRev.Some? ==> kvRev.value >= 1)
      modifies this
      ensures Valid() && Grows(old(Snapshot()), Snapshot()) && (kvRev.Some? ==> kvRev.value >= 1)
      ensures table == old(table) && history == old(history) && kvRev == Advance(old(kvRev), target)
      ensures RevToTs(target) <= Horizon(Snapshot())
    {
      AdvanceIsMax(kvRev, Snapshot(), target);
      InvSurvivesHorizon(Snapshot(), Advance(kvRev, target));
      if kvRev.Some? && kvRev.value >= RevToTs(target) { return; }
      kvRev := Some(RevToTs(target));
    }

    /** The delete of a batch some earlier scan returned. */
    method DeleteRows(ids: set<Row>)
      requires Valid() && forall r | r in ids :: Superseded(history, r) && r.rev <= Horizon(Snapshot())
      modifies this
      ensures Valid() && Grows(old(Snapshot()), Snapshot())
      ensures table == old(table) - ids && history == old(history) && kvRev == old(kvRev)
    {
      InvSurvivesRemoval(Snapshot(), ids);
      table := table - ids;
    }

    /** Scan one batch and delete it, with anything in between when contended. */
    method CompactBatch(target: int, contended: bool) returns (n: nat)
      requires Valid() && RevToTs(target) <= Horizon(Snapshot())
      modifies this
      ensures Valid() && Grows(old(Snapshot()), Snapshot())
      ensures !contended ==> history == old(history) && kvRev == old(kvRev)
      ensures !contended ==> BatchRemoved(old(table), table, target, n)
    {
      var ids := ScanCompactBatch(table, target);
      n := |ids|;
      ghost var scanned := Snapshot();
      if contended {
        Environment();
        ghost var before := Snapshot();
        ScannedStaySuperseded(scanned, before, target, ids);
        DeleteRows(ids);
        GrowsTransitive(scanned, before, Snapshot());
      } else {
        ScannedStaySuperseded(scanned, scanned, target, ids);
        EligibleAfterRemoval(table, target, ids);
        DeleteRows(ids);
        assert scanned.table - table == ids;
      }
    }

    /**
     Batch after batch until a scan comes back short or a call fails (`calls` rounds succeed
     before the deadline). Alone, a run that is not cut off removes exactly the rows eligible at
     its start and leaves none; among writers and other compactors it keeps the invariant,
     whatever happens between a scan and its delete.
     */
    method CompactRows(target: int, calls: nat, contended: bool) returns (total: nat, finished: bool)
      requires Valid() && RevToTs(target) <= Horizon(Snapshot())
      modifies this
      ensures Valid() && Grows(old(Snapshot()), Snapshot())
      ensures !contended ==> history == old(history) && kvRev == old(kvRev)
      ensures !contended ==> CompactionProgress(old(table), table, target, total)
      ensures !contended && finished ==> table == old(table) - EligibleRows(old(table), target)
      ensures !contended && finished ==> EligibleRows(table, target) == {}
      ensures !contended && calls * COMPACT_BATCH_SIZE > |EligibleRows(old(table), target)| ==> finished
    {
      ghost var start := table;
      total, finished := 0, false;
      var rounds := 0;
      while rounds < calls && !finished
        invariant Valid() && Grows(old(Snapshot()), Snapshot()) && rounds <= calls
        invariant !contended ==> history == old(history) && kvRev == old(kvRev)
        invariant !contended ==> Rounds(start, table, target, total, rounds, finished)
      {
        ghost var before := Snapshot();
        var n := CompactBatch(target, contended);
        GrowsTransitive(old(Snapshot()), before, Snapshot());
        if !contended { RoundsNext(start, before.table, table, target, total, n, rounds); }
        rounds := rounds + 1;
        total := total + n;
        finished := n < COMPACT_BATCH_SIZE;
      }
      if !contended { RoundsEnd(start, table, target, total, rounds, finished); }
    }

    /**
     Manual compaction: record the target, then clean up to the larger of it and what is stored.
     The clean-up runs in the background; the contract is about the state it leaves.
     */
    method Compact(target: int, calls: nat, contended: bool)
      returns (rev: int, effective: int, total: nat, finished: bool)
      requires Valid() && (kvRev.Some? ==> kvRev.value >= 1)
      modifies this
      ensures Valid() && Grows(old(Snapshot()), Snapshot())
      ensures rev == target && effective >= target
      ensures target <= Horizon(Snapshot()) && RevToTs(effective) <= Horizon(Snapshot())
      ensures !contended ==> kvRev == Advance(old(kvRev), target) && effective == Horizon(Snapshot())
      ensures !contended ==> history == old(history) && CompactionProgress(old(table), table, effective, total)
      ensures !contended && finished ==> table == old(table) - EligibleRows(old(table), effective)
    {
      RecordHorizon(target);
      ghost var recorded := Snapshot();
      if contended { Environment(); GrowsTransitive(old(Snapshot()), recorded, Snapshot()); }
      effective := target;
      var stored := Horizon(Db(table, {}, kvRev));
      if stored > effective { effective := stored; }
      rev := target;
      ghost var before := Snapshot();
      total, finished := CompactRows(effective, calls, contended);
      GrowsTransitive(old(Snapshot()), before, Snapshot());
    }

    /** What an automatic compaction aims at: the age limit, or the horizon if that is beyond it. */
    method AutoTarget(age: nat) returns (target: Option<int>)
      requires Valid() && (kvRev.Some? ==> kvRev.value >= 1)
      ensures target == AutoCompactTarget(Snapshot(), age)
      ensures target.None? <==> CurrentRevision(table) <= age + 1
    {
      var curRev := CurrentRevision(table);
      if curRev <= 1 { return None; }
      var targetRev := TsToRev(RevToTs(curRev) - age);
      if targetRev <= 1 { return None; }
      var existing := Horizon(Db(table, {}, kvRev));
      if existing > targetRev { targetRev := existing; }
      return Some(targetRev);
    }

    /**
     One tick of the automatic loop: the horizon moves to the age limit unless it is already
     beyond, and rows up to the larger of the two go. A store younger than the limit is left alone.
     Other replicas may act between any two of its round trips.
     */
    method AutoCompactTick(age: nat, calls: nat, contended: bool)
      requires Valid() && (kvRev.Some? ==> kvRev.value >= 1)
      modifies this
      ensures Valid() && Grows(old(Snapshot()), Snapshot())
      ensures old(AutoCompactTarget(Snapshot(), age)) == None ==> Snapshot() == old(Snapshot())
      ensures var target := old(AutoCompactTarget(Snapshot(), age));
              target.Some? ==> target.value <= Horizon(Snapshot())
      ensures !contended ==> AutoCompacted(old(Snapshot()), Snapshot(), age)
      ensures !contended && calls * COMPACT_BATCH_SIZE > |old(table)| ==>
                AllOldGone(old(Snapshot()), Snapshot(), age)
    {
      var target := AutoTarget(age);
      if target.None? { return; }
      RecordAutoTarget(target.value, contended);
      ghost var recorded := Snapshot();
      AdvanceIsMax(old(kvRev), old(Snapshot()), target.value);
      var _, finished := CompactRows(target.value, calls, contended);
      GrowsTransitive(old(Snapshot()), recorded, Snapshot());
      SubsetSize(EligibleRows(recorded.table, target.value), recorded.table);
    }

    /** The compare-and-advance of a tick; other replicas write and compact before and after it. */
    method RecordAutoTarget(target: int, contended: bool)
      requires Valid() && (kvRev.Some? ==> kvRev.value >= 1)
      modifies this
      ensures Valid() && Grows(old(Snapshot()), Snapshot()) && RevToTs(target) <= Horizon(Snapshot())
      ensures !contended ==> table == old(table) && history == old(history) && kvRev == Advance(old(kvRev), target)
    {
      if contended { Environment(); }
      ghost var met := Snapshot();
      RecordHorizon(target);
      GrowsTransitive(old(Snapshot()), met, Snapshot());
      ghost var recorded := Snapshot();
      if contended {
        Environment();
        GrowsTransitive(old(Snapshot()), recorded, Snapshot());
      }
    }
  }

  function AutoCompactTarget(db: Db, age: nat): Option<int> {
    var limit := CurrentRevision(db.table) - age;
    if limit <= 1 then None else Some(if limit > Horizon(db) then limit else Horizon(db))
  }

  /** Nothing eligible under the target of the tick is left. */
  ghost predicate AllOldGone(before: Db, now: Db, age: nat) {
    var target := AutoCompactTarget(before, age);
    target.Some? ==> EligibleRows(now.table, target.value) == {}
  }

  /**
   What a tick alone does, from the rows: whatever is younger than the age limit and above the old
   horizon stays; a store no older than the limit is left alone.
   */
  lemma TickKeepsYoung(before: Db, now: Db, age: nat, r: Row)
    requires AutoCompacted(before, now, age) && r in before.table
    ensures r.rev > CurrentRevision(before.table) - age && r.rev > Horizon(before) ==> r in now.table
    ensures CurrentRevision(before.table) <= age + 1 ==> now == before
  {
    assert r !in now.table ==> r in before.table - now.table;
  }

  /** Reads of revisions younger than the limit are not refused for a tick. */
  lemma TickRefusesNoYoung(before: Db, now: Db, age: nat, k: Key, rev: int)
    requires AutoCompacted(before, now, age) && rev > CurrentRevision(before.table) - age
    requires Get(before, before, before, k, rev).Ok?
    ensures Get(now, now, now, k, rev).Ok?
  {
  }

  /** And they answer as before when the row they are about is as young. */
  lemma TickKeepsReads(before: Db, now: Db, age: nat, k: Key, cap: Cap, n: Row)
    requires AutoCompacted(before, now, age) && Newest(before.table, k, cap) == Some(n)
    requires n.rev > CurrentRevision(before.table) - age && n.rev > Horizon(before)
    ensures Newest(now.table, k, cap) == Some(n)
  {
    TickKeepsYoung(before, now, age, n);
    NewestOfFewer(before.table, now.table, k, cap);
  }

  lemma NewestOfFewer(t: Table, u: Table, k: Key, cap: Cap)
    requires u <= t && Newest(t, k, cap).Some? && Newest(t, k, cap).value in u
    ensures Newest(u, k, cap) == Newest(t, k, cap)
  {
    assert IsNewest(u, k, cap, Newest(t, k, cap).value);
    NewestIs(u, k, cap, Newest(t, k, cap).value);
  }

  /** With calls enough, a tick alone leaves no superseded row as old as the limit or older. */
  lemma TickRemovesOld(before: Db, now: Db, age: nat, r: Row)
    requires Inv(before) && AutoCompacted(before, now, age) && AllOldGone(before, now, age)
    requires r in now.table && r.rev <= CurrentRevision(before.table) - age
    ensures !Superseded(now.table, r)
  {
    assert r in before.history && r.rev >= 2;
    assert r !in EligibleRows(now.table, AutoCompactTarget(before, age).value);
  }

  ghost predicate AutoCompacted(before: Db, now: Db, age: nat) {
    match AutoCompactTarget(before, age)
    case None => now == before
    case Some(target) =>
      && now.history == before.history && Horizon(now) == target
      && CompactionProgress(before.table, now.table, target, |before.table - now.table|)
  }

  /** An uncontended run so far: what is gone was eligible, and what was eligible is gone or still is. */
  ghost predicate CompactionProgress(start: Table, now: Table, target: int, total: int) {
    && now <= start && start - now <= EligibleRows(start, target) && total == |start - now|
    && EligibleRows(now, target) == EligibleRows(start, target) - (start - now)
  }

  /** One uncontended batch of n rows. */
  ghost predicate BatchRemoved(before: Table, now: Table, target: int, n: int) {
    && now <= before && ScanAnswer(before, target, before - now) && n == |before - now|
    && EligibleRows(now, target) == EligibleRows(before, target) - (before - now)
  }

  lemma ProgressStep(start: Table, before: Table, now: Table, target: int, total: int, n: int)
    requires CompactionProgress(start, before, target, total)
    requires BatchRemoved(before, now, target, n)
    ensures CompactionProgress(start, now, target, total + n)
    ensures n <= COMPACT_BATCH_SIZE && (n < COMPACT_BATCH_SIZE ==> EligibleRows(now, target) == {})
  {
    var a, b, c := EligibleRows(start, target), EligibleRows(before, target), EligibleRows(now, target);
    RemovedInTwoSteps(start, before, now, a, b, c);
  }

  lemma RemovedInTwoSteps<T>(start: set<T>, before: set<T>, now: set<T>, a: set<T>, b: set<T>, c: set<T>)
    requires now <= before <= start && start - before <= a && before - now <= b
    requires b == a - (start - before) && c == b - (before - now)
    ensures start - now <= a && c == a - (start - now)
    ensures |start - now| == |start - before| + |before - now|
    ensures before - now == b ==> c == {}
  {
    assert start - now == (start - before) + (before - now);
    assert (start - before) !! (before - now);
  }

  lemma ProgressDone(start: Table, now: Table, target: int, total: int)
    requires CompactionProgress(start, now, target, total)
    ensures total <= |EligibleRows(start, target)|
    ensures EligibleRows(now, target) == {} ==> now == start - EligibleRows(start, target)
  {
    SubsetSize(start - now, EligibleRows(start, target));
    if EligibleRows(now, target) == {} {
      assert start - now == EligibleRows(start, target);
    }
  }

  /** An uncontended compaction after so many rounds: full batches until it is finished. */
  ghost predicate Rounds(start: Table, now: Table, target: int, total: int, rounds: int, finished: bool) {
    && CompactionProgress(start, now, target, total)
    && if finished then EligibleRows(now, target) == {} else total == rounds * COMPACT_BATCH_SIZE
  }

  lemma RoundsNext(start: Table, before: Table, now: Table, target: int, total: int, n: int, rounds: int)
    requires Rounds(start, before, target, total, rounds, false) && BatchRemoved(before, now, target, n)
    ensures Rounds(start, now, target, total + n, rounds + 1, n < COMPACT_BATCH_SIZE)
  {
    ProgressStep(start, before, now, target, total, n);
  }

  lemma RoundsEnd(start: Table, now: Table, target: int, total: int, rounds: int, finished: bool)
    requires Rounds(start, now, target, total, rounds, finished)
    ensures finished ==> now == start - EligibleRows(start, target)
    ensures !finished ==> rounds * COMPACT_BATCH_SIZE <= |EligibleRows(start, target)|
  {
    ProgressDone(start, now, target, total);
  }

  lemma AttemptCommits(pre: Db, req: Request, ts: int, a: Attempt)
    requires Inv(pre) && Fresh(pre, ts) && req.Txn?
    requires a.Done? && IsAttempt(pre.table, req.compares, req.success, req.failure, ts, a)
    ensures Batch(pre.table, a.rows, ts)
    ensures a.hasMutations ==> TxnCommitted(pre, Commit(pre, a.rows, ts), req, ts)
    ensures !a.hasMutations ==> TxnCommitted(pre, pre, req, CurrentRevision(pre.table))
  {
    MutatesIff(pre.table, Branch(pre.table, req), ts);
    EffectIsBatch(pre.table, req, ts);
    assert a.rows == Effect(pre.table, req, ts);
  }

  lemma MutatesIff(t: Table, ops: seq<TxnOp>, ts: int)
    ensures TxnRows(t, ops, ts) != {} <==> exists op :: op in ops && OpRow(t, op, 0).Some?
  {
    if op :| op in ops && OpRow(t, op, 0).Some? {
      assert OpRow(t, op, ts).value in TxnRows(t, ops, ts);
    }
  }

  lemma ScannedStaySuperseded(scanned: Db, now: Db, target: int, ids: set<Row>)
    requires Inv(scanned) && Inv(now) && Grows(scanned, now)
    requires ids <= EligibleRows(scanned.table, target) && RevToTs(target) <= Horizon(now)
    ensures forall r | r in ids :: Superseded(now.history, r) && r.rev <= Horizon(now)
  {
    forall r | r in ids ensures Superseded(now.history, r) {
      SupersededGrows(scanned.table, now.history, r);
    }
  }
}
