/** The KV server's handlers: Put, range deletes, and the two Txn paths, as they drive the store. */
module ServerKV {
  import opened Bytes
  import opened Rows
  import opened Log
  import opened RowChain
  import opened Refinement
  import opened Histories
  import opened Reads
  import opened StoreObject
  import opened Ranges
  import opened TxnPaths

  /** The current value of a key as Get at revision 0 answers it. */
  lemma GetNow(db: Db, k: Key)
    requires Inv(db)
    ensures Get(db, db, db, k, 0) == Ok(CurrentRevision(db.table), LiveAt(db.table, k, Now))
  {
    TwoStepGetIsSnapshot(db, db, db, k);
  }

  // ---------- Put ----------

  /** A store call of Put that fails. */
  datatype PutFault = NoFault | AtCreate | AtGet | AtUpdate

  /** What Put's Get, three round trips long, answered. */
  function PutRead(atStart: Db, atCheck: Db, atQuery: Db, key: Key): Option<Row> {
    var answer := Get(atStart, atCheck, atQuery, key, 0);
    if answer.Ok? then answer.value else None
  }

  /** Whether Put's conditional update writes: the row it read must be the live one. */
  predicate UpdateGoesThrough(read: Option<Row>, atUpdate: Db, key: Key) {
    read.Some? && LiveAt(atUpdate.table, key, Now) == read
  }

  /** The states a Put meets: its create, the round trips of its read, its update. */
  datatype PutTrace = PutTrace(create: Db, start: Db, check: Db, query: Db, update: Db)

  ghost predicate ValidTrace(p: PutTrace) {
    && Inv(p.create) && Inv(p.start) && Inv(p.check) && Inv(p.query) && Inv(p.update)
    && Grows(p.create, p.start) && Grows(p.start, p.check) && Grows(p.check, p.query) && Grows(p.query, p.update)
  }

  ghost function Stays(db: Db): PutTrace {
    PutTrace(db, db, db, db, db)
  }

  ghost predicate LostPut(p: PutTrace, key: Key) {
    && LiveAt(p.create.table, key, Now).Some?
    && !UpdateGoesThrough(PutRead(p.start, p.check, p.query, key), p.update, key)
  }

  /**
   Create, and when the key exists read it and update at the revision read. The verdict of the
   update is dropped: unless a store call fails Put reports success, and it has written exactly
   when the key was absent at the create, or the row it read was still live at the update.
   */
  method Put(s: Store, key: Key, value: Blob, lease: int, prevKv: bool, contended: bool, fault: PutFault)
    returns (ok: bool, rev: int, prev: Option<ProtoKV>, ghost p: PutTrace)
    requires s.Valid()
    modifies s
    ensures s.Valid() && ValidTrace(p) && p.create == old(s.Snapshot())
    ensures !contended ==> p == Stays(old(s.Snapshot()))
    ensures ok <==> fault.NoFault? || (!fault.AtCreate? && LiveAt(p.create.table, key, Now).None?)
    ensures !ok || LostPut(p, key) ==> s.Snapshot() == p.update
    ensures ok && LostPut(p, key) ==> rev == CurrentRevision(p.update.table)
    ensures ok && LiveAt(p.create.table, key, Now).Some? ==> prev == Maybe(prevKv, LiveAt(p.update.table, key, Now))
    ensures ok && LiveAt(p.create.table, key, Now).None? ==>
              Fresh(p.create, rev) && s.Snapshot() == After(p.create, Create(key, value, lease), rev) && prev == None
    ensures ok && LiveAt(p.create.table, key, Now).Some? && !LostPut(p, key) ==>
              var live := LiveAt(p.update.table, key, Now);
              Fresh(p.update, rev) && s.Snapshot() == After(p.update, Update(key, value, live.value.rev, lease), rev)
  {
    p := Stays(s.Snapshot());
    if fault.AtCreate? { return false, 0, None, p; }
    var createdRev, err := s.Create(key, value, lease);
    if err.NoErr? { return true, createdRev, None, p; }
    ok, rev, prev, p := PutOver(s, key, value, lease, prevKv, contended, fault);
  }

  /** Put on a key that exists: read it, and update at the revision read. */
  method PutOver(s: Store, key: Key, value: Blob, lease: int, prevKv: bool, contended: bool, fault: PutFault)
    returns (ok: bool, rev: int, prev: Option<ProtoKV>, ghost p: PutTrace)
    requires s.Valid() && LiveAt(s.table, key, Now).Some? && !fault.AtCreate?
    modifies s
    ensures s.Valid() && ValidTrace(p) && p.create == old(s.Snapshot())
    ensures !contended ==> p == Stays(old(s.Snapshot()))
    ensures ok <==> fault.NoFault?
    ensures !ok || LostPut(p, key) ==> s.Snapshot() == p.update
    ensures ok && LostPut(p, key) ==> rev == CurrentRevision(p.update.table)
    ensures ok ==> prev == Maybe(prevKv, LiveAt(p.update.table, key, Now))
    ensures ok && !LostPut(p, key) ==>
              var live := LiveAt(p.update.table, key, Now);
              Fresh(p.update, rev) && s.Snapshot() == After(p.update, Update(key, value, live.value.rev, lease), rev)
  {
    var kv;
    kv, p := ReadForPut(s, key, contended);
    if fault.AtGet? || fault.AtUpdate? { return false, 0, None, p; }
    var prevModRev := if kv.Some? then kv.value.rev else 0;
    ReadIsLiveIff(p, kv, key);
    var updatedRev, before, _ := s.Update(key, value, prevModRev, lease);
    return true, updatedRev, Maybe(prevKv, before), p;
  }

  /** The read of a Put, with anything happening between its round trips and before the update. */
  method ReadForPut(s: Store, key: Key, contended: bool) returns (kv: Option<Row>, ghost p: PutTrace)
    requires s.Valid()
    modifies s
    ensures s.Valid() && ValidTrace(p) && p.create == old(s.Snapshot()) && p.update == s.Snapshot()
    ensures !contended ==> p == Stays(old(s.Snapshot()))
    ensures kv == PutRead(p.start, p.check, p.query, key)
  {
    p := Stays(s.Snapshot());
    if contended { s.Environment(); }
    var start := Db(s.table, {}, s.kvRev);
    p := p.(start := s.Snapshot());
    if contended { s.Environment(); }
    var check := Db(s.table, {}, s.kvRev);
    p := p.(check := s.Snapshot());
    if contended { s.Environment(); }
    kv := PutRead(start, check, Db(s.table, {}, s.kvRev), key);
    p := p.(query := s.Snapshot());
    if contended { s.Environment(); }
    p := p.(update := s.Snapshot());
  }

  /** The update names the revision read, and only the row that was read can have it. */
  lemma ReadIsLiveIff(p: PutTrace, kv: Option<Row>, key: Key)
    requires ValidTrace(p) && kv == PutRead(p.start, p.check, p.query, key)
    ensures var live := LiveAt(p.update.table, key, Now);
            live.Some? && live.value.rev == (if kv.Some? then kv.value.rev else 0)
            <==> UpdateGoesThrough(kv, p.update, key)
  {
    var live := LiveAt(p.update.table, key, Now);
    assert live.Some? ==> live.value in p.update.history;
    assert kv.Some? ==> kv.value in p.query.history && kv.value.key == key;
  }

  lemma PutOverVersions(k: Key, n: nat) returns (p: PutTrace)
    requires n == 1
    ensures ValidTrace(p) && LostPut(p, k)
  {
    var one, two := Versions(k, n), Versions(k, n + 1);
    p := Stays(one).(update := two);
    NewestVersion(one, k, n);
    NewestVersion(two, k, n + 1);
    GetNow(one, k);
  }

  /** One other write between the read and the update of a Put, and it reports success for nothing. */
  lemma PutLosesWrite() returns (p: PutTrace, k: Key)
    ensures ValidTrace(p) && LostPut(p, k)
  {
    k := [97];
    p := PutOverVersions(k, 1);
  }

  // ---------- range deletes ----------

  predicate Lists(kvs: seq<Row>, k: Key) {
    exists i :: 0 <= i < |kvs| && kvs[i].key == k
  }

  predicate RemovedAt(before: KvMap, kvs: seq<Row>, after: KvMap, k: Key) {
    Lookup(after, k) == if Lists(kvs, k) then None else Lookup(before, k)
  }

  /** The keys of a list are gone, every other key shows what it showed. */
  ghost predicate Removed(before: KvMap, kvs: seq<Row>, after: KvMap) {
    forall k :: RemovedAt(before, kvs, after, k)
  }

  predicate LiveAs(t: Table, row: Row) {
    LiveAt(t, row.key, Now) == Some(row)
  }

  predicate AllLive(t: Table, kvs: seq<Row>) {
    forall i {:trigger LiveAs(t, kvs[i])} | 0 <= i < |kvs| :: LiveAs(t, kvs[i])
  }

  predicate DistinctRowKeys(kvs: seq<Row>) {
    forall i, j | 0 <= i < j < |kvs| :: kvs[i].key != kvs[j].key
  }

  lemma DeleteElsewhere(db: Db, k: Key, ts: int, other: Key)
    requires Inv(db) && Fresh(db, ts) && other != k
    ensures LiveAt(After(db, Delete(k, 0), ts).table, other, Now) == LiveAt(db.table, other, Now)
  {
    EffectIsBatch(db.table, Delete(k, 0), ts);
    CommitLookup(db, Effect(db.table, Delete(k, 0), ts), ts, other);
  }

  lemma DeleteOnView(db: Db, k: Key, ts: int)
    requires Inv(db) && Fresh(db, ts)
    ensures View(After(db, Delete(k, 0), ts).table, Now) == View(db.table, Now) - {k}
  {
    RowLogRefinesMap(db, Delete(k, 0), ts);
    DeleteOnMap(View(db.table, Now), k, ts);
  }

  lemma DeleteOnMap(m: KvMap, k: Key, ts: int)
    ensures MapApply(m, Delete(k, 0), ts) == m - {k}
  {
  }

  /** One delete of the loop: the state it met, what became of it, and the state it left. */
  datatype Try = Try(met: Db, failed: bool, ts: int, left: Db)

  ghost predicate IsTry(k: Key, a: Try) {
    && Inv(a.met)
    && if a.failed || LiveAt(a.met.table, k, Now).None? then a.left == a.met
       else Fresh(a.met, a.ts) && a.left == After(a.met, Delete(k, 0), a.ts)
  }

  /** The state before try i, or after the last one. */
  function LeftBy(start: Db, tries: seq<Try>, i: nat): Db
    requires i <= |tries|
  {
    if i == 0 then start else tries[i - 1].left
  }

  ghost predicate Joined(start: Db, kvs: seq<Row>, tries: seq<Try>, i: nat)
    requires i < |tries| <= |kvs|
  {
    IsTry(kvs[i].key, tries[i]) && Grows(LeftBy(start, tries, i), tries[i].met)
  }

  /** The loop over a list, with other writers between any two deletes. */
  ghost predicate DeleteRun(start: Db, kvs: seq<Row>, tries: seq<Try>) {
    && Inv(start) && |tries| <= |kvs|
    && forall i {:trigger Joined(start, kvs, tries, i)} | 0 <= i < |tries| :: Joined(start, kvs, tries, i)
  }

  predicate Undisturbed(start: Db, tries: seq<Try>, i: nat)
    requires i < |tries|
  {
    tries[i].met == LeftBy(start, tries, i)
  }

  predicate AllUndisturbed(start: Db, tries: seq<Try>) {
    forall i {:trigger Undisturbed(start, tries, i)} | 0 <= i < |tries| :: Undisturbed(start, tries, i)
  }

  /** What one delete adds to the report: the row it removed, if any. */
  function ReportOf(k: Key, a: Try): seq<ProtoKV> {
    if a.failed || LiveAt(a.met.table, k, Now).None? then [] else [ToProtoKV(LiveAt(a.met.table, k, Now).value)]
  }

  function Flatten<T>(ss: seq<seq<T>>): seq<T> {
    if ss == [] then [] else Flatten(ss[..|ss| - 1]) + ss[|ss| - 1]
  }

  lemma {:induction false} FlattenSingletons<T>(ss: seq<seq<T>>, s: seq<T>)
    requires |ss| == |s| && forall i | 0 <= i < |s| :: ss[i] == [s[i]]
    ensures Flatten(ss) == s
    decreases |s|
  {
    if s != [] {
      FlattenSingletons(ss[..|s| - 1], s[..|s| - 1]);
      assert s == s[..|s| - 1] + [s[|s| - 1]];
    }
  }

  function Reports(kvs: seq<Row>, tries: seq<Try>): (ss: seq<seq<ProtoKV>>)
    requires |tries| <= |kvs|
    ensures |ss| == |tries| && forall i | 0 <= i < |tries| :: ss[i] == ReportOf(kvs[i].key, tries[i])
  {
    seq(|tries|, i requires 0 <= i < |tries| => ReportOf(kvs[i].key, tries[i]))
  }

  /** What the loop reports: the rows its deletes removed, in order. */
  function Reported(kvs: seq<Row>, tries: seq<Try>): seq<ProtoKV>
    requires |tries| <= |kvs|
  {
    Flatten(Reports(kvs, tries))
  }

  /** One round: maybe interference, then a delete that may fail. */
  method DeleteOne(s: Store, k: Key, contended: bool, fails: bool) returns (prev: seq<ProtoKV>, ghost a: Try)
    requires s.Valid()
    modifies s
    ensures s.Valid() && a.left == s.Snapshot() && a.failed == fails && IsTry(k, a)
    ensures Grows(old(s.Snapshot()), a.met) && (!contended ==> a.met == old(s.Snapshot()))
    ensures prev == ReportOf(k, a)
  {
    if contended { s.Environment(); }
    ghost var met := s.Snapshot();
    if fails { return [], Try(met, true, 0, met); }
    var rev, found, ok := s.Delete(k, 0);
    prev := if ok then [ToProtoKV(found.value)] else [];
    a := Try(met, false, rev, s.Snapshot());
  }

  /**
   Deletes the listed keys one by one. A failing delete is skipped by the bare handler and ends
   the loop inside a Txn; keys others deleted meanwhile are passed over.
   */
  method DeleteListed(s: Store, kvs: seq<Row>, contended: bool, failing: set<nat>, failFast: bool)
    returns (deleted: nat, prevs: seq<ProtoKV>, complete: bool, ghost tries: seq<Try>)
    requires s.Valid()
    modifies s
    ensures s.Valid() && s.Snapshot() == LeftBy(old(s.Snapshot()), tries, |tries|)
    ensures LoopSoFar(old(s.Snapshot()), kvs, tries, prevs, failing, contended) && deleted == |prevs|
    ensures complete ==> |tries| == |kvs|
    ensures complete <==> !failFast || NoneBelow(failing, |kvs|)
  {
    ghost var start := s.Snapshot();
    prevs, tries, complete := [], [], true;
    var i := 0;
    while i < |kvs| && complete
      invariant s.Valid() && i == |tries| <= |kvs| && s.Snapshot() == LeftBy(start, tries, i)
      invariant LoopSoFar(start, kvs, tries, prevs, failing, contended)
      invariant complete <==> !failFast || NoneBelow(failing, i)
    {
      prevs, tries := DeleteNext(s, kvs, contended, failing, start, tries, i, prevs);
      NoneBelowNext(failing, i);
      if failFast && i in failing { complete := false; }
      i := i + 1;
    }
    deleted := |prevs|;
    if !complete { NoneBelowLess(failing, i, |kvs|); }
  }

  predicate NoneBelow(failing: set<nat>, n: nat) {
    forall i | 0 <= i < n :: i !in failing
  }

  lemma NoneBelowNext(failing: set<nat>, n: nat)
    ensures NoneBelow(failing, n + 1) <==> NoneBelow(failing, n) && n !in failing
  {
  }

  lemma NoneBelowLess(failing: set<nat>, i: nat, n: nat)
    requires i <= n
    ensures NoneBelow(failing, n) ==> NoneBelow(failing, i)
  {
  }

  /** One turn of the loop. */
  method DeleteNext(s: Store, kvs: seq<Row>, contended: bool, failing: set<nat>, ghost start: Db, ghost tries: seq<Try>,
      i: nat, prevs: seq<ProtoKV>)
    returns (prevs': seq<ProtoKV>, ghost tries': seq<Try>)
    requires s.Valid() && i == |tries| < |kvs| && s.Snapshot() == LeftBy(start, tries, i)
    requires LoopSoFar(start, kvs, tries, prevs, failing, contended)
    modifies s
    ensures s.Valid() && |tries'| == i + 1 && s.Snapshot() == LeftBy(start, tries', i + 1)
    ensures LoopSoFar(start, kvs, tries', prevs', failing, contended)
  {
    var prev, a := DeleteOne(s, kvs[i].key, contended, i in failing);
    LoopNext(start, kvs, tries, prevs, failing, contended, a, prev);
    prevs', tries' := prevs + prev, tries + [a];
  }

  /** The loop after some tries: what it did, what it reports, and which tries failed. */
  ghost predicate LoopSoFar(start: Db, kvs: seq<Row>, tries: seq<Try>, prevs: seq<ProtoKV>, failing: set<nat>,
      contended: bool)
  {
    && DeleteRun(start, kvs, tries) && prevs == Reported(kvs, tries)
    && (!contended ==> AllUndisturbed(start, tries)) && FailedAsGiven(tries, failing)
  }

  lemma {:induction false} LoopNext(start: Db, kvs: seq<Row>, tries: seq<Try>, prevs: seq<ProtoKV>, failing: set<nat>,
      contended: bool, a: Try, prev: seq<ProtoKV>)
    requires LoopSoFar(start, kvs, tries, prevs, failing, contended)
    requires |tries| < |kvs| && IsTry(kvs[|tries|].key, a) && Grows(LeftBy(start, tries, |tries|), a.met)
    requires a.failed <==> |tries| in failing
    requires !contended ==> a.met == LeftBy(start, tries, |tries|)
    requires prev == ReportOf(kvs[|tries|].key, a)
    ensures LoopSoFar(start, kvs, tries + [a], prevs + prev, failing, contended)
  {
    DeleteRunNext(start, kvs, tries, a);
    ReportedNext(kvs, tries, a);
    FailedNext(tries, failing, a);
    if !contended { UndisturbedNext(start, tries, a); }
  }

  predicate FailedAsGiven(tries: seq<Try>, failing: set<nat>) {
    forall i {:trigger tries[i].failed} | 0 <= i < |tries| :: tries[i].failed <==> i in failing
  }

  lemma FailedNext(tries: seq<Try>, failing: set<nat>, a: Try)
    requires FailedAsGiven(tries, failing) && (a.failed <==> |tries| in failing)
    ensures FailedAsGiven(tries + [a], failing)
  {
  }

  lemma JoinedStays(start: Db, kvs: seq<Row>, tries: seq<Try>, a: Try, i: nat)
    requires |tries| < |kvs| && i < |tries| && Joined(start, kvs, tries, i)
    ensures Joined(start, kvs, tries + [a], i)
  {
    assert LeftBy(start, tries + [a], i) == LeftBy(start, tries, i);
  }

  lemma DeleteRunNext(start: Db, kvs: seq<Row>, tries: seq<Try>, a: Try)
    requires DeleteRun(start, kvs, tries) && |tries| < |kvs| && IsTry(kvs[|tries|].key, a)
    requires Grows(LeftBy(start, tries, |tries|), a.met)
    ensures DeleteRun(start, kvs, tries + [a])
  {
    var tries' := tries + [a];
    forall i | 0 <= i < |tries'| ensures Joined(start, kvs, tries', i) {
      if i < |tries| { JoinedStays(start, kvs, tries, a, i); } else { JoinedLast(start, kvs, tries, a); }
    }
  }

  lemma JoinedLast(start: Db, kvs: seq<Row>, tries: seq<Try>, a: Try)
    requires |tries| < |kvs| && IsTry(kvs[|tries|].key, a) && Grows(LeftBy(start, tries, |tries|), a.met)
    ensures Joined(start, kvs, tries + [a], |tries|)
  {
    assert LeftBy(start, tries + [a], |tries|) == LeftBy(start, tries, |tries|);
  }

  lemma UndisturbedNext(start: Db, tries: seq<Try>, a: Try)
    requires AllUndisturbed(start, tries) && a.met == LeftBy(start, tries, |tries|)
    ensures AllUndisturbed(start, tries + [a])
  {
    var tries' := tries + [a];
    forall i | 0 <= i < |tries'| ensures Undisturbed(start, tries', i) {
      assert i < |tries| ==> Undisturbed(start, tries, i);
      assert LeftBy(start, tries', i) == LeftBy(start, tries, i);
    }
  }

  lemma {:induction false} ReportedNext(kvs: seq<Row>, tries: seq<Try>, a: Try)
    requires |tries| < |kvs|
    ensures Reported(kvs, tries + [a]) == Reported(kvs, tries) + ReportOf(kvs[|tries|].key, a)
  {
    var before, after := Reports(kvs, tries), Reports(kvs, tries + [a]);
    assert after == before + [ReportOf(kvs[|tries|].key, a)];
    assert after[..|tries|] == before;
  }

  // ---------- what a delete loop means among other writers ----------

  lemma TryGrows(k: Key, a: Try)
    requires IsTry(k, a)
    ensures Inv(a.left) && Grows(a.met, a.left)
    ensures !a.failed ==> LiveAt(a.left.table, k, Now).None?
  {
    if !a.failed && LiveAt(a.met.table, k, Now).Some? {
      DeleteOnView(a.met, k, a.ts);
      ViewAt(a.left.table, Now, k);
    }
  }

  lemma {:induction false} DeleteRunGrows(start: Db, kvs: seq<Row>, tries: seq<Try>, i: nat, j: nat)
    requires DeleteRun(start, kvs, tries) && i <= j <= |tries|
    ensures Inv(LeftBy(start, tries, i)) && Inv(LeftBy(start, tries, j))
    ensures Grows(LeftBy(start, tries, i), LeftBy(start, tries, j))
    decreases j
  {
    if i < j {
      DeleteRunGrows(start, kvs, tries, i, j - 1);
      JoinGrows(start, kvs, tries, j - 1);
      GrowsTransitive(LeftBy(start, tries, i), LeftBy(start, tries, j - 1), LeftBy(start, tries, j));
    } else if i > 0 {
      JoinGrows(start, kvs, tries, i - 1);
    }
  }

  lemma JoinGrows(start: Db, kvs: seq<Row>, tries: seq<Try>, i: nat)
    requires DeleteRun(start, kvs, tries) && i < |tries|
    ensures Inv(LeftBy(start, tries, i + 1)) && Grows(LeftBy(start, tries, i), LeftBy(start, tries, i + 1))
  {
    assert Joined(start, kvs, tries, i);
    TryGrows(kvs[i].key, tries[i]);
    GrowsTransitive(LeftBy(start, tries, i), tries[i].met, tries[i].left);
  }

  /** Whatever k shows by now was written after `before`. */
  predicate RewrittenSince(before: Db, now: Db, k: Key) {
    LiveAt(now.table, k, Now).Some? ==> LiveAt(now.table, k, Now).value !in before.history
  }

  lemma AbsentThenRewritten(before: Db, absent: Db, now: Db, k: Key)
    requires Inv(absent) && Inv(now) && before.history <= absent.history && Grows(absent, now)
    requires LiveAt(absent.table, k, Now).None?
    ensures RewrittenSince(before, now, k)
  {
    LatestKept(absent);
    LatestKept(now);
    var live := LiveAt(now.table, k, Now);
    if live.Some? && live.value in absent.history {
      assert IsNewest(absent.history, k, Now, live.value);
      NewestIs(absent.history, k, Now, live.value);
    }
  }

  /**
   Among any other writers: a listed key whose delete did not fail, and that still shows, shows a
   row written after the loop began; so does every key that was absent then.
   */
  lemma DeletedIsRewritten(start: Db, kvs: seq<Row>, tries: seq<Try>, k: Key)
    requires DeleteRun(start, kvs, tries)
    requires LiveAt(start.table, k, Now).None? || exists i :: 0 <= i < |tries| && kvs[i].key == k && !tries[i].failed
    ensures RewrittenSince(start, LeftBy(start, tries, |tries|), k)
  {
    if LiveAt(start.table, k, Now).None? {
      DeleteRunGrows(start, kvs, tries, 0, |tries|);
      AbsentThenRewritten(start, start, LeftBy(start, tries, |tries|), k);
    } else {
      var i :| 0 <= i < |tries| && kvs[i].key == k && !tries[i].failed;
      TriedIsRewritten(start, kvs, tries, i);
    }
  }

  lemma TriedIsAbsent(start: Db, kvs: seq<Row>, tries: seq<Try>, i: nat)
    requires DeleteRun(start, kvs, tries) && i < |tries| && !tries[i].failed
    ensures LiveAt(LeftBy(start, tries, i + 1).table, kvs[i].key, Now).None?
  {
    assert Joined(start, kvs, tries, i);
    TryGrows(kvs[i].key, tries[i]);
  }

  lemma TriedIsRewritten(start: Db, kvs: seq<Row>, tries: seq<Try>, i: nat)
    requires DeleteRun(start, kvs, tries) && i < |tries| && !tries[i].failed
    ensures RewrittenSince(start, LeftBy(start, tries, |tries|), kvs[i].key)
  {
    TriedIsAbsent(start, kvs, tries, i);
    DeleteRunGrows(start, kvs, tries, 0, i + 1);
    DeleteRunGrows(start, kvs, tries, i + 1, |tries|);
    AbsentThenRewritten(start, LeftBy(start, tries, i + 1), LeftBy(start, tries, |tries|), kvs[i].key);
  }

  lemma NothingRemoved(m: KvMap, kvs: seq<Row>)
    ensures Removed(m, kvs[..0], m)
  {
    var none := kvs[..0];
    forall k ensures RemovedAt(m, none, m, k) { }
  }

  lemma {:induction false} SameThroughout<T>(xs: seq<T>, n: nat)
    requires n < |xs| && forall i | 0 <= i < n :: xs[i] == xs[i + 1]
    ensures xs[n] == xs[0]
    decreases n
  {
    if n > 0 { SameThroughout(xs, n - 1); }
  }

  /** Try i takes its key out of the map that `shown` reads off a state, and changes nothing else there. */
  predicate DropsKey(shown: Db -> KvMap, start: Db, kvs: seq<Row>, tries: seq<Try>, i: nat)
    requires i < |tries| <= |kvs|
  {
    shown(LeftBy(start, tries, i + 1)) == shown(LeftBy(start, tries, i)) - {kvs[i].key}
  }

  lemma {:induction false} DroppedInTurn(shown: Db -> KvMap, start: Db, kvs: seq<Row>, tries: seq<Try>, n: nat)
    requires n <= |tries| == |kvs| && forall i | 0 <= i < |tries| :: DropsKey(shown, start, kvs, tries, i)
    ensures Removed(shown(start), kvs[..n], shown(LeftBy(start, tries, n)))
    decreases n
  {
    if n == 0 {
      NothingRemoved(shown(start), kvs);
    } else {
      DroppedInTurn(shown, start, kvs, tries, n - 1);
      assert DropsKey(shown, start, kvs, tries, n - 1);
      RemovedNext(shown(start), kvs, n - 1, shown(LeftBy(start, tries, n - 1)), shown(LeftBy(start, tries, n)));
    }
  }

  /** A loop nobody disturbs and in which no delete fails. */
  ghost predicate QuietRun(start: Db, kvs: seq<Row>, tries: seq<Try>) {
    && DeleteRun(start, kvs, tries) && AllUndisturbed(start, tries) && |tries| == |kvs|
    && forall i | 0 <= i < |tries| :: !tries[i].failed
  }

  lemma QuietTry(start: Db, kvs: seq<Row>, tries: seq<Try>, i: nat)
    requires QuietRun(start, kvs, tries) && i < |tries|
    ensures IsTry(kvs[i].key, tries[i]) && !tries[i].failed && tries[i].met == LeftBy(start, tries, i)
  {
    assert Joined(start, kvs, tries, i) && Undisturbed(start, tries, i);
  }

  lemma TryOnView(k: Key, a: Try)
    requires IsTry(k, a) && !a.failed
    ensures View(a.left.table, Now) == View(a.met.table, Now) - {k}
  {
    if LiveAt(a.met.table, k, Now).Some? {
      DeleteOnView(a.met, k, a.ts);
    } else {
      ViewAt(a.met.table, Now, k);
      assert View(a.met.table, Now) - {k} == View(a.met.table, Now);
    }
  }

  lemma TryElsewhere(k: Key, a: Try, x: Key)
    requires IsTry(k, a) && x != k
    ensures LiveAt(a.left.table, x, Now) == LiveAt(a.met.table, x, Now)
  {
    if !a.failed && LiveAt(a.met.table, k, Now).Some? { DeleteElsewhere(a.met, k, a.ts, x); }
  }

  lemma QuietOnView(start: Db, kvs: seq<Row>, tries: seq<Try>, i: nat)
    requires QuietRun(start, kvs, tries) && i < |tries|
    ensures View(LeftBy(start, tries, i + 1).table, Now) == View(LeftBy(start, tries, i).table, Now) - {kvs[i].key}
  {
    QuietTry(start, kvs, tries, i);
    TryOnView(kvs[i].key, tries[i]);
  }

  lemma QuietElsewhere(start: Db, kvs: seq<Row>, tries: seq<Try>, i: nat, x: Key)
    requires QuietRun(start, kvs, tries) && i < |tries| && x != kvs[i].key
    ensures LiveAt(LeftBy(start, tries, i).table, x, Now) == LiveAt(LeftBy(start, tries, i + 1).table, x, Now)
  {
    QuietTry(start, kvs, tries, i);
    TryElsewhere(kvs[i].key, tries[i], x);
  }

  /** Until its own delete a listed key stays as it was. */
  lemma UntilItsTurn(start: Db, kvs: seq<Row>, tries: seq<Try>, i: nat)
    requires QuietRun(start, kvs, tries) && i < |tries| && DistinctRowKeys(kvs)
    ensures LiveAt(LeftBy(start, tries, i).table, kvs[i].key, Now) == LiveAt(start.table, kvs[i].key, Now)
  {
    var k := kvs[i].key;
    var lives := seq(i + 1, n requires 0 <= n <= i => LiveAt(LeftBy(start, tries, n).table, k, Now));
    forall n | 0 <= n < i ensures lives[n] == lives[n + 1] { QuietElsewhere(start, kvs, tries, n, k); }
    SameThroughout(lives, i);
  }

  lemma QuietReport(start: Db, kvs: seq<Row>, tries: seq<Try>, i: nat)
    requires QuietRun(start, kvs, tries) && i < |tries| && DistinctRowKeys(kvs) && LiveAs(start.table, kvs[i])
    ensures ReportOf(kvs[i].key, tries[i]) == [ToProtoKV(kvs[i])]
  {
    UntilItsTurn(start, kvs, tries, i);
    QuietTry(start, kvs, tries, i);
  }

  /** Undisturbed and without failures the loop removes exactly the listed keys. */
  lemma QuietDelete(start: Db, kvs: seq<Row>, tries: seq<Try>)
    requires QuietRun(start, kvs, tries)
    ensures Removed(View(start.table, Now), kvs, View(LeftBy(start, tries, |tries|).table, Now))
  {
    var shown := (db: Db) => View(db.table, Now);
    forall i | 0 <= i < |tries| ensures DropsKey(shown, start, kvs, tries, i) { QuietOnView(start, kvs, tries, i); }
    DroppedInTurn(shown, start, kvs, tries, |kvs|);
    assert kvs[..|kvs|] == kvs;
  }

  /** And it reports them all. */
  lemma {:induction false} QuietReports(start: Db, kvs: seq<Row>, tries: seq<Try>)
    requires QuietRun(start, kvs, tries) && DistinctRowKeys(kvs) && AllLive(start.table, kvs)
    ensures Reported(kvs, tries) == ProtoKVs(kvs)
  {
    var ss, ps := Reports(kvs, tries), ProtoKVs(kvs);
    forall i | 0 <= i < |kvs| ensures ss[i] == [ps[i]] {
      assert LiveAs(start.table, kvs[i]);
      QuietReport(start, kvs, tries, i);
    }
    FlattenSingletons(ss, ps);
  }

  function ProtoKVs(kvs: seq<Row>): (ps: seq<ProtoKV>)
    ensures |ps| == |kvs| && forall i | 0 <= i < |kvs| :: ps[i] == ToProtoKV(kvs[i])
  {
    seq(|kvs|, i requires 0 <= i < |kvs| => ToProtoKV(kvs[i]))
  }

  lemma RemovedNext(m: KvMap, kvs: seq<Row>, i: nat, v: KvMap, v': KvMap)
    requires i < |kvs| && Removed(m, kvs[..i], v) && v' == v - {kvs[i].key}
    ensures Removed(m, kvs[..i + 1], v')
  {
    var done, next := kvs[..i], kvs[..i + 1];
    forall k ensures RemovedAt(m, next, v', k) {
      assert RemovedAt(m, done, v, k);
      assert Lists(next, k) <==> Lists(done, k) || k == kvs[i].key by {
        if Lists(done, k) {
          var j :| 0 <= j < i && done[j].key == k;
          assert next[j].key == k;
        }
        assert next[i].key == kvs[i].key;
        if Lists(next, k) && k != kvs[i].key {
          var j :| 0 <= j <= i && next[j].key == k;
          assert done[j].key == k;
        }
      }
    }
  }

  /** What an unlimited list of the current state hands to the delete loop. */
  lemma ListedAreLive(db: Db, prefix: Bytes, start: Key, page: seq<Row>)
    requires Inv(db) && KeyPage(ListRows(db.table, prefix, start, RevToTs(CurrentRevision(db.table))), 0, page)
    ensures DistinctRowKeys(page) && AllLive(db.table, page)
    ensures forall r :: r in page <==> Selects(prefix, start, r.key) && LiveAt(db.table, r.key, Now) == Some(r)
  {
    TwoStepListIsSnapshot(db, db, prefix, start, page);
    forall i, j | 0 <= i < j < |page| ensures page[i].key != page[j].key {
      LessAsymmetric(page[i].key, page[j].key);
    }
    forall j | 0 <= j < |page| ensures LiveAs(db.table, page[j]) {
      assert page[j] in page;
    }
  }

  /** The index at which the Txn delete loop breaks off: the first listed key at or past the end. */
  method FirstPastEnd(kvs: seq<Row>, end: Bytes) returns (n: nat)
    requires forall i, j | 0 <= i < j < |kvs| :: Less(kvs[i].key, kvs[j].key)
    ensures n <= |kvs| && kvs[..n] == Filtered(kvs, end)
  {
    FilteredExact(kvs, end);
    n := 0;
    while n < |kvs| && BeforeEnd(end, kvs[n].key)
      invariant n <= |kvs| && forall i | 0 <= i < n :: BeforeEnd(end, kvs[i].key)
    {
      n := n + 1;
    }
    var f := Filtered(kvs, end);
    assert forall i | 0 <= i < n :: kvs[i] in f;
    assert |f| >= n by { if |f| < n { FilteredStops(kvs, end, n - 1); } }
    assert kvs[..n] == f;
  }

  lemma {:induction false} FilteredStops(kvs: seq<Row>, end: Bytes, i: nat)
    requires forall a, b | 0 <= a < b < |kvs| :: Less(kvs[a].key, kvs[b].key)
    requires i < |kvs| && BeforeEnd(end, kvs[i].key)
    ensures i < |Filtered(kvs, end)|
  {
    FilteredExact(kvs, end);
    var f := Filtered(kvs, end);
    assert kvs[i] in kvs;
    var j :| 0 <= j < |f| && f[j] == kvs[i];
    assert kvs[j] == kvs[i];
    if j < i { LessAsymmetric(kvs[j].key, kvs[i].key); }
    if i < j { LessAsymmetric(kvs[i].key, kvs[j].key); }
  }

  /** The keys a scan selects and the end filter lets through are gone, all others as before. */
  predicate ExactlySelected(before: KvMap, after: KvMap, prefix: Bytes, start: Key, end: Bytes, k: Key) {
    Lookup(after, k) == if Selects(prefix, start, k) && BeforeEnd(end, k) then None else Lookup(before, k)
  }

  predicate ExactlyRange(before: KvMap, after: KvMap, key: Key, end: Bytes, k: Key) {
    Lookup(after, k) == if InRange(key, end, k) then None else Lookup(before, k)
  }

  /** The keys a range delete goes over: the page of its prefix scan, cut at the end. */
  method ListBeforeEnd(s: Store, key: Key, prefix: Bytes, end: Bytes) returns (kvs: seq<Row>, ghost page: seq<Row>)
    requires s.Valid()
    ensures KeyPage(ListRows(s.table, prefix, key, CurrentRevision(s.table)), 0, page)
    ensures kvs == Filtered(page, end) && DistinctRowKeys(kvs) && AllLive(s.table, kvs)
  {
    var view := Db(s.table, {}, s.kvRev);
    var answer, _ := List(view, view, view, prefix, key, 0, 0);
    page := answer.value;
    ListedAreLive(s.Snapshot(), prefix, key, page);
    var n := FirstPastEnd(answer.value, end);
    kvs := answer.value[..n];
  }

  lemma {:induction false} DeletedAreSelected(db: Db, key: Key, prefix: Bytes, end: Bytes, page: seq<Row>, after: KvMap)
    requires Inv(db) && KeyPage(ListRows(db.table, prefix, key, CurrentRevision(db.table)), 0, page)
    requires Removed(View(db.table, Now), Filtered(page, end), after)
    ensures forall k :: ExactlySelected(View(db.table, Now), after, prefix, key, end, k)
  {
    ListedAreLive(db, prefix, key, page);
    FilteredExact(page, end);
    forall k ensures ExactlySelected(View(db.table, Now), after, prefix, key, end, k) {
      DeletedIsSelected(db, key, prefix, end, Filtered(page, end), after, k);
    }
  }

  lemma DeletedIsSelected(db: Db, key: Key, prefix: Bytes, end: Bytes, kvs: seq<Row>, after: KvMap, k: Key)
    requires forall r :: r in kvs <==>
               Selects(prefix, key, r.key) && BeforeEnd(end, r.key) && LiveAt(db.table, r.key, Now) == Some(r)
    requires Removed(View(db.table, Now), kvs, after)
    ensures ExactlySelected(View(db.table, Now), after, prefix, key, end, k)
  {
    ViewLookup(db.table, k);
    assert RemovedAt(View(db.table, Now), kvs, after, k);
    var live := LiveAt(db.table, k, Now);
    if live.Some? && Selects(prefix, key, k) && BeforeEnd(end, k) {
      assert live.value in kvs;
    } else if Lists(kvs, k) {
      var i :| 0 <= i < |kvs| && kvs[i].key == k;
      assert kvs[i] in kvs;
    }
  }

  /** Keys a range delete leaves behind were written after it began, whoever else was writing. */
  ghost predicate RangeRewritten(before: Db, now: Db, prefix: Bytes, start: Key, end: Bytes) {
    forall k | Selects(prefix, start, k) && BeforeEnd(end, k) :: RewrittenSince(before, now, k)
  }

  lemma {:induction false} RangeIsRewritten(db: Db, key: Key, prefix: Bytes, end: Bytes, page: seq<Row>,
      tries: seq<Try>)
    requires Inv(db) && KeyPage(ListRows(db.table, prefix, key, CurrentRevision(db.table)), 0, page)
    requires DeleteRun(db, Filtered(page, end), tries) && |tries| == |Filtered(page, end)|
    requires forall i | 0 <= i < |tries| :: !tries[i].failed
    ensures RangeRewritten(db, LeftBy(db, tries, |tries|), prefix, key, end)
  {
    var kvs := Filtered(page, end);
    ListedAreLive(db, prefix, key, page);
    FilteredExact(page, end);
    forall k | Selects(prefix, key, k) && BeforeEnd(end, k)
      ensures RewrittenSince(db, LeftBy(db, tries, |tries|), k)
    {
      var live := LiveAt(db.table, k, Now);
      if live.Some? {
        assert live.value in kvs;
        var i :| 0 <= i < |kvs| && kvs[i] == live.value;
        assert kvs[i].key == k;
      }
      DeletedIsRewritten(db, kvs, tries, k);
    }
  }

  lemma {:induction false} RangeIsDeleted(db: Db, key: Key, prefix: Bytes, end: Bytes, page: seq<Row>, tries: seq<Try>)
    requires Inv(db) && KeyPage(ListRows(db.table, prefix, key, CurrentRevision(db.table)), 0, page)
    requires DeleteRun(db, Filtered(page, end), tries) && |tries| == |Filtered(page, end)|
    requires AllUndisturbed(db, tries) && forall i | 0 <= i < |tries| :: !tries[i].failed
    requires DistinctRowKeys(Filtered(page, end)) && AllLive(db.table, Filtered(page, end))
    ensures Reported(Filtered(page, end), tries) == ProtoKVs(Filtered(page, end))
    ensures forall k ::
              ExactlySelected(View(db.table, Now), View(LeftBy(db, tries, |tries|).table, Now), prefix, key, end, k)
  {
    var kvs := Filtered(page, end);
    QuietDelete(db, kvs, tries);
    QuietReports(db, kvs, tries);
    DeletedAreSelected(db, key, prefix, end, page, View(LeftBy(db, tries, |tries|).table, Now));
  }

  /**
   Range delete inside a Txn: the keys of the scan before the end, one by one, until the first
   failure. When it completes, any key of the range that still shows was written after it began;
   undisturbed, it removes the live keys of the scan before the end and nothing else, and reports
   the rows removed in key order.
   */
  method TxnDeleteRange(s: Store, key: Key, end: Bytes, contended: bool, failing: set<nat>)
    returns (deleted: nat, prevs: seq<ProtoKV>, complete: bool, ghost page: seq<Row>, ghost tries: seq<Try>)
    requires s.Valid() && end != []
    modifies s
    ensures s.Valid() && deleted == |prevs|
    ensures KeyPage(ListRows(old(s.table), RangeToPrefix(key, end), key, old(CurrentRevision(s.table))), 0, page)
    ensures DeleteRun(old(s.Snapshot()), Filtered(page, end), tries) && prevs == Reported(Filtered(page, end), tries)
    ensures s.Snapshot() == LeftBy(old(s.Snapshot()), tries, |tries|)
    ensures complete <==> NoneBelow(failing, |Filtered(page, end)|)
    ensures complete ==> RangeRewritten(old(s.Snapshot()), s.Snapshot(), RangeToPrefix(key, end), key, end)
    ensures complete && !contended ==> prevs == ProtoKVs(Filtered(page, end))
    ensures complete && !contended ==>
              var before, prefix := old(View(s.table, Now)), RangeToPrefix(key, end);
              forall k :: ExactlySelected(before, View(s.table, Now), prefix, key, end, k)
  {
    ghost var db := s.Snapshot();
    var prefix := RangeToPrefix(key, end);
    var kvs, listed := ListBeforeEnd(s, key, prefix, end);
    page := listed;
    deleted, prevs, complete, tries := DeleteListed(s, kvs, contended, failing, true);
    if complete {
      RangeIsRewritten(db, key, prefix, end, page, tries);
      if !contended { RangeIsDeleted(db, key, prefix, end, page, tries); }
    }
  }

  /**
   For a range end the prefix translation covers, such a delete removes exactly `[key, end)` and
   counts exactly its keys.
   */
  lemma {:induction false} TxnDeleteIsRange(t: Table, key: Key, end: Bytes, cap: int, page: seq<Row>,
      before: KvMap, after: KvMap)
    requires end != [] && Coverable(key, end) && NoEscape(RangeToPrefix(key, end))
    requires KeyPage(ListRows(t, RangeToPrefix(key, end), key, cap), 0, page)
    requires forall k :: ExactlySelected(before, after, RangeToPrefix(key, end), key, end, k)
    ensures forall k :: ExactlyRange(before, after, key, end, k)
    ensures |Filtered(page, end)| == |RangeRows(t, key, end, cap)|
  {
    TxnRangeExact(t, key, end, cap, 0, page);
    PageSize(RangeRows(t, key, end, cap), Filtered(page, end));
    forall k ensures ExactlyRange(before, after, key, end, k) {
      assert ExactlySelected(before, after, RangeToPrefix(key, end), key, end, k);
      ScanAndFilterExact(key, end, k);
    }
  }

  /**
   A bare DeleteRange over a range has no end filter and passes over failing deletes: without
   failures every key with the scan prefix from `key` on that still shows was written after it
   began; undisturbed it removes all of them, also those beyond the end.
   */
  method BareDeleteRange(s: Store, key: Key, end: Bytes, contended: bool, failing: set<nat>)
    returns (deleted: nat, prevs: seq<ProtoKV>, ghost page: seq<Row>, ghost tries: seq<Try>)
    requires s.Valid() && end != []
    modifies s
    ensures s.Valid() && deleted == |prevs|
    ensures KeyPage(ListRows(old(s.table), RangeToPrefix(key, end), key, old(CurrentRevision(s.table))), 0, page)
    ensures DeleteRun(old(s.Snapshot()), page, tries) && |tries| == |page| && prevs == Reported(page, tries)
    ensures s.Snapshot() == LeftBy(old(s.Snapshot()), tries, |tries|)
    ensures forall i | 0 <= i < |tries| :: tries[i].failed <==> i in failing
    ensures failing == {} ==>
              RangeRewritten(old(s.Snapshot()), s.Snapshot(), RangeToPrefix(key, end), key, FROM_KEY)
    ensures failing == {} && !contended ==> prevs == ProtoKVs(page)
    ensures failing == {} && !contended ==> forall k ::
              ExactlySelected(old(View(s.table, Now)), View(s.table, Now), RangeToPrefix(key, end), key, FROM_KEY, k)
  {
    ghost var db := s.Snapshot();
    var prefix := RangeToPrefix(key, end);
    var kvs, listed := ListBeforeEnd(s, key, prefix, FROM_KEY);
    page := listed;
    AllKept(page, FROM_KEY);
    var complete;
    deleted, prevs, complete, tries := DeleteListed(s, kvs, contended, failing, false);
    if failing == {} {
      RangeIsRewritten(db, key, prefix, FROM_KEY, page, tries);
      if !contended { RangeIsDeleted(db, key, prefix, FROM_KEY, page, tries); }
    }
  }

  /** The undisturbed bare delete turns every map into that map without `[key, end)`. */
  ghost predicate BareDeleteExact(key: Key, end: Bytes) {
    forall before, after, k | BareDeletes(before, after, key, end) :: ExactlyRange(before, after, key, end, k)
  }

  ghost predicate BareDeletes(before: KvMap, after: KvMap, key: Key, end: Bytes) {
    forall k :: ExactlySelected(before, after, RangeToPrefix(key, end), key, FROM_KEY, k)
  }

  /** It deletes exactly the range asked for under the very condition for a bare Range. */
  lemma BareDeleteExactIff(key: Key, end: Bytes)
    requires end != [] && WildcardFree(RangeToPrefix(key, end))
    ensures BareDeleteExact(key, end) <==> ExactUnfiltered(key, end)
  {
    var p := RangeToPrefix(key, end);
    if ExactUnfiltered(key, end) {
      forall before, after, k | BareDeletes(before, after, key, end) ensures ExactlyRange(before, after, key, end, k) {
        assert ExactlySelected(before, after, p, key, FROM_KEY, k);
        UnfilteredKeysExact(key, end, k);
      }
    } else {
      var x := UnfilteredKeysWrong(key, end);
      var before: KvMap := map[x := Item(None, 0, 2, 2)];
      var after: KvMap := if Selects(p, key, x) then map[] else before;
      forall k ensures ExactlySelected(before, after, p, key, FROM_KEY, k) { }
      assert BareDeletes(before, after, key, end) && !ExactlyRange(before, after, key, end, x);
    }
  }

  // ---------- the sequential Txn path ----------

  datatype Verdict = Decided(succeeded: bool) | InvalidTarget

  /** The first n compares were evaluated, each against the state it met, and held. */
  predicate Held(compares: seq<Compare>, met: seq<Db>, n: nat) {
    && n <= |compares| && n <= |met|
    && forall i | 0 <= i < n ::
         !compares[i].target.Unsupported? && Holds(compares[i], LiveAt(met[i].table, compares[i].key, Now))
  }

  /** States met one after the other. */
  ghost predicate Successive(start: Db, met: seq<Db>, end: Db) {
    && Inv(end) && Grows(start, end)
    && forall i {:trigger OnTheWay(start, met[i], end)} | 0 <= i < |met| :: OnTheWay(start, met[i], end)
  }

  ghost predicate OnTheWay(start: Db, db: Db, end: Db) {
    Inv(db) && Grows(start, db) && Grows(db, end)
  }

  lemma SuccessiveNext(start: Db, met: seq<Db>, end: Db, next: Db)
    requires Inv(start) && Successive(start, met, end) && Inv(next) && Grows(end, next)
    ensures Successive(start, met + [next], next)
  {
    GrowsTransitive(start, end, next);
    var met' := met + [next];
    forall i | 0 <= i < |met'| ensures OnTheWay(start, met'[i], next) {
      if i < |met| {
        assert OnTheWay(start, met[i], end);
        GrowsTransitive(met[i], end, next);
      }
    }
  }

  /** The next round trip of a handler, which finds the store as it is by then. */
  method MeetNext(s: Store, contended: bool, ghost start: Db, ghost met: seq<Db>) returns (ghost met': seq<Db>)
    requires s.Valid() && Inv(start) && Successive(start, met, s.Snapshot())
    modifies s
    ensures s.Valid() && met' == met + [s.Snapshot()] && Successive(start, met', s.Snapshot())
    ensures !contended ==> s.Snapshot() == old(s.Snapshot())
  {
    ghost var before := s.Snapshot();
    if contended { s.Environment(); }
    assert Inv(before) && Grows(before, s.Snapshot());
    SuccessiveNext(start, met, before, s.Snapshot());
    met' := met + [s.Snapshot()];
  }

  /** The verdict, from the states the compares met: the first one that fails or is unsupported decides. */
  predicate VerdictOf(compares: seq<Compare>, met: seq<Db>, v: Verdict) {
    if v == Decided(true) then |met| == |compares| && Held(compares, met, |compares|)
    else
      var n := |met| - 1;
      && 0 <= n < |compares| && Held(compares, met, n)
      && (compares[n].target.Unsupported? <==> v.InvalidTarget?)
      && (v.Decided? ==> !Holds(compares[n], LiveAt(met[n].table, compares[n].key, Now)))
  }

  /** Compares one by one, each a Get of its own: stops at the first failure or unsupported target. */
  method EvaluateCompare(s: Store, compares: seq<Compare>, contended: bool) returns (v: Verdict, ghost met: seq<Db>)
    requires s.Valid()
    modifies s
    ensures s.Valid() && Successive(old(s.Snapshot()), met, s.Snapshot()) && VerdictOf(compares, met, v)
    ensures !contended ==> s.Snapshot() == old(s.Snapshot()) && forall i | 0 <= i < |met| :: met[i] == s.Snapshot()
  {
    ghost var start := s.Snapshot();
    met := [];
    for i := 0 to |compares|
      invariant s.Valid() && |met| == i && Successive(start, met, s.Snapshot()) && Held(compares, met, i)
      invariant !contended ==> s.Snapshot() == start && forall j | 0 <= j < i :: met[j] == start
    {
      met := MeetNext(s, contended, start, met);
      GetNow(s.Snapshot(), compares[i].key);
      var kv := LiveAt(s.table, compares[i].key, Now);
      if compares[i].target.Unsupported? { return InvalidTarget, met; }
      if !Holds(compares[i], kv) { return Decided(false), met; }
    }
    v := Decided(true);
  }

  /** An unsupported target stands behind compares that all hold. */
  predicate ReachesUnsupported(t: Table, compares: seq<Compare>) {
    exists i :: 0 <= i < |compares| && compares[i].target.Unsupported? && AllHold(t, compares[..i])
  }

  /** With one state for all compares the verdict is the conjunction, unless an unsupported one is reached. */
  lemma QuietVerdict(compares: seq<Compare>, met: seq<Db>, v: Verdict, db: Db)
    requires VerdictOf(compares, met, v) && forall i | 0 <= i < |met| :: met[i] == db
    ensures v.InvalidTarget? <==> ReachesUnsupported(db.table, compares)
    ensures v.Decided? ==> v.succeeded == AllHold(db.table, compares)
  {
    if v == Decided(true) {
      forall c | c in compares ensures Holds(c, LiveAt(db.table, c.key, Now)) {
        var i :| 0 <= i < |compares| && compares[i] == c;
        assert met[i] == db;
      }
    } else {
      var n := |met| - 1;
      assert met[n] == db;
      if v.InvalidTarget? {
        assert AllHold(db.table, compares[..n]) by {
          forall c | c in compares[..n] ensures Holds(c, LiveAt(db.table, c.key, Now)) {
            var i :| 0 <= i < n && compares[i] == c;
            assert met[i] == db;
          }
        }
      } else {
        FailureEndsIt(db.table, compares, n);
      }
    }
  }

  lemma FailureEndsIt(t: Table, compares: seq<Compare>, i: nat)
    requires i < |compares| && !Holds(compares[i], LiveAt(t, compares[i].key, Now))
    ensures !AllHold(t, compares) && forall j | i < j < |compares| :: !AllHold(t, compares[..j])
  {
    assert compares[i] in compares;
    forall j | i < j < |compares| ensures !AllHold(t, compares[..j]) {
      assert compares[..j][i] in compares[..j];
    }
  }

  /** The sequential path's duplicate test does not look at the empty key. */
  predicate DuplicateNonEmptyKey(ops: seq<RequestOp>) {
    exists i, j :: 0 <= i < j < |ops| && !ops[i].ReqRange? && !ops[j].ReqRange? && ops[i].key == ops[j].key != []
  }

  predicate EmptyKeyTwice(ops: seq<RequestOp>) {
    exists i, j :: 0 <= i < j < |ops| && !ops[i].ReqRange? && !ops[j].ReqRange? && ops[i].key == ops[j].key == []
  }

  /** The test misses exactly the branches that mutate the empty key twice and repeat no other key. */
  lemma DuplicateTestMisses(ops: seq<RequestOp>)
    ensures !DistinctKeys(ops) <==> DuplicateNonEmptyKey(ops) || EmptyKeyTwice(ops)
  {
    var s := ToStoreOps(ops);
    forall i | 0 <= i < |ops| ensures Mutation(s[i]) <==> !ops[i].ReqRange? { }
    if !DistinctKeys(ops) {
      var i, j :| 0 <= i < j < |ops| && Mutation(s[i]) && Mutation(s[j]) && s[i].key == s[j].key;
      assert ops[i].key == ops[j].key;
    } else {
      forall i, j | 0 <= i < j < |ops| && !ops[i].ReqRange? && !ops[j].ReqRange? ensures ops[i].key != ops[j].key {
        assert Mutation(s[i]) && Mutation(s[j]);
      }
    }
  }

  /** Two puts of the empty key in one branch pass the test. */
  lemma EmptyKeySlipsThrough() returns (ops: seq<RequestOp>)
    ensures !DuplicateNonEmptyKey(ops) && !DistinctKeys(ops)
  {
    var put := ReqPut([], Some([]), 0, false);
    ops := [put, put];
    assert !ops[0].ReqRange? && !ops[1].ReqRange? && ops[0].key == ops[1].key == [];
    DuplicateTestMisses(ops);
  }

  method FindDuplicateKey(ops: seq<RequestOp>) returns (dup: bool)
    ensures dup <==> DuplicateNonEmptyKey(ops)
  {
    var seen: set<Key> := {};
    for i := 0 to |ops|
      invariant forall j | 0 <= j < i && !ops[j].ReqRange? && ops[j].key != [] :: ops[j].key in seen
      invariant forall k | k in seen :: exists j :: 0 <= j < i && !ops[j].ReqRange? && ops[j].key == k != []
      invariant forall a, b | 0 <= a < b < i && !ops[a].ReqRange? && !ops[b].ReqRange?
              && ops[a].key != [] :: ops[a].key != ops[b].key
    {
      if !ops[i].ReqRange? && ops[i].key != [] {
        if ops[i].key in seen { return true; }
        seen := seen + {ops[i].key};
      }
    }
    return false;
  }

  /** One operation through Range, Put or DeleteRange. */
  method ExecuteOne(s: Store, op: RequestOp) returns (resp: ResponseOp, ghost ts: int)
    requires s.Valid()
    modifies s
    ensures s.Valid() && SeqStep(old(s.Snapshot()), op, ts, s.Snapshot())
    ensures resp == Respond(op, ResultOf(old(s.table), ToStoreOp(op)))
  {
    match op
    case ReqRange(k) =>
      GetNow(s.Snapshot(), k);
      return RespRange(Maybe(true, LiveAt(s.table, k, Now))), 0;
    case ReqPut(k, v, lease, prevKv) => resp, ts := ExecutePut(s, op);
    case ReqDelete(k, prevKv) => resp, ts := ExecuteDelete(s, op);
  }

  method ExecutePut(s: Store, op: RequestOp) returns (resp: ResponseOp, ghost ts: int)
    requires s.Valid() && op.ReqPut?
    modifies s
    ensures s.Valid() && SeqStep(old(s.Snapshot()), op, ts, s.Snapshot())
    ensures resp == Respond(op, ResultOf(old(s.table), ToStoreOp(op)))
  {
    GetNow(s.Snapshot(), op.key);
    var _, rev, prev, _ := Put(s, op.key, op.value, op.lease, op.prevKv, false, NoFault);
    return RespPut(prev), rev;
  }

  method ExecuteDelete(s: Store, op: RequestOp) returns (resp: ResponseOp, ghost ts: int)
    requires s.Valid() && op.ReqDelete?
    modifies s
    ensures s.Valid() && SeqStep(old(s.Snapshot()), op, ts, s.Snapshot())
    ensures resp == Respond(op, ResultOf(old(s.table), ToStoreOp(op)))
  {
    var rev, prev, ok := s.Delete(op.key, 0);
    return RespDelete(if ok then 1 else 0, Maybe(op.prevKv, prev)), rev;
  }

  /** The operations in order, each a store call of its own: a sequential run. */
  method ExecuteOpsInOrder(s: Store, ops: seq<RequestOp>)
    returns (responses: seq<ResponseOp>, ghost dbs: seq<Db>, ghost stamps: seq<int>)
    requires s.Valid()
    modifies s
    ensures s.Valid() && SeqRun(dbs, stamps, ops) && dbs[0] == old(s.Snapshot()) && dbs[|ops|] == s.Snapshot()
    ensures responses == SeqResponses(dbs, ops)
  {
    responses, dbs, stamps := [], [s.Snapshot()], [];
    for i := 0 to |ops|
      invariant s.Valid() && SeqSoFar(dbs, stamps, ops, responses, i)
      invariant dbs[0] == old(s.Snapshot()) && dbs[i] == s.Snapshot()
    {
      var resp, ts := ExecuteOne(s, ops[i]);
      SeqSoFarNext(dbs, stamps, ops, responses, i, s.Snapshot(), ts, resp);
      responses := responses + [resp];
      stamps := stamps + [ts];
      dbs := dbs + [s.Snapshot()];
    }
  }

  /** The first i operations of a sequential run. */
  ghost predicate SeqSoFar(dbs: seq<Db>, stamps: seq<int>, ops: seq<RequestOp>, responses: seq<ResponseOp>, i: nat) {
    && i <= |ops| && |dbs| == i + 1 && |stamps| == i && |responses| == i
    && (forall j | 0 <= j < i :: SeqStep(dbs[j], ops[j], stamps[j], dbs[j + 1]))
    && (forall j | 0 <= j < i :: responses[j] == Respond(ops[j], ResultOf(dbs[j].table, ToStoreOp(ops[j]))))
  }

  lemma SeqSoFarNext(dbs: seq<Db>, stamps: seq<int>, ops: seq<RequestOp>, responses: seq<ResponseOp>, i: nat, db: Db,
      ts: int, resp: ResponseOp)
    requires SeqSoFar(dbs, stamps, ops, responses, i) && i < |ops| && SeqStep(dbs[i], ops[i], ts, db)
    requires resp == Respond(ops[i], ResultOf(dbs[i].table, ToStoreOp(ops[i])))
    ensures SeqSoFar(dbs + [db], stamps + [ts], ops, responses + [resp], i + 1)
  {
    var dbs', stamps' := dbs + [db], stamps + [ts];
    forall j | 0 <= j < i + 1 ensures SeqStep(dbs'[j], ops[j], stamps'[j], dbs'[j + 1]) {
      if j < i { assert SeqStep(dbs[j], ops[j], stamps[j], dbs[j + 1]); }
    }
  }

  datatype Reply = Answered(succeeded: bool, responses: seq<ResponseOp>) | Invalid

  predicate StepwiseRejects(t: Table, compares: seq<Compare>, success: seq<RequestOp>, failure: seq<RequestOp>) {
    DuplicateNonEmptyKey(success) || DuplicateNonEmptyKey(failure) || ReachesUnsupported(t, compares)
  }

  predicate AtomicRejects(compares: seq<Compare>, success: seq<RequestOp>, failure: seq<RequestOp>) {
    !DistinctKeys(success) || !DistinctKeys(failure) || exists c :: c in compares && c.target.Unsupported?
  }

  /**
   The atomic path rejects whatever the sequential one rejects. The other way round this holds on
   a table too unless what is wrong is an empty key mutated twice, or an unsupported target behind
   a compare that fails there.
   */
  lemma RejectionsAgree(t: Table, compares: seq<Compare>, success: seq<RequestOp>, failure: seq<RequestOp>)
    ensures StepwiseRejects(t, compares, success, failure) ==> AtomicRejects(compares, success, failure)
    ensures AtomicRejects(compares, success, failure) && !StepwiseRejects(t, compares, success, failure) ==>
              || EmptyKeyTwice(success) || EmptyKeyTwice(failure)
              || exists i, j :: 0 <= i < j < |compares| && compares[j].target.Unsupported?
                                && !Holds(compares[i], LiveAt(t, compares[i].key, Now))
  {
    DuplicateTestMisses(success);
    DuplicateTestMisses(failure);
    if c :| c in compares && c.target.Unsupported? {
      var j :| 0 <= j < |compares| && compares[j] == c;
      if !AllHold(t, compares[..j]) {
        var d :| d in compares[..j] && !Holds(d, LiveAt(t, d.key, Now));
        var i :| 0 <= i < j && compares[i] == d;
      }
    }
  }

  /** Compares, then operations, each a round trip of its own; here with nobody else writing. */
  method TxnNonAtomic(s: Store, compares: seq<Compare>, success: seq<RequestOp>, failure: seq<RequestOp>)
    returns (reply: Reply, ghost dbs: seq<Db>, ghost stamps: seq<int>)
    requires s.Valid()
    modifies s
    ensures s.Valid()
    ensures reply.Invalid? <==> StepwiseRejects(old(s.table), compares, success, failure)
    ensures reply.Invalid? ==> s.Snapshot() == old(s.Snapshot())
    ensures reply.Answered? ==>
              var ops := if AllHold(old(s.table), compares) then success else failure;
              && reply.succeeded == AllHold(old(s.table), compares)
              && SeqRun(dbs, stamps, ops) && dbs[0] == old(s.Snapshot()) && dbs[|ops|] == s.Snapshot()
              && reply.responses == SeqResponses(dbs, ops)
  {
    dbs, stamps := [], [];
    var dupSuccess := FindDuplicateKey(success);
    var dupFailure := FindDuplicateKey(failure);
    if dupSuccess || dupFailure { return Invalid, dbs, stamps; }
    var v, met := EvaluateCompare(s, compares, false);
    QuietVerdict(compares, met, v, s.Snapshot());
    if v.InvalidTarget? { return Invalid, dbs, stamps; }
    var ops := if v.succeeded then success else failure;
    var responses;
    responses, dbs, stamps := ExecuteOpsInOrder(s, ops);
    return Answered(v.succeeded, responses), dbs, stamps;
  }

  /** The same request in one Spanner transaction, however often it is aborted and retried. */
  method TxnAtomic(s: Store, compares: seq<Compare>, success: seq<RequestOp>, failure: seq<RequestOp>, aborts: nat)
    returns (reply: Reply, rev: int, ghost pre: Db)
    requires s.Valid()
    modifies s
    ensures s.Valid() && Inv(pre) && Grows(old(s.Snapshot()), pre)
    ensures reply.Invalid? <==> AtomicRejects(compares, success, failure)
    ensures reply.Invalid? ==> s.Snapshot() == old(s.Snapshot())
    ensures reply.Answered? ==>
              var ops := if AllHold(pre.table, compares) then success else failure;
              && reply.succeeded == AllHold(pre.table, compares)
              && reply.responses == AtomicResponses(pre.table, ops)
              && TxnCommitted(pre, s.Snapshot(), Txn(compares, ToStoreOps(success), ToStoreOps(failure)), rev)
  {
    pre := s.Snapshot();
    var successOps, failureOps := ToStoreOps(success), ToStoreOps(failure);
    var dupSuccess := FindDuplicate(successOps);
    var dupFailure := FindDuplicate(failureOps);
    if dupSuccess || dupFailure { return Invalid, 0, pre; }
    var succeeded, results, commitRev, err, from := s.AtomicTxn(compares, successOps, failureOps, aborts);
    if err.ErrUnsupportedCompare? { return Invalid, 0, pre; }
    pre := from;
    var ops := if succeeded then success else failure;
    assert err.NoErr?;
    var responses := BuildResponses(pre.table, ops, results);
    return Answered(succeeded, responses), commitRev, pre;
  }

  method BuildResponses(ghost t: Table, ops: seq<RequestOp>, results: seq<TxnResult>)
      returns (responses: seq<ResponseOp>)
    requires ResultsOf(t, ToStoreOps(ops), results)
    ensures responses == AtomicResponses(t, ops)
  {
    responses := [];
    for i := 0 to |ops|
      invariant |responses| == i
      invariant forall j | 0 <= j < i :: responses[j] == Respond(ops[j], ResultOf(t, ToStoreOp(ops[j])))
    {
      responses := responses + [Respond(ops[i], results[i])];
    }
  }
}
