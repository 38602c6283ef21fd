/**
 Compaction beside writers and other replicas: a compactor records a horizon, scans a batch of
 superseded rows and deletes that batch later, each as a step of its own.
 */
module Compaction {
  import opened Bytes
  import opened Rows
  import opened Log
  import opened Refinement
  import opened Histories

  const COMPACT_BATCH_SIZE := 1000

  /** The WHERE clause of the scan: at or below the target, and a strictly newer row exists. */
  predicate Eligible(t: set<Row>, target: int, r: Row) {
    r in t && r.rev <= RevToTs(target) && Superseded(t, r)
  }

  function EligibleRows(t: set<Row>, target: int): set<Row> {
    set r | r in t && Eligible(t, target, r)
  }

  /** Any answer the scan may give: no order is asked for, only the LIMIT binds. */
  predicate ScanAnswer(t: set<Row>, target: int, batch: set<Row>) {
    && batch <= EligibleRows(t, target)
    && |batch| <= COMPACT_BATCH_SIZE
    && (|batch| < COMPACT_BATCH_SIZE ==> batch == EligibleRows(t, target))
  }

  /** The compare-and-advance of kv_rev. */
  function Advance(kvRev: Option<int>, target: int): Option<int> {
    if kvRev.Some? && kvRev.value >= RevToTs(target) then kvRev else Some(RevToTs(target))
  }

  // ---------- the interleaved system ----------

  datatype Compactor =
    | Idle
    | Recorded(target: int)
    | Scanned(target: int, batch: set<Row>)

  /** `targets` remembers every timestamp some compactor asked to record. */
  datatype Sys = Sys(db: Db, compactors: map<nat, Compactor>, targets: set<int>)

  datatype Event =
    | Seed                             // at start-up, on any replica
    | Write(req: Request, ts: int)
    | Record(who: nat, target: int)    // manual or automatic, on any replica
    | Raise(who: nat)                  // re-read kv_rev and take the larger target
    | Scan(who: nat, batch: set<Row>)
    | Remove(who: nat)
    | Quit(who: nat)                   // done, failed or timed out

  function CompactorAt(s: Sys, who: nat): Compactor {
    if who in s.compactors then s.compactors[who] else Idle
  }

  ghost predicate Step(s: Sys, e: Event, s': Sys) {
    match e
    case Seed =>
      s' == s.(db := s.db.(kvRev := if s.db.kvRev.Some? then s.db.kvRev else Some(1)))
    case Write(req, ts) =>
      Inv(s.db) && Fresh(s.db, ts) && s' == s.(db := After(s.db, req, ts))
    case Record(who, target) =>
      s' == Sys(s.db.(kvRev := Advance(s.db.kvRev, target)),
                s.compactors[who := Recorded(RevToTs(target))], s.targets + {RevToTs(target)})
    case Raise(who) =>
      && CompactorAt(s, who).Recorded?
      && s' == s.(compactors := s.compactors[who := Recorded(
                 if Horizon(s.db) > CompactorAt(s, who).target then Horizon(s.db) else CompactorAt(s, who).target)])
    case Scan(who, batch) =>
      && CompactorAt(s, who).Recorded?
      && ScanAnswer(s.db.table, CompactorAt(s, who).target, batch)
      && s' == s.(compactors := s.compactors[who := Scanned(CompactorAt(s, who).target, batch)])
    case Remove(who) =>
      && CompactorAt(s, who).Scanned?
      && s' == s.(db := s.db.(table := s.db.table - CompactorAt(s, who).batch),
                  compactors := s.compactors[who := Recorded(CompactorAt(s, who).target)])
    case Quit(who) =>
      s' == s.(compactors := s.compactors[who := Idle])
  }

  ghost predicate Init(s: Sys) {
    s.db == Db({}, {}, None) && s.compactors == map[] && s.targets == {}
  }

  /** A run: states joined by steps. */
  ghost predicate Run(states: seq<Sys>, events: seq<Event>) {
    |states| == |events| + 1 && forall i | 0 <= i < |events| :: Step(states[i], events[i], states[i + 1])
  }

  // ---------- the invariant ----------

  predicate CompactorInv(s: Sys, c: Compactor) {
    match c
    case Idle => true
    case Recorded(target) => RevToTs(target) <= Horizon(s.db)
    case Scanned(target, batch) =>
      && RevToTs(target) <= Horizon(s.db)
      && forall r | r in batch :: r in s.db.history && r.rev <= RevToTs(target) && Superseded(s.db.history, r)
  }

  /** The horizon is the largest of the seed and all recorded targets. */
  predicate HorizonIsMax(s: Sys) {
    && (s.db.kvRev.Some? ==> s.db.kvRev.value >= 1)
    && (forall t | t in s.targets :: t <= Horizon(s.db))
    && (Horizon(s.db) == 1 || Horizon(s.db) in s.targets)
  }

  predicate SysInv(s: Sys) {
    && Inv(s.db)
    && HorizonIsMax(s)
    && forall who | who in s.compactors :: CompactorInv(s, s.compactors[who])
  }

  lemma SupersededGrows(h: set<Row>, h': set<Row>, r: Row)
    requires Superseded(h, r) && h <= h'
    ensures Superseded(h', r)
  {
    var x :| x in h && x.key == r.key && x.rev > r.rev;
    assert x in h';
  }

  lemma CompactorInvGrows(s: Sys, s': Sys, c: Compactor)
    requires CompactorInv(s, c) && s.db.history <= s'.db.history && Horizon(s.db) <= Horizon(s'.db)
    ensures CompactorInv(s', c)
  {
    if c.Scanned? {
      forall r | r in c.batch ensures Superseded(s'.db.history, r) {
        SupersededGrows(s.db.history, s'.db.history, r);
      }
    }
  }

  lemma AdvanceIsMax(kvRev: Option<int>, db: Db, target: int)
    requires kvRev.Some? ==> kvRev.value >= 1
    requires db.kvRev == kvRev
    ensures var h := Horizon(db.(kvRev := Advance(kvRev, target)));
            h == if Horizon(db) >= RevToTs(target) then Horizon(db) else RevToTs(target)
  {
  }

  lemma InvSurvivesHorizon(db: Db, kvRev: Option<int>)
    requires Inv(db) && Horizon(db) <= Horizon(db.(kvRev := kvRev))
    ensures Inv(db.(kvRev := kvRev)) && Grows(db, db.(kvRev := kvRev))
  {
    var db' := db.(kvRev := kvRev);
    forall r | r in db'.history ensures Kept(db', r) {
      assert Kept(db, r);
    }
  }

  /** Deleting rows the history supersedes, at or below the horizon, keeps the invariant. */
  lemma InvSurvivesRemoval(db: Db, batch: set<Row>)
    requires Inv(db)
    requires forall r | r in batch :: Superseded(db.history, r) && r.rev <= Horizon(db)
    ensures Inv(db.(table := db.table - batch)) && Grows(db, db.(table := db.table - batch))
  {
    var db' := db.(table := db.table - batch);
    forall r | r in db'.history ensures Kept(db', r) {
      assert Kept(db, r);
    }
    assert Chain(db'.history);
  }

  lemma StepKeepsInv(s: Sys, e: Event, s': Sys)
    requires SysInv(s) && Step(s, e, s')
    ensures SysInv(s') && Grows(s.db, s'.db)
  {
    match e
    case Seed =>
      InvSurvivesHorizon(s.db, s'.db.kvRev);
      StepDb(s, s');
    case Write(req, ts) => StepDb(s, s');
    case Record(who, target) => RecordKeepsInv(s, who, target, s');
    case Raise(who) => StepDb(s, s');
    case Scan(who, batch) => ScanKeepsInv(s, who, batch, s');
    case Remove(who) => RemoveKeepsInv(s, who, s');
    case Quit(who) => StepDb(s, s');
  }

  lemma RecordKeepsInv(s: Sys, who: nat, target: int, s': Sys)
    requires SysInv(s) && Step(s, Record(who, target), s')
    ensures SysInv(s') && Grows(s.db, s'.db)
  {
    AdvanceIsMax(s.db.kvRev, s.db, target);
    InvSurvivesHorizon(s.db, s'.db.kvRev);
    StepDb(s, s');
  }

  /** A compactor that looks again cleans up as far as the horizon reaches by then. */
  lemma RaiseReachesHorizon(s: Sys, who: nat, s': Sys)
    requires SysInv(s) && Step(s, Raise(who), s')
    ensures CompactorAt(s', who).Recorded? && CompactorAt(s', who).target == Horizon(s'.db) && s'.db == s.db
  {
    assert CompactorInv(s, s.compactors[who]);
  }

  lemma ScanKeepsInv(s: Sys, who: nat, batch: set<Row>, s': Sys)
    requires SysInv(s) && Step(s, Scan(who, batch), s')
    ensures SysInv(s') && Grows(s.db, s'.db)
  {
    forall r | r in batch ensures Superseded(s.db.history, r) {
      SupersededGrows(s.db.table, s.db.history, r);
    }
    StepDb(s, s');
  }

  lemma RemoveKeepsInv(s: Sys, who: nat, s': Sys)
    requires SysInv(s) && Step(s, Remove(who), s')
    ensures SysInv(s') && Grows(s.db, s'.db)
  {
    assert CompactorInv(s, s.compactors[who]);
    InvSurvivesRemoval(s.db, CompactorAt(s, who).batch);
    StepDb(s, s');
  }

  /** Compactors that did not move keep their part of the invariant. */
  lemma StepDb(s: Sys, s': Sys)
    requires SysInv(s) && s.db.history <= s'.db.history && Horizon(s.db) <= Horizon(s'.db)
    ensures forall who | who in s.compactors :: CompactorInv(s', s.compactors[who])
  {
    forall who | who in s.compactors ensures CompactorInv(s', s.compactors[who]) {
      CompactorInvGrows(s, s', s.compactors[who]);
    }
  }

  // ---------- whole runs ----------

  lemma {:induction false} RunKeepsInv(states: seq<Sys>, events: seq<Event>, i: nat, j: nat)
    requires Run(states, events) && i <= j < |states| && SysInv(states[i])
    ensures SysInv(states[j]) && Grows(states[i].db, states[j].db)
    decreases j - i
  {
    if i < j {
      StepKeepsInv(states[i], events[i], states[i + 1]);
      RunKeepsInv(states, events, i + 1, j);
      GrowsTransitive(states[i].db, states[i + 1].db, states[j].db);
    }
  }

  lemma InitInv(s: Sys)
    requires Init(s)
    ensures SysInv(s)
  {
  }

  /**
   Over every run from an empty store: the horizon is the maximum of the seed and all recorded
   targets and never goes down, every row ever removed is at or below it, and the current
   revision never goes down.
   */
  lemma HorizonOverRuns(states: seq<Sys>, events: seq<Event>, i: nat, j: nat)
    requires Run(states, events) && Init(states[0]) && i <= j < |states|
    ensures HorizonIsMax(states[j])
    ensures Horizon(states[i].db) <= Horizon(states[j].db)
    ensures forall r | r in states[i].db.history && r !in states[j].db.table :: r.rev <= Horizon(states[j].db)
    ensures CurrentRevision(states[i].db.table) <= CurrentRevision(states[j].db.table)
  {
    InitInv(states[0]);
    RunKeepsInv(states, events, 0, i);
    RunKeepsInv(states, events, i, j);
    CurrentRevisionGrows(states[i].db, states[j].db);
    forall r | r in states[i].db.history && r !in states[j].db.table ensures r.rev <= Horizon(states[j].db) {
      assert Kept(states[j].db, r);
    }
  }

  lemma CompactorStepKeepsPresent(s: Sys, e: Event, s': Sys)
    requires SysInv(s) && Step(s, e, s') && !e.Write?
    ensures View(s'.db.table, Now) == View(s.db.table, Now)
    ensures CurrentRevision(s'.db.table) == CurrentRevision(s.db.table)
  {
    StepKeepsInv(s, e, s');
    assert s'.db.history == s.db.history;
    LatestKept(s.db);
    LatestKept(s'.db);
    CurrentRevisionIsGlobal(s.db);
    CurrentRevisionIsGlobal(s'.db);
  }

  /**
   Compaction never touches the present: in every interleaving the newest row ever written for a
   key is in the table, so reads of the latest row answer from the full history, and a step of a
   compactor changes none of them.
   */
  lemma PresentSurvivesRuns(states: seq<Sys>, events: seq<Event>, i: nat)
    requires Run(states, events) && Init(states[0]) && i < |states|
    ensures forall k :: Newest(states[i].db.table, k, Now) == Newest(states[i].db.history, k, Now)
    ensures i < |events| && !events[i].Write? ==>
              && View(states[i + 1].db.table, Now) == View(states[i].db.table, Now)
              && CurrentRevision(states[i + 1].db.table) == CurrentRevision(states[i].db.table)
  {
    InitInv(states[0]);
    RunKeepsInv(states, events, 0, i);
    LatestKept(states[i].db);
    if i < |events| && !events[i].Write? { CompactorStepKeepsPresent(states[i], events[i], states[i + 1]); }
  }

  /** The map a run shows is the fold of its committed requests over the empty map. */
  function Committed(m: KvMap, events: seq<Event>): KvMap {
    if events == [] then m
    else
      var e := events[|events| - 1];
      var m' := Committed(m, events[..|events| - 1]);
      if e.Write? then MapApply(m', e.req, e.ts) else m'
  }

  lemma StepRefines(s: Sys, e: Event, s': Sys)
    requires SysInv(s) && Step(s, e, s')
    ensures View(s'.db.table, Now) == if e.Write? then MapApply(View(s.db.table, Now), e.req,
            e.ts) else View(s.db.table, Now)
  {
    if e.Write? { RowLogRefinesMap(s.db, e.req, e.ts); } else { CompactorStepKeepsPresent(s, e, s'); }
  }

  /**
   The whole store refines one map: after any run of writes and compactions on any number of
   replicas, the table shows exactly what the committed requests, applied in order to an empty
   map, would have produced.
   */
  lemma {:induction false} RunRefinesMap(states: seq<Sys>, events: seq<Event>)
    requires Run(states, events) && Init(states[0])
    ensures View(states[|events|].db.table, Now) == Committed(map[], events)
    decreases |events|
  {
    InitInv(states[0]);
    if events == [] {
      assert View(states[0].db.table, Now) == map[];
    } else {
      var n := |events| - 1;
      RunRefinesMap(states[..n + 1], events[..n]);
      RunKeepsInv(states, events, 0, n);
      StepRefines(states[n], events[n], states[n + 1]);
    }
  }

  // ---------- historical reads ----------

  /**
   What a finished compaction does to any capped read: the visible row stays unless it is at or
   below the target and superseded, and then the key has no row left under the cap.
   */
  lemma FinishedCompactionRead(t: Table, target: int, k: Key, cap: int)
    ensures var v := Newest(t, k, At(cap));
            Newest(t - EligibleRows(t, target), k, At(cap))
            == if v.Some? && Eligible(t, target, v.value) then None else v
  {
    var v, u := Newest(t, k, At(cap)), t - EligibleRows(t, target);
    if v.Some? {
      if Eligible(t, target, v.value) {
        forall x | x in u && x.key == k ensures !Under(x.rev, At(cap)) {
          if Under(x.rev, At(cap)) && x != v.value {
            assert x.rev < v.value.rev;
            assert Superseded(t, x);
          }
        }
        assert Newest(u, k, At(cap)).None?;
      } else {
        assert IsNewest(u, k, At(cap), v.value);
        NewestIs(u, k, At(cap), v.value);
      }
    }
  }

  /**
   A read at a revision above the target survives a finished compaction exactly when its row is
   above the target, is a tombstone, or is still the newest of its key; the one case lost is a
   live row at or below the target that was superseded after the revision read.
   */
  lemma HistoricalReadSurvivesIff(t: Table, target: int, k: Key, rev: int)
    requires rev > RevToTs(target)
    ensures var v := Newest(t, k, At(rev));
            LiveAt(t - EligibleRows(t, target), k, At(rev)) == LiveAt(t, k, At(rev))
            <==> !(&& v.Some? && !v.value.deleted && v.value.rev <= RevToTs(target)
                   && exists s :: s in t && s.key == k && s.rev > rev)
  {
    FinishedCompactionRead(t, target, k, rev);
    var v := Newest(t, k, At(rev));
    if v.Some? {
      if s :| s in t && s.key == k && s.rev > rev {
        assert s.rev > v.value.rev;
        assert Superseded(t, v.value);
      } else {
        assert forall s | s in t && s.key == k :: Under(s.rev, At(rev));
      }
    }
  }

  /** Rows superseded at or below the target: the test with the newer row bounded too. */
  predicate BoundedEligible(t: set<Row>, target: int, r: Row) {
    r in t && r.rev <= RevToTs(target) && exists s :: s in t && s.key == r.key && r.rev < s.rev <= RevToTs(target)
  }

  /** With that bound no read at or above the target would change, even half way through. */
  lemma BoundedCompactionKeepsReads(t: Table, target: int, removed: set<Row>, k: Key, rev: int)
    requires rev >= RevToTs(target)
    requires forall r | r in removed :: BoundedEligible(t, target, r)
    ensures Newest(t - removed, k, At(rev)) == Newest(t, k, At(rev))
  {
    var v := Newest(t, k, At(rev));
    if v.Some? {
      assert v.value !in removed;
      assert IsNewest(t - removed, k, At(rev), v.value);
      NewestIs(t - removed, k, At(rev), v.value);
    }
  }

  // ---------- between two batches ----------

  function Between(t: set<Row>, k: Key, low: int, high: int): set<Row> {
    set r | r in t && r.key == k && low < r.rev <= high
  }

  /** What is gone before each batch of an undisturbed compaction, and after the last. */
  predicate Batches(t: Table, target: int, gones: seq<set<Row>>) {
    && gones != [] && gones[0] == {}
    && forall i {:trigger BatchAt(t, target, gones, i)} | 0 <= i < |gones| - 1 :: BatchAt(t, target, gones, i)
  }

  predicate BatchAt(t: Table, target: int, gones: seq<set<Row>>, i: nat)
    requires i < |gones| - 1
  {
    NextBatch(t, target, gones[i], gones[i + 1])
  }

  /** The rows gone after n batches, each scan free in its choice. */
  ghost predicate AfterBatches(t: Table, target: int, n: nat, gone: set<Row>) {
    exists gones :: |gones| == n + 1 && Batches(t, target, gones) && gones[n] == gone
  }

  predicate NextBatch(t: Table, target: int, before: set<Row>, gone: set<Row>) {
    before <= gone && ScanAnswer(t - before, target, gone - before)
  }

  /** As many of them as n batches hold. */
  predicate Taken<T>(all: set<T>, n: nat, gone: set<T>) {
    && gone <= all && |gone| <= n * COMPACT_BATCH_SIZE
    && (|gone| < n * COMPACT_BATCH_SIZE ==> gone == all)
  }

  /** Removing some eligible rows leaves exactly the others eligible: the newest row stays. */
  lemma EligibleAfterRemoval(t: Table, target: int, batch: set<Row>)
    requires batch <= EligibleRows(t, target)
    ensures EligibleRows(t - batch, target) == EligibleRows(t, target) - batch
  {
    forall r | r in EligibleRows(t, target) - batch ensures r in EligibleRows(t - batch, target) {
      var n := Newest(t, r.key, Now).value;
      assert !Superseded(t, n);
      assert n in t - batch && n.key == r.key && n.rev > r.rev;
      assert Superseded(t - batch, r);
    }
    forall r | r in EligibleRows(t - batch, target) ensures r in EligibleRows(t, target) - batch {
      SupersededGrows(t - batch, t, r);
    }
  }

  lemma {:induction false} GrowTo<T>(must: set<T>, all: set<T>, n: nat) returns (batch: set<T>)
    requires must <= all && |must| <= n <= |all|
    ensures must <= batch <= all && |batch| == n
    decreases n - |must|
  {
    if |must| == n {
      batch := must;
    } else {
      assert all != must;
      var x :| x in all && x !in must;
      batch := GrowTo(must + {x}, all, n);
    }
  }

  lemma TakeMore<T>(all: set<T>, n: nat, before: set<T>, gone: set<T>)
    requires Taken(all, n, before) && before <= gone && Taken(all - before, 1, gone - before)
    ensures Taken(all, n + 1, gone)
  {
    assert gone == before + (gone - before);
  }

  lemma TakeLess<T>(all: set<T>, n: nat, gone: set<T>) returns (before: set<T>)
    requires Taken(all, n + 1, gone)
    ensures Taken(all, n, before) && before <= gone && Taken(all - before, 1, gone - before)
  {
    if |gone| <= n * COMPACT_BATCH_SIZE {
      before := gone;
    } else {
      before := GrowTo({}, gone, n * COMPACT_BATCH_SIZE);
    }
    assert |gone - before| == |gone| - |before|;
  }

  lemma BatchMore(t: Table, target: int, n: nat, before: set<Row>, gone: set<Row>)
    requires Taken(EligibleRows(t, target), n, before) && NextBatch(t, target, before, gone)
    ensures Taken(EligibleRows(t, target), n + 1, gone)
  {
    EligibleAfterRemoval(t, target, before);
    TakeMore(EligibleRows(t, target), n, before, gone);
  }

  lemma BatchLess(t: Table, target: int, n: nat, gone: set<Row>) returns (before: set<Row>)
    requires Taken(EligibleRows(t, target), n + 1, gone)
    ensures Taken(EligibleRows(t, target), n, before) && NextBatch(t, target, before, gone)
  {
    before := TakeLess(EligibleRows(t, target), n, gone);
    EligibleAfterRemoval(t, target, before);
  }

  lemma BatchAtMore(t: Table, target: int, gones: seq<set<Row>>, i: nat)
    requires i < |gones| - 1 && BatchAt(t, target, gones, i) && Taken(EligibleRows(t, target), i, gones[i])
    ensures Taken(EligibleRows(t, target), i + 1, gones[i + 1])
  {
    BatchMore(t, target, i, gones[i], gones[i + 1]);
  }

  lemma {:induction false} BatchesTake(t: Table, target: int, gones: seq<set<Row>>, n: nat)
    requires Batches(t, target, gones) && n < |gones|
    ensures Taken(EligibleRows(t, target), n, gones[n])
    decreases n
  {
    if n > 0 {
      BatchesTake(t, target, gones, n - 1);
      BatchAtMore(t, target, gones, n - 1);
    }
  }

  lemma {:induction false} TakeInBatches(t: Table, target: int, n: nat, gone: set<Row>) returns (gones: seq<set<Row>>)
    requires Taken(EligibleRows(t, target), n, gone)
    ensures Batches(t, target, gones) && |gones| == n + 1 && gones[n] == gone
    decreases n
  {
    if n == 0 {
      gones := [{}];
    } else {
      var before := BatchLess(t, target, n - 1, gone);
      gones := TakeInBatches(t, target, n - 1, before);
      gones := AddBatch(t, target, gones, gone);
    }
  }

  lemma AddBatch(t: Table, target: int, gones: seq<set<Row>>, gone: set<Row>) returns (gones': seq<set<Row>>)
    requires Batches(t, target, gones) && NextBatch(t, target, gones[|gones| - 1], gone)
    ensures Batches(t, target, gones') && |gones'| == |gones| + 1 && gones'[|gones|] == gone
  {
    gones' := gones + [gone];
    forall i | 0 <= i < |gones'| - 1 ensures BatchAt(t, target, gones', i) {
      if i < |gones| - 1 { assert BatchAt(t, target, gones, i); }
    }
  }

  /** n batches can remove any n thousand eligible rows, or all of them if there are no more. */
  lemma AfterBatchesIff(t: Table, target: int, n: nat, gone: set<Row>)
    ensures AfterBatches(t, target, n, gone) <==> Taken(EligibleRows(t, target), n, gone)
  {
    if AfterBatches(t, target, n, gone) {
      var gones :| |gones| == n + 1 && Batches(t, target, gones) && gones[n] == gone;
      BatchesTake(t, target, gones, n);
    }
    if Taken(EligibleRows(t, target), n, gone) {
      var gones := TakeInBatches(t, target, n, gone);
    }
  }

  /**
   The older live row r can come to light in place of v: there is more to remove than n batches
   hold, and they have room for v and everything of the key down to, but not including, r.
   */
  predicate Surfaces(t: Table, target: int, n: nat, v: Row, r: Row) {
    && r in t && r.key == v.key && !r.deleted && r.rev < v.rev
    && |Between(t, v.key, r.rev, v.rev)| <= n * COMPACT_BATCH_SIZE < |EligibleRows(t, target)|
  }

  /** The row the read sees is eligible, and r surfaces in its place. */
  predicate CanShow(t: Table, target: int, n: nat, k: Key, cap: int, r: Row) {
    var v := Newest(t, k, At(cap));
    v.Some? && Eligible(t, target, v.value) && Surfaces(t, target, n, v.value, r)
  }

  /** Once these n batches are gone, a read at the cap answers with r. */
  ghost predicate CutShows(t: Table, target: int, n: nat, gone: set<Row>, k: Key, cap: int, r: Row) {
    AfterBatches(t, target, n, gone) && LiveAt(t - gone, k, At(cap)) == Some(r)
  }

  lemma OlderIsEligible(t: Table, target: int, v: Row, x: Row)
    requires Eligible(t, target, v) && x in t && x.key == v.key && x.rev <= v.rev
    ensures Eligible(t, target, x)
  {
    assert x.rev < v.rev ==> Superseded(t, x);
  }

  lemma ShownSurfaces(t: Table, target: int, n: nat, gone: set<Row>, k: Key, cap: int, r: Row)
    requires Taken(EligibleRows(t, target), n, gone) && LiveAt(t - gone, k, At(cap)) == Some(r)
    requires Newest(t, k, At(cap)) != Some(r)
    ensures CanShow(t, target, n, k, cap, r)
  {
    var v := Newest(t, k, At(cap)).value;
    assert v !in gone ==> IsNewest(t - gone, k, At(cap), v);
    OlderIsEligible(t, target, v, r);
    assert Between(t, k, r.rev, v.rev) <= gone;
    SubsetSize(Between(t, k, r.rev, v.rev), gone);
    SubsetSize(gone + {r}, EligibleRows(t, target));
  }

  lemma SurfacesShown(t: Table, target: int, n: nat, k: Key, cap: int, r: Row) returns (gone: set<Row>)
    requires CanShow(t, target, n, k, cap, r)
    ensures Taken(EligibleRows(t, target), n, gone) && LiveAt(t - gone, k, At(cap)) == Some(r)
  {
    var v, all := Newest(t, k, At(cap)).value, EligibleRows(t, target);
    var must := Between(t, k, r.rev, v.rev);
    forall x | x in must ensures x in all { OlderIsEligible(t, target, v, x); }
    OlderIsEligible(t, target, v, r);
    gone := GrowTo(must, all - {r}, n * COMPACT_BATCH_SIZE);
    assert IsNewest(t - gone, k, At(cap), r);
    NewestIs(t - gone, k, At(cap), r);
  }

  /**
   A compaction stopped after n batches can answer a read with another row than before exactly
   when the row the read saw is eligible and that other row surfaces. In particular it cannot when
   n batches take everything.
   */
  lemma CutShowsIff(t: Table, target: int, n: nat, k: Key, cap: int, r: Row)
    requires Newest(t, k, At(cap)) != Some(r)
    ensures (exists gone :: CutShows(t, target, n, gone, k, cap, r)) <==> CanShow(t, target, n, k, cap, r)
  {
    if gone :| CutShows(t, target, n, gone, k, cap, r) {
      AfterBatchesIff(t, target, n, gone);
      ShownSurfaces(t, target, n, gone, k, cap, r);
    }
    if CanShow(t, target, n, k, cap, r) {
      var gone := SurfacesShown(t, target, n, k, cap, r);
      AfterBatchesIff(t, target, n, gone);
      assert CutShows(t, target, n, gone, k, cap, r);
    }
  }

  predicate KeepsRead(t: Table, gone: set<Row>, k: Key, cap: int) {
    LiveAt(t - gone, k, At(cap)) == LiveAt(t, k, At(cap))
  }

  /**
   Whatever n batches the scans choose, a read stays as it was: exactly unless its row is eligible
   and is live, or is a tombstone over a row that surfaces.
   */
  lemma EveryCutKeepsReadIff(t: Table, target: int, n: nat, k: Key, cap: int)
    ensures (forall gone | AfterBatches(t, target, n, gone) :: KeepsRead(t, gone, k, cap))
            <==> var v := Newest(t, k, At(cap));
                 !(&& v.Some? && Eligible(t, target, v.value)
                   && ((n > 0 && !v.value.deleted) || exists r :: Surfaces(t, target, n, v.value, r)))
  {
    var v := Newest(t, k, At(cap));
    if v.Some? && Eligible(t, target, v.value) && n > 0 && !v.value.deleted {
      var gone := CutWith(t, target, n, v.value);
      AfterBatchesIff(t, target, n, gone);
      assert !KeepsRead(t, gone, k, cap);
    } else if v.Some? && Eligible(t, target, v.value) && exists r :: Surfaces(t, target, n, v.value, r) {
      var r :| Surfaces(t, target, n, v.value, r);
      var gone := SurfacesShown(t, target, n, k, cap, r);
      AfterBatchesIff(t, target, n, gone);
      assert !KeepsRead(t, gone, k, cap);
    } else {
      forall gone | AfterBatches(t, target, n, gone) ensures KeepsRead(t, gone, k, cap) {
        AfterBatchesIff(t, target, n, gone);
        UntouchedRead(t, target, n, gone, k, cap);
      }
    }
  }

  lemma CutWith(t: Table, target: int, n: nat, v: Row) returns (gone: set<Row>)
    requires Eligible(t, target, v) && n > 0
    ensures Taken(EligibleRows(t, target), n, gone) && v in gone
  {
    var all := EligibleRows(t, target);
    if |all| <= n * COMPACT_BATCH_SIZE {
      gone := all;
    } else {
      gone := GrowTo({v}, all, n * COMPACT_BATCH_SIZE);
    }
  }

  lemma UntouchedRead(t: Table, target: int, n: nat, gone: set<Row>, k: Key, cap: int)
    requires Taken(EligibleRows(t, target), n, gone)
    requires var v := Newest(t, k, At(cap));
             v.Some? && Eligible(t, target, v.value) ==>
               (n == 0 || v.value.deleted) && forall r :: !Surfaces(t, target, n, v.value, r)
    ensures KeepsRead(t, gone, k, cap)
  {
    var v := Newest(t, k, At(cap));
    if n == 0 {
      assert t - gone == t;
    } else if v.Some? && !Eligible(t, target, v.value) {
      assert IsNewest(t - gone, k, At(cap), v.value);
      NewestIs(t - gone, k, At(cap), v.value);
    } else if v.Some? && LiveAt(t - gone, k, At(cap)).Some? {
      ShownSurfaces(t, target, n, gone, k, cap, LiveAt(t - gone, k, At(cap)).value);
    }
  }

  // ---------- runs that lose a read ----------

  /** A run that writes n versions of a key and does nothing else. */
  lemma {:induction false} VersionsRun(k: Key, n: nat) returns (states: seq<Sys>, events: seq<Event>)
    ensures Run(states, events) && Init(states[0]) && states[|events|] == Sys(Versions(k, n), map[], {})
    decreases n
  {
    if n == 0 {
      states, events := [Sys(Nothing(), map[], {})], [];
    } else {
      states, events := VersionsRun(k, n - 1);
      var s := states[|events|];
      WriteVersion(s.db, k, n);
      states, events := AddStep(states, events, Write(VersionRequest(k, n), 2 * n), Sys(Versions(k, n), map[], {}));
    }
  }

  lemma AddStep(states: seq<Sys>, events: seq<Event>, e: Event, s: Sys) returns (states': seq<Sys>, events': seq<Event>)
    requires Run(states, events) && Step(states[|events|], e, s)
    ensures Run(states', events') && states'[0] == states[0] && states'[|events'|] == s
  {
    states', events' := states + [s], events + [e];
    forall i | 0 <= i < |events'| ensures Step(states'[i], events'[i], states'[i + 1]) {
      if i < |events| { assert Step(states[i], events[i], states[i + 1]); }
    }
  }

  /** One batch of a compaction up to `target`, alone. */
  lemma CompactOnce(states: seq<Sys>, events: seq<Event>, db: Db, target: int, batch: set<Row>)
    returns (states': seq<Sys>, events': seq<Event>)
    requires Run(states, events) && Init(states[0]) && states[|events|] == Sys(db, map[], {})
    requires db.kvRev == None && target >= 2 && ScanAnswer(db.table, target, batch)
    ensures Run(states', events') && Init(states'[0])
    ensures states'[|events'|].db == Db(db.table - batch, db.history, Some(target))
  {
    var recorded := db.(kvRev := Some(target));
    states', events' :=
      AddStep(states, events, Record(0, target), Sys(recorded, map[0 := Recorded(target)], {target}));
    states', events' :=
      AddStep(states', events', Scan(0, batch), Sys(recorded, map[0 := Scanned(target, batch)], {target}));
    states', events' :=
      AddStep(states', events', Remove(0),
              Sys(recorded.(table := db.table - batch), map[0 := Recorded(target)], {target}));
  }

  /** The n-th version is newest at an odd revision just above it. */
  lemma VersionVisible(db: Db, k: Key, n: nat, i: nat) returns (r: Row)
    requires Inv(db) && IsVersions(db, k, n) && 1 <= i <= n
    ensures r in db.table && r.rev == 2 * i && LiveAt(db.table, k, At(2 * i + 1)) == Some(r)
    ensures i < n ==> Eligible(db.table, 2 * i, r)
  {
    assert HasVersion(db.table, i);
    r :| r in db.table && r.rev == 2 * i;
    assert IsNewest(db.table, k, At(2 * i + 1), r);
    NewestIs(db.table, k, At(2 * i + 1), r);
    if i < n {
      assert HasVersion(db.table, n);
      var s :| s in db.table && s.rev == 2 * n;
      assert Superseded(db.table, r);
    }
  }

  lemma VersionsEligible(db: Db, k: Key, n: nat)
    requires IsVersions(db, k, n) && n > 0
    ensures |EligibleRows(db.table, 2 * (n - 1))| == n - 1
  {
    assert HasVersion(db.table, n);
    var s :| s in db.table && s.rev == 2 * n;
    forall x | x in db.table && x != s ensures x in EligibleRows(db.table, 2 * (n - 1)) {
      OlderVersionEligible(db.table, k, n, s, x);
    }
    assert EligibleRows(db.table, 2 * (n - 1)) == db.table - {s};
  }

  lemma OlderVersionEligible(t: Table, k: Key, n: nat, s: Row, x: Row)
    requires n > 0 && OnlyVersions(t, k, n) && s in t && s.rev == 2 * n && x in t && x != s
    ensures Eligible(t, 2 * (n - 1), x)
  {
    assert x.rev < s.rev;
    assert Superseded(t, x);
  }

  /** A read above the horizon, so not refused, and what it would have answered without compaction. */
  predicate AcceptedRead(db: Db, k: Key, rev: int) {
    rev > Horizon(db) && LiveAt(db.history, k, At(rev)).Some?
  }

  /** Two writes and one whole compaction, and a read between the two revisions finds nothing. */
  lemma HistoricalReadLost() returns (states: seq<Sys>, events: seq<Event>, k: Key, rev: int)
    ensures Run(states, events) && Init(states[0])
    ensures var db := states[|events|].db; AcceptedRead(db, k, rev) && LiveAt(db.table, k, At(rev)) == None
  {
    k, rev := [97], 3;
    states, events := ReadLostAfter(k, 2);
  }

  lemma ReadLostAfter(k: Key, n: nat) returns (states: seq<Sys>, events: seq<Event>)
    requires n == 2
    ensures Run(states, events) && Init(states[0])
    ensures var db := states[|events|].db; AcceptedRead(db, k, 3) && LiveAt(db.table, k, At(3)) == None
  {
    states, events := VersionsRun(k, n);
    var db := Versions(k, n);
    var v := VersionVisible(db, k, n, 1);
    VersionsEligible(db, k, n);
    FinishedCompactionRead(db.table, 2, k, 3);
    states, events := CompactOnce(states, events, db, 2, EligibleRows(db.table, 2));
  }

  /** A run after which a read above the horizon is answered with an older row than it should be. */
  ghost predicate ShowsOlderRow(states: seq<Sys>, events: seq<Event>, k: Key, rev: int) {
    && Run(states, events) && Init(states[0])
    && var db := states[|events|].db;
       && AcceptedRead(db, k, rev) && LiveAt(db.table, k, At(rev)).Some?
       && LiveAt(db.table, k, At(rev)).value.rev < LiveAt(db.history, k, At(rev)).value.rev
  }

  lemma FirstVersionSurfaces(db: Db, k: Key, n: nat) returns (r: Row, v: Row, batch: set<Row>)
    requires Inv(db) && IsVersions(db, k, n) && n == COMPACT_BATCH_SIZE + 2
    ensures r.rev < v.rev && LiveAt(db.table, k, At(2 * n - 1)) == Some(v)
    ensures ScanAnswer(db.table, 2 * (n - 1), batch) && LiveAt(db.table - batch, k, At(2 * n - 1)) == Some(r)
  {
    var target := 2 * (n - 1);
    r := VersionVisible(db, k, n, 1);
    v := VersionVisible(db, k, n, n - 1);
    VersionsEligible(db, k, n);
    OldestSurfaces(db.table, target, v, r);
    batch := SurfacesShown(db.table, target, 1, k, 2 * n - 1, r);
  }

  /** With one eligible row more than a batch holds, an older live row surfaces in place of v. */
  lemma OldestSurfaces(t: Table, target: int, v: Row, r: Row)
    requires Eligible(t, target, v) && |EligibleRows(t, target)| == COMPACT_BATCH_SIZE + 1
    requires r in t && r.key == v.key && !r.deleted && r.rev < v.rev
    ensures Surfaces(t, target, 1, v, r)
  {
    var all, between := EligibleRows(t, target), Between(t, v.key, r.rev, v.rev);
    forall x | x in between ensures x in all - {r} { OlderIsEligible(t, target, v, x); }
    OlderIsEligible(t, target, v, r);
    SubsetSize(between, all - {r});
  }

  lemma HalfCompactionOf(k: Key, n: nat) returns (states: seq<Sys>, events: seq<Event>)
    requires n == COMPACT_BATCH_SIZE + 2
    ensures ShowsOlderRow(states, events, k, 2 * n - 1)
  {
    states, events := VersionsRun(k, n);
    var db := Versions(k, n);
    var r, v, batch := FirstVersionSurfaces(db, k, n);
    states, events := CompactOnce(states, events, db, 2 * (n - 1), batch);
  }

  /**
   The scan has no order, so a compaction stopped after its first batch may have removed newer
   rows and kept an older one: 1002 versions of a key, one batch of 1000 of them, and a read just
   above the target jumps back to the first version.
   */
  lemma HalfCompactionShowsOlderRow() returns (states: seq<Sys>, events: seq<Event>, k: Key, rev: int)
    ensures ShowsOlderRow(states, events, k, rev)
  {
    var n := COMPACT_BATCH_SIZE + 2;
    k, rev := [97], 2 * n - 1;
    states, events := HalfCompactionOf(k, n);
  }
}
