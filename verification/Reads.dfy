/**
 The read side of the store. A read takes several round trips (current revision, compaction
 horizon, the query itself) and each of them sees its own snapshot; the snapshots are parameters.
 */
module Reads {
  import opened Bytes
  import opened Rows
  import opened Log
  import opened Refinement
  import opened Compaction

  datatype Answer<+T> = Ok(rev: int, value: T) | Compacted(rev: int)

  function RevCap(revision: int, currentRev: int): int {
    if revision > 0 then revision else currentRev
  }

  /** The refusal test of Get, List and Count. */
  predicate Refused(db: Db, revision: int) {
    revision > 0 && Horizon(db) > 1 && revision <= Horizon(db)
  }

  // ---------- Get ----------

  function Get(atStart: Db, atCheck: Db, atQuery: Db, k: Key, revision: int): Answer<Option<Row>> {
    var cur := CurrentRevision(atStart.table);
    if Refused(atCheck, revision) then Compacted(cur)
    else Ok(cur, LiveAt(atQuery.table, k, At(RevToTs(RevCap(revision, cur)))))
  }

  lemma CurrentCapIsNow(db: Db, k: Key)
    requires Inv(db)
    ensures var cap := At(CurrentRevision(db.table));
            && Newest(db.table, k, cap) == Newest(db.table, k, Now)
            && Newest(db.history, k, cap) == Newest(db.history, k, Now)
  {
    CurrentRevisionIsGlobal(db);
    LatestIsBefore(db.table, k, CurrentRevision(db.table) + 1);
    LatestIsBefore(db.history, k, CurrentRevision(db.table) + 1);
  }

  /** Rows that arrive after the current revision was read cannot enter the capped answer. */
  lemma CappedReadIsSnapshot(a: Db, b: Db, k: Key)
    requires Inv(a) && Inv(b) && Grows(a, b)
    requires Newest(a.table, k, Now).Some? ==> Newest(a.table, k, Now).value in b.table
    ensures Newest(b.table, k, At(CurrentRevision(a.table))) == Newest(a.table, k, Now)
  {
    var c := CurrentRevision(a.table);
    CurrentRevisionGrows(a, b);
    LatestKept(a);
    CurrentCapIsNow(a, k);
    OldReadsFixed(a, b, k, c);
    var n := Newest(a.table, k, Now);
    if n.Some? {
      assert IsNewest(b.table, k, At(c), n.value);
      NewestIs(b.table, k, At(c), n.value);
    }
  }

  /** A live row below n that no other row of its key below n covers any more. */
  predicate Exposed(t: Table, n: Row, r: Row) {
    && r in t && r.key == n.key && !r.deleted && r.rev < n.rev
    && forall s | s in t && s.key == n.key && s.rev < n.rev :: s.rev <= r.rev
  }

  /** With the newest row of a key gone, a capped read finds only what lay below it. */
  lemma OnlyOlderLeft(a: Db, b: Db, k: Key, n: Row, c: int, r: Row)
    requires AsOf(a, b, c) && Newest(a.table, k, Now) == Some(n) && n !in b.table
    ensures LiveAt(b.table, k, At(c)) == Some(r) <==> Exposed(b.table, n, r)
  {
    LatestKept(a);
    forall s | s in b.table && s.key == k && s.rev <= c ensures s.rev < n.rev { OlderThanNewest(a, b, n, c, s); }
    assert n.rev <= c;
    if Exposed(b.table, n, r) {
      assert IsNewest(b.table, k, At(c), r);
      NewestIs(b.table, k, At(c), r);
    }
  }

  lemma OlderThanNewest(a: Db, b: Db, n: Row, c: int, s: Row)
    requires AsOf(a, b, c) && Newest(a.table, n.key, Now) == Some(n) && n !in b.table
    requires s in b.table && s.key == n.key && s.rev <= c
    ensures s.rev < n.rev
  {
    LatestKept(a);
    assert s in a.history && n in a.history;
  }

  /**
   A read at revision 0 answers as of the revision it returns, however many writes commit between
   its round trips, exactly when the row it is about is not compacted away meanwhile, or is a
   tombstone whose removal leaves no older live row uppermost.
   */
  lemma TwoStepGetIsSnapshot(a: Db, check: Db, b: Db, k: Key)
    requires Inv(a) && Inv(b) && Grows(a, b)
    ensures var n, g := Newest(a.table, k, Now), Get(a, check, b, k, 0);
            && g.Ok? && g.rev == CurrentRevision(a.table)
            && (g.value == LiveAt(a.table, k, Now) <==>
                n.None? || n.value in b.table || (n.value.deleted && forall r :: !Exposed(b.table, n.value, r)))
  {
    var n := Newest(a.table, k, Now);
    if n.None? || n.value in b.table {
      CappedReadIsSnapshot(a, b, k);
    } else if n.value.deleted {
      CurrentIsAsOf(a, b);
      forall r ensures LiveAt(b.table, k, At(CurrentRevision(a.table))) == Some(r) <==> Exposed(b.table, n.value, r) {
        OnlyOlderLeft(a, b, k, n.value, CurrentRevision(a.table), r);
      }
    }
  }

  // ---------- reads of the past ----------

  /** State a shows all that was committed up to rev, as state q knows it. */
  ghost predicate AsOf(a: Db, q: Db, rev: int) {
    && Inv(a) && Inv(q) && Grows(a, q) && CurrentRevision(a.table) <= rev
    && forall r | r in q.history && r !in a.history :: r.rev > rev
  }

  /** A state is the one as of its own current revision, and of any later one nothing was committed by. */
  lemma CurrentIsAsOf(a: Db, q: Db)
    requires Inv(a) && Inv(q) && Grows(a, q)
    ensures AsOf(a, q, CurrentRevision(a.table))
  {
    CurrentRevisionGrows(a, q);
  }

  lemma AsOfRead(a: Db, q: Db, rev: int, k: Key)
    requires AsOf(a, q, rev) && rev > 1
    requires var n := Newest(a.table, k, Now); n.Some? ==> n.value in q.table
    ensures Newest(q.table, k, At(rev)) == Newest(a.table, k, Now)
  {
    LatestKept(a);
    CurrentRevisionIsGlobal(a);
    var n := Newest(a.table, k, Now);
    forall s | s in q.table && s.key == k && s.rev <= rev ensures s in a.history { }
    if n.Some? {
      assert IsNewest(q.table, k, At(rev), n.value);
      NewestIs(q.table, k, At(rev), n.value);
    }
  }

  /**
   A read at a revision that is not refused answers with the state as of that revision, whatever
   was written since: exactly when the row it is about is not compacted away, or is a tombstone
   whose removal leaves no older live row uppermost.
   */
  lemma TimeTravelGet(a: Db, start: Db, check: Db, q: Db, k: Key, rev: int)
    requires AsOf(a, q, rev) && rev > 1 && Horizon(check) < rev
    ensures var n, g := Newest(a.table, k, Now), Get(start, check, q, k, rev);
            && g.Ok? && g.rev == CurrentRevision(start.table)
            && (g.value == LiveAt(a.table, k, Now) <==>
                n.None? || n.value in q.table || (n.value.deleted && forall r :: !Exposed(q.table, n.value, r)))
  {
    var n := Newest(a.table, k, Now);
    if n.None? || n.value in q.table {
      AsOfRead(a, q, rev, k);
    } else if n.value.deleted {
      forall r ensures LiveAt(q.table, k, At(rev)) == Some(r) <==> Exposed(q.table, n.value, r) {
        OnlyOlderLeft(a, q, k, n.value, rev, r);
      }
    }
  }

  /** A read that is not refused asks for a revision above everything compaction had removed. */
  lemma AcceptedIsAboveRemoved(start: Db, check: Db, q: Db, k: Key, rev: int, r: Row)
    requires Inv(check) && rev > 0 && Get(start, check, q, k, rev).Ok?
    requires r in check.history && r !in check.table
    ensures r.rev < rev
  {
    assert Kept(check, r);
  }

  // ---------- List and Count ----------

  predicate Selects(prefix: Bytes, start: Key, k: Key) {
    Like(k, LikePrefix(prefix)) && AtMost(start, k)
  }

  /** The join of List: the newest row of every selected key under the cap, tombstones dropped. */
  function ListRows(t: Table, prefix: Bytes, start: Key, cap: int): set<Row> {
    set r | r in t && Selects(prefix, start, r.key) && IsNewest(t, r.key, At(cap), r) && !r.deleted
  }

  /** List and Get agree: a selected key is listed exactly when Get finds it, with the same row. */
  lemma ListMeansGet(t: Table, prefix: Bytes, start: Key, cap: int, r: Row)
    ensures r in ListRows(t, prefix, start, cap) <==>
            Selects(prefix, start, r.key) && LiveAt(t, r.key, At(cap)) == Some(r)
  {
    if IsNewest(t, r.key, At(cap), r) { NewestIs(t, r.key, At(cap), r); }
  }

  lemma ListKeysDistinct(t: Table, prefix: Bytes, start: Key, cap: int)
    ensures forall a, b | a in ListRows(t, prefix, start, cap) && b in ListRows(t, prefix, start, cap)
            && a.key == b.key :: a == b
  {
    forall a, b | a in ListRows(t, prefix, start, cap) && b in ListRows(t, prefix, start, cap) && a.key == b.key
      ensures a == b
    {
      assert a.rev == b.rev;
    }
  }

  /** What `ORDER BY key ASC LIMIT n` makes of a set of rows (no limit when n <= 0). */
  predicate KeyPage(all: set<Row>, limit: int, page: seq<Row>) {
    && (forall i, j | 0 <= i < j < |page| :: Less(page[i].key, page[j].key))
    && (forall r | r in page :: r in all)
    && (if limit <= 0 || |all| <= limit then forall r | r in all :: r in page
        else |page| == limit && forall x, r | x in all && x !in page && r in page :: Less(r.key, x.key))
  }

  predicate LeastKey(rows: set<Row>, r: Row) {
    r in rows && forall x | x in rows :: AtMost(r.key, x.key)
  }

  lemma LeastKeyOfMore(rows: set<Row>, m: Row, y: Row)
    requires LeastKey(rows, m)
    ensures LeastKey(rows + {y}, if AtMost(m.key, y.key) then m else y)
  {
    LessTrichotomy(m.key, y.key);
    LessTrichotomy(y.key, y.key);
    if !AtMost(m.key, y.key) {
      forall x | x in rows ensures AtMost(y.key, x.key) { AtMostTransitive(y.key, m.key, x.key); }
    }
  }

  lemma {:induction false} LeastKeyExists(rows: set<Row>)
    requires rows != {}
    ensures exists r :: LeastKey(rows, r)
    decreases rows
  {
    var y :| y in rows;
    if rows == {y} {
      LessTrichotomy(y.key, y.key);
      assert LeastKey(rows, y);
    } else {
      LeastKeyExists(rows - {y});
      var m :| LeastKey(rows - {y}, m);
      LeastKeyOfMore(rows - {y}, m, y);
      assert rows - {y} + {y} == rows;
    }
  }

  /** A scan in progress: `kvs` read so far, `rest` still to come, all of it at larger keys. */
  predicate KeyScan(all: set<Row>, rest: set<Row>, kvs: seq<Row>) {
    && rest <= all && |kvs| + |rest| == |all|
    && (forall r | r in kvs :: r in all)
    && (forall r | r in all :: r in kvs || r in rest)
    && (forall i, j | 0 <= i < j < |kvs| :: Less(kvs[i].key, kvs[j].key))
    && (forall i, x | 0 <= i < |kvs| && x in rest :: Less(kvs[i].key, x.key))
  }

  lemma KeyScanNext(all: set<Row>, rest: set<Row>, kvs: seq<Row>, row: Row)
    requires KeyScan(all, rest, kvs)
    requires LeastKey(rest, row)
    requires forall a, b | a in all && b in all && a.key == b.key :: a == b
    ensures KeyScan(all, rest - {row}, kvs + [row])
  {
    var kvs' := kvs + [row];
    assert forall r | r in kvs' :: r in kvs || r == row;
    forall r | r in all ensures r in kvs' || r in rest - {row} {
      if r in kvs { assert r in kvs'; } else if r == row { assert kvs'[|kvs|] == r; }
    }
    KeyOrderNext(rest, kvs, row);
  }

  lemma KeyOrderNext(rest: set<Row>, kvs: seq<Row>, row: Row)
    requires forall i, j | 0 <= i < j < |kvs| :: Less(kvs[i].key, kvs[j].key)
    requires forall i, x | 0 <= i < |kvs| && x in rest :: Less(kvs[i].key, x.key)
    requires LeastKey(rest, row) && forall x | x in rest && x.key == row.key :: x == row
    ensures var kvs' := kvs + [row];
            && (forall i, j | 0 <= i < j < |kvs'| :: Less(kvs'[i].key, kvs'[j].key))
            && (forall i, x | 0 <= i < |kvs'| && x in rest - {row} :: Less(kvs'[i].key, x.key))
  {
    forall x | x in rest - {row} ensures Less(row.key, x.key) { assert AtMost(row.key, x.key); }
  }

  lemma KeyScanPage(all: set<Row>, rest: set<Row>, kvs: seq<Row>, limit: int)
    requires KeyScan(all, rest, kvs)
    requires rest == {} || (limit > 0 && |kvs| >= limit)
    requires limit > 0 ==> |kvs| <= limit
    ensures KeyPage(all, limit, kvs)
  {
    if limit <= 0 || |all| <= limit {
      assert |rest| == 0;
    } else {
      forall x, r | x in all && x !in kvs && r in kvs ensures Less(r.key, x.key) {
        assert x in rest;
        var i :| 0 <= i < |kvs| && kvs[i] == r;
      }
    }
  }

  method List(atStart: Db, atCheck: Db, atQuery: Db, prefix: Bytes, start: Key, limit: int, revision: int)
    returns (answer: Answer<seq<Row>>, compactRev: int)
    ensures compactRev == Horizon(atCheck)
    ensures answer.rev == CurrentRevision(atStart.table)
    ensures answer.Compacted? <==> Refused(atCheck, revision)
    ensures answer.Ok? ==> KeyPage(ListRows(atQuery.table, prefix, start, RevToTs(RevCap(revision, answer.rev))),
            limit, answer.value)
  {
    var currentRev := CurrentRevision(atStart.table);
    var cap := RevToTs(RevCap(revision, currentRev));
    compactRev := Horizon(atCheck);
    if compactRev > 1 && revision > 0 && revision <= compactRev {
      return Compacted(currentRev), compactRev;
    }
    var all := ListRows(atQuery.table, prefix, start, cap);
    ListKeysDistinct(atQuery.table, prefix, start, cap);
    var rest, kvs: seq<Row> := all, [];
    while rest != {} && (limit <= 0 || |kvs| < limit)
      invariant KeyScan(all, rest, kvs) && (limit > 0 ==> |kvs| <= limit)
      decreases rest
    {
      LeastKeyExists(rest);
      var row :| LeastKey(rest, row);
      KeyScanNext(all, rest, kvs, row);
      rest := rest - {row};
      kvs := kvs + [row];
    }
    KeyScanPage(all, rest, kvs, limit);
    answer := Ok(currentRev, kvs);
  }

  function Count(atStart: Db, atCheck: Db, atQuery: Db, prefix: Bytes, start: Key, revision: int): Answer<int> {
    var cur := CurrentRevision(atStart.table);
    if Refused(atCheck, revision) then Compacted(cur)
    else Ok(cur, |ListRows(atQuery.table, prefix, start, RevToTs(RevCap(revision, cur)))|)
  }

  /**
   List and Count at revision 0 are snapshots too: with no row removed between the round trips
   they see exactly the map the store showed at the returned revision, restricted to the selected
   keys, so that a page of any limit is a page of that map; an unlimited list has as many rows as
   Count reports.
   */
  lemma TwoStepListIsSnapshot(a: Db, b: Db, prefix: Bytes, start: Key, page: seq<Row>)
    requires Inv(a) && Inv(b) && Grows(a, b) && a.table <= b.table
    requires KeyPage(ListRows(b.table, prefix, start, RevToTs(CurrentRevision(a.table))), 0, page)
    ensures var cap := RevToTs(CurrentRevision(a.table));
            ListRows(b.table, prefix, start, cap) == ListRows(a.table, prefix, start, cap)
    ensures forall r :: r in page <==> Selects(prefix, start, r.key) && LiveAt(a.table, r.key, Now) == Some(r)
    ensures Count(a, a, b, prefix, start, 0) == Ok(CurrentRevision(a.table), |page|)
  {
    var all := ListRows(b.table, prefix, start, CurrentRevision(a.table));
    forall r ensures r in all <==> Selects(prefix, start, r.key) && LiveAt(a.table, r.key, Now) == Some(r) {
      ListedAsOf(a, b, prefix, start, r);
    }
    forall r ensures r in all <==> r in ListRows(a.table, prefix, start, CurrentRevision(a.table)) {
      ListedAsOf(a, a, prefix, start, r);
    }
    PageSize(all, page);
  }

  lemma ListedAsOf(a: Db, b: Db, prefix: Bytes, start: Key, r: Row)
    requires Inv(a) && Inv(b) && Grows(a, b) && a.table <= b.table
    ensures r in ListRows(b.table, prefix, start, CurrentRevision(a.table))
            <==> Selects(prefix, start, r.key) && LiveAt(a.table, r.key, Now) == Some(r)
  {
    ListMeansGet(b.table, prefix, start, CurrentRevision(a.table), r);
    CappedReadIsSnapshot(a, b, r.key);
  }

  /** The selected rows a state shows. */
  function LiveRows(t: Table, prefix: Bytes, start: Key): set<Row> {
    set r | r in t && Selects(prefix, start, r.key) && LiveAt(t, r.key, Now) == Some(r)
  }

  /**
   List and Count at a revision that is not refused, with no row of that state removed since: a
   page, of any limit, of exactly the rows the state as of that revision showed, and their number.
   */
  lemma TimeTravelList(a: Db, start: Db, check: Db, q: Db, prefix: Bytes, from: Key, rev: int, cur: int, limit: int,
      page: seq<Row>)
    requires AsOf(a, q, rev) && rev > 1 && Horizon(check) < rev && a.table <= q.table
    requires KeyPage(ListRows(q.table, prefix, from, RevToTs(RevCap(rev, cur))), limit, page)
    ensures KeyPage(LiveRows(a.table, prefix, from), limit, page)
    ensures Count(start, check, q, prefix, from, rev)
            == Ok(CurrentRevision(start.table), |LiveRows(a.table, prefix, from)|)
  {
    forall r ensures r in ListRows(q.table, prefix, from, rev) <==> r in LiveRows(a.table, prefix, from) {
      ListMeansGet(q.table, prefix, from, rev, r);
      AsOfRead(a, q, rev, r.key);
    }
    assert ListRows(q.table, prefix, from, rev) == LiveRows(a.table, prefix, from);
  }

  lemma {:induction false} PageSize(all: set<Row>, page: seq<Row>)
    requires forall i, j | 0 <= i < j < |page| :: Less(page[i].key, page[j].key)
    requires forall r :: r in page <==> r in all
    ensures |page| == |all|
    decreases |page|
  {
    if page == [] {
      assert forall r | r in all :: r in page;
    } else {
      var n := |page| - 1;
      var last := page[n];
      assert last in page;
      forall r ensures r in page[..n] <==> r in all - {last} {
        if r in page[..n] {
          var i :| 0 <= i < n && page[..n][i] == r;
          assert page[i] == r;
          LessAsymmetric(page[i].key, page[n].key);
        }
        if r in all - {last} {
          var i :| 0 <= i < |page| && page[i] == r;
          assert page[..n][i] == r;
        }
      }
      PageSize(all - {last}, page[..n]);
    }
  }

  // ---------- After ----------

  function AfterRows(t: set<Row>, prefix: Bytes, afterRev: int): set<Row> {
    set r | r in t && Like(r.key, LikePrefix(prefix)) && r.rev > RevToTs(afterRev)
  }

  /**
   What `ORDER BY rev ASC LIMIT n` may answer: rows of one commit share a revision and come in
   any order, and a limit may cut between them.
   */
  predicate EventPage(all: set<Row>, limit: int, page: seq<Row>) {
    && (forall i, j | 0 <= i < j < |page| :: page[i].rev <= page[j].rev && page[i] != page[j])
    && (forall r | r in page :: r in all)
    && (if limit <= 0 || |all| <= limit then forall r | r in all :: r in page
        else |page| == limit && forall x, r | x in all && x !in page && r in page :: r.rev <= x.rev)
  }

  lemma LeastRevExists(rows: set<Row>)
    requires rows != {}
    ensures exists r :: r in rows && forall x | x in rows :: r.rev <= x.rev
    decreases rows
  {
    var y :| y in rows;
    if rows == {y} {
      assert forall x | x in rows :: y.rev <= x.rev;
    } else {
      LeastRevExists(rows - {y});
      var m :| m in rows - {y} && forall x | x in rows - {y} :: m.rev <= x.rev;
      var best := if m.rev <= y.rev then m else y;
      assert forall x | x in rows :: x == y || x in rows - {y};
      assert best in rows && forall x | x in rows :: best.rev <= x.rev;
    }
  }

  predicate EventScan(all: set<Row>, rest: set<Row>, events: seq<Row>) {
    && rest <= all && |events| + |rest| == |all|
    && (forall r | r in events :: r in all && r !in rest)
    && (forall r | r in all :: r in events || r in rest)
    && (forall i, j | 0 <= i < j < |events| :: events[i].rev <= events[j].rev && events[i] != events[j])
    && (forall i, x | 0 <= i < |events| && x in rest :: events[i].rev <= x.rev)
  }

  lemma EventScanNext(all: set<Row>, rest: set<Row>, events: seq<Row>, row: Row)
    requires EventScan(all, rest, events)
    requires row in rest && forall x | x in rest :: row.rev <= x.rev
    ensures EventScan(all, rest - {row}, events + [row])
  {
    var events' := events + [row];
    assert forall r | r in events' :: r in events || r == row;
    forall r | r in all ensures r in events' || r in rest - {row} {
      if r in events { assert r in events'; } else if r == row { assert events'[|events|] == r; }
    }
    forall i, j | 0 <= i < j < |events'| ensures events'[i].rev <= events'[j].rev && events'[i] != events'[j] {
      assert events[i] in events;
    }
  }

  lemma EventScanPage(all: set<Row>, rest: set<Row>, events: seq<Row>, limit: int)
    requires EventScan(all, rest, events)
    requires rest == {} || (limit > 0 && |events| >= limit)
    requires limit > 0 ==> |events| <= limit
    ensures EventPage(all, limit, events)
  {
    if limit <= 0 || |all| <= limit {
      assert |rest| == 0;
    } else {
      forall x, r | x in all && x !in events && r in events ensures r.rev <= x.rev {
        assert x in rest;
        var i :| 0 <= i < |events| && events[i] == r;
      }
    }
  }

  method AfterQuery(atStart: Db, atCheck: Db, atQuery: Db, prefix: Bytes, afterRev: int, limit: int)
    returns (answer: Answer<seq<Row>>)
    ensures answer.rev == CurrentRevision(atStart.table)
    ensures answer.Compacted? <==> afterRev > 0 && afterRev < Horizon(atCheck)
    ensures answer.Ok? ==> EventPage(AfterRows(atQuery.table, prefix, afterRev), limit, answer.value)
  {
    var currentRev := CurrentRevision(atStart.table);
    if afterRev > 0 {
      var compactRev := Horizon(atCheck);
      if afterRev < compactRev {
        return Compacted(currentRev);
      }
    }
    var all := AfterRows(atQuery.table, prefix, afterRev);
    var rest, events: seq<Row> := all, [];
    while rest != {} && (limit <= 0 || |events| < limit)
      invariant EventScan(all, rest, events) && (limit > 0 ==> |events| <= limit)
      decreases rest
    {
      LeastRevExists(rest);
      var row :| row in rest && forall x | x in rest :: row.rev <= x.rev;
      EventScanNext(all, rest, events, row);
      rest := rest - {row};
      events := events + [row];
    }
    EventScanPage(all, rest, events, limit);
    answer := Ok(currentRev, events);
  }

  // ---------- list, then watch ----------

  /** A client applying events to its copy of the map. */
  function Replay(m: KvMap, events: seq<Row>): KvMap {
    if events == [] then m
    else MapRow(Replay(m, events[..|events| - 1]), events[|events| - 1])
  }

  lemma {:induction false} ReplayUntouched(m: KvMap, events: seq<Row>, k: Key)
    requires forall i | 0 <= i < |events| :: events[i].key != k
    ensures Lookup(Replay(m, events), k) == Lookup(m, k)
    decreases |events|
  {
    if events != [] { ReplayUntouched(m, events[..|events| - 1], k); }
  }

  /** The last event of a key decides what the key shows. */
  lemma {:induction false} ReplayLast(m: KvMap, events: seq<Row>, i: nat)
    requires i < |events| && forall j | i < j < |events| :: events[j].key != events[i].key
    ensures Lookup(Replay(m, events), events[i].key) == if events[i].deleted then None else Some(ItemOf(events[i]))
    decreases |events|
  {
    var n := |events| - 1;
    if i < n { ReplayLast(m, events[..n], i); }
  }

  lemma NothingMissed(db: Db, prefix: Bytes, r: int)
    requires Inv(db) && r >= 1 && r >= Horizon(db)
    ensures AfterRows(db.table, prefix, r) == AfterRows(db.history, prefix, r)
  {
    forall x | x in AfterRows(db.history, prefix, r) ensures x in db.table {
      assert Kept(db, x);
    }
  }

  /**
   Replaying the events after r over the map as of r gives the current map, for every key the
   prefix pattern matches, in every order the query may return rows of one commit.
   */
  lemma {:induction false} ReplayRebuilds(db: Db, prefix: Bytes, r: int, events: seq<Row>, m: KvMap, k: Key)
    requires Inv(db) && r >= 1 && r >= Horizon(db)
    requires EventPage(AfterRows(db.table, prefix, r), 0, events)
    requires Like(k, LikePrefix(prefix)) && Lookup(m, k) == Lookup(View(db.history, At(r)), k)
    ensures Lookup(Replay(m, events), k) == Lookup(View(db.table, Now), k)
  {
    NothingMissed(db, prefix, r);
    LatestKept(db);
    ViewAt(db.table, Now, k);
    var n := Newest(db.history, k, Now);
    if n.Some? && n.value.rev > r {
      NewestIsReplayed(db.history, prefix, r, events, m, n.value);
    } else {
      forall i | 0 <= i < |events| ensures events[i].key != k { assert events[i] in events; }
      ReplayUntouched(m, events, k);
      UnchangedSince(db.history, k, r);
    }
  }

  /** The newest row of a key, when it is among the events, is the last of them about the key. */
  lemma {:induction false} NewestIsReplayed(h: Table, prefix: Bytes, r: int, events: seq<Row>, m: KvMap, n: Row)
    requires r >= 1 && EventPage(AfterRows(h, prefix, r), 0, events) && Like(n.key, LikePrefix(prefix))
    requires IsNewest(h, n.key, Now, n) && n.rev > r
    ensures Lookup(Replay(m, events), n.key) == if n.deleted then None else Some(ItemOf(n))
  {
    assert n in events;
    var i :| 0 <= i < |events| && events[i] == n;
    forall j | i < j < |events| ensures events[j].key != n.key { assert events[j] in events; }
    ReplayLast(m, events, i);
  }

  lemma UnchangedSince(h: Table, k: Key, r: int)
    requires Newest(h, k, Now).Some? ==> Newest(h, k, Now).value.rev <= r
    ensures Lookup(View(h, At(r)), k) == Lookup(View(h, Now), k)
  {
    ViewAt(h, At(r), k);
    ViewAt(h, Now, k);
    var n := Newest(h, k, Now);
    if n.Some? {
      assert IsNewest(h, k, At(r), n.value);
      NewestIs(h, k, At(r), n.value);
    }
  }

  /**
   List then watch, over every run of writes and compactions: a client lists everything (current
   revision read in state i, query answered in state q with nothing removed in between), later
   asks for the events after the listed revision in state j, and unless the horizon has passed
   that revision, no row ever written after it is missing and replaying the events over the
   listed map gives the current map.
   */
  lemma {:induction false} ListThenWatch(states: seq<Sys>, trace: seq<Event>, i: nat, q: nat, j: nat,
      listed: seq<Row>, m: KvMap, events: seq<Row>)
    requires Run(states, trace) && Init(states[0]) && i <= q <= j < |states|
    requires states[i].db.table <= states[q].db.table
    requires var cap := RevToTs(CurrentRevision(states[i].db.table));
             KeyPage(ListRows(states[q].db.table, [], [], cap), 0, listed)
    requires forall k :: k in m <==> exists r :: r in listed && r.key == k
    requires forall r | r in listed :: r.key in m && m[r.key] == ItemOf(r)
    requires Horizon(states[j].db) <= CurrentRevision(states[i].db.table)
    requires EventPage(AfterRows(states[j].db.table, [], CurrentRevision(states[i].db.table)), 0, events)
    ensures forall r | r in states[j].db.history && r.rev > CurrentRevision(states[i].db.table) :: r in events
    ensures Replay(m, events) == View(states[j].db.table, Now)
  {
    InitInv(states[0]);
    RunKeepsInv(states, trace, 0, i);
    RunKeepsInv(states, trace, i, q);
    RunKeepsInv(states, trace, i, j);
    var a, b, db := states[i].db, states[q].db, states[j].db;
    var c := CurrentRevision(a.table);
    TwoStepListIsSnapshot(a, b, [], [], listed);
    NothingMissed(db, [], c);
    assert LikePrefix([]) == [PERCENT];
    forall r | r in db.history && r.rev > c ensures r in events {
      LikePercent(r.key);
      assert r in AfterRows(db.history, [], c);
    }
    forall k ensures Lookup(Replay(m, events), k) == Lookup(View(db.table, Now), k) {
      LikePercent(k);
      ListedLookup(a, db, listed, m, k);
      ReplayRebuilds(db, [], c, events, m, k);
    }
    MapsEqual(Replay(m, events), View(db.table, Now));
  }

  /** The listed map agrees, key by key, with the full history at the listed revision. */
  lemma ListedLookup(a: Db, db: Db, listed: seq<Row>, m: KvMap, k: Key)
    requires Inv(a) && Inv(db) && Grows(a, db)
    requires forall r :: r in listed <==> Selects([], [], r.key) && LiveAt(a.table, r.key, Now) == Some(r)
    requires k in m <==> exists r :: r in listed && r.key == k
    requires forall r | r in listed :: r.key in m && m[r.key] == ItemOf(r)
    ensures Lookup(m, k) == Lookup(View(db.history, At(CurrentRevision(a.table))), k)
  {
    var c := CurrentRevision(a.table);
    HistoryAtListed(a, db, k);
    ViewAt(db.history, At(c), k);
    assert LikePrefix([]) == [PERCENT];
    LikePercent(k);
    assert Selects([], [], k);
    var live := LiveAt(a.table, k, Now);
    if live.Some? { assert live.value in listed; }
  }

  lemma HistoryAtListed(a: Db, db: Db, k: Key)
    requires Inv(a) && Inv(db) && Grows(a, db)
    ensures LiveAt(db.history, k, At(CurrentRevision(a.table))) == LiveAt(a.table, k, Now)
  {
    CurrentRevisionGrows(a, db);
    OldReadsFixed(a, db, k, CurrentRevision(a.table));
    CurrentCapIsNow(a, k);
    LatestKept(a);
  }
}
