/**
 Event delivery: the poll loop with its cursor, the paginated replay of a new subscription, and
 the handover from replay to the live feed. All of them read the database while it changes; the
 snapshots they meet are positions in one timeline.
 */
module Watch {
  import opened Bytes
  import opened Rows
  import opened Log
  import opened Compaction
  import opened Reads
  import opened Histories

  const POLL_BATCH_SIZE := 500

  // ---------- timelines ----------

  /** Successive states of the database. */
  predicate Timeline(dbs: seq<Db>) {
    && (forall i | 0 <= i < |dbs| :: Inv(dbs[i]))
    && (forall i, j | 0 <= i <= j < |dbs| :: Grows(dbs[i], dbs[j]))
  }

  /** Every run of writers and compactors gives one. */
  lemma RunGivesTimeline(states: seq<Sys>, events: seq<Event>)
    requires Run(states, events) && Init(states[0])
    ensures Timeline(seq(|states|, i requires 0 <= i < |states| => states[i].db))
  {
    var dbs := seq(|states|, i requires 0 <= i < |states| => states[i].db);
    InitInv(states[0]);
    forall i, j | 0 <= i <= j < |dbs| ensures Inv(dbs[i]) && Grows(dbs[i], dbs[j]) {
      RunKeepsInv(states, events, 0, i);
      RunKeepsInv(states, events, i, j);
    }
  }

  /** The three round trips of one After call, as positions in the timeline. */
  datatype Fetch = Fetch(start: nat, check: nat, query: nat)

  predicate ValidFetch(dbs: seq<Db>, f: Fetch) {
    f.start <= f.check <= f.query < |dbs|
  }

  /** A row that exists at `late` with a revision `early` had already reached existed at `early`. */
  lemma OldRowWasThere(dbs: seq<Db>, early: nat, late: nat, r: Row)
    requires Timeline(dbs) && early <= late < |dbs|
    requires r in dbs[late].history && r.rev <= CurrentRevision(dbs[early].table)
    ensures r in dbs[early].history
  {
    assert Grows(dbs[early], dbs[late]);
    CurrentRevisionGrows(dbs[early], dbs[late]);
  }

  /** Nothing after a revision the horizon has not passed is missing from the query. */
  lemma QueryIsComplete(dbs: seq<Db>, q: nat, prefix: Bytes, rev: int, r: Row)
    requires Timeline(dbs) && q < |dbs| && r in dbs[q].history
    requires Like(r.key, LikePrefix(prefix)) && r.rev > rev && Horizon(dbs[q]) <= RevToTs(rev)
    ensures r in AfterRows(dbs[q].table, prefix, rev)
  {
    assert Inv(dbs[q]);
    assert Kept(dbs[q], r);
    assert r.rev >= 2;
  }

  // ---------- the poll loop ----------

  /** One pass of the loop: a notification (with its hint) or a ticker; the query may fail. */
  datatype Tick = Tick(hint: Option<int>, fetch: Fetch, fails: bool)

  predicate Polls(t: Tick, lastRev: int) {
    (t.hint.Some? ==> t.hint.value > lastRev) && !t.fails
  }

  predicate PollRefused(dbs: seq<Db>, t: Tick, lastRev: int)
    requires ValidFetch(dbs, t.fetch)
  {
    lastRev > 0 && lastRev < Horizon(dbs[t.fetch.check])
  }

  /** What one pass does to the cursor and which rows it dispatches. */
  predicate PollStep(dbs: seq<Db>, t: Tick, lastRev: int, page: seq<Row>, lastRev': int)
    requires ValidFetch(dbs, t.fetch)
  {
    if !Polls(t, lastRev) then page == [] && lastRev' == lastRev
    else
      && lastRev' == CurrentRevision(dbs[t.fetch.start].table)
      && (if PollRefused(dbs, t, lastRev) then page == []
          else EventPage(AfterRows(dbs[t.fetch.query].table, [], lastRev), POLL_BATCH_SIZE, page))
  }

  predicate ValidTicks(dbs: seq<Db>, ticks: seq<Tick>) {
    && (forall i | 0 <= i < |ticks| :: ValidFetch(dbs, ticks[i].fetch))
    && (forall i, j | 0 <= i < j < |ticks| :: ticks[i].fetch.query <= ticks[j].fetch.start)
  }

  /** A run of the loop: cursor values, and the page each pass dispatched. */
  predicate PollRun(dbs: seq<Db>, ticks: seq<Tick>, cursor: seq<int>, pages: seq<seq<Row>>) {
    && ValidTicks(dbs, ticks)
    && |pages| == |ticks| && |cursor| == |ticks| + 1
    && forall i | 0 <= i < |ticks| :: PollStep(dbs, ticks[i], cursor[i], pages[i], cursor[i + 1])
  }

  method DoPoll(dbs: seq<Db>, t: Tick, lastRev: int) returns (page: seq<Row>, rev: int)
    requires ValidFetch(dbs, t.fetch) && (t.hint.Some? ==> t.hint.value > lastRev)
    ensures PollStep(dbs, t, lastRev, page, rev)
  {
    if t.fails { return [], lastRev; }
    var answer := AfterQuery(dbs[t.fetch.start], dbs[t.fetch.check], dbs[t.fetch.query], [], lastRev, POLL_BATCH_SIZE);
    match answer
    case Compacted(curRev) => return [], curRev;
    case Ok(curRev, events) => return events, curRev;
  }

  method PollLoop(dbs: seq<Db>, ticks: seq<Tick>, first: int) returns (cursor: seq<int>, pages: seq<seq<Row>>)
    requires ValidTicks(dbs, ticks)
    ensures PollRun(dbs, ticks, cursor, pages) && cursor[0] == first
  {
    cursor, pages := [first], [];
    var lastRev := first;
    for i := 0 to |ticks|
      invariant |pages| == i && |cursor| == i + 1 && cursor[0] == first && cursor[i] == lastRev
      invariant forall j | 0 <= j < i :: PollStep(dbs, ticks[j], cursor[j], pages[j], cursor[j + 1])
    {
      var page: seq<Row> := [];
      if ticks[i].hint.None? || ticks[i].hint.value > lastRev {
        page, lastRev := DoPoll(dbs, ticks[i], lastRev);
      }
      pages := pages + [page];
      cursor := cursor + [lastRev];
    }
  }

  /** A hint at or below the cursor does nothing; any other pass that does not fail sets the cursor anew. */
  lemma StaleHintDoesNothing(dbs: seq<Db>, t: Tick, lastRev: int, page: seq<Row>, lastRev': int)
    requires ValidFetch(dbs, t.fetch) && PollStep(dbs, t, lastRev, page, lastRev')
    ensures t.fails || (t.hint.Some? && t.hint.value <= lastRev) ==> page == [] && lastRev' == lastRev
    ensures !t.fails && (t.hint.None? || t.hint.value > lastRev) ==>
              lastRev' == CurrentRevision(dbs[t.fetch.start].table)
  {
  }

  /** What a pass moves its cursor over: the rows ever committed between the two cursor values. */
  function Passed(db: Db, lastRev: int, lastRev': int): set<Row> {
    set r | r in db.history && lastRev < r.rev <= lastRev'
  }

  /** A pass that leaves rows behind: refused, after compaction took some, or with more than 500. */
  predicate Lossy(dbs: seq<Db>, t: Tick, lastRev: int, lastRev': int)
    requires ValidFetch(dbs, t.fetch)
  {
    var passed := Passed(dbs[t.fetch.query], lastRev, lastRev');
    && Polls(t, lastRev) && passed != {}
    && (PollRefused(dbs, t, lastRev) || !(passed <= dbs[t.fetch.query].table) || |passed| > POLL_BATCH_SIZE)
  }

  /**
   A pass that polls dispatches every row its cursor moves over exactly unless it is lossy, with
   commits arriving between its round trips. With the horizon not past the cursor only the 500
   matter.
   */
  lemma PollLosesNothingIff(dbs: seq<Db>, t: Tick, lastRev: int, page: seq<Row>, lastRev': int)
    requires Timeline(dbs) && ValidFetch(dbs, t.fetch) && Polls(t, lastRev)
    requires PollStep(dbs, t, lastRev, page, lastRev')
    ensures (forall r | r in Passed(dbs[t.fetch.query], lastRev, lastRev') :: r in page)
            <==> !Lossy(dbs, t, lastRev, lastRev')
    ensures Horizon(dbs[t.fetch.query]) <= RevToTs(lastRev) ==>
              (Lossy(dbs, t, lastRev, lastRev')
               <==> |Passed(dbs[t.fetch.query], lastRev, lastRev')| > POLL_BATCH_SIZE)
  {
    var passed := Passed(dbs[t.fetch.query], lastRev, lastRev');
    if !PollRefused(dbs, t, lastRev) { PageTakesPassedIff(dbs[t.fetch.query], lastRev, page, lastRev'); }
    if Horizon(dbs[t.fetch.query]) <= RevToTs(lastRev) { PassedIsKept(dbs, t, lastRev, lastRev'); }
  }

  lemma PageTakesPassedIff(db: Db, lastRev: int, page: seq<Row>, lastRev': int)
    requires Inv(db) && EventPage(AfterRows(db.table, [], lastRev), POLL_BATCH_SIZE, page)
    ensures var passed := Passed(db, lastRev, lastRev');
            (forall r | r in passed :: r in page) <==> passed <= db.table && |passed| <= POLL_BATCH_SIZE
  {
    var all, passed := AfterRows(db.table, [], lastRev), Passed(db, lastRev, lastRev');
    forall r | r in passed && r in db.table ensures r in all { MatchesAll(r.key); }
    if forall r | r in passed :: r in page {
      PageBounds(all, page, passed);
    } else if passed <= db.table {
      var r :| r in passed && r !in page;
      CutPageIsPassed(all, page, passed, lastRev', r);
    }
  }

  lemma PassedIsKept(dbs: seq<Db>, t: Tick, lastRev: int, lastRev': int)
    requires Timeline(dbs) && ValidFetch(dbs, t.fetch) && Horizon(dbs[t.fetch.query]) <= RevToTs(lastRev)
    ensures Passed(dbs[t.fetch.query], lastRev, lastRev') <= dbs[t.fetch.query].table && !PollRefused(dbs, t, lastRev)
  {
    var db := dbs[t.fetch.query];
    assert Inv(db) && Grows(dbs[t.fetch.check], db);
    forall r | r in Passed(db, lastRev, lastRev') ensures r in db.table { assert Kept(db, r); }
  }

  lemma {:induction false} MatchesAll(k: Key)
    ensures Like(k, LikePrefix([]))
  {
    assert LikePrefix([]) == [PERCENT];
    LikePercent(k);
  }

  lemma PageBounds(all: set<Row>, page: seq<Row>, rows: set<Row>)
    requires EventPage(all, POLL_BATCH_SIZE, page) && forall r | r in rows :: r in page
    ensures rows <= all && |rows| <= POLL_BATCH_SIZE
  {
    var p := set r | r in page;
    DistinctSize(page);
    SubsetSize(rows, p);
    SubsetSize(p, all);
  }

  /** A full page that misses a row holds only rows that come no later. */
  lemma CutPageIsPassed(all: set<Row>, page: seq<Row>, rows: set<Row>, high: int, r: Row)
    requires EventPage(all, POLL_BATCH_SIZE, page) && r in all && r !in page && r in rows && r.rev <= high
    requires forall x | x in all && x.rev <= high :: x in rows
    ensures |rows| > POLL_BATCH_SIZE
  {
    var p := set x | x in page;
    DistinctSize(page);
    SubsetSize(p + {r}, rows);
  }

  predicate Dispatched(pages: seq<seq<Row>>, n: nat, r: Row)
    requires n <= |pages|
  {
    exists i :: 0 <= i < n && r in pages[i]
  }

  lemma LosslessStep(dbs: seq<Db>, t: Tick, lastRev: int, page: seq<Row>, lastRev': int, late: nat, r: Row)
    requires Timeline(dbs) && ValidFetch(dbs, t.fetch) && t.fetch.query <= late < |dbs|
    requires PollStep(dbs, t, lastRev, page, lastRev') && !Lossy(dbs, t, lastRev, lastRev')
    requires r in dbs[late].history && lastRev < r.rev <= lastRev'
    ensures r in page
  {
    var f := t.fetch;
    assert Grows(dbs[f.start], dbs[f.query]);
    OldRowWasThere(dbs, f.start, late, r);
    PollLosesNothingIff(dbs, t, lastRev, page, lastRev');
    assert r in Passed(dbs[f.query], lastRev, lastRev');
  }

  /**
   The cursor invariant: as long as no pass is lossy, every row ever committed with a revision
   between the first cursor value and the current one has been dispatched.
   */
  lemma {:induction false} PollCursorInvariant(dbs: seq<Db>, ticks: seq<Tick>, cursor: seq<int>,
      pages: seq<seq<Row>>, n: nat, late: nat, r: Row)
    requires Timeline(dbs) && PollRun(dbs, ticks, cursor, pages) && n <= |ticks|
    requires forall i | 0 <= i < n :: ticks[i].fetch.query <= late && !Lossy(dbs, ticks[i], cursor[i], cursor[i + 1])
    requires late < |dbs| && r in dbs[late].history && cursor[0] < r.rev <= cursor[n]
    ensures Dispatched(pages, n, r)
    decreases n
  {
    var i := n - 1;
    if cursor[i] < r.rev {
      LosslessStep(dbs, ticks[i], cursor[i], pages[i], cursor[n], late, r);
    } else {
      PollCursorInvariant(dbs, ticks, cursor, pages, i, late, r);
    }
  }

  lemma LaterIsNotLower(dbs: seq<Db>, a: nat, b: nat)
    requires Timeline(dbs) && a <= b < |dbs|
    ensures CurrentRevision(dbs[a].table) <= CurrentRevision(dbs[b].table)
  {
    assert Grows(dbs[a], dbs[b]);
    CurrentRevisionGrows(dbs[a], dbs[b]);
  }

  lemma {:induction false} CursorGrows(dbs: seq<Db>, ticks: seq<Tick>, cursor: seq<int>, pages: seq<seq<Row>>,
      i: nat, j: nat)
    requires Timeline(dbs) && PollRun(dbs, ticks, cursor, pages) && i <= j <= |ticks|
    requires forall k | 0 <= k < |ticks| :: cursor[0] <= CurrentRevision(dbs[ticks[k].fetch.start].table)
    ensures cursor[i] <= cursor[j]
    ensures forall k | j <= k < |ticks| :: cursor[j] <= CurrentRevision(dbs[ticks[k].fetch.start].table)
    decreases j
  {
    if j > 0 {
      var m := j - 1;
      CursorGrows(dbs, ticks, cursor, pages, if i < j then i else m, m);
      assert PollStep(dbs, ticks[m], cursor[m], pages[m], cursor[j]);
      forall k | j <= k < |ticks| ensures cursor[j] <= CurrentRevision(dbs[ticks[k].fetch.start].table) {
        LaterIsNotLower(dbs, ticks[m].fetch.start, ticks[k].fetch.start);
      }
    }
  }

  /**
   A row the cursor steps over without dispatching it is lost to the poll loop for good: no later
   pass returns it. It was cut off by the limit (so the page is full and the row comes no earlier
   than the page's last), or it was no longer in the table.
   */
  lemma SteppedOverIsLost(dbs: seq<Db>, ticks: seq<Tick>, cursor: seq<int>, pages: seq<seq<Row>>, i: nat, j: nat,
      r: Row)
    requires Timeline(dbs) && PollRun(dbs, ticks, cursor, pages) && i < j < |ticks|
    requires forall k | 0 <= k < |ticks| :: cursor[0] <= CurrentRevision(dbs[ticks[k].fetch.start].table)
    requires cursor[i] < r.rev <= cursor[i + 1] && r !in pages[i] && r.rev >= 2
    ensures r !in pages[j]
    ensures r in dbs[ticks[i].fetch.query].table && !PollRefused(dbs, ticks[i], cursor[i]) ==>
              |pages[i]| == POLL_BATCH_SIZE && forall x | x in pages[i] :: x.rev <= r.rev
  {
    CursorGrows(dbs, ticks, cursor, pages, i + 1, j);
    assert PollStep(dbs, ticks[i], cursor[i], pages[i], cursor[i + 1]);
    if r in dbs[ticks[i].fetch.query].table && !PollRefused(dbs, ticks[i], cursor[i]) {
      CutByLimit(dbs, ticks[i], cursor[i], pages[i], cursor[i + 1], r);
    }
    assert PollStep(dbs, ticks[j], cursor[j], pages[j], cursor[j + 1]);
    PageIsNewer(dbs, ticks[j], cursor[j], pages[j], cursor[j + 1], r);
  }

  lemma CutByLimit(dbs: seq<Db>, t: Tick, lastRev: int, page: seq<Row>, lastRev': int, r: Row)
    requires ValidFetch(dbs, t.fetch) && PollStep(dbs, t, lastRev, page, lastRev')
    requires lastRev < r.rev <= lastRev' && r !in page && r.rev >= 2
    requires r in dbs[t.fetch.query].table && !PollRefused(dbs, t, lastRev)
    ensures |page| == POLL_BATCH_SIZE && forall x | x in page :: x.rev <= r.rev
  {
    MatchesAll(r.key);
  }

  lemma PageIsNewer(dbs: seq<Db>, t: Tick, lastRev: int, page: seq<Row>, lastRev': int, r: Row)
    requires ValidFetch(dbs, t.fetch) && PollStep(dbs, t, lastRev, page, lastRev')
    requires r.rev <= lastRev
    ensures r !in page
  {
  }

  /** Some page the query may answer with. */
  lemma SomeEventPage(all: set<Row>, limit: int) returns (page: seq<Row>)
    ensures EventPage(all, limit, page)
  {
    var rest := all;
    page := [];
    while rest != {} && (limit <= 0 || |page| < limit)
      invariant EventScan(all, rest, page) && (limit > 0 ==> |page| <= limit)
      decreases rest
    {
      LeastRevExists(rest);
      var row :| row in rest && forall x | x in rest :: row.rev <= x.rev;
      EventScanNext(all, rest, page, row);
      rest := rest - {row};
      page := page + [row];
    }
    EventScanPage(all, rest, page, limit);
  }

  /** A poll that moves the cursor over a row without dispatching it. */
  predicate StepsOver(dbs: seq<Db>, t: Tick, lastRev: int, page: seq<Row>, lastRev': int, r: Row) {
    && Timeline(dbs) && ValidFetch(dbs, t.fetch) && Polls(t, lastRev)
    && PollStep(dbs, t, lastRev, page, lastRev')
    && r in Passed(dbs[t.fetch.query], lastRev, lastRev') && r !in page
  }

  lemma PollOverVersions(db: Db, k: Key) returns (dbs: seq<Db>, t: Tick, page: seq<Row>, rev: int, r: Row)
    requires Inv(db) && IsVersions(db, k, POLL_BATCH_SIZE + 1)
    ensures StepsOver(dbs, t, 1, page, rev, r)
  {
    dbs, t, rev := [db], Tick(None, Fetch(0, 0, 0), false), CurrentRevision(db.table);
    page := SomeEventPage(AfterRows(db.table, [], 1), POLL_BATCH_SIZE);
    assert Passed(db, 1, rev) == db.table;
    PollLosesNothingIff(dbs, t, 1, page, rev);
    r :| r in Passed(db, 1, rev) && r !in page;
  }

  /** Writing one key 501 times between two polls is enough for the loop to lose an event. */
  lemma PollLosesEvent() returns (dbs: seq<Db>, t: Tick, lastRev: int, page: seq<Row>, lastRev': int, r: Row)
    ensures StepsOver(dbs, t, lastRev, page, lastRev', r)
  {
    lastRev := 1;
    dbs, t, page, lastRev', r := PollOverVersions(Versions([97], POLL_BATCH_SIZE + 1), [97]);
  }
}
