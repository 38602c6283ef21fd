/** The replay of a new subscription, page by page, and its handover to the live feed. */
module Replay {
  import opened Bytes
  import opened Rows
  import opened Log
  import opened Compaction
  import opened Reads
  import opened Watch
  import opened Histories
  import Subscribers

  // ---------- pages ----------

  predicate ValidFetches(dbs: seq<Db>, fetches: seq<Fetch>) {
    && (forall i | 0 <= i < |fetches| :: ValidFetch(dbs, fetches[i]))
    && (forall i, j | 0 <= i < j < |fetches| :: fetches[i].query <= fetches[j].start)
  }

  function NextRev(rev: int, page: seq<Row>): int {
    if page == [] then rev else page[|page| - 1].rev
  }

  predicate PageStep(dbs: seq<Db>, f: Fetch, prefix: Bytes, rev: int, page: seq<Row>, rev': int)
    requires ValidFetch(dbs, f)
  {
    && !(rev > 0 && rev < Horizon(dbs[f.check]))
    && EventPage(AfterRows(dbs[f.query].table, prefix, rev), POLL_BATCH_SIZE, page)
    && rev' == NextRev(rev, page)
  }

  /** The pages of a replay: all full but possibly the last. */
  predicate PageRun(dbs: seq<Db>, fetches: seq<Fetch>, prefix: Bytes, revs: seq<int>, pages: seq<seq<Row>>) {
    && ValidFetches(dbs, fetches)
    && |pages| <= |fetches| && |revs| == |pages| + 1
    && (forall i | 0 <= i < |pages| :: PageStep(dbs, fetches[i], prefix, revs[i], pages[i], revs[i + 1]))
    && (forall i | 0 <= i < |pages| - 1 :: |pages[i]| == POLL_BATCH_SIZE)
  }

  predicate CaughtUp(pages: seq<seq<Row>>) {
    pages != [] && |pages[|pages| - 1]| < POLL_BATCH_SIZE
  }

  datatype ReplayEnd = LiveOnly | Complete | Refusal | OutOfTime

  /**
   The replay of a subscription from `afterRev`; from 0 there is none. Each After call meets the
   database as it is by then; the loop ends with a short page, a compaction error, or the end of
   the subscription.
   */
  method ReplayPages(dbs: seq<Db>, horizonCheck: nat, fetches: seq<Fetch>, prefix: Bytes, afterRev: int)
    returns (revs: seq<int>, pages: seq<seq<Row>>, end: ReplayEnd)
    requires ValidFetches(dbs, fetches) && horizonCheck < |dbs|
    ensures PageRun(dbs, fetches, prefix, revs, pages) && revs[0] == afterRev - 1
    ensures (end.LiveOnly? <==> afterRev == 0) && (end.LiveOnly? ==> pages == [])
    ensures end.Complete? ==> CaughtUp(pages)
    ensures end.OutOfTime? ==> |pages| == |fetches|
    ensures afterRev != 0 && Horizon(dbs[horizonCheck]) > 1 && afterRev <= Horizon(dbs[horizonCheck]) ==>
              end.Refusal? && pages == []
  {
    revs, pages := [afterRev - 1], [];
    if afterRev == 0 {
      return revs, pages, LiveOnly;
    }
    var compactRev := Horizon(dbs[horizonCheck]);
    if compactRev > 1 && afterRev <= compactRev {
      return revs, pages, Refusal;
    }
    var replayRev := afterRev - 1;
    for i := 0 to |fetches|
      invariant |pages| == i && |revs| == i + 1 && revs[0] == afterRev - 1 && revs[i] == replayRev
      invariant PageRun(dbs, fetches, prefix, revs, pages)
      invariant forall j | 0 <= j < i :: |pages[j]| == POLL_BATCH_SIZE
    {
      var refused, events := ReplayPage(dbs, fetches[i], prefix, replayRev);
      if refused { return revs, pages, Refusal; }
      replayRev := NextRev(replayRev, events);
      pages := pages + [events];
      revs := revs + [replayRev];
      if |events| < POLL_BATCH_SIZE {
        return revs, pages, Complete;
      }
    }
    end := OutOfTime;
  }

  method ReplayPage(dbs: seq<Db>, f: Fetch, prefix: Bytes, replayRev: int) returns (refused: bool, events: seq<Row>)
    requires ValidFetch(dbs, f)
    ensures refused <==> replayRev > 0 && replayRev < Horizon(dbs[f.check])
    ensures !refused ==> PageStep(dbs, f, prefix, replayRev, events, NextRev(replayRev, events))
    ensures !refused ==> |events| <= POLL_BATCH_SIZE
  {
    var answer := AfterQuery(dbs[f.start], dbs[f.check], dbs[f.query], prefix, replayRev, POLL_BATCH_SIZE);
    match answer
    case Compacted(_) => return true, [];
    case Ok(_, page) =>
      EventPageSize(AfterRows(dbs[f.query].table, prefix, replayRev), page);
      return false, page;
  }

  // ---------- what the pages hold ----------

  predicate Delivered(pages: seq<seq<Row>>, r: Row) {
    exists i :: 0 <= i < |pages| && r in pages[i]
  }

  /** A row of the same commit as the last row of page i that the limit cut off. */
  predicate CutOff(dbs: seq<Db>, fetches: seq<Fetch>, prefix: Bytes, revs: seq<int>, pages: seq<seq<Row>>, i: nat,
      r: Row)
    requires PageRun(dbs, fetches, prefix, revs, pages) && i < |pages|
  {
    r in AfterRows(dbs[fetches[i].query].table, prefix, revs[i]) && r !in pages[i] && r.rev == revs[i + 1]
  }

  /** A row falls to page i: above its start, and up to its end unless it is the last page. */
  predicate FallsTo(revs: seq<int>, n: nat, i: nat, r: Row)
    requires i < n < |revs|
  {
    revs[i] < r.rev && (i < n - 1 ==> r.rev <= revs[i + 1])
  }

  /** A row that fell to page i but was compacted away before its query. */
  predicate TakenAway(dbs: seq<Db>, fetches: seq<Fetch>, prefix: Bytes, revs: seq<int>, n: nat, i: nat, r: Row)
    requires ValidFetches(dbs, fetches) && i < n <= |fetches| && n < |revs|
  {
    var db := dbs[fetches[i].query];
    r in db.history && r !in db.table && Like(r.key, LikePrefix(prefix)) && FallsTo(revs, n, i, r)
  }

  /** No compaction removed a row before the query of the page it falls to. */
  ghost predicate NothingTaken(dbs: seq<Db>, fetches: seq<Fetch>, prefix: Bytes, revs: seq<int>, n: nat)
    requires ValidFetches(dbs, fetches) && n <= |fetches| && n < |revs|
  {
    forall i, r | 0 <= i < n :: !TakenAway(dbs, fetches, prefix, revs, n, i, r)
  }

  /** No compaction overtook the replay: at every query the horizon was at or below its start. */
  predicate NotOvertaken(dbs: seq<Db>, fetches: seq<Fetch>, prefix: Bytes, revs: seq<int>, pages: seq<seq<Row>>)
    requires PageRun(dbs, fetches, prefix, revs, pages)
  {
    forall i | 0 <= i < |pages| :: Horizon(dbs[fetches[i].query]) <= RevToTs(revs[i])
  }

  lemma PageFacts(all: set<Row>, rev: int, page: seq<Row>)
    requires EventPage(all, POLL_BATCH_SIZE, page) && forall r | r in all :: r.rev > rev
    ensures NextRev(rev, page) >= rev && (page != [] ==> NextRev(rev, page) > rev)
    ensures forall r | r in page :: rev < r.rev <= NextRev(rev, page)
    ensures |page| < POLL_BATCH_SIZE ==> forall r | r in all :: r in page
    ensures forall r | r in all && r.rev < NextRev(rev, page) :: r in page
  {
    if page != [] {
      var last := page[|page| - 1];
      assert last in page;
      forall r | r in page ensures rev < r.rev <= last.rev {
        var i :| 0 <= i < |page| && page[i] == r;
      }
      forall r | r in all && r.rev < last.rev ensures r in page { }
    }
  }

  lemma AfterRowsBound(t: set<Row>, prefix: Bytes, rev: int)
    ensures forall r | r in AfterRows(t, prefix, rev) :: r.rev > rev
  {
  }

  lemma StepFacts(dbs: seq<Db>, fetches: seq<Fetch>, prefix: Bytes, revs: seq<int>, pages: seq<seq<Row>>, i: nat)
    requires PageRun(dbs, fetches, prefix, revs, pages) && i < |pages|
    ensures revs[i] <= revs[i + 1] && forall r | r in pages[i] :: revs[i] < r.rev <= revs[i + 1]
  {
    assert PageStep(dbs, fetches[i], prefix, revs[i], pages[i], revs[i + 1]);
    AfterRowsBound(dbs[fetches[i].query].table, prefix, revs[i]);
    PageFacts(AfterRows(dbs[fetches[i].query].table, prefix, revs[i]), revs[i], pages[i]);
  }

  lemma {:induction false} RevsGrow(dbs: seq<Db>, fetches: seq<Fetch>, prefix: Bytes, revs: seq<int>,
      pages: seq<seq<Row>>, i: nat, j: nat)
    requires PageRun(dbs, fetches, prefix, revs, pages) && i <= j <= |pages|
    ensures revs[i] <= revs[j]
    decreases j - i
  {
    if i < j {
      StepFacts(dbs, fetches, prefix, revs, pages, i);
      RevsGrow(dbs, fetches, prefix, revs, pages, i + 1, j);
    }
  }

  /** Pages come in revision order and repeat nothing, even while rows are being appended. */
  lemma PagesInOrder(dbs: seq<Db>, fetches: seq<Fetch>, prefix: Bytes, revs: seq<int>, pages: seq<seq<Row>>, i: nat,
      j: nat, a: Row, b: Row)
    requires PageRun(dbs, fetches, prefix, revs, pages) && i < j < |pages| && a in pages[i] && b in pages[j]
    ensures a.rev < b.rev
  {
    StepFacts(dbs, fetches, prefix, revs, pages, i);
    StepFacts(dbs, fetches, prefix, revs, pages, j);
    RevsGrow(dbs, fetches, prefix, revs, pages, i + 1, j);
  }

  /** A row the replay has passed was in the history when it was passed. */
  lemma PassedRowWasThere(dbs: seq<Db>, fetches: seq<Fetch>, prefix: Bytes, revs: seq<int>, pages: seq<seq<Row>>,
      i: nat, late: nat, r: Row)
    requires Timeline(dbs) && PageRun(dbs, fetches, prefix, revs, pages) && i < |pages|
    requires fetches[i].query <= late < |dbs| && r in dbs[late].history && revs[i] < r.rev <= revs[i + 1]
    ensures r in dbs[fetches[i].query].history
  {
    var q := fetches[i].query;
    assert PageStep(dbs, fetches[i], prefix, revs[i], pages[i], revs[i + 1]);
    var last := pages[i][|pages[i]| - 1];
    assert last in pages[i];
    assert Grows(dbs[q], dbs[late]) && Inv(dbs[q]);
    assert last in dbs[q].history;
  }

  /** As long as no horizon overtakes it, a replay loses nothing to compaction. */
  lemma NotOvertakenKeeps(dbs: seq<Db>, fetches: seq<Fetch>, prefix: Bytes, revs: seq<int>, pages: seq<seq<Row>>)
    requires Timeline(dbs) && PageRun(dbs, fetches, prefix, revs, pages)
    requires NotOvertaken(dbs, fetches, prefix, revs, pages)
    ensures NothingTaken(dbs, fetches, prefix, revs, |pages|)
  {
    forall i, r | 0 <= i < |pages| ensures !TakenAway(dbs, fetches, prefix, revs, |pages|, i, r) {
      if r in dbs[fetches[i].query].history && Like(r.key, LikePrefix(prefix)) && r.rev > revs[i] {
        QueryIsComplete(dbs, fetches[i].query, prefix, revs[i], r);
      }
    }
  }

  lemma OnePageExact(dbs: seq<Db>, fetches: seq<Fetch>, prefix: Bytes, revs: seq<int>, pages: seq<seq<Row>>, i: nat,
      late: nat, r: Row)
    requires Timeline(dbs) && PageRun(dbs, fetches, prefix, revs, pages) && i < |pages|
    requires fetches[i].query <= late < |dbs| && r in dbs[late].history && Like(r.key, LikePrefix(prefix))
    requires revs[i] < r.rev <= revs[i + 1]
    ensures r in pages[i] <==>
            && !CutOff(dbs, fetches, prefix, revs, pages, i, r)
            && !TakenAway(dbs, fetches, prefix, revs, |pages|, i, r)
  {
    PassedRowWasThere(dbs, fetches, prefix, revs, pages, i, late, r);
    assert Inv(dbs[fetches[i].query]);
    assert PageStep(dbs, fetches[i], prefix, revs[i], pages[i], revs[i + 1]);
    AfterRowsBound(dbs[fetches[i].query].table, prefix, revs[i]);
    PageFacts(AfterRows(dbs[fetches[i].query].table, prefix, revs[i]), revs[i], pages[i]);
  }

  /** The page, if any, that a revision falls into. */
  lemma {:induction false} PageOf(dbs: seq<Db>, fetches: seq<Fetch>, prefix: Bytes, revs: seq<int>,
      pages: seq<seq<Row>>, rev: int, n: nat) returns (i: nat)
    requires PageRun(dbs, fetches, prefix, revs, pages) && n <= |pages| && revs[0] < rev <= revs[n]
    ensures i < n && revs[i] < rev <= revs[i + 1]
    decreases n
  {
    if revs[n - 1] < rev { i := n - 1; } else { i := PageOf(dbs, fetches, prefix, revs, pages, rev, n - 1); }
  }

  /** A page holds only matching rows of the history after its start. */
  lemma PageRowsAreReal(dbs: seq<Db>, fetches: seq<Fetch>, prefix: Bytes, revs: seq<int>, pages: seq<seq<Row>>,
      i: nat, r: Row)
    requires Timeline(dbs) && PageRun(dbs, fetches, prefix, revs, pages) && i < |pages| && r in pages[i]
    ensures r in dbs[fetches[|pages| - 1].query].history && Like(r.key, LikePrefix(prefix)) && r.rev > revs[0]
  {
    assert PageStep(dbs, fetches[i], prefix, revs[i], pages[i], revs[i + 1]);
    RevsGrow(dbs, fetches, prefix, revs, pages, 0, i);
    assert Inv(dbs[fetches[i].query]) && Grows(dbs[fetches[i].query], dbs[fetches[|pages| - 1].query]);
  }

  /**
   A finished replay, exactly: it has delivered the matching rows ever written from its start
   revision up to its last query, each in one page, except the rows a page boundary cut off from
   the rest of their commit and the rows compacted away before their page was asked for; and those
   it never delivers.
   */
  lemma ReplayExact(dbs: seq<Db>, fetches: seq<Fetch>, prefix: Bytes, revs: seq<int>, pages: seq<seq<Row>>, r: Row)
    requires Timeline(dbs) && PageRun(dbs, fetches, prefix, revs, pages) && CaughtUp(pages)
    ensures Delivered(pages, r) <==>
            && r in dbs[fetches[|pages| - 1].query].history && Like(r.key, LikePrefix(prefix)) && r.rev > revs[0]
            && (forall i | 0 <= i < |pages| :: !CutOff(dbs, fetches, prefix, revs, pages, i, r))
            && (forall i | 0 <= i < |pages| :: !TakenAway(dbs, fetches, prefix, revs, |pages|, i, r))
  {
    if Delivered(pages, r) {
      var i :| 0 <= i < |pages| && r in pages[i];
      PageRowsAreReal(dbs, fetches, prefix, revs, pages, i, r);
      forall j | 0 <= j < |pages|
        ensures !CutOff(dbs, fetches, prefix, revs, pages, j, r)
        ensures !TakenAway(dbs, fetches, prefix, revs, |pages|, j, r)
      {
        NotLostElsewhere(dbs, fetches, prefix, revs, pages, i, j, r);
      }
    } else if Owed(dbs[fetches[|pages| - 1].query], prefix, revs[0], r) {
      var i := LostSomewhere(dbs, fetches, prefix, revs, pages, r);
    }
  }

  /** What is owed and not delivered was lost at the page it falls to. */
  lemma LostSomewhere(dbs: seq<Db>, fetches: seq<Fetch>, prefix: Bytes, revs: seq<int>, pages: seq<seq<Row>>, r: Row)
    returns (i: nat)
    requires Timeline(dbs) && PageRun(dbs, fetches, prefix, revs, pages) && CaughtUp(pages)
    requires Owed(dbs[fetches[|pages| - 1].query], prefix, revs[0], r) && !Delivered(pages, r)
    ensures i < |pages|
    ensures CutOff(dbs, fetches, prefix, revs, pages, i, r) || TakenAway(dbs, fetches, prefix, revs, |pages|, i, r)
  {
    var n := |pages|;
    if r.rev <= revs[n] {
      i := PageOf(dbs, fetches, prefix, revs, pages, r.rev, n);
      OnePageExact(dbs, fetches, prefix, revs, pages, i, fetches[n - 1].query, r);
    } else {
      i := n - 1;
      StepFacts(dbs, fetches, prefix, revs, pages, i);
      LastPageTakesRest(dbs, fetches, prefix, revs, pages, r);
    }
  }

  lemma NotLostElsewhere(dbs: seq<Db>, fetches: seq<Fetch>, prefix: Bytes, revs: seq<int>, pages: seq<seq<Row>>,
      i: nat, j: nat, r: Row)
    requires PageRun(dbs, fetches, prefix, revs, pages) && i < |pages| && j < |pages| && r in pages[i]
    ensures !CutOff(dbs, fetches, prefix, revs, pages, j, r)
    ensures !TakenAway(dbs, fetches, prefix, revs, |pages|, j, r)
  {
    StepFacts(dbs, fetches, prefix, revs, pages, i);
    assert PageStep(dbs, fetches[i], prefix, revs[i], pages[i], revs[i + 1]);
    AfterRowsBound(dbs[fetches[j].query].table, prefix, revs[j]);
    if j < i { RevsGrow(dbs, fetches, prefix, revs, pages, j + 1, i); }
    if i < j { RevsGrow(dbs, fetches, prefix, revs, pages, i + 1, j); }
  }

  lemma LastPageTakesRest(dbs: seq<Db>, fetches: seq<Fetch>, prefix: Bytes, revs: seq<int>, pages: seq<seq<Row>>,
      r: Row)
    requires Timeline(dbs) && PageRun(dbs, fetches, prefix, revs, pages) && CaughtUp(pages)
    requires r in dbs[fetches[|pages| - 1].query].history && Like(r.key, LikePrefix(prefix))
            && r.rev > revs[|pages| - 1]
    ensures r in pages[|pages| - 1] || TakenAway(dbs, fetches, prefix, revs, |pages|, |pages| - 1, r)
  {
    var n := |pages| - 1;
    assert PageStep(dbs, fetches[n], prefix, revs[n], pages[n], revs[n + 1]);
    assert Inv(dbs[fetches[n].query]);
    AfterRowsBound(dbs[fetches[n].query].table, prefix, revs[n]);
    PageFacts(AfterRows(dbs[fetches[n].query].table, prefix, revs[n]), revs[n], pages[n]);
  }

  // ---------- which replays are complete ----------

  function UpTo(all: set<Row>, rev: int): set<Row> {
    set r | r in all && r.rev <= rev
  }

  /** The commit at rev straddles the end of a page: fewer than 500 rows before it, more with it. */
  predicate Straddles(all: set<Row>, rev: int) {
    |UpTo(all, rev - 1)| < POLL_BATCH_SIZE < |UpTo(all, rev)|
  }

  lemma CutMeansStraddle(all: set<Row>, rev: int, page: seq<Row>, r: Row)
    requires EventPage(all, POLL_BATCH_SIZE, page) && forall x | x in all :: x.rev > rev
    requires r in all && r !in page && r.rev == NextRev(rev, page)
    ensures Straddles(all, r.rev)
  {
    var p, last := (set x | x in page), page[|page| - 1];
    PageFacts(all, rev, page);
    DistinctSize(page);
    assert last in page;
    SubsetSize(p + {r}, UpTo(all, r.rev));
    SubsetSize(UpTo(all, r.rev - 1), p - {last});
  }

  lemma StraddleMeansCut(all: set<Row>, rev: int, page: seq<Row>, at: int) returns (r: Row)
    requires EventPage(all, POLL_BATCH_SIZE, page) && forall x | x in all :: x.rev > rev
    requires Straddles(all, at)
    ensures r in all && r !in page && r.rev == at == NextRev(rev, page)
  {
    var p := set x | x in page;
    PageFacts(all, rev, page);
    DistinctSize(page);
    SubsetSize(UpTo(all, at), all);
    var last := page[|page| - 1];
    assert last in page;
    if last.rev < at { SubsetSize(p, UpTo(all, at - 1)); }
    if last.rev > at { SubsetSize(UpTo(all, at), p); }
    if UpTo(all, at) <= p { SubsetSize(UpTo(all, at), p); }
    r :| r in UpTo(all, at) && r !in p;
  }

  /** A page cuts a row off from the rest of its commit exactly when a commit straddles its end. */
  lemma PageCutsIff(dbs: seq<Db>, fetches: seq<Fetch>, prefix: Bytes, revs: seq<int>, pages: seq<seq<Row>>, i: nat)
    requires PageRun(dbs, fetches, prefix, revs, pages) && i < |pages|
    ensures (exists r :: CutOff(dbs, fetches, prefix, revs, pages, i, r))
            <==> exists rev :: Straddles(AfterRows(dbs[fetches[i].query].table, prefix, revs[i]), rev)
  {
    var all := AfterRows(dbs[fetches[i].query].table, prefix, revs[i]);
    AfterRowsBound(dbs[fetches[i].query].table, prefix, revs[i]);
    assert PageStep(dbs, fetches[i], prefix, revs[i], pages[i], revs[i + 1]);
    if r :| CutOff(dbs, fetches, prefix, revs, pages, i, r) {
      CutMeansStraddle(all, revs[i], pages[i], r);
    }
    if rev :| Straddles(all, rev) {
      var r := StraddleMeansCut(all, revs[i], pages[i], rev);
      assert CutOff(dbs, fetches, prefix, revs, pages, i, r);
    }
  }

  /** No commit straddles the end of any page the replay asked for. */
  ghost predicate NoCommitSplit(dbs: seq<Db>, fetches: seq<Fetch>, prefix: Bytes, revs: seq<int>, n: nat)
    requires ValidFetches(dbs, fetches) && n <= |fetches| && n <= |revs|
  {
    forall i, rev | 0 <= i < n :: !Straddles(AfterRows(dbs[fetches[i].query].table, prefix, revs[i]), rev)
  }

  /** What a client that replays from revs[0] is owed: the matching rows ever written by the last query. */
  predicate Owed(db: Db, prefix: Bytes, rev: int, r: Row) {
    r in db.history && Like(r.key, LikePrefix(prefix)) && r.rev > rev
  }

  /**
   A finished replay has delivered everything exactly when no commit straddled a page end and no
   compaction removed a row before the query of the page it falls to.
   */
  lemma ReplayCompleteIff(dbs: seq<Db>, fetches: seq<Fetch>, prefix: Bytes, revs: seq<int>, pages: seq<seq<Row>>)
    requires Timeline(dbs) && PageRun(dbs, fetches, prefix, revs, pages) && CaughtUp(pages)
    ensures (forall r | Owed(dbs[fetches[|pages| - 1].query], prefix, revs[0], r) :: Delivered(pages, r))
            <==> && NoCommitSplit(dbs, fetches, prefix, revs, |pages|)
                 && NothingTaken(dbs, fetches, prefix, revs, |pages|)
  {
    var last := fetches[|pages| - 1].query;
    if !NothingTaken(dbs, fetches, prefix, revs, |pages|) {
      var i, r :| 0 <= i < |pages| && TakenAway(dbs, fetches, prefix, revs, |pages|, i, r);
      TakenIsOwed(dbs, fetches, prefix, revs, pages, i, r);
      ReplayExact(dbs, fetches, prefix, revs, pages, r);
    } else if NoCommitSplit(dbs, fetches, prefix, revs, |pages|) {
      forall r | Owed(dbs[last], prefix, revs[0], r) ensures Delivered(pages, r) {
        NothingCut(dbs, fetches, prefix, revs, pages, r);
        ReplayExact(dbs, fetches, prefix, revs, pages, r);
      }
    } else {
      var i, rev :| 0 <= i < |pages| && Straddles(AfterRows(dbs[fetches[i].query].table, prefix, revs[i]), rev);
      PageCutsIff(dbs, fetches, prefix, revs, pages, i);
      var r :| CutOff(dbs, fetches, prefix, revs, pages, i, r);
      CutIsOwed(dbs, fetches, prefix, revs, pages, i, r);
      ReplayExact(dbs, fetches, prefix, revs, pages, r);
    }
  }

  lemma NothingCut(dbs: seq<Db>, fetches: seq<Fetch>, prefix: Bytes, revs: seq<int>, pages: seq<seq<Row>>, r: Row)
    requires PageRun(dbs, fetches, prefix, revs, pages) && NoCommitSplit(dbs, fetches, prefix, revs, |pages|)
    ensures forall i | 0 <= i < |pages| :: !CutOff(dbs, fetches, prefix, revs, pages, i, r)
  {
    forall i | 0 <= i < |pages| ensures !CutOff(dbs, fetches, prefix, revs, pages, i, r) {
      PageCutsIff(dbs, fetches, prefix, revs, pages, i);
    }
  }

  lemma TakenIsOwed(dbs: seq<Db>, fetches: seq<Fetch>, prefix: Bytes, revs: seq<int>, pages: seq<seq<Row>>, i: nat,
      r: Row)
    requires Timeline(dbs) && PageRun(dbs, fetches, prefix, revs, pages) && i < |pages|
    requires TakenAway(dbs, fetches, prefix, revs, |pages|, i, r)
    ensures Owed(dbs[fetches[|pages| - 1].query], prefix, revs[0], r)
  {
    RevsGrow(dbs, fetches, prefix, revs, pages, 0, i);
    assert Grows(dbs[fetches[i].query], dbs[fetches[|pages| - 1].query]);
  }

  lemma CutIsOwed(dbs: seq<Db>, fetches: seq<Fetch>, prefix: Bytes, revs: seq<int>, pages: seq<seq<Row>>, i: nat,
      r: Row)
    requires Timeline(dbs) && PageRun(dbs, fetches, prefix, revs, pages) && i < |pages|
    requires CutOff(dbs, fetches, prefix, revs, pages, i, r)
    ensures Owed(dbs[fetches[|pages| - 1].query], prefix, revs[0], r)
  {
    RevsGrow(dbs, fetches, prefix, revs, pages, 0, i);
    AfterRowsBound(dbs[fetches[i].query].table, prefix, revs[i]);
    assert Inv(dbs[fetches[i].query]) && Grows(dbs[fetches[i].query], dbs[fetches[|pages| - 1].query]);
  }

  /** A finished replay that owes a row it never delivered. */
  predicate ReplayMisses(dbs: seq<Db>, fetches: seq<Fetch>, prefix: Bytes, revs: seq<int>, pages: seq<seq<Row>>,
      r: Row)
  {
    && Timeline(dbs) && PageRun(dbs, fetches, prefix, revs, pages) && CaughtUp(pages)
    && Owed(dbs[fetches[|pages| - 1].query], prefix, revs[0], r) && !Delivered(pages, r)
  }

  lemma BurstPage(db: Db) returns (page: seq<Row>, r: Row)
    requires IsBurst(db, POLL_BATCH_SIZE + 1)
    ensures EventPage(AfterRows(db.table, [], 0), POLL_BATCH_SIZE, page) && |page| == POLL_BATCH_SIZE
    ensures r in db.table && r !in page && page[|page| - 1].rev == 2
    ensures AfterRows(db.table, [], 2) == {}
  {
    var all := AfterRows(db.table, [], 0);
    assert all == db.table by { forall x | x in db.table ensures x in all { MatchesAll(x.key); } }
    page := SomeEventPage(all, POLL_BATCH_SIZE);
    assert page[|page| - 1] in page;
    if forall x | x in all :: x in page { PageBounds(all, page, all); }
    r :| r in all && r !in page;
  }

  lemma ReplayOverBurst(db: Db)
    returns (dbs: seq<Db>, fetches: seq<Fetch>, revs: seq<int>, pages: seq<seq<Row>>, r: Row)
    requires Inv(db) && IsBurst(db, POLL_BATCH_SIZE + 1)
    ensures ReplayMisses(dbs, fetches, [], revs, pages, r)
  {
    var page;
    page, r := BurstPage(db);
    dbs, fetches, revs, pages := [db], [Fetch(0, 0, 0), Fetch(0, 0, 0)], [0, 2, 2], [page, []];
    assert PageStep(dbs, fetches[0], [], revs[0], pages[0], revs[1]);
    assert PageStep(dbs, fetches[1], [], revs[1], pages[1], revs[2]);
    MatchesAll(r.key);
  }

  /** One transaction that puts 501 keys is enough for a replay from the start to lose an event. */
  lemma ReplayLosesEvent()
    returns (dbs: seq<Db>, fetches: seq<Fetch>, prefix: Bytes, revs: seq<int>, pages: seq<seq<Row>>, r: Row)
    ensures ReplayMisses(dbs, fetches, prefix, revs, pages, r)
  {
    prefix := [];
    dbs, fetches, revs, pages, r := ReplayOverBurst(Burst(POLL_BATCH_SIZE + 1));
  }

  lemma TwoVersions(db: Db, k: Key, n: nat) returns (v: Row, w: Row)
    requires IsVersions(db, k, n) && n == 2
    ensures db.table == {v, w} && v.rev == 2 && v.key == k && w.rev == 4 && w.key == k
  {
    assert HasVersion(db.table, 1) && HasVersion(db.table, 2);
    v :| v in db.table && v.rev == 2;
    w :| w in db.table && w.rev == 4;
    assert db.table == {v, w} by { SubsetSize({v, w}, db.table); }
  }

  /** A compaction up to the first of two versions of a key, alone. */
  lemma CompactFirst(db: Db, k: Key, n: nat) returns (now: Db, v: Row, w: Row)
    requires Inv(db) && IsVersions(db, k, n) && n == 2
    ensures Inv(now) && Grows(db, now) && now.table == {w} && now.history == db.history
    ensures v in db.history && v.rev == 2 && v.key == k && w.rev == 4 && w.key == k
  {
    v, w := TwoVersions(db, k, n);
    var recorded := db.(kvRev := Some(2));
    InvSurvivesHorizon(db, Some(2));
    assert Superseded(db.history, v);
    InvSurvivesRemoval(recorded, {v});
    now := recorded.(table := recorded.table - {v});
    GrowsTransitive(db, recorded, now);
  }

  lemma ReplayOverCompaction(db: Db, k: Key)
    returns (dbs: seq<Db>, fetches: seq<Fetch>, revs: seq<int>, pages: seq<seq<Row>>, r: Row)
    requires Inv(db) && IsVersions(db, k, 2)
    ensures ReplayMisses(dbs, fetches, [], revs, pages, r)
  {
    var now, w;
    now, r, w := CompactFirst(db, k, 2);
    dbs, fetches, revs, pages := [db, now], [Fetch(0, 0, 1)], [1, 4], [[w]];
    MatchesAll(k);
    TwoStates(dbs);
    OneRowPage(now.table, w);
    assert PageStep(dbs, fetches[0], [], revs[0], pages[0], revs[1]);
  }

  lemma TwoStates(dbs: seq<Db>)
    requires |dbs| == 2 && Inv(dbs[0]) && Inv(dbs[1]) && Grows(dbs[0], dbs[1])
    ensures Timeline(dbs)
  {
  }

  lemma OneRowPage(t: Table, w: Row)
    requires t == {w} && w.rev == 4
    ensures EventPage(AfterRows(t, [], 1), POLL_BATCH_SIZE, [w])
  {
    MatchesAll(w.key);
    assert AfterRows(t, [], 1) == {w};
  }

  /** Two versions of a key: a compaction between the check and the query of a page takes the first. */
  lemma CompactionOvertakesReplay()
    returns (dbs: seq<Db>, fetches: seq<Fetch>, prefix: Bytes, revs: seq<int>, pages: seq<seq<Row>>, r: Row)
    ensures ReplayMisses(dbs, fetches, prefix, revs, pages, r)
  {
    prefix := [];
    dbs, fetches, revs, pages, r := ReplayOverCompaction(Versions([97], 2), [97]);
  }

  /** Over a database that does not change, n full pages need n times 500 rows: the loop ends. */
  lemma {:induction false} ReplayTerminates(dbs: seq<Db>, fetches: seq<Fetch>, prefix: Bytes, revs: seq<int>,
      pages: seq<seq<Row>>, n: nat)
    requires PageRun(dbs, fetches, prefix, revs, pages) && n <= |pages| && 0 < |fetches|
    requires forall i | 0 <= i < |fetches| :: dbs[fetches[i].query] == dbs[fetches[0].query]
    requires forall i | 0 <= i < n :: |pages[i]| == POLL_BATCH_SIZE
    ensures n * POLL_BATCH_SIZE + |AfterRows(dbs[fetches[0].query].table, prefix, revs[n])|
            <= |AfterRows(dbs[fetches[0].query].table, prefix, revs[0])|
    decreases n
  {
    if n > 0 {
      var t, i := dbs[fetches[0].query].table, n - 1;
      ReplayTerminates(dbs, fetches, prefix, revs, pages, i);
      assert PageStep(dbs, fetches[i], prefix, revs[i], pages[i], revs[n]);
      StepFacts(dbs, fetches, prefix, revs, pages, i);
      PageShrinks(AfterRows(t, prefix, revs[i]), AfterRows(t, prefix, revs[n]), pages[i], revs[n]);
    }
  }

  lemma EventPageSize(all: set<Row>, page: seq<Row>)
    requires EventPage(all, POLL_BATCH_SIZE, page)
    ensures |page| <= POLL_BATCH_SIZE && |page| <= |all|
  {
    DistinctSize(page);
    SubsetSize((set r | r in page), all);
  }

  lemma PageShrinks(before: set<Row>, after: set<Row>, page: seq<Row>, rev: int)
    requires EventPage(before, POLL_BATCH_SIZE, page)
    requires after <= before && forall r | r in after :: r !in page
    ensures |page| + |after| <= |before|
  {
    var p := set r | r in page;
    DistinctSize(page);
    SubsetSize(p + after, before);
  }

  // ---------- handover ----------

  /** A dispatched batch reaches a subscriber registered when the dispatch copied the list. */
  predicate LiveDelivered(ticks: seq<Tick>, pages: seq<seq<Row>>, registered: nat, prefix: Bytes, r: Row)
    requires |pages| == |ticks|
  {
    exists i :: 0 <= i < |ticks| && registered <= ticks[i].fetch.query && r in Subscribers.Matching(prefix, pages[i])
  }

  /** A replay that finished with nothing lost to compaction or to a page end. */
  ghost predicate WholeReplay(dbs: seq<Db>, fetches: seq<Fetch>, prefix: Bytes, revs: seq<int>, pages: seq<seq<Row>>) {
    && PageRun(dbs, fetches, prefix, revs, pages) && CaughtUp(pages)
    && NothingTaken(dbs, fetches, prefix, revs, |pages|) && NoCommitSplit(dbs, fetches, prefix, revs, |pages|)
  }

  /** A poll loop whose first cursor was read at `first`, with no lossy pass, all of it by `late`. */
  predicate WholePolling(dbs: seq<Db>, first: nat, ticks: seq<Tick>, cursor: seq<int>, live: seq<seq<Row>>, late: nat) {
    && PollRun(dbs, ticks, cursor, live)
    && first < |dbs| && cursor[0] == CurrentRevision(dbs[first].table)
    && forall i | 0 <= i < |ticks| ::
         && first <= ticks[i].fetch.start && ticks[i].fetch.query <= late
         && !Lossy(dbs, ticks[i], cursor[i], cursor[i + 1])
  }

  /**
   Replay and live feed together, exactly: a subscriber registered before its first replay query
   gets a matching row that the loop's cursor has reached exactly when the row was there at the
   last replay query or lies above the first cursor value. When the first cursor was read no later
   than that query there is no gap at all.
   */
  lemma HandoverExact(dbs: seq<Db>, registered: nat,
                      fetches: seq<Fetch>, prefix: Bytes, revs: seq<int>, pages: seq<seq<Row>>,
                      firstPoll: nat, ticks: seq<Tick>, cursor: seq<int>, live: seq<seq<Row>>,
                      late: nat, r: Row)
    requires Timeline(dbs) && late < |dbs| && NoEscape(prefix)
    requires WholeReplay(dbs, fetches, prefix, revs, pages) && registered <= fetches[0].start
    requires WholePolling(dbs, firstPoll, ticks, cursor, live, late)
    requires r in dbs[late].history && HasPrefix(r.key, prefix) && revs[0] < r.rev <= cursor[|ticks|]
    ensures var last := fetches[|pages| - 1].query;
            && (Delivered(pages, r) || LiveDelivered(ticks, live, registered, prefix, r)
                <==> r in dbs[last].history || r.rev > cursor[0])
            && (firstPoll <= last ==> Delivered(pages, r) || LiveDelivered(ticks, live, registered, prefix, r))
  {
    var last := fetches[|pages| - 1].query;
    PrefixIsLike(prefix, r.key);
    ReplayExact(dbs, fetches, prefix, revs, pages, r);
    NothingCut(dbs, fetches, prefix, revs, pages, r);
    if r !in dbs[last].history {
      if r.rev > cursor[0] {
        PolledIsLive(dbs, last, registered, prefix, ticks, cursor, live, late, r);
      } else {
        FirstCursorIsLow(dbs, firstPoll, ticks, cursor, live, late);
        assert Inv(dbs[late]);
        StartupGap(dbs, fetches, prefix, revs, pages, ticks, cursor, live, registered, r);
      }
      NewRowIsLater(dbs, last, late, r);
      if firstPoll <= last { LaterIsNotLower(dbs, firstPoll, last); }
    }
  }

  lemma {:induction false} PrefixIsLike(prefix: Bytes, k: Key)
    requires NoEscape(prefix) && HasPrefix(k, prefix)
    ensures Like(k, LikePrefix(prefix)) && HasPrefix(k, Subscribers.TrimPercent(prefix))
  {
    UnescapedLikeCoversPrefix(prefix, k);
  }

  /** A row the replay did not see, above the first cursor, reaches the subscriber through a pass. */
  lemma PolledIsLive(dbs: seq<Db>, last: nat, registered: nat, prefix: Bytes, ticks: seq<Tick>, cursor: seq<int>,
      live: seq<seq<Row>>, late: nat, r: Row)
    requires Timeline(dbs) && PollRun(dbs, ticks, cursor, live) && registered <= last < |dbs| && late < |dbs|
    requires forall i | 0 <= i < |ticks| :: ticks[i].fetch.query <= late
    requires forall i | 0 <= i < |ticks| :: !Lossy(dbs, ticks[i], cursor[i], cursor[i + 1])
    requires r in dbs[late].history && r !in dbs[last].history && cursor[0] < r.rev <= cursor[|ticks|]
    requires HasPrefix(r.key, Subscribers.TrimPercent(prefix))
    ensures LiveDelivered(ticks, live, registered, prefix, r)
  {
    PollCursorInvariant(dbs, ticks, cursor, live, |ticks|, late, r);
    var i :| 0 <= i < |ticks| && r in live[i];
    assert PollStep(dbs, ticks[i], cursor[i], live[i], cursor[i + 1]);
    SeenOnlyLater(dbs, last, ticks[i].fetch.query, r);
    Subscribers.MatchingExact(prefix, live[i], r);
  }

  lemma FirstCursorIsLow(dbs: seq<Db>, first: nat, ticks: seq<Tick>, cursor: seq<int>, live: seq<seq<Row>>, late: nat)
    requires Timeline(dbs) && WholePolling(dbs, first, ticks, cursor, live, late)
    ensures forall k | 0 <= k < |ticks| :: cursor[0] <= CurrentRevision(dbs[ticks[k].fetch.start].table)
  {
    forall k | 0 <= k < |ticks| ensures cursor[0] <= CurrentRevision(dbs[ticks[k].fetch.start].table) {
      LaterIsNotLower(dbs, first, ticks[k].fetch.start);
    }
  }

  lemma NewRowIsLater(dbs: seq<Db>, early: nat, late: nat, r: Row)
    requires Timeline(dbs) && early < |dbs| && late < |dbs| && r in dbs[late].history && r !in dbs[early].history
    ensures early < late && r.rev > CurrentRevision(dbs[early].table)
  {
    assert late <= early ==> Grows(dbs[late], dbs[early]);
    assert Grows(dbs[early], dbs[late]);
    CurrentRevisionGrows(dbs[early], dbs[late]);
  }

  lemma SeenOnlyLater(dbs: seq<Db>, early: nat, q: nat, r: Row)
    requires Timeline(dbs) && early < |dbs| && q < |dbs| && r in dbs[q].table && r !in dbs[early].history
    ensures early < q
  {
    assert Inv(dbs[q]);
    assert q <= early ==> Grows(dbs[q], dbs[early]);
  }

  /**
   The gap: a row committed after the last replay query but no later than the first cursor value
   is delivered by neither side, whatever else the loop does.
   */
  lemma StartupGap(dbs: seq<Db>, fetches: seq<Fetch>, prefix: Bytes, revs: seq<int>, pages: seq<seq<Row>>,
                   ticks: seq<Tick>, cursor: seq<int>, live: seq<seq<Row>>, registered: nat, r: Row)
    requires Timeline(dbs) && PageRun(dbs, fetches, prefix, revs, pages) && CaughtUp(pages)
    requires PollRun(dbs, ticks, cursor, live)
    requires forall k | 0 <= k < |ticks| :: cursor[0] <= CurrentRevision(dbs[ticks[k].fetch.start].table)
    requires r !in dbs[fetches[|pages| - 1].query].history && 2 <= r.rev <= cursor[0]
    ensures !Delivered(pages, r) && !LiveDelivered(ticks, live, registered, prefix, r)
  {
    if i :| 0 <= i < |pages| && r in pages[i] {
      PageRowsAreReal(dbs, fetches, prefix, revs, pages, i, r);
    }
    forall i | 0 <= i < |ticks| ensures r !in Subscribers.Matching(prefix, live[i]) {
      CursorGrows(dbs, ticks, cursor, live, 0, i);
      assert PollStep(dbs, ticks[i], cursor[i], live[i], cursor[i + 1]);
      Subscribers.MatchingExact(prefix, live[i], r);
    }
  }

  lemma GapReplay(dbs: seq<Db>)
    requires Timeline(dbs) && |dbs| == 2 && dbs[0] == Nothing()
    ensures WholeReplay(dbs, [Fetch(0, 0, 0)], [], [0, 0], [[]])
  {
    var fetches := [Fetch(0, 0, 0)];
    assert AfterRows(dbs[0].table, [], 0) == {};
    assert PageStep(dbs, fetches[0], [], 0, [], 0);
    assert forall rev :: UpTo({}, rev) == {};
  }

  lemma GapPolling(dbs: seq<Db>, k: Key) returns (ticks: seq<Tick>)
    requires Timeline(dbs) && |dbs| == 2 && IsVersions(dbs[1], k, 1)
    ensures WholePolling(dbs, 1, ticks, [2, 2], [[]], 1)
  {
    var db := dbs[1];
    ticks := [Tick(None, Fetch(1, 1, 1), false)];
    assert HasVersion(db.table, 1);
    assert CurrentRevision(db.table) == 2 && AfterRows(db.table, [], 2) == {} && Passed(db, 2, 2) == {};
    assert PollStep(dbs, ticks[0], 2, [], 2);
  }

  lemma GapOverVersions(k: Key, db: Db) returns (dbs: seq<Db>, ticks: seq<Tick>, r: Row)
    requires Inv(db) && IsVersions(db, k, 1)
    ensures FallsInGap(dbs, [Fetch(0, 0, 0)], [], [0, 0], [[]], 1, ticks, [2, 2], [[]], 0, r)
  {
    dbs := [Nothing(), db];
    assert Inv(Nothing()) && Grows(Nothing(), db);
    TwoStates(dbs);
    GapReplay(dbs);
    ticks := GapPolling(dbs, k);
    assert HasVersion(db.table, 1);
    r :| r in db.table && r.rev == 2;
    FirstCursorIsLow(dbs, 1, ticks, [2, 2], [[]], 1);
    StartupGap(dbs, [Fetch(0, 0, 0)], [], [0, 0], [[]], ticks, [2, 2], [[]], 0, r);
  }

  /** A lossless replay and a lossless poll loop, and a row that reaches the subscriber through neither. */
  ghost predicate FallsInGap(dbs: seq<Db>, fetches: seq<Fetch>, prefix: Bytes, revs: seq<int>, pages: seq<seq<Row>>,
      firstPoll: nat, ticks: seq<Tick>, cursor: seq<int>, live: seq<seq<Row>>, registered: nat, r: Row)
  {
    && Timeline(dbs) && dbs != [] && WholeReplay(dbs, fetches, prefix, revs, pages) && registered <= fetches[0].start
    && WholePolling(dbs, firstPoll, ticks, cursor, live, |dbs| - 1)
    && r in dbs[|dbs| - 1].history && HasPrefix(r.key, prefix) && revs[0] < r.rev <= cursor[|ticks|]
    && !Delivered(pages, r) && !LiveDelivered(ticks, live, registered, prefix, r)
  }

  /** A key written between the only replay query and the first cursor of the poll loop. */
  lemma GapLosesEvent()
    returns (dbs: seq<Db>, fetches: seq<Fetch>, prefix: Bytes, revs: seq<int>, pages: seq<seq<Row>>, firstPoll: nat,
             ticks: seq<Tick>, cursor: seq<int>, live: seq<seq<Row>>, registered: nat, r: Row)
    ensures FallsInGap(dbs, fetches, prefix, revs, pages, firstPoll, ticks, cursor, live, registered, r)
  {
    fetches, prefix, revs, pages := [Fetch(0, 0, 0)], [], [0, 0], [[]];
    firstPoll, cursor, live, registered := 1, [2, 2], [[]], 0;
    dbs, ticks, r := GapOverVersions([97], Versions([97], 1));
  }
}
