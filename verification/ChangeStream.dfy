/**
 The change-stream reader: how far a partition has been read, what its flushed cursor promises
 after a restart, and the worklist that follows partitions into their children.
 */
module ChangeStream {
  import opened Rows

  const PARTITION_WORKERS_BUF := 64

  // ---------- one partition ----------

  type Token = nat

  /**
   A decoded record. `at` orders the stream; `ts` is the timestamp decoding finds in it: the
   commit or heartbeat time, or none (zero) for the record that ends the partition, which names
   the children.
   */
  datatype Record = Record(at: int, ts: int, events: seq<Row>, ends: bool, children: seq<Token>)

  predicate InOrder(records: seq<Record>) {
    && (forall i, j | 0 <= i < j < |records| :: records[i].at <= records[j].at)
    && (forall i | 0 <= i < |records| :: records[i].ts <= records[i].at)
    && (forall i | 0 <= i < |records| - 1 :: !records[i].ends)
  }

  /** A partition as a crash leaves it: its records, which were dispatched, and the cursor stored. */
  datatype Saved = Saved(records: seq<Record>, dispatched: set<nat>, resume: int, cursor: Option<int>)

  predicate Missing(p: Saved, i: int) {
    0 <= i < |p.records| && i !in p.dispatched
  }

  /** Whatever is undispatched lies at or after the resume point, which no cursor has passed. */
  ghost predicate Consistent(p: Saved) {
    && InOrder(p.records)
    && (forall i | 0 <= i < |p.records| && i !in p.dispatched :: p.records[i].at >= p.resume)
    && (p.cursor.Some? ==> p.cursor.value <= p.resume)
  }

  /** The end record was reached and nothing of the partition is missing. */
  predicate ReadToEnd(records: seq<Record>, dispatched: set<nat>) {
    records != [] && records[|records| - 1].ends && forall i | 0 <= i < |records| :: i in dispatched
  }

  /** The records a query from `start` returns begin here. */
  function FirstFrom(records: seq<Record>, start: int): (n: nat)
    requires InOrder(records)
    ensures n <= |records| && forall i | 0 <= i < |records| :: i < n <==> records[i].at < start
  {
    if records != [] && records[|records| - 1].at < start then |records|
    else if records == [] then 0
    else
      var n := FirstFrom(records[..|records| - 1], start);
      n
  }

  /** The latest of a start and the timestamps of the records read from it. */
  predicate Latest(records: seq<Record>, first: nat, end: nat, start: int, latest: int)
    requires first <= end <= |records|
  {
    && latest >= start && (forall i | first <= i < end :: records[i].ts <= latest)
    && (latest == start || exists i :: first <= i < end && records[i].ts == latest)
  }

  /** What a query found when it began. */
  datatype Query = Query(first: nat, resume: int, dispatched: set<nat>, cursor: Option<int>)

  /** The indices dispatched by reading from `first` up to (not including) `end`. */
  ghost predicate DispatchedTo(dispatched: set<nat>, before: set<nat>, first: nat, end: nat) {
    forall i: nat :: i in dispatched <==> i in before || first <= i < end
  }

  /** The cursor is at or past every record from `first` up to (not including) f. */
  predicate Reached(records: seq<Record>, first: nat, f: nat, cursor: Option<int>)
    requires f <= |records|
  {
    forall i | first <= i < f :: cursor.Some? && records[i].ts <= cursor.value
  }

  /** So it is for every flush up to `end`. */
  predicate AllReached(records: seq<Record>, flushes: set<nat>, first: nat, end: nat, cursor: Option<int>)
    requires end <= |records|
  {
    forall f {:trigger Reached(records, first, f, cursor)} | f in flushes && f <= end ::
      Reached(records, first, f, cursor)
  }

  lemma ReachedNext(records: seq<Record>, flushes: set<nat>, first: nat, end: nat, cursor: Option<int>, resume: int)
    requires first < end <= |records| && AllReached(records, flushes, first, end - 1, cursor)
    requires (cursor.Some? ==> cursor.value <= resume) && forall i | first <= i < end :: records[i].ts <= resume
    ensures end !in flushes ==> AllReached(records, flushes, first, end, cursor)
    ensures AllReached(records, flushes, first, end, Some(resume))
  {
    forall f | f in flushes && f <= end ensures Reached(records, first, f, Some(resume)) { }
    if end !in flushes {
      forall f | f in flushes && f <= end ensures Reached(records, first, f, cursor) { }
    }
  }

  lemma LatestNext(records: seq<Record>, first: nat, end: nat, start: int, latest: int)
    requires first <= end < |records| && Latest(records, first, end, start, latest)
    ensures Latest(records, first, end + 1, start, if records[end].ts > latest then records[end].ts else latest)
  {
  }

  predicate NoneEnds(records: seq<Record>, first: nat, end: nat)
    requires first <= end <= |records|
  {
    forall i | first <= i < end :: !records[i].ends
  }

  class PartitionReader {
    const records: seq<Record>
    var resume: int
    var cursor: Option<int>       // the row of kv_cs_cursors
    ghost var dispatched: set<nat>

    ghost predicate Valid()
      reads this
    {
      Consistent(Saved(records, dispatched, resume, cursor))
    }

    constructor (records: seq<Record>, start: int)
      requires InOrder(records) && forall i | 0 <= i < |records| :: records[i].at >= start
      ensures Valid() && this.records == records && resume == start && cursor == None && dispatched == {}
    {
      this.records, resume, cursor, dispatched := records, start, None, {};
    }

    method FlushCursor(fails: bool)
      requires Valid()
      modifies this
      ensures Valid() && resume == old(resume) && dispatched == old(dispatched)
      ensures cursor == if fails then old(cursor) else Some(resume)
    {
      if !fails { cursor := Some(resume); }
    }

    /** Everything before index i is dispatched, and everything from i on lies ahead of the resume point. */
    ghost predicate ReadUpTo(i: nat)
      reads this
    {
      forall j | 0 <= j < |records| :: if j < i then j in dispatched else records[j].at >= resume
    }

    /** One record: its events go out before the resume point moves past it. */
    method TakeRecord(i: nat) returns (ended: bool)
      requires Valid() && i < |records| && ReadUpTo(i)
      modifies this
      ensures Valid() && resume >= old(resume) && cursor == old(cursor) && dispatched == old(dispatched) + {i}
      ensures resume == if records[i].ts > old(resume) then records[i].ts else old(resume)
      ensures ended == records[i].ends && ReadUpTo(i + 1)
    {
      var r := records[i];
      dispatched := dispatched + {i};
      if r.ts > resume { resume := r.ts; }
      return r.ends;
    }

    /** Where query q stands before record `end`: what it has dispatched, its resume point, its cursor. */
    ghost predicate Streaming(q: Query, end: nat)
      requires q.first <= end <= |records|
      reads this
    {
      && Valid() && ReadUpTo(end)
      && DispatchedTo(dispatched, q.dispatched, q.first, end)
      && Latest(records, q.first, end, q.resume, resume)
    }

    ghost predicate Flushed(q: Query, flushes: set<nat>, flushFails: bool, end: nat)
      requires end <= |records|
      reads this
    {
      if flushFails then cursor == q.cursor else AllReached(records, flushes, q.first, end, cursor)
    }

    /**
     One streaming query: from the resume point, record by record, until the end record or until
     the stream breaks after `rows` rows. Cursors are flushed at the rows in `flushes`; the flush
     after the end record waits until the children are queued. The records from the resume point up
     to `end` are dispatched, no other.
     */
    method StreamPartition(rows: nat, flushes: set<nat>, flushFails: bool) returns (done: bool, end: nat)
      requires Valid()
      modifies this
      ensures var q := Query(FirstFrom(records, old(resume)), old(resume), old(dispatched), old(cursor));
              Streamed(q, rows, flushes, flushFails, done, end)
    {
      var first := FirstFrom(records, resume);
      done, end := StreamFrom(first, rows, flushes, flushFails);
    }

    /** A query that ended: with the end record, where the stream broke, or with nothing more to read. */
    ghost predicate Streamed(q: Query, rows: nat, flushes: set<nat>, flushFails: bool, done: bool, end: nat)
      reads this
    {
      && q.first <= end <= |records| && Streaming(q, end)
      && (if done then end > q.first && records[end - 1].ends
          else NoneEnds(records, q.first, end) && (end == q.first + rows || end == |records|))
      && Flushed(q, flushes, flushFails, if done then end - 1 else end)
    }

    method StreamFrom(first: nat, rows: nat, flushes: set<nat>, flushFails: bool) returns (done: bool, end: nat)
      requires Valid() && first <= |records| && ReadUpTo(first)
      modifies this
      ensures Streamed(Query(first, old(resume), old(dispatched), old(cursor)), rows, flushes, flushFails, done, end)
    {
      ghost var q := Query(first, resume, dispatched, cursor);
      done, end := false, first;
      while end < |records| && end < first + rows
        invariant first <= end <= |records| && end <= first + rows && NoneEnds(records, first, end)
        invariant Streaming(q, end) && Flushed(q, flushes, flushFails, end)
        decreases |records| - end
      {
        var ended := TakeNext(q, end, flushes, flushFails);
        end := end + 1;
        if ended { return true, end; }
        FlushAt(q, end, flushes, flushFails);
      }
    }

    method TakeNext(ghost q: Query, end: nat, ghost flushes: set<nat>, ghost flushFails: bool) returns (ended: bool)
      requires q.first <= end < |records| && Streaming(q, end) && Flushed(q, flushes, flushFails, end)
      modifies this
      ensures Streaming(q, end + 1) && Flushed(q, flushes, flushFails, end) && ended == records[end].ends
    {
      ghost var was := resume;
      ended := TakeRecord(end);
      LatestNext(records, q.first, end, q.resume, was);
    }

    method FlushAt(ghost q: Query, end: nat, flushes: set<nat>, flushFails: bool)
      requires q.first < end <= |records| && Streaming(q, end) && Flushed(q, flushes, flushFails, end - 1)
      modifies this
      ensures Streaming(q, end) && Flushed(q, flushes, flushFails, end)
    {
      if !flushFails { ReachedNext(records, flushes, q.first, end, cursor, resume); }
      if end in flushes { FlushCursor(flushFails); }
    }

    /** Retry until the partition ends or the attempts run out: rows read per attempt. */
    method ReadPartition(attempts: seq<nat>, flushes: set<nat>, flushFails: bool) returns (done: bool)
      requires Valid()
      modifies this
      ensures Valid() && resume >= old(resume) && old(dispatched) <= dispatched
      ensures done ==> ReadToEnd(records, dispatched)
      ensures done ==> forall i | 0 <= i < |records| && records[i].at >= old(resume) :: records[i].ts <= resume
    {
      for n := 0 to |attempts|
        invariant Valid() && resume >= old(resume) && old(dispatched) <= dispatched
      {
        ghost var before := dispatched;
        var ended, end := StreamPartition(attempts[n], flushes, flushFails);
        assert before <= dispatched;
        if ended { return true; }
      }
      return false;
    }
  }

  // ---------- restart ----------

  /** A second ago, or the oldest cursor if that is older. */
  ghost predicate IsStartTime(cursors: map<Token, int>, now: int, start: int) {
    && start <= now - SECOND && (forall t | t in cursors :: start <= cursors[t])
    && (start == now - SECOND || exists t :: t in cursors && start == cursors[t])
  }

  method StartTime(cursors: map<Token, int>, now: int) returns (start: int)
    ensures IsStartTime(cursors, now, start)
  {
    start := now - SECOND;
    var rest := cursors.Keys;
    while rest != {}
      invariant rest <= cursors.Keys && start <= now - SECOND
      invariant forall t | t in cursors && t !in rest :: start <= cursors[t]
      invariant start == now - SECOND || exists t :: t in cursors && start == cursors[t]
      decreases rest
    {
      var t :| t in rest;
      if cursors[t] < start { start := cursors[t]; }
      rest := rest - {t};
    }
  }

  /** Where each partition resumes: at its cursor, or at the one start time if it has none. */
  predicate ResumesAt(cursors: map<Token, int>, start: int, resume: map<Token, int>) {
    forall t | t in resume :: resume[t] == if t in cursors then cursors[t] else start
  }

  method Restart(partitions: seq<Token>, cursors: map<Token, int>, now: int)
    returns (start: int, resume: map<Token, int>)
    ensures IsStartTime(cursors, now, start) && ResumesAt(cursors, start, resume)
    ensures forall t :: t in resume <==> t in partitions
  {
    start := StartTime(cursors, now);
    resume := map[];
    for i := 0 to |partitions|
      invariant ResumesAt(cursors, start, resume) && forall t :: t in resume <==> t in partitions[..i]
    {
      var t := partitions[i];
      assert partitions[..i + 1] == partitions[..i] + [t];
      resume := resume[t := if t in cursors then cursors[t] else start];
    }
    assert partitions[..|partitions|] == partitions;
  }

  /** The partitions of the stream together with the cursors stored for them, and maybe for others. */
  ghost predicate Stored(ps: map<Token, Saved>, cursors: map<Token, int>) {
    forall t | t in ps ::
      && Consistent(ps[t]) && (t in cursors <==> ps[t].cursor.Some?)
      && (t in cursors ==> cursors[t] == ps[t].cursor.value)
  }

  ghost predicate SkipsNothing(ps: map<Token, Saved>, resume: map<Token, int>) {
    forall t, i | t in ps && t in resume && Missing(ps[t], i) :: ps[t].records[i].at >= resume[t]
  }

  predicate FirstMissing(p: Saved, i: int) {
    Missing(p, i) && forall j | 0 <= j < i :: j in p.dispatched
  }

  /** A time a restart still reaches: within the last second, or not before the oldest cursor. */
  ghost predicate InReach(cursors: map<Token, int>, now: int, at: int) {
    now - SECOND <= at || exists t :: t in cursors && cursors[t] <= at
  }

  lemma {:induction false} FirstMissingBelow(p: Saved, i: int) returns (first: int)
    requires Missing(p, i)
    ensures 0 <= first <= i && FirstMissing(p, first)
    decreases i
  {
    if j :| 0 <= j < i && j !in p.dispatched {
      first := FirstMissingBelow(p, j);
    } else {
      first := i;
    }
  }

  /**
   A restart skips no undispatched record, over all partitions at once, exactly when the first
   missing record of every partition without a cursor is in reach of the time of the restart and
   of the cursors other partitions have. A partition with a cursor never loses anything, whenever
   the crash was.
   */
  lemma RestartSkipsNothingIff(ps: map<Token, Saved>, cursors: map<Token, int>, now: int, start: int,
      resume: map<Token, int>)
    requires Stored(ps, cursors) && IsStartTime(cursors, now, start)
    requires ResumesAt(cursors, start, resume) && resume.Keys == ps.Keys
    ensures SkipsNothing(ps, resume) <==>
            forall t, i | t in ps && ps[t].cursor.None? && FirstMissing(ps[t], i) ::
              InReach(cursors, now, ps[t].records[i].at)
  {
    if forall t, i | t in ps && ps[t].cursor.None? && FirstMissing(ps[t], i) ::
         InReach(cursors, now, ps[t].records[i].at) {
      forall t, i | t in ps && t in resume && Missing(ps[t], i) ensures ps[t].records[i].at >= resume[t] {
        if ps[t].cursor.None? {
          var first := FirstMissingBelow(ps[t], i);
          assert InReach(cursors, now, ps[t].records[first].at);
        }
      }
    } else {
      var t, i :| t in ps && ps[t].cursor.None? && FirstMissing(ps[t], i)
                  && !InReach(cursors, now, ps[t].records[i].at);
      assert Missing(ps[t], i) && ps[t].records[i].at < start;
    }
  }

  /** And it repeats no record of a partition with a cursor that lies before the cursor. */
  lemma RestartRepeatsIff(ps: map<Token, Saved>, cursors: map<Token, int>, start: int, resume: map<Token, int>,
      t: Token, at: int)
    requires Stored(ps, cursors) && ResumesAt(cursors, start, resume) && t in ps && t in resume
    ensures ps[t].cursor.Some? ==> (resume[t] <= at <==> ps[t].cursor.value <= at)
    ensures ps[t].cursor.None? ==> resume[t] == start
  {
    assert Consistent(ps[t]);
  }

  /**
   A process whose cursors are not found under its new replica id: a record two seconds old that
   was never dispatched is skipped by the restart.
   */
  lemma RestartWithoutCursorsLoses(now: int) returns (ps: map<Token, Saved>, resume: map<Token, int>)
    ensures Stored(ps, map[]) && resume.Keys == ps.Keys
    ensures IsStartTime(map[], now, now - SECOND) && ResumesAt(map[], now - SECOND, resume)
    ensures !SkipsNothing(ps, resume)
  {
    var at := now - 2 * SECOND;
    var p := Saved([Record(at, at, [], false, [])], {}, at, None);
    ps, resume := map[0 := p], map[0 := now - SECOND];
    assert Missing(ps[0], 0) && ps[0].records[0].at < resume[0];
  }

  // ---------- the worklist ----------

  /** The children a partition's end record names. */
  function EndChildren(records: seq<Record>): seq<Token> {
    if records != [] && records[|records| - 1].ends then records[|records| - 1].children else []
  }

  /** What another goroutine of the reader may do next. */
  datatype Move = QueueRoot | Take | End(token: Token, dispatched: set<nat>) | Child(token: Token) | Done(token: Token)

  class Worklist {
    const recordsOf: Token -> seq<Record>   // the stream, partition by partition
    const roots: seq<Token>                 // the initial partitions
    var queued: nat                         // how many of them are enqueued
    var pending: seq<Token>
    var active: set<Token>
    var sending: map<Token, nat>            // partitions at their end record: children sent so far
    ghost var finished: set<Token>
    ghost var read: map<Token, set<nat>>    // what was dispatched of a partition at its end record

    function Children(t: Token): seq<Token> {
      EndChildren(recordsOf(t))
    }

    ghost function Known(): set<Token>
      reads this
    {
      finished + active + set t | t in pending
    }

    /** Until shutdown no partition is forgotten: known ones are finished, active or pending. */
    ghost predicate Valid()
      reads this
    {
      && queued <= |roots| && |pending| <= PARTITION_WORKERS_BUF
      && (forall i | 0 <= i < queued :: roots[i] in Known())
      && (forall t | t in sending :: t in active && sending[t] <= |Children(t)|)
      && (forall t, i | t in sending && 0 <= i < sending[t] :: Children(t)[i] in Known())
      && (forall t, i | t in finished && 0 <= i < |Children(t)| :: Children(t)[i] in Known())
      && (forall t | t in sending || t in finished :: t in read && ReadToEnd(recordsOf(t), read[t]))
    }

    constructor (roots: seq<Token>, recordsOf: Token -> seq<Record>)
      ensures Valid() && this.roots == roots && this.recordsOf == recordsOf
      ensures queued == 0 && pending == [] && active == {} && sending == map[] && finished == {}
    {
      this.roots, this.recordsOf := roots, recordsOf;
      queued, pending, active, sending, finished, read := 0, [], {}, map[], {}, map[];
    }

    predicate Room()
      reads this
    {
      |pending| < PARTITION_WORKERS_BUF
    }

    method EnqueueRoot()
      requires Valid() && queued < |roots| && Room()
      modifies this
      ensures Valid() && pending == old(pending) + [roots[old(queued)]] && queued == old(queued) + 1
      ensures active == old(active) && sending == old(sending) && finished == old(finished) && read == old(read)
    {
      ghost var known := Known();
      pending := pending + [roots[queued]];
      queued := queued + 1;
      assert Known() == known + {roots[queued - 1]};
    }

    /** A token that is already being read is dropped, any other becomes active. */
    method TakePending() returns (token: Token, started: bool)
      requires Valid() && pending != []
      modifies this
      ensures Valid() && token == old(pending)[0] && pending == old(pending)[1..]
      ensures started <==> token !in old(active)
      ensures active == old(active) + {token}
      ensures queued == old(queued) && sending == old(sending) && finished == old(finished) && read == old(read)
    {
      token := pending[0];
      ghost var known := Known();
      assert pending == [token] + pending[1..];
      pending := pending[1..];
      started := token !in active;
      if started { active := active + {token}; }
      assert Known() == known;
    }

    /** The reader of an active partition has taken its end record. */
    method ReachEnd(t: Token, ghost dispatched: set<nat>)
      requires Valid() && t in active && t !in sending && ReadToEnd(recordsOf(t), dispatched)
      modifies this
      ensures Valid() && sending == old(sending)[t := 0] && read == old(read)[t := dispatched]
      ensures queued == old(queued) && pending == old(pending) && active == old(active) && finished == old(finished)
    {
      sending := sending[t := 0];
      read := read[t := dispatched];
    }

    method SendChild(t: Token)
      requires Valid() && t in sending && sending[t] < |Children(t)| && Room()
      modifies this
      ensures Valid() && pending == old(pending) + [Children(t)[old(sending)[t]]]
              && sending == old(sending)[t := old(sending)[t] + 1]
      ensures queued == old(queued) && active == old(active) && finished == old(finished) && read == old(read)
    {
      ghost var known, child := Known(), Children(t)[sending[t]];
      pending := pending + [Children(t)[sending[t]]];
      sending := sending[t := sending[t] + 1];
      assert Known() == known + {child};
    }

    /** Only after all children are queued does a partition leave the active set. */
    method Finish(t: Token)
      requires Valid() && t in sending && sending[t] == |Children(t)|
      modifies this
      ensures Valid() && active == old(active) - {t} && finished == old(finished) + {t} && sending == old(sending) - {t}
      ensures queued == old(queued) && pending == old(pending) && read == old(read)
    {
      ghost var known := Known();
      active := active - {t};
      finished := finished + {t};
      sending := sending - {t};
      assert Known() == known;
    }

    /** A step of another goroutine, if it is enabled; none of them is about partition t. */
    method OtherMove(t: Token, m: Move)
      requires Valid() && t in active
      modifies this
      ensures Valid() && t in active && (t in sending <==> t in old(sending))
      ensures t in sending ==> sending[t] == old(sending)[t] && t in old(read) && read[t] == old(read)[t]
    {
      match m
      case QueueRoot => if queued < |roots| && Room() { EnqueueRoot(); }
      case Take => if pending != [] { var _, _ := TakePending(); }
      case End(u, dispatched) =>
        if u != t && u in active && u !in sending && ReadToEnd(recordsOf(u), dispatched) { ReachEnd(u, dispatched); }
      case Child(u) => if u != t && u in sending && sending[u] < |Children(u)| && Room() { SendChild(u); }
      case Done(u) => if u != t && u in sending && sending[u] == |Children(u)| { Finish(u); }
    }

    method OtherMoves(t: Token, moves: seq<Move>)
      requires Valid() && t in active
      modifies this
      ensures Valid() && t in active && (t in sending <==> t in old(sending))
      ensures t in sending ==> sending[t] == old(sending)[t] && t in old(read) && read[t] == old(read)[t]
    {
      for i := 0 to |moves|
        invariant Valid() && t in active && (t in sending <==> t in old(sending))
        invariant t in sending ==> sending[t] == old(sending)[t] && t in old(read) && read[t] == old(read)[t]
      {
        OtherMove(t, moves[i]);
      }
    }

    /**
     The goroutine of one active partition, among all the others: read it to its end, queue its
     children as room appears, flush the cursor, leave the active set. `waits` says what the others
     do before each attempt to queue a child; when they run out the process shuts down.
     */
    method Follow(t: Token, reader: PartitionReader, attempts: seq<nat>, flushes: set<nat>, flushFails: bool,
        waits: seq<seq<Move>>) returns (done: bool)
      requires Valid() && t in active && t !in sending && reader.Valid() && reader.records == recordsOf(t)
      modifies this, reader
      ensures Valid() && reader.Valid()
      ensures done ==> t in finished && t in read && read[t] == reader.dispatched && ReadToEnd(recordsOf(t), read[t])
      ensures done ==> forall c | c in Children(t) :: c in Known()
      ensures done ==> reader.cursor == Some(reader.resume) || flushFails
      ensures !done ==> t in active
    {
      var ended := reader.ReadPartition(attempts, flushes, flushFails);
      if !ended { return false; }
      ReachEnd(t, reader.dispatched);
      for i := 0 to |waits|
        invariant Valid() && reader.Valid() && t in active && t in sending && sending[t] <= |Children(t)|
        invariant t in read && read[t] == reader.dispatched
      {
        if sending[t] == |Children(t)| {
          reader.FlushCursor(flushFails);
          Finish(t);
          return true;
        }
        OtherMoves(t, waits[i]);
        if Room() { SendChild(t); }
      }
      return false;
    }
  }

  /** A chain of partitions, each named by the end record of the one before. */
  predicate Lineage(path: seq<Token>, roots: seq<Token>, recordsOf: Token -> seq<Record>) {
    && path != [] && path[0] in roots
    && forall i | 0 <= i < |path| - 1 :: NamesChild(recordsOf(path[i]), path[i + 1])
  }

  /** The end record of a partition names the child. */
  predicate NamesChild(records: seq<Record>, child: Token) {
    records != [] && var end := records[|records| - 1]; end.ends && child in end.children
  }

  /**
   When the worklist has run dry, every partition that descends from an initial one, through any
   number of splits and merges, has had every one of its records dispatched, the end record last.
   */
  lemma {:induction false} DrainedMeansAllRead(w: Worklist, path: seq<Token>)
    requires w.Valid() && w.queued == |w.roots| && w.pending == [] && w.active == {}
    requires Lineage(path, w.roots, w.recordsOf)
    ensures var t := path[|path| - 1]; t in w.finished && t in w.read && ReadToEnd(w.recordsOf(t), w.read[t])
    decreases |path|
  {
    var n := |path| - 1;
    if n == 0 {
      var i :| 0 <= i < |w.roots| && w.roots[i] == path[0];
      assert w.roots[i] in w.Known();
    } else {
      DrainedMeansAllRead(w, path[..n]);
      var cs := w.Children(path[n - 1]);
      assert NamesChild(w.recordsOf(path[n - 1]), path[n - 1 + 1]);
      var i :| 0 <= i < |cs| && cs[i] == path[n];
      assert w.Children(path[n - 1])[i] in w.Known();
    }
  }
}
