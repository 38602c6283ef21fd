/** What reaches a client in the end: the events of a stream, filtered, batched, and applied in turn. */
module Delivery {
  import opened Bytes
  import opened Rows
  import opened Refinement
  import opened Reads
  import opened Subscribers

  function Flat(pages: seq<seq<Row>>): seq<Row> {
    if pages == [] then [] else Flat(pages[..|pages| - 1]) + pages[|pages| - 1]
  }

  /**
   A client that applies only the events of its prefix knows every key of the prefix as one that
   applies them all.
   */
  lemma {:induction false} FilterKeepsState(m: KvMap, prefix: Bytes, events: seq<Row>, k: Key)
    requires HasPrefix(k, TrimPercent(prefix))
    ensures Lookup(Replay(m, Matching(prefix, events)), k) == Lookup(Replay(m, events), k)
    decreases |events|
  {
    if events != [] {
      var n := |events| - 1;
      FilterKeepsState(m, prefix, events[..n], k);
      FilterOneMore(m, prefix, events[..n], events[n], k);
      assert events == events[..n] + [events[n]];
    }
  }

  lemma {:induction false} FilterOneMore(m: KvMap, prefix: Bytes, events: seq<Row>, e: Row, k: Key)
    requires HasPrefix(k, TrimPercent(prefix))
    requires Lookup(Replay(m, Matching(prefix, events)), k) == Lookup(Replay(m, events), k)
    ensures Lookup(Replay(m, Matching(prefix, events + [e])), k) == Lookup(Replay(m, events + [e]), k)
  {
    var front := Matching(prefix, events);
    MatchingOverConcat(prefix, events, [e]);
    MatchingOne(prefix, e);
    ReplayNext(m, events, e);
    if HasPrefix(e.key, TrimPercent(prefix)) {
      ReplayNext(m, front, e);
      RowOnMap(Replay(m, front), Replay(m, events), e, k);
    } else {
      assert front + [] == front;
      RowElsewhere(Replay(m, events), e, k);
    }
  }

  lemma {:induction false} ReplayNext(m: KvMap, events: seq<Row>, e: Row)
    ensures Replay(m, events + [e]) == MapRow(Replay(m, events), e)
  {
    assert (events + [e])[..|events|] == events;
  }

  lemma RowOnMap(a: KvMap, b: KvMap, e: Row, k: Key)
    requires Lookup(a, k) == Lookup(b, k)
    ensures Lookup(MapRow(a, e), k) == Lookup(MapRow(b, e), k)
  {
  }

  lemma RowElsewhere(a: KvMap, e: Row, k: Key)
    requires e.key != k
    ensures Lookup(MapRow(a, e), k) == Lookup(a, k)
  {
  }

  /** The channel of an open subscriber that nobody reads, after these pages were dispatched. */
  function Dispatched(ch: seq<Msg>, prefix: Bytes, pages: seq<seq<Row>>): seq<Msg> {
    if pages == [] then ch
    else
      var n := |pages| - 1;
      ChannelAfter(Dispatched(ch, prefix, pages[..n]), false, Matching(prefix, pages[n]))
  }

  /** While there is room, the channel holds the matching events of all pages, in order, each once. */
  lemma {:induction false} ChannelHoldsStream(ch: seq<Msg>, prefix: Bytes, pages: seq<seq<Row>>)
    requires |ch| + |pages| <= SUB_CHANNEL_DEPTH
    ensures Waiting(Dispatched(ch, prefix, pages)) == Waiting(ch) + Matching(prefix, Flat(pages))
    ensures |Dispatched(ch, prefix, pages)| <= |ch| + |pages|
    decreases |pages|
  {
    if pages != [] {
      var n := |pages| - 1;
      ChannelHoldsStream(ch, prefix, pages[..n]);
      ChannelIsFifo(Dispatched(ch, prefix, pages[..n]), false, Matching(prefix, pages[n]));
      MatchingOverConcat(prefix, Flat(pages[..n]), pages[n]);
    }
  }

  /** So a client that reads its channel to the end knows its prefix as of the last page. */
  lemma {:induction false} ClientCatchesUp(m: KvMap, prefix: Bytes, pages: seq<seq<Row>>, k: Key)
    requires |pages| <= SUB_CHANNEL_DEPTH && HasPrefix(k, TrimPercent(prefix))
    ensures Lookup(Replay(m, Waiting(Dispatched([], prefix, pages))), k) == Lookup(Replay(m, Flat(pages)), k)
  {
    ChannelHoldsStream([], prefix, pages);
    assert Waiting([]) + Matching(prefix, Flat(pages)) == Matching(prefix, Flat(pages));
    FilterKeepsState(m, prefix, Flat(pages), k);
  }
}
