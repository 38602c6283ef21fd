/** Subscribers, the fan-out of a batch of events, and how a subscription is torn down. */
module Subscribers {
  import opened Bytes
  import opened Rows

  const SUB_CHANNEL_DEPTH := 100

  /** What travels on a subscriber's channel: a batch of events, or the closing sentinel. */
  datatype Msg = Batch(events: seq<Row>) | Sentinel

  // ---------- fan-out ----------

  function TrimPercent(p: Bytes): Bytes {
    if p != [] && p[|p| - 1] == PERCENT then p[..|p| - 1] else p
  }

  /** The events of a batch a subscriber asked for, in order. */
  function Matching(prefix: Bytes, events: seq<Row>): seq<Row> {
    if events == [] then []
    else
      var m := Matching(prefix, events[..|events| - 1]);
      if HasPrefix(events[|events| - 1].key, TrimPercent(prefix)) then m + [events[|events| - 1]] else m
  }

  lemma {:induction false} MatchingExact(prefix: Bytes, events: seq<Row>, r: Row)
    ensures r in Matching(prefix, events) <==> r in events && HasPrefix(r.key, TrimPercent(prefix))
    decreases |events|
  {
    if events != [] {
      var n := |events| - 1;
      MatchingExact(prefix, events[..n], r);
      assert events == events[..n] + [events[n]];
    }
  }

  /** Selecting keeps the order of the events and the number of their copies. */
  lemma {:induction false} MatchingOverConcat(prefix: Bytes, a: seq<Row>, b: seq<Row>)
    ensures Matching(prefix, a + b) == Matching(prefix, a) + Matching(prefix, b)
    decreases |b|
  {
    if b == [] {
      assert a + b == a;
    } else {
      var n := |b| - 1;
      assert (a + b)[..|a + b| - 1] == a + b[..n];
      MatchingOverConcat(prefix, a, b[..n]);
    }
  }

  lemma {:induction false} MatchingOne(prefix: Bytes, e: Row)
    ensures Matching(prefix, [e]) == if HasPrefix(e.key, TrimPercent(prefix)) then [e] else []
  {
    assert Matching(prefix, [e][..0]) == [];
  }

  class Subscriber {
    const prefix: Bytes
    var ch: seq<Msg>
    var cancelled: bool
    var closed: bool

    constructor (prefix: Bytes)
      ensures this.prefix == prefix && ch == [] && !cancelled && !closed
    {
      this.prefix, ch, cancelled, closed := prefix, [], false, false;
    }
  }

  /** The channel of an open subscriber after a dispatch: one more batch if it fits. */
  function ChannelAfter(ch: seq<Msg>, closed: bool, matching: seq<Row>): seq<Msg> {
    if matching != [] && !closed && |ch| < SUB_CHANNEL_DEPTH then ch + [Batch(matching)] else ch
  }

  /** The events waiting on a channel, in the order they will be received. */
  function Waiting(ch: seq<Msg>): seq<Row> {
    if ch == [] then []
    else Waiting(ch[..|ch| - 1]) + (match ch[|ch| - 1] case Batch(events) => events case Sentinel => [])
  }

  /** First in, first out: what a dispatch adds comes behind everything waiting. */
  lemma {:induction false} ChannelIsFifo(ch: seq<Msg>, closed: bool, matching: seq<Row>)
    ensures !closed && |ch| < SUB_CHANNEL_DEPTH ==>
              Waiting(ChannelAfter(ch, closed, matching)) == Waiting(ch) + matching
    ensures closed || |ch| >= SUB_CHANNEL_DEPTH ==> ChannelAfter(ch, closed, matching) == ch
    ensures |ChannelAfter(ch, closed, matching)| <= |ch| + 1
    ensures Overflows(ch, closed, matching) <==> !closed && matching != [] && ChannelAfter(ch, closed, matching) == ch
  {
    assert (ch + [Batch(matching)])[..|ch|] == ch;
  }

  predicate Overflows(ch: seq<Msg>, closed: bool, matching: seq<Row>) {
    matching != [] && !closed && |ch| >= SUB_CHANNEL_DEPTH
  }

  predicate NoDuplicates<T(==)>(s: seq<T>) {
    forall i, j | 0 <= i < j < |s| :: s[i] != s[j]
  }

  function Without<T(==)>(s: seq<T>, x: T): seq<T> {
    if s == [] then []
    else
      var w := Without(s[..|s| - 1], x);
      if s[|s| - 1] == x then w else w + [s[|s| - 1]]
  }

  lemma {:induction false} WithoutKeeps<T>(s: seq<T>, x: T)
    requires NoDuplicates(s)
    ensures NoDuplicates(Without(s, x)) && forall y :: y in Without(s, x) <==> y in s && y != x
    decreases |s|
  {
    if s != [] {
      var n := |s| - 1;
      WithoutKeeps(s[..n], x);
      assert s == s[..n] + [s[n]];
      assert s[n] !in s[..n];
    }
  }

  /** Removal closes the gap and leaves both sides as they were. */
  lemma {:induction false} WithoutClosesGap<T>(a: seq<T>, x: T, b: seq<T>)
    requires x !in a && x !in b
    ensures Without(a + [x] + b, x) == a + b
    decreases |a| + |b|
  {
    var s := a + [x] + b;
    if b != [] {
      var n := |b| - 1;
      assert s[..|s| - 1] == a + [x] + b[..n];
      WithoutClosesGap(a, x, b[..n]);
      assert a + b == (a + b[..n]) + [b[n]];
    } else {
      assert s[..|s| - 1] == a && a + b == a;
      WithoutNothing(a, x);
    }
  }

  lemma {:induction false} WithoutNothing<T>(a: seq<T>, x: T)
    requires x !in a
    ensures Without(a, x) == a
    decreases |a|
  {
    if a != [] {
      WithoutNothing(a[..|a| - 1], x);
      assert a == a[..|a| - 1] + [a[|a| - 1]];
    }
  }

  /** Subscribing and leaving again, whoever came in between, leaves the others as they are. */
  lemma {:induction false} SubscribeThenRemove<T>(before: seq<T>, sub: T, later: seq<T>)
    requires sub !in before && sub !in later
    ensures Without(before + [sub], sub) == before && Without(before + [sub] + later, sub) == before + later
  {
    WithoutClosesGap(before, sub, []);
    assert before + [sub] + [] == before + [sub] && before + [] == before;
    WithoutClosesGap(before, sub, later);
  }

  class Watcher {
    var subscribers: seq<Subscriber>

    ghost predicate Valid()
      reads this
    {
      NoDuplicates(subscribers)
    }

    constructor ()
      ensures Valid() && subscribers == []
    {
      subscribers := [];
    }

    /** A new subscriber, open and with nothing on its channel, listed once and after all others. */
    method Subscribe(prefix: Bytes) returns (sub: Subscriber)
      requires Valid()
      modifies this
      ensures Valid() && fresh(sub) && sub.prefix == prefix && sub.ch == [] && !sub.closed && !sub.cancelled
      ensures sub !in old(subscribers) && subscribers == old(subscribers) + [sub]
    {
      sub := new Subscriber(prefix);
      subscribers := subscribers + [sub];
    }

    /** Drops one subscriber and keeps the others in their order. */
    method RemoveSub(sub: Subscriber)
      requires Valid()
      modifies this, sub`cancelled
      ensures Valid() && sub.cancelled && sub !in subscribers
      ensures subscribers == Without(old(subscribers), sub)
    {
      sub.cancelled := true;
      var out: seq<Subscriber> := [];
      for i := 0 to |subscribers|
        invariant out == Without(subscribers[..i], sub)
        invariant subscribers == old(subscribers)
      {
        assert subscribers[..i + 1][..i] == subscribers[..i];
        if subscribers[i] != sub {
          out := out + [subscribers[i]];
        }
      }
      assert subscribers[..|subscribers|] == subscribers;
      WithoutKeeps(subscribers, sub);
      subscribers := out;
    }

    /**
     Every subscriber registered when the dispatch starts gets the events of its prefix, in
     order, as one batch: nothing when none matches or it is closed, and a cancellation instead
     when its channel is full. No subscriber blocks another.
     */
    method DispatchEvents(events: seq<Row>)
      requires Valid()
      modifies set s | s in subscribers
      ensures forall s | s in subscribers ::
                && s.ch == ChannelAfter(old(s.ch), old(s.closed), Matching(s.prefix, events))
                && s.cancelled == (old(s.cancelled) || Overflows(old(s.ch), old(s.closed), Matching(s.prefix, events)))
                && s.closed == old(s.closed)
    {
      if |events| == 0 { return; }
      var subs := subscribers;
      for i := 0 to |subs|
        invariant forall s | s in subs :: s.closed == old(s.closed)
        invariant forall k | 0 <= k < i ::
                    && subs[k].ch == ChannelAfter(old(subs[k].ch), old(subs[k].closed), Matching(subs[k].prefix,
                            events))
                    && subs[k].cancelled == (old(subs[k].cancelled)
                            || Overflows(old(subs[k].ch), old(subs[k].closed), Matching(subs[k].prefix, events)))
        invariant forall k | i <= k < |subs| ::
                    subs[k].ch == old(subs[k].ch) && subs[k].cancelled == old(subs[k].cancelled)
      {
        var sub := subs[i];
        assert forall k | 0 <= k < |subs| && k != i :: subs[k] != sub;
        var matching := SelectMatching(sub.prefix, events);
        if |matching| != 0 && !sub.closed {
          if |sub.ch| < SUB_CHANNEL_DEPTH {
            sub.ch := sub.ch + [Batch(matching)];
          } else {
            sub.cancelled := true;
          }
        }
      }
    }
  }

  method SelectMatching(subPrefix: Bytes, events: seq<Row>) returns (matching: seq<Row>)
    ensures matching == Matching(subPrefix, events)
  {
    var prefix := TrimPercent(subPrefix);
    matching := [];
    for i := 0 to |events|
      invariant matching == Matching(subPrefix, events[..i])
    {
      assert events[..i + 1][..i] == events[..i];
      if prefix == [] || HasPrefix(events[i].key, prefix) {
        matching := matching + [events[i]];
      }
    }
    assert events[..|events|] == events;
  }

  // ---------- teardown beside concurrent dispatchers ----------

  /** A dispatcher and one subscriber: outside, holding a copy of the list, past the closed check. */
  datatype Dispatcher = Away | Copied | Armed

  /** The subscription goroutine: serving, closed set, removed and draining, drained, finished. */
  datatype Phase = Serving | Closing | Draining | Drained | Finished

  datatype Sub = Sub(
    ch: seq<Msg>,
    phase: Phase,
    dispatchers: seq<Dispatcher>,
    sentinels: nat,          // sentinels ever sent
    late: multiset<nat>,     // who enqueued a batch after closed was set
    got: seq<Msg>            // what the watch loop has received
  )

  predicate Listening(s: Sub) {
    Sentinel !in s.got
  }

  datatype Action =
    | ReplaySend(batch: seq<Row>)
    | Copy(d: nat)
    | Check(d: nat)
    | Push(d: nat, batch: seq<Row>)
    | Receive
    | SetClosed
    | Remove
    | Drain
    | DrainDone
    | SendSentinel
    | GiveUp

  predicate Act(s: Sub, a: Action, s': Sub) {
    match a
    case ReplaySend(batch) =>
      s.phase.Serving? && batch != [] && |s.ch| < SUB_CHANNEL_DEPTH && s' == s.(ch := s.ch + [Batch(batch)])
    case Copy(d) =>
      && d < |s.dispatchers| && s.dispatchers[d].Away? && s.phase in {Serving, Closing}
      && s' == s.(dispatchers := s.dispatchers[d := Copied])
    case Check(d) =>
      && d < |s.dispatchers| && s.dispatchers[d].Copied?
      && s' == s.(dispatchers := s.dispatchers[d := if s.phase.Serving? then Armed else Away])
    case Push(d, batch) =>
      && d < |s.dispatchers| && s.dispatchers[d].Armed? && batch != []
      && s' == if |s.ch| < SUB_CHANNEL_DEPTH
               then s.(ch := s.ch + [Batch(batch)], dispatchers := s.dispatchers[d := Away],
                       late := if s.phase.Serving? then s.late else s.late + multiset{d})
               else s.(dispatchers := s.dispatchers[d := Away])
    case Receive =>
      s.ch != [] && Listening(s) && s' == s.(ch := s.ch[1..], got := s.got + [s.ch[0]])
    case SetClosed => s.phase.Serving? && s' == s.(phase := Closing)
    case Remove => s.phase.Closing? && s' == s.(phase := Draining)
    case Drain => s.phase.Draining? && s.ch != [] && s' == s.(ch := s.ch[1..])
    case DrainDone => s.phase.Draining? && s.ch == [] && s' == s.(phase := Drained)
    case SendSentinel =>
      && s.phase.Drained? && |s.ch| < SUB_CHANNEL_DEPTH
      && s' == s.(ch := s.ch + [Sentinel], phase := Finished, sentinels := s.sentinels + 1)
    case GiveUp => s.phase.Drained? && |s.ch| >= SUB_CHANNEL_DEPTH && s' == s.(phase := Finished)
  }

  predicate Fresh(s: Sub, n: nat) {
    s == Sub([], Serving, seq(n, _ => Away), 0, multiset{}, [])
  }

  predicate SubRun(states: seq<Sub>, actions: seq<Action>) {
    |states| == |actions| + 1 && forall i | 0 <= i < |actions| :: Act(states[i], actions[i], states[i + 1])
  }

  ghost predicate Reachable(n: nat, s: Sub) {
    exists states: seq<Sub>, actions: seq<Action> ::
      SubRun(states, actions) && Fresh(states[0], n) && states[|actions|] == s
  }

  function ArmedCount(ds: seq<Dispatcher>): nat {
    if ds == [] then 0 else (if ds[|ds| - 1].Armed? then 1 else 0) + ArmedCount(ds[..|ds| - 1])
  }

  lemma {:induction false} ArmedCountUpdate(ds: seq<Dispatcher>, d: nat, v: Dispatcher)
    requires d < |ds|
    ensures ArmedCount(ds[d := v]) + (if ds[d].Armed? then 1 else 0) == ArmedCount(ds) + (if v.Armed? then 1 else 0)
    decreases |ds|
  {
    var n := |ds| - 1;
    if d == n {
      assert ds[d := v][..n] == ds[..n];
    } else {
      assert ds[d := v][..n] == ds[..n][d := v];
      ArmedCountUpdate(ds[..n], d, v);
    }
  }

  lemma {:induction false} ArmedCountBound(ds: seq<Dispatcher>)
    ensures ArmedCount(ds) <= |ds|
    decreases |ds|
  {
    if ds != [] { ArmedCountBound(ds[..|ds| - 1]); }
  }

  ghost predicate TeardownInv(s: Sub) {
    && (s.phase.Drained? ==> |s.ch| + ArmedCount(s.dispatchers) <= |s.dispatchers|)
    && (s.phase.Serving? ==> s.late == multiset{})
    && (forall d: nat :: s.late[d] <= 1 && (s.late[d] == 1 && d < |s.dispatchers| ==> !s.dispatchers[d].Armed?))
    && (!s.phase.Finished? ==> s.sentinels == 0 && Sentinel !in s.ch && Sentinel !in s.got)
    && s.sentinels <= 1
    && (s.phase.Finished? && |s.dispatchers| < SUB_CHANNEL_DEPTH ==> s.sentinels == 1)
    && (forall i | 0 <= i < |s.got| - 1 :: s.got[i] != Sentinel)
  }

  lemma ActKeepsInv(s: Sub, a: Action, s': Sub)
    requires TeardownInv(s) && Act(s, a, s')
    ensures TeardownInv(s') && |s'.dispatchers| == |s.dispatchers|
  {
    match a
    case Copy(d) => ArmedCountUpdate(s.dispatchers, d, Copied);
    case Check(d) => ArmedCountUpdate(s.dispatchers, d, if s.phase.Serving? then Armed else Away);
    case Push(d, _) => PushKeepsInv(s, a, s');
    case _ => ChannelKeepsInv(s, a, s');
  }

  lemma PushKeepsInv(s: Sub, a: Action, s': Sub)
    requires TeardownInv(s) && Act(s, a, s') && a.Push?
    ensures TeardownInv(s') && |s'.dispatchers| == |s.dispatchers|
  {
    ArmedCountUpdate(s.dispatchers, a.d, Away);
  }

  lemma ChannelKeepsInv(s: Sub, a: Action, s': Sub)
    requires TeardownInv(s) && Act(s, a, s') && !a.Copy? && !a.Check? && !a.Push?
    ensures TeardownInv(s') && |s'.dispatchers| == |s.dispatchers|
  {
    ArmedCountBound(s.dispatchers);
    if a.Receive? { assert s.ch[0] in s.ch; }
    if a.Receive? || a.Drain? { assert forall m | m in s.ch[1..] :: m in s.ch; }
  }

  /** What a step puts on the channel. */
  function Sent(s: Sub, a: Action): seq<Msg> {
    match a
    case ReplaySend(batch) => [Batch(batch)]
    case Push(_, batch) => if |s.ch| < SUB_CHANNEL_DEPTH then [Batch(batch)] else []
    case SendSentinel => [Sentinel]
    case _ => []
  }

  function AllSent(states: seq<Sub>, actions: seq<Action>): seq<Msg>
    requires |states| == |actions| + 1
  {
    if actions == [] then []
    else
      var n := |actions| - 1;
      AllSent(states[..n + 1], actions[..n]) + Sent(states[n], actions[n])
  }

  /**
   Until the drain, the watch loop receives what replay and dispatchers sent, in the order sent:
   what it has received and what still waits make up all that was sent.
   */
  lemma {:induction false} ReceivedInOrder(states: seq<Sub>, actions: seq<Action>, n: nat)
    requires SubRun(states, actions) && Fresh(states[0], n) && Drain !in actions
    ensures var s := states[|actions|]; s.got + s.ch == AllSent(states, actions)
    decreases |actions|
  {
    if actions != [] {
      var i := |actions| - 1;
      var s, a, s' := states[i], actions[i], states[i + 1];
      ReceivedInOrder(states[..i + 1], actions[..i], n);
      SentComesLast(s, a, s');
    }
  }

  lemma SentComesLast(s: Sub, a: Action, s': Sub)
    requires Act(s, a, s') && !a.Drain?
    ensures s'.got + s'.ch == s.got + s.ch + Sent(s, a)
  {
    if a.Receive? {
      assert s.ch == [s.ch[0]] + s.ch[1..];
    }
  }

  lemma {:induction false} SubRunKeepsInv(states: seq<Sub>, actions: seq<Action>, n: nat, i: nat)
    requires SubRun(states, actions) && Fresh(states[0], n) && i <= |actions|
    ensures TeardownInv(states[i]) && |states[i].dispatchers| == n
    decreases i
  {
    if i == 0 {
      NoneArmed(states[0].dispatchers);
    } else {
      SubRunKeepsInv(states, actions, n, i - 1);
      ActKeepsInv(states[i - 1], actions[i - 1], states[i]);
    }
  }

  lemma {:induction false} NoneArmed(ds: seq<Dispatcher>)
    requires forall d | 0 <= d < |ds| :: !ds[d].Armed?
    ensures ArmedCount(ds) == 0
    decreases |ds|
  {
    if ds != [] { NoneArmed(ds[..|ds| - 1]); }
  }

  /**
   Teardown, in every interleaving with n dispatchers, replay and the watch loop: after closed is
   set each dispatcher enqueues at most one more batch; at most one sentinel is ever sent, and
   with fewer dispatchers than channel slots exactly one by the end; the watch loop receives
   nothing after it.
   */
  lemma TeardownSafe(n: nat, s: Sub)
    requires Reachable(n, s)
    ensures forall d :: s.late[d] <= 1
    ensures s.sentinels <= 1 && (s.phase.Finished? && n < SUB_CHANNEL_DEPTH ==> s.sentinels == 1)
    ensures forall i | 0 <= i < |s.got| - 1 :: s.got[i] != Sentinel
  {
    var states: seq<Sub>, actions: seq<Action> :| SubRun(states, actions) && Fresh(states[0], n)
            && states[|actions|] == s;
    SubRunKeepsInv(states, actions, n, |actions|);
  }

  /** From closing on, buffered and still expected batches only go down; each drain takes one. */
  lemma DrainEnds(s: Sub, a: Action, s': Sub)
    requires TeardownInv(s) && Act(s, a, s') && s.phase in {Closing, Draining}
    ensures |s'.ch| + ArmedCount(s'.dispatchers) <= |s.ch| + ArmedCount(s.dispatchers) - if a.Drain? then 1 else 0
    ensures a.Drain? ==> |s'.ch| == |s.ch| - 1 && s'.ch == s.ch[|s.ch| - |s'.ch|..]
  {
    match a
    case Copy(d) => ArmedCountUpdate(s.dispatchers, d, Copied);
    case Check(d) => ArmedCountUpdate(s.dispatchers, d, Away);
    case Push(d, _) => ArmedCountUpdate(s.dispatchers, d, Away);
    case _ =>
  }

  // ---------- the bound is exact ----------

  lemma Extend(n: nat, s: Sub, a: Action, s': Sub)
    requires Reachable(n, s) && Act(s, a, s')
    ensures Reachable(n, s')
  {
    var states: seq<Sub>, actions: seq<Action> :| SubRun(states, actions) && Fresh(states[0], n)
            && states[|actions|] == s;
    var states', actions' := states + [s'], actions + [a];
    assert SubRun(states', actions');
    assert states'[|actions'|] == s';
  }

  /** The first k dispatchers past the closed check, the rest not begun. */
  function SomeArmed(n: nat, k: nat): seq<Dispatcher>
    requires k <= n
  {
    seq(n, i => if i < k then Armed else Away)
  }

  lemma {:induction false} ArmFirst(n: nat, k: nat)
    requires k <= n
    ensures Reachable(n, Sub([], Serving, SomeArmed(n, k), 0, multiset{}, []))
    decreases k
  {
    if k == 0 {
      var s := Sub([], Serving, seq(n, _ => Away), 0, multiset{}, []);
      assert SomeArmed(n, 0) == s.dispatchers;
      assert SubRun([s], []) && Fresh([s][0], n);
    } else {
      ArmFirst(n, k - 1);
      var s := Sub([], Serving, SomeArmed(n, k - 1), 0, multiset{}, []);
      var s1 := s.(dispatchers := s.dispatchers[k - 1 := Copied]);
      Extend(n, s, Copy(k - 1), s1);
      var s2 := s1.(dispatchers := s1.dispatchers[k - 1 := Armed]);
      Extend(n, s1, Check(k - 1), s2);
      assert s2.dispatchers == SomeArmed(n, k);
    }
  }

  lemma {:induction false} FillLate(n: nat, k: nat) returns (s: Sub)
    requires k <= SUB_CHANNEL_DEPTH <= n
    ensures Reachable(n, s) && s.phase.Drained? && |s.ch| == k && s.dispatchers == SomeArmed(n, n - k)
    decreases k
  {
    if k == 0 {
      ArmFirst(n, n);
      s := Sub([], Serving, SomeArmed(n, n), 0, multiset{}, []);
      Extend(n, s, SetClosed, s.(phase := Closing));
      Extend(n, s.(phase := Closing), Remove, s.(phase := Draining));
      Extend(n, s.(phase := Draining), DrainDone, s.(phase := Drained));
      s := s.(phase := Drained);
    } else {
      var p := FillLate(n, k - 1);
      var row := Row([], 2, None, None, 0, false, true, 2, None);
      s := p.(ch := p.ch + [Batch([row])], dispatchers := p.dispatchers[n - k := Away],
              late := p.late + multiset{n - k});
      Extend(n, p, Push(n - k, [row]), s);
      assert s.dispatchers == SomeArmed(n, n - k);
    }
  }

  /** The sentinel always finds room after the drain exactly when there are fewer than 100 dispatchers. */
  lemma SentinelFitsIff(n: nat)
    ensures (forall s :: Reachable(n, s) && s.phase.Drained? ==> |s.ch| < SUB_CHANNEL_DEPTH) <==> n < SUB_CHANNEL_DEPTH
  {
    if n < SUB_CHANNEL_DEPTH {
      forall s | Reachable(n, s) && s.phase.Drained? ensures |s.ch| < SUB_CHANNEL_DEPTH {
        var states: seq<Sub>, actions: seq<Action> :| SubRun(states, actions) && Fresh(states[0], n)
                && states[|actions|] == s;
        SubRunKeepsInv(states, actions, n, |actions|);
      }
    } else {
      var s := FillLate(n, SUB_CHANNEL_DEPTH);
      assert Reachable(n, s) && s.phase.Drained? && !(|s.ch| < SUB_CHANNEL_DEPTH);
    }
  }
}
