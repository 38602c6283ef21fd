/** The migrator: copies a source page by page in key order, then compares both sides. */
module Migrate {
  import opened Bytes
  import opened Rows

  datatype Pair = Pair(key: Key, value: Bytes)

  /** A source holds its keys in order, each once; etcd has no empty key. */
  predicate Source(src: seq<Pair>) {
    && (forall i, j | 0 <= i < j < |src| :: Less(src[i].key, src[j].key))
    && (forall i | 0 <= i < |src| :: src[i].key != [])
  }

  // ---------- pages ----------

  /** Where the keys at or after `from` begin. */
  function FirstAtLeast(src: seq<Pair>, from: Key): (n: nat)
    requires Source(src)
    ensures n <= |src|
    ensures forall i | 0 <= i < n :: Less(src[i].key, from)
    ensures forall i | n <= i < |src| :: AtMost(from, src[i].key)
    decreases |src|
  {
    if src == [] then 0
    else
      var m := |src| - 1;
      LessTrichotomy(from, src[m].key);
      if Less(src[m].key, from) then
        assert forall i | 0 <= i < |src| :: Less(src[i].key, from) by {
          forall i | 0 <= i < |src| ensures Less(src[i].key, from) {
            if i < m { LessTransitive(src[i].key, src[m].key, from); }
          }
        }
        |src|
      else
        var n := FirstAtLeast(src[..m], from);
        assert forall i | 0 <= i < m :: src[..m][i] == src[i];
        n
  }

  lemma {:induction false} FirstAtLeastIs(src: seq<Pair>, from: Key, n: nat)
    requires Source(src) && n <= |src|
    requires forall i | 0 <= i < n :: Less(src[i].key, from)
    requires forall i | n <= i < |src| :: AtMost(from, src[i].key)
    ensures FirstAtLeast(src, from) == n
  {
    var m := FirstAtLeast(src, from);
    if m < n { LessTrichotomy(from, src[m].key); }
    if n < m { LessTrichotomy(from, src[n].key); }
  }

  /** `Get(from, WithFromKey, WithLimit(limit))`; a limit of 0 is none. */
  function Page(src: seq<Pair>, from: Key, limit: nat): seq<Pair>
    requires Source(src)
  {
    var n := FirstAtLeast(src, from);
    if limit == 0 || n + limit >= |src| then src[n..] else src[n..n + limit]
  }

  /** The key after the last one of a page is where the next page begins. */
  lemma {:induction false} NextPageBegins(src: seq<Pair>, n: nat)
    requires Source(src) && 0 < n <= |src|
    ensures FirstAtLeast(src, src[n - 1].key + [0]) == n
  {
    var k := src[n - 1].key;
    forall i | 0 <= i < n ensures Less(src[i].key, k + [0]) {
      SuccessorIsImmediate(k, src[i].key);
      LessTrichotomy(k + [0], src[i].key);
      if i < n - 1 { LessAsymmetric(src[i].key, k); } else { LessIrreflexive(k); }
    }
    forall i | n <= i < |src| ensures AtMost(k + [0], src[i].key) {
      SuccessorIsImmediate(k, src[i].key);
    }
    FirstAtLeastIs(src, k + [0], n);
  }

  lemma {:induction false} FirstPageBegins(src: seq<Pair>)
    requires Source(src)
    ensures FirstAtLeast(src, [0]) == 0
  {
    forall i | 0 <= i < |src| ensures AtMost([0], src[i].key) {
      SuccessorIsImmediate([], src[i].key);
      assert [] + [0] == [0];
    }
    FirstAtLeastIs(src, [0], 0);
  }

  // ---------- copying ----------

  function Failed(ps: seq<Pair>, failing: set<Key>): nat {
    if ps == [] then 0
    else Failed(ps[..|ps| - 1], failing) + (if ps[|ps| - 1].key in failing then 1 else 0)
  }

  /** The destination after the puts that succeed. */
  function Copied(dst: map<Key, Bytes>, ps: seq<Pair>, failing: set<Key>): map<Key, Bytes> {
    if ps == [] then dst
    else
      var d := Copied(dst, ps[..|ps| - 1], failing);
      var p := ps[|ps| - 1];
      if p.key in failing then d else d[p.key := p.value]
  }

  lemma {:induction false} CopiedAt(dst: map<Key, Bytes>, ps: seq<Pair>, failing: set<Key>, i: nat)
    requires Source(ps) && i < |ps| && ps[i].key !in failing
    ensures ps[i].key in Copied(dst, ps, failing) && Copied(dst, ps, failing)[ps[i].key] == ps[i].value
    decreases |ps|
  {
    var n := |ps| - 1;
    if i < n {
      LessAsymmetric(ps[i].key, ps[n].key);
      CopiedAt(dst, ps[..n], failing, i);
    }
  }

  lemma {:induction false} CopiedElsewhere(dst: map<Key, Bytes>, ps: seq<Pair>, failing: set<Key>, k: Key)
    requires forall i | 0 <= i < |ps| :: ps[i].key == k ==> k in failing
    ensures k in Copied(dst, ps, failing) <==> k in dst
    ensures k in dst ==> Copied(dst, ps, failing)[k] == dst[k]
    decreases |ps|
  {
    if ps != [] { CopiedElsewhere(dst, ps[..|ps| - 1], failing, k); }
  }

  lemma {:induction false} NoneFailed(ps: seq<Pair>, failing: set<Key>)
    ensures Failed(ps, failing) == 0 <==> forall i | 0 <= i < |ps| :: ps[i].key !in failing
    decreases |ps|
  {
    if ps != [] { NoneFailed(ps[..|ps| - 1], failing); }
  }

  lemma {:induction false} FailedCounts(ps: seq<Pair>, failing: set<Key>)
    ensures Failed(ps, failing) == |set i: nat | i < |ps| && ps[i].key in failing|
    decreases |ps|
  {
    if ps != [] {
      var n := |ps| - 1;
      FailedCounts(ps[..n], failing);
      assert (set i: nat | i < |ps| && ps[i].key in failing)
          == (set i: nat | i < n && ps[..n][i].key in failing) + if ps[n].key in failing then {n} else {};
    }
  }

  /** A copy in progress: `puts` so far, counted, and the destination they made. */
  predicate Progress(before: map<Key, Bytes>, failing: set<Key>, puts: seq<Pair>, migrated: nat, failed: nat,
      dst: map<Key, Bytes>) {
    failed == Failed(puts, failing) && migrated + failed == |puts| && dst == Copied(before, puts, failing)
  }

  lemma ProgressNext(before: map<Key, Bytes>, failing: set<Key>, puts: seq<Pair>, migrated: nat, failed: nat,
      dst: map<Key, Bytes>, p: Pair)
    requires Progress(before, failing, puts, migrated, failed, dst)
    ensures if p.key in failing then Progress(before, failing, puts + [p], migrated, failed + 1, dst)
            else Progress(before, failing, puts + [p], migrated + 1, failed, dst[p.key := p.value])
  {
    assert (puts + [p])[..|puts|] == puts;
  }

  method PutPage(kvs: seq<Pair>, failing: set<Key>, ghost before: map<Key, Bytes>,
                 puts0: seq<Pair>, migrated0: nat, failed0: nat, dst0: map<Key, Bytes>)
    returns (puts: seq<Pair>, migrated: nat, failed: nat, dst: map<Key, Bytes>)
    requires Progress(before, failing, puts0, migrated0, failed0, dst0)
    ensures puts == puts0 + kvs && Progress(before, failing, puts, migrated, failed, dst)
  {
    puts, migrated, failed, dst := puts0, migrated0, failed0, dst0;
    for i := 0 to |kvs|
      invariant puts == puts0 + kvs[..i] && Progress(before, failing, puts, migrated, failed, dst)
    {
      var kv := kvs[i];
      ProgressNext(before, failing, puts, migrated, failed, dst, kv);
      puts := puts + [kv];
      if kv.key in failing {
        failed := failed + 1;
      } else {
        migrated := migrated + 1;
        dst := dst[kv.key := kv.value];
      }
    }
  }

  /** The keys still to come begin at position n. */
  predicate Begins(src: seq<Pair>, lastKey: Key, n: nat)
    requires Source(src)
  {
    FirstAtLeast(src, if lastKey == [] then [0] else lastKey) == n
  }

  /** One page from where the last one ended, and where the next one begins. */
  method FetchPage(src: seq<Pair>, lastKey: Key, pageSize: nat, ghost n: nat) returns (kvs: seq<Pair>, next: Key)
    requires Source(src) && n <= |src| && Begins(src, lastKey, n)
    ensures n + |kvs| <= |src| && src[..n] + kvs == src[..n + |kvs|]
    ensures kvs == [] ==> n == |src|
    ensures |kvs| < pageSize ==> n + |kvs| == |src|
    ensures kvs != [] ==> Begins(src, next, n + |kvs|)
  {
    var fromKey := if lastKey == [] then [0] else lastKey;
    kvs := Page(src, fromKey, pageSize);
    assert kvs == src[n..n + |kvs|];
    next := [];
    if |kvs| > 0 {
      next := kvs[|kvs| - 1].key + [0];
      NextPageBegins(src, n + |kvs|);
    }
  }

  /**
   The page loop, for any page size: it ends, and it has put the source pairs exactly once, in key
   order, whatever the pages were, all of them unless reading page `readFails` failed; the counts
   add up and the destination is the old one with the successful puts over it.
   */
  method CopyAll(src: seq<Pair>, pageSize: nat, failing: set<Key>, readFails: Option<nat>, before: map<Key, Bytes>)
    returns (ok: bool, migrated: nat, failed: nat, puts: seq<Pair>, dst: map<Key, Bytes>)
    requires Source(src)
    ensures puts <= src && (ok ==> puts == src)
    ensures readFails.None? ==> ok
    ensures readFails == Some(0) ==> !ok && puts == []
    ensures failed == Failed(puts, failing) && migrated + failed == |puts|
    ensures dst == Copied(before, puts, failing)
  {
    ok, migrated, failed, puts, dst := true, 0, 0, [], before;
    var lastKey: Key, page := [], 0;
    FirstPageBegins(src);
    while true
      invariant |puts| <= |src| && puts == src[..|puts|] && Begins(src, lastKey, |puts|)
      invariant Progress(before, failing, puts, migrated, failed, dst)
      invariant ok && (readFails == Some(0) ==> page == 0 && puts == [])
      decreases |src| - |puts|
    {
      if readFails == Some(page) {
        ok := false;
        break;
      }
      page := page + 1;
      var kvs, next := FetchPage(src, lastKey, pageSize, |puts|);
      if |kvs| == 0 { break; }
      puts, migrated, failed, dst := PutPage(kvs, failing, before, puts, migrated, failed, dst);
      if |kvs| < pageSize { break; }
      lastKey := next;
    }
    assert src[..|src|] == src;
  }

  // ---------- verification ----------

  predicate Matches(p: Pair, dst: map<Key, Bytes>, unreadable: set<Key>) {
    p.key !in unreadable && p.key in dst && dst[p.key] == p.value
  }

  /** The positions of the pairs that cannot be read back. */
  function Missing(src: seq<Pair>, dst: map<Key, Bytes>, unreadable: set<Key>): set<nat> {
    set i: nat | i < |src| && (src[i].key in unreadable || src[i].key !in dst)
  }

  /** The positions of the pairs that read back with another value. */
  function Wrong(src: seq<Pair>, dst: map<Key, Bytes>, unreadable: set<Key>): set<nat> {
    set i: nat | i < |src| && src[i].key !in unreadable && src[i].key in dst && dst[src[i].key] != src[i].value
  }

  /** Success means exactly that every source pair is readable in the destination with its value. */
  method Verify(src: seq<Pair>, dst: map<Key, Bytes>, unreadable: set<Key>)
      returns (success: bool, ok: nat, missing: nat, wrong: nat)
    ensures success <==> forall i | 0 <= i < |src| :: Matches(src[i], dst, unreadable)
    ensures ok + missing + wrong == |src| && (success <==> ok == |src|)
    ensures missing == |Missing(src, dst, unreadable)| && wrong == |Wrong(src, dst, unreadable)|
  {
    ok, missing, wrong := 0, 0, 0;
    for i := 0 to |src|
      invariant ok + missing + wrong == i
      invariant missing == |Missing(src[..i], dst, unreadable)| && wrong == |Wrong(src[..i], dst, unreadable)|
      invariant ok == i <==> forall j | 0 <= j < i :: Matches(src[j], dst, unreadable)
    {
      var p := src[i];
      OneMoreMissing(src, dst, unreadable, i);
      OneMoreWrong(src, dst, unreadable, i);
      if p.key in unreadable || p.key !in dst {
        missing := missing + 1;
      } else if dst[p.key] != p.value {
        wrong := wrong + 1;
      } else {
        ok := ok + 1;
      }
    }
    assert src[..|src|] == src;
    success := missing == 0 && wrong == 0;
  }

  lemma OneMoreMissing(src: seq<Pair>, dst: map<Key, Bytes>, unreadable: set<Key>, i: nat)
    requires i < |src|
    ensures |Missing(src[..i + 1], dst, unreadable)|
            == |Missing(src[..i], dst, unreadable)| + if src[i].key in unreadable || src[i].key !in dst then 1 else 0
  {
    var before, after := Missing(src[..i], dst, unreadable), Missing(src[..i + 1], dst, unreadable);
    assert after == before + if src[i].key in unreadable || src[i].key !in dst then {i} else {};
  }

  lemma OneMoreWrong(src: seq<Pair>, dst: map<Key, Bytes>, unreadable: set<Key>, i: nat)
    requires i < |src|
    ensures var p := src[i];
            |Wrong(src[..i + 1], dst, unreadable)| == |Wrong(src[..i], dst, unreadable)|
                + if p.key !in unreadable && p.key in dst && dst[p.key] != p.value then 1 else 0
  {
    var p, before, after := src[i], Wrong(src[..i], dst, unreadable), Wrong(src[..i + 1], dst, unreadable);
    assert after == before + if p.key !in unreadable && p.key in dst && dst[p.key] != p.value then {i} else {};
  }

  datatype Outcome = DryRun | ReadFailed | PutsFailed(count: nat) | Mismatch | Complete

  /** Reads of the source that fail: a page of the copy, or the one read of the verification. */
  datatype ReadFaults = ReadFaults(page: Option<nat>, verification: bool)

  /**
   A whole migration. A dry run touches nothing; a copy that could read its source completes
   exactly when every put succeeded and, if asked to verify, every key could be read back, and
   then the destination holds every source pair; other keys are never touched.
   */
  method Run(src: seq<Pair>, pageSize: nat, failing: set<Key>, unreadable: set<Key>, faults: ReadFaults, verify: bool,
      dryRun: bool, before: map<Key, Bytes>)
    returns (outcome: Outcome, dst: map<Key, Bytes>)
    requires Source(src)
    ensures outcome.DryRun? <==> dryRun && src != [] && faults.page != Some(0)
    ensures outcome.DryRun? || faults.page == Some(0) ==> dst == before
    ensures outcome.ReadFailed? ==> faults.page.Some? || (verify && faults.verification)
    ensures faults == ReadFaults(None, false) && !outcome.DryRun? ==>
              (outcome.Complete? <==>
               forall i | 0 <= i < |src| :: src[i].key !in failing && (verify ==> src[i].key !in unreadable))
    ensures faults == ReadFaults(None, false) && !outcome.DryRun? ==>
              && (outcome.PutsFailed? <==> exists i :: 0 <= i < |src| && src[i].key in failing)
              && (outcome.PutsFailed? ==> outcome.count == |set i: nat | i < |src| && src[i].key in failing|)
    ensures outcome.Complete? ==> forall i | 0 <= i < |src| :: src[i].key in dst && dst[src[i].key] == src[i].value
    ensures forall k | k in before && (forall i | 0 <= i < |src| :: src[i].key != k) :: k in dst && dst[k] == before[k]
  {
    if dryRun && src != [] && faults.page != Some(0) {
      return DryRun, before;
    }
    var ok, migrated, failed, puts;
    ok, migrated, failed, puts, dst := CopyAll(src, pageSize, failing, faults.page, before);
    NoneFailed(puts, failing);
    FailedCounts(puts, failing);
    forall k | k in before && (forall i | 0 <= i < |src| :: src[i].key != k) ensures k in dst && dst[k] == before[k] {
      assert forall i | 0 <= i < |puts| :: puts[i] == src[i];
      CopiedElsewhere(before, puts, failing, k);
    }
    if !ok { return ReadFailed, dst; }
    forall i | 0 <= i < |src| && src[i].key !in failing ensures src[i].key in dst && dst[src[i].key] == src[i].value {
      CopiedAt(before, src, failing, i);
    }
    if failed > 0 { return PutsFailed(failed), dst; }
    if verify {
      if faults.verification { return ReadFailed, dst; }
      var success, _, _, _ := Verify(src, dst, unreadable);
      if !success { return Mismatch, dst; }
    }
    return Complete, dst;
  }
}
