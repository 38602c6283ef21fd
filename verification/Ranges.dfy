/**
 Ranges: how `[key, end)` becomes a prefix scan, and when the scan with the filter of the Txn
 path returns exactly that range.
 */
module Ranges {
  import opened Bytes
  import opened Rows
  import opened Log
  import opened Reads
  import Subscribers

  const FROM_KEY: Bytes := [0] // the RangeEnd that means "every key from here on"

  function RangeToPrefix(key: Key, end: Bytes): (p: Bytes)
    ensures HasPrefix(key, p)
  {
    if end == FROM_KEY then []
    else if |end| > 0 && |key| > 0 && HasPrefix(end, key[..|key| - 1]) then key[..|key| - 1]
    else key
  }

  function WatchPrefix(key: Key, end: Bytes): (p: Bytes)
    ensures HasPrefix(key, p)
  {
    if end == [] then key
    else if end == FROM_KEY then []
    else if |key| > 0 && |end| == |key| then key[..|key| - 1]
    else key
  }

  /** What the client asks for; an empty end is a single key. */
  predicate InRange(key: Key, end: Bytes, x: Key) {
    if end == [] then x == key
    else AtMost(key, x) && (end == FROM_KEY || Less(x, end))
  }

  // ---------- which prefixes cover a range ----------

  /** A prefix of the first key covers `[key, end)` unless end lies beyond the prefix's own range. */
  predicate Covers(p: Bytes, key: Key, end: Bytes) {
    PrefixEnd(p) == [] || (end != FROM_KEY && (AtMost(end, key) || AtMost(end, PrefixEnd(p))))
  }

  lemma {:induction false} PrefixEndAbove(p: Bytes, key: Key)
    requires HasPrefix(key, p) && PrefixEnd(p) != []
    ensures Less(key, PrefixEnd(p)) && !HasPrefix(PrefixEnd(p), p)
  {
    PrefixRangeExact(p, key);
    PrefixRangeExact(p, PrefixEnd(p));
    LessIrreflexive(PrefixEnd(p));
  }

  lemma CoversExactly(p: Bytes, key: Key, end: Bytes)
    requires HasPrefix(key, p) && end != []
    ensures (forall x :: InRange(key, end, x) ==> HasPrefix(x, p)) <==> Covers(p, key, end)
  {
    if Covers(p, key, end) {
      forall x | InRange(key, end, x) ensures HasPrefix(x, p) {
        PrefixAtMost(p, key);
        AtMostTransitive(p, key, x);
        PrefixRangeExact(p, x);
        if PrefixEnd(p) != [] {
          if AtMost(end, key) {
            AtMostTransitive(end, key, x);
            LessTrichotomy(end, x);
          } else {
            AtMostTransitive(x, end, PrefixEnd(p));
          }
        }
      }
    } else {
      var w := PrefixEnd(p);
      PrefixEndAbove(p, key);
      LessTrichotomy(end, w);
      assert InRange(key, end, w) && !HasPrefix(w, p);
    }
  }

  /** The range ends the prefix translation handles, as a caller can check them. */
  predicate Coverable(key: Key, end: Bytes) {
    || end == FROM_KEY
    || (|key| > 0 && HasPrefix(end, key[..|key| - 1]))
    || PrefixEnd(key) == []
    || AtMost(end, key)
    || AtMost(end, PrefixEnd(key))
  }

  /** The computed prefix covers the range exactly for those ends: among them the prefix end, carry included. */
  lemma {:induction false} RangePrefixCoversIff(key: Key, end: Bytes)
    requires end != []
    ensures (forall x :: InRange(key, end, x) ==> HasPrefix(x, RangeToPrefix(key, end))) <==> Coverable(key, end)
    ensures Coverable(key, PrefixEnd(key))
  {
    var p := RangeToPrefix(key, end);
    CoversExactly(p, key, end);
    if end != FROM_KEY && |key| > 0 && HasPrefix(end, key[..|key| - 1]) && PrefixEnd(p) != [] {
      PrefixEndAbove(p, end);
    }
  }

  /** Not every range is covered: the scan for `["a/b", "c")` finds only keys under "a/b". */
  lemma RangePrefixMisses() returns (key: Key, end: Bytes, x: Key)
    ensures end != [] && !Coverable(key, end)
    ensures InRange(key, end, x) && !Selects(RangeToPrefix(key, end), key, x)
  {
    key, end, x := [97, 47, 98], [99], [98];
    assert RangeToPrefix(key, end) == key && PrefixEnd(key) == [97, 47, 99];
    WildcardFreeLike(key, x);
  }

  // ---------- what a watch on a range delivers ----------

  /** The prefix a live event must have to reach the watch: the dispatcher drops a trailing `%`. */
  function LivePrefix(key: Key, end: Bytes): (p: Bytes)
    ensures HasPrefix(key, p)
  {
    Subscribers.TrimPercent(WatchPrefix(key, end))
  }

  /** Byte by byte, x begins as key does. */
  predicate Agree(key: Key, n: nat, x: Key)
    requires n <= |key|
  {
    |x| >= n && forall i | 0 <= i < n :: x[i] == key[i]
  }

  /**
   The keys a watch delivers: from-key watches all, a range whose end is as long as the key all that
   agree with the key but for its last byte, any other watch (of one key, too) all that agree with
   the whole key; a `%` at the end of what has to agree is not looked at.
   */
  lemma WatchDelivers(key: Key, end: Bytes, x: Key)
    ensures var n := if end == FROM_KEY then 0 else if |end| == |key| > 0 then |key| - 1 else |key|;
            HasPrefix(x, LivePrefix(key, end)) <==>
            Agree(key, if n > 0 && key[n - 1] == PERCENT then n - 1 else n, x)
  {
    var p := LivePrefix(key, end);
    assert p == key[..|p|];
    if Agree(key, |p|, x) { assert x[..|p|] == p; }
    if HasPrefix(x, p) { assert forall i | 0 <= i < |p| :: x[i] == x[..|p|][i]; }
  }

  /** A watch delivers every key of its range exactly under the corresponding condition on its own prefix. */
  lemma WatchPrefixCoversIff(key: Key, end: Bytes)
    ensures (forall x :: InRange(key, end, x) ==> HasPrefix(x, LivePrefix(key, end)))
            <==> end == [] || Covers(LivePrefix(key, end), key, end)
  {
    if end != [] { CoversExactly(LivePrefix(key, end), key, end); }
  }

  /** Not every range is covered: `["a/b", "c/b")` watches only keys under "a/". */
  lemma WatchMissesRange()
    ensures exists key: Key, end: Bytes, x: Key :: InRange(key, end, x) && !HasPrefix(x, LivePrefix(key, end))
  {
    var key: Key, end: Bytes, x: Key := [97, 47, 98], [99, 47, 98], [98];
    assert LivePrefix(key, end) == [97, 47];
    assert InRange(key, end, x);
  }

  /** The requests for which a watch delivers nothing but its range. */
  predicate WatchStaysInside(key: Key, end: Bytes) {
    && end != [] && LivePrefix(key, end) == key
    && (end == FROM_KEY || (PrefixEnd(key) != [] && AtMost(PrefixEnd(key), end)))
  }

  /** Nothing filters live events by the range end, so exactly those watches deliver only their range. */
  lemma WatchOnlyRangeIff(key: Key, end: Bytes)
    ensures (forall x :: HasPrefix(x, LivePrefix(key, end)) ==> InRange(key, end, x)) <==> WatchStaysInside(key, end)
  {
    var p := LivePrefix(key, end);
    if WatchStaysInside(key, end) {
      forall x | HasPrefix(x, p) ensures InRange(key, end, x) {
        PrefixRangeExact(key, x);
        if end != FROM_KEY { AtMostTransitive(x, PrefixEnd(key), end); }
      }
    } else {
      var x := OutsideKey(key, end);
    }
  }

  lemma OutsideKey(key: Key, end: Bytes) returns (x: Key)
    requires !WatchStaysInside(key, end)
    ensures HasPrefix(x, LivePrefix(key, end)) && !InRange(key, end, x)
  {
    var p := LivePrefix(key, end);
    PrefixAtMost(p, key);
    if end == [] {
      x := key + [0];
    } else if p != key {
      x := p;
      LessTrichotomy(key, p);
    } else {
      // No key with the prefix is beyond the end only if the end is beyond all of them.
      LessTrichotomy(key, end);
      x := if Less(key, end) then end else key;
      PrefixRangeExact(key, end);
      if PrefixEnd(key) != [] { LessTrichotomy(PrefixEnd(key), end); }
      LessIrreflexive(end);
    }
  }

  // ---------- scan and filter ----------

  predicate BeforeEnd(end: Bytes, k: Key) {
    end == FROM_KEY || Less(k, end)
  }

  /** Selecting with the prefix pattern and dropping keys from the end on is selecting the range. */
  lemma ScanAndFilterExact(key: Key, end: Bytes, x: Key)
    requires end != [] && Coverable(key, end) && NoEscape(RangeToPrefix(key, end))
    ensures Selects(RangeToPrefix(key, end), key, x) && BeforeEnd(end, x) <==> InRange(key, end, x)
  {
    RangePrefixCoversIff(key, end);
    if InRange(key, end, x) { UnescapedLikeCoversPrefix(RangeToPrefix(key, end), x); }
  }

  /** For prefixes without special characters that condition is also necessary. */
  lemma ScanAndFilterExactIff(key: Key, end: Bytes)
    requires end != [] && WildcardFree(RangeToPrefix(key, end))
    ensures (forall x :: Selects(RangeToPrefix(key, end), key, x) && BeforeEnd(end, x) <==> InRange(key, end, x))
            <==> Coverable(key, end)
  {
    var p := RangeToPrefix(key, end);
    assert NoEscape(p);
    RangePrefixCoversIff(key, end);
    if Coverable(key, end) {
      forall x ensures Selects(p, key, x) && BeforeEnd(end, x) <==> InRange(key, end, x) {
        ScanAndFilterExact(key, end, x);
      }
    } else {
      var x :| InRange(key, end, x) && !HasPrefix(x, p);
      WildcardFreeLike(p, x);
      assert !(Selects(p, key, x) && BeforeEnd(end, x) <==> InRange(key, end, x));
    }
  }

  function RangeRows(t: Table, key: Key, end: Bytes, cap: int): set<Row> {
    set r | r in t && InRange(key, end, r.key) && IsNewest(t, r.key, At(cap), r) && !r.deleted
  }

  function Filtered(page: seq<Row>, end: Bytes): seq<Row> {
    if page == [] then []
    else
      var f := Filtered(page[..|page| - 1], end);
      if BeforeEnd(end, page[|page| - 1].key) then f + [page[|page| - 1]] else f
  }

  lemma {:induction false} FilteredExact(page: seq<Row>, end: Bytes)
    requires forall i, j | 0 <= i < j < |page| :: Less(page[i].key, page[j].key)
    ensures forall r :: r in Filtered(page, end) <==> r in page && BeforeEnd(end, r.key)
    ensures Filtered(page, end) <= page
    decreases |page|
  {
    if page != [] {
      var n := |page| - 1;
      FilteredExact(page[..n], end);
      assert page == page[..n] + [page[n]];
      if BeforeEnd(end, page[n].key) {
        // Keys ascend, so everything before a kept row is kept.
        forall r | r in page[..n] ensures BeforeEnd(end, r.key) {
          var i :| 0 <= i < n && page[..n][i] == r;
          assert page[i] == r && Less(page[i].key, page[n].key);
          if end != FROM_KEY { LessTransitive(page[i].key, page[n].key, end); }
        }
        AllKept(page[..n], end);
      }
    }
  }

  lemma {:induction false} AllKept(page: seq<Row>, end: Bytes)
    requires forall r | r in page :: BeforeEnd(end, r.key)
    ensures Filtered(page, end) == page
    decreases |page|
  {
    if page != [] {
      var n := |page| - 1;
      assert page == page[..n] + [page[n]];
      assert page[n] in page && forall r | r in page[..n] :: r in page;
      AllKept(page[..n], end);
    }
  }

  function KeptRows(all: set<Row>, end: Bytes): set<Row> {
    set r | r in all && BeforeEnd(end, r.key)
  }

  /** Filtering a limited page is the same as limiting the filtered list. */
  lemma {:induction false} FilterAfterLimit(all: set<Row>, limit: int, page: seq<Row>, end: Bytes)
    requires KeyPage(all, limit, page)
    ensures KeyPage(KeptRows(all, end), limit, Filtered(page, end))
  {
    var kept, f := KeptRows(all, end), Filtered(page, end);
    FilteredExact(page, end);
    assert forall i | 0 <= i < |f| :: f[i] == page[i];
    if limit <= 0 || |all| <= limit {
      SubsetSize(kept, all);
    } else {
      if r :| r in kept && r !in f {
        // A selected key was cut off by the limit, so the whole page lies before it and is kept.
        forall x | x in page ensures BeforeEnd(end, x.key) {
          if end != FROM_KEY { LessTransitive(x.key, r.key, end); }
        }
        AllKept(page, end);
        PageSmaller(kept, f, r);
      } else {
        KeptFits(kept, f, limit);
      }
    }
  }

  lemma PageSmaller(rows: set<Row>, page: seq<Row>, missing: Row)
    requires (forall i, j | 0 <= i < j < |page| :: Less(page[i].key, page[j].key)) && forall r | r in page :: r in rows
    requires missing in rows && missing !in page
    ensures |page| < |rows|
  {
    var p := set r | r in page;
    PageSize(p, page);
    SubsetSize(p + {missing}, rows);
  }

  lemma KeptFits(rows: set<Row>, page: seq<Row>, limit: int)
    requires (forall i, j | 0 <= i < j < |page| :: Less(page[i].key, page[j].key)) && |page| <= limit
    requires forall r :: r in page <==> r in rows
    ensures |rows| <= limit
  {
    PageSize(rows, page);
  }

  /**
   Range inside a Txn: the page it returns is exactly what `[key, end)` with the same limit would
   be, keys ascending, for every table.
   */
  lemma {:induction false} TxnRangeExact(t: Table, key: Key, end: Bytes, cap: int, limit: int, page: seq<Row>)
    requires end != [] && Coverable(key, end) && NoEscape(RangeToPrefix(key, end))
    requires KeyPage(ListRows(t, RangeToPrefix(key, end), key, cap), limit, page)
    ensures KeyPage(RangeRows(t, key, end, cap), limit, Filtered(page, end))
  {
    var all := ListRows(t, RangeToPrefix(key, end), key, cap);
    forall r ensures r in KeptRows(all, end) <==> r in RangeRows(t, key, end, cap) {
      ScanAndFilterExact(key, end, r.key);
    }
    assert KeptRows(all, end) == RangeRows(t, key, end, cap);
    FilterAfterLimit(all, limit, page, end);
  }

  // ---------- without the filter ----------

  /** The requests a bare prefix scan answers exactly: all keys from here on, or a prefix end with a carry. */
  predicate ExactUnfiltered(key: Key, end: Bytes) {
    || end == FROM_KEY
    || (&& PrefixEnd(key) != [] && end == PrefixEnd(key)
        && !(|key| > 0 && HasPrefix(end, key[..|key| - 1])))
  }

  lemma UnfilteredKeysExact(key: Key, end: Bytes, x: Key)
    requires end != [] && WildcardFree(RangeToPrefix(key, end)) && ExactUnfiltered(key, end)
    ensures Selects(RangeToPrefix(key, end), key, x) <==> InRange(key, end, x)
  {
    WildcardFreeLike(RangeToPrefix(key, end), x);
    if end != FROM_KEY { PrefixRangeExact(key, x); }
  }

  lemma UnfilteredKeysWrong(key: Key, end: Bytes) returns (x: Key)
    requires end != [] && WildcardFree(RangeToPrefix(key, end)) && !ExactUnfiltered(key, end)
    ensures !(Selects(RangeToPrefix(key, end), key, x) <==> InRange(key, end, x))
  {
    var p := RangeToPrefix(key, end);
    LessTrichotomy(key, end);
    LessTrichotomy(key, key);
    LessIrreflexive(end);
    if !Less(key, end) {
      x := key;
    } else if HasPrefix(end, p) {
      x := end;
    } else {
      PrefixRangeExact(key, end);
      PrefixEndAbove(key, key);
      LessTrichotomy(PrefixEnd(key), end);
      x := PrefixEnd(key);
    }
    WildcardFreeLike(p, x);
  }

  predicate UnfilteredExact(t: Table, key: Key, end: Bytes, cap: int) {
    ListRows(t, RangeToPrefix(key, end), key, cap) == RangeRows(t, key, end, cap)
  }

  predicate UnfilteredCountExact(t: Table, key: Key, end: Bytes, cap: int) {
    |ListRows(t, RangeToPrefix(key, end), key, cap)| == |RangeRows(t, key, end, cap)|
  }

  lemma OneRowTable(key: Key, end: Bytes, x: Key) returns (t: Table)
    requires !(Selects(RangeToPrefix(key, end), key, x) <==> InRange(key, end, x))
    ensures !UnfilteredExact(t, key, end, 2) && !UnfilteredCountExact(t, key, end, 2)
  {
    var r := PutRow(None, x, Some([]), 0, 2);
    t := {r};
    assert IsNewest(t, x, At(2), r);
    var all, exact := ListRows(t, RangeToPrefix(key, end), key, 2), RangeRows(t, key, end, 2);
    assert r in all <==> r !in exact;
    assert all == (if r in all then {r} else {}) && exact == (if r in exact then {r} else {});
  }

  /**
   Without the filter (a bare Range, a bare DeleteRange, and CountOnly even inside a Txn) a request
   is answered correctly on every table, in contents and in count, exactly when it asks for
   everything from a key on, or for a prefix whose end carries into an earlier byte.
   */
  lemma UnfilteredExactIff(key: Key, end: Bytes)
    requires end != [] && WildcardFree(RangeToPrefix(key, end))
    ensures (forall t, cap :: UnfilteredExact(t, key, end, cap)) <==> ExactUnfiltered(key, end)
    ensures (forall t, cap :: UnfilteredCountExact(t, key, end, cap)) <==> ExactUnfiltered(key, end)
  {
    if ExactUnfiltered(key, end) {
      forall t: Table, cap ensures UnfilteredExact(t, key, end, cap) {
        forall r: Row ensures Selects(RangeToPrefix(key, end), key, r.key) <==> InRange(key, end, r.key) {
          UnfilteredKeysExact(key, end, r.key);
        }
      }
      assert forall t: Table, cap :: UnfilteredExact(t, key, end, cap) ==> UnfilteredCountExact(t, key, end, cap);
    } else {
      var x := UnfilteredKeysWrong(key, end);
      var t := OneRowTable(key, end, x);
    }
  }

  lemma {:induction false} OrdinaryPrefixEnd(p: Key)
    requires p != [] && p[|p| - 1] < 255
    ensures var end := PrefixEnd(p);
            && |end| == |p| && end != FROM_KEY && HasPrefix(end, p[..|p| - 1])
            && AtMost(p, end) && !InRange(p, end, end)
  {
    var end, n := PrefixEnd(p), |p| - 1;
    assert end == p[..n] + [p[n] + 1];
    assert end[..n] == p[..n];
    PrefixEndAbove(p, p);
    LessIrreflexive(end);
  }

  /**
   The ordinary prefix query, `[p, p with its last byte incremented)`, is never exact without the
   filter: it also reaches the keys of the shorter prefix, the end itself among them.
   */
  lemma {:induction false} OrdinaryPrefixScanOverreaches(p: Key)
    requires p != [] && p[|p| - 1] < 255 && NoEscape(p)
    ensures !ExactUnfiltered(p, PrefixEnd(p))
    ensures Selects(RangeToPrefix(p, PrefixEnd(p)), p, PrefixEnd(p)) && !InRange(p, PrefixEnd(p), PrefixEnd(p))
  {
    OrdinaryPrefixEnd(p);
    UnescapedLikeCoversPrefix(p[..|p| - 1], PrefixEnd(p));
  }

  /** The same holds of the watch on such a prefix. */
  lemma {:induction false} OrdinaryPrefixWatchOverreaches(p: Key)
    requires p != [] && p[|p| - 1] < 255
    ensures HasPrefix(PrefixEnd(p), LivePrefix(p, PrefixEnd(p))) && !InRange(p, PrefixEnd(p), PrefixEnd(p))
  {
    OrdinaryPrefixEnd(p);
    TrimmedPrefix(PrefixEnd(p), p[..|p| - 1]);
  }

  lemma TrimmedPrefix(s: Bytes, p: Bytes)
    requires HasPrefix(s, p)
    ensures HasPrefix(s, Subscribers.TrimPercent(p))
  {
    var n := |Subscribers.TrimPercent(p)|;
    assert s[..n] == s[..|p|][..n];
  }

  /** It does go wrong: counting `["a", "b")` under the prefix "" also counts "c". */
  lemma UnfilteredOvercounts()
    ensures exists t: Table, key: Key, end: Bytes, cap: int ::
              |ListRows(t, RangeToPrefix(key, end), key, cap)| > |RangeRows(t, key, end, cap)|
  {
    var key: Key, end: Bytes := [97], [98];
    var r := PutRow(None, [99], Some([]), 0, 2);
    var t: Table := {r};
    assert RangeToPrefix(key, end) == [] && LikePrefix([]) == [PERCENT];
    LikePercent(r.key);
    assert IsNewest(t, r.key, At(2), r) && AtMost(key, r.key);
    assert r in ListRows(t, [], key, 2);
    assert !InRange(key, end, r.key);
    assert RangeRows(t, key, end, 2) == {};
    assert |ListRows(t, RangeToPrefix(key, end), key, 2)| > 0;
  }

  method FilterPage(page: seq<Row>, end: Bytes) returns (filtered: seq<Row>)
    ensures filtered == Filtered(page, end)
  {
    if end == FROM_KEY {
      AllKept(page, end);
      return page;
    }
    filtered := [];
    for i := 0 to |page|
      invariant filtered == Filtered(page[..i], end)
    {
      assert page[..i + 1][..i] == page[..i];
      if Less(page[i].key, end) { filtered := filtered + [page[i]]; }
    }
    assert page[..|page|] == page;
  }
}
