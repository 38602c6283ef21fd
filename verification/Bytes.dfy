/**
 Byte strings as the store compares them: the bytewise lexicographic order that Go strings and
 Spanner STRING columns share, prefixes, and the LIKE matcher behind every prefix scan.
 */
module Bytes {

  type byte = b: int | 0 <= b < 256
  type Bytes = seq<byte>
  type Key = Bytes

  // ---------- lexicographic order ----------

  predicate Less(a: Bytes, b: Bytes)
    decreases |a|
  {
    b != [] && (a == [] || a[0] < b[0] || (a[0] == b[0] && Less(a[1..], b[1..])))
  }

  predicate AtMost(a: Bytes, b: Bytes) {
    a == b || Less(a, b)
  }

  lemma {:induction false} LessIrreflexive(a: Bytes)
    ensures !Less(a, a)
    decreases |a|
  {
    if a != [] { LessIrreflexive(a[1..]); }
  }

  lemma {:induction false} LessTransitive(a: Bytes, b: Bytes, c: Bytes)
    requires Less(a, b) && Less(b, c)
    ensures Less(a, c)
    decreases |a|
  {
    if a != [] && a[0] == b[0] && b[0] == c[0] {
      LessTransitive(a[1..], b[1..], c[1..]);
    }
  }

  lemma {:induction false} LessTotal(a: Bytes, b: Bytes)
    ensures a == b || Less(a, b) || Less(b, a)
    decreases |a|
  {
    if a != [] && b != [] && a[0] == b[0] {
      LessTotal(a[1..], b[1..]);
      assert a == [a[0]] + a[1..] && b == [b[0]] + b[1..];
    }
  }

  lemma {:induction false} LessAsymmetric(a: Bytes, b: Bytes)
    requires Less(a, b)
    ensures !Less(b, a) && a != b
  {
    LessIrreflexive(a);
    if Less(b, a) { LessTransitive(a, b, a); }
  }

  /** Everything the sorted scans need: exactly one of the three relations holds. */
  lemma {:induction false} LessTrichotomy(a: Bytes, b: Bytes)
    ensures AtMost(a, b) <==> !Less(b, a)
    ensures AtMost(a, b) || AtMost(b, a)
    ensures AtMost(a, b) && AtMost(b, a) ==> a == b
  {
    LessTotal(a, b);
    if Less(a, b) { LessAsymmetric(a, b); }
    if Less(b, a) { LessAsymmetric(b, a); }
    LessIrreflexive(a);
  }

  lemma {:induction false} AtMostTransitive(a: Bytes, b: Bytes, c: Bytes)
    requires AtMost(a, b) && AtMost(b, c)
    ensures AtMost(a, c)
    ensures a != b || b != c ==> Less(a, c)
  {
    if Less(a, b) && Less(b, c) { LessTransitive(a, b, c); }
  }

  /** `k + "\x00"` is the immediate successor of k: nothing lies strictly between them. */
  lemma {:induction false} SuccessorIsImmediate(k: Key, x: Key)
    ensures Less(k, x) <==> AtMost(k + [0], x)
    decreases |k|
  {
    if k == [] {
      assert k + [0] == [0] && [0][1..] == [];
      assert x != [] ==> x == [x[0]] + x[1..];
    } else {
      assert (k + [0])[0] == k[0] && (k + [0])[1..] == k[1..] + [0];
      if x != [] {
        SuccessorIsImmediate(k[1..], x[1..]);
        assert x == [x[0]] + x[1..];
        if x[0] == k[0] && k[1..] + [0] == x[1..] { assert k + [0] == x; }
      }
    }
  }

  // ---------- prefixes ----------

  predicate HasPrefix(s: Bytes, p: Bytes) {
    |p| <= |s| && s[..|p|] == p
  }

  lemma {:induction false} PrefixAtMost(p: Bytes, s: Bytes)
    requires HasPrefix(s, p)
    ensures AtMost(p, s)
    decreases |p|
  {
    if p != [] {
      assert s[0] == p[0] && s[1..][..|p| - 1] == p[1..];
      PrefixAtMost(p[1..], s[1..]);
      assert p == [p[0]] + p[1..] && s == [s[0]] + s[1..];
    }
  }

  /** Strings with a common prefix are convex: whatever lies between two of them shares it too. */
  lemma {:induction false} PrefixConvex(p: Bytes, lo: Bytes, x: Bytes, hi: Bytes)
    requires HasPrefix(lo, p) && HasPrefix(hi, p)
    requires AtMost(lo, x) && AtMost(x, hi)
    ensures HasPrefix(x, p)
    decreases |p|
  {
    if p != [] {
      assert lo[0] == p[0] && hi[0] == p[0];
      assert x != [] && x[0] == p[0];
      assert lo[1..][..|p| - 1] == p[1..] && hi[1..][..|p| - 1] == p[1..];
      PrefixConvex(p[1..], lo[1..], x[1..], hi[1..]);
      assert x[..|p|] == [x[0]] + x[1..][..|p| - 1];
    }
  }

  /**
   The end of the prefix range of p as etcd clients compute it: the last byte below 0xff is
   incremented and the rest cut off; a prefix of only 0xff bytes has no end.
   */
  function PrefixEnd(p: Bytes): (e: Bytes)
    ensures e == [] <==> forall i | 0 <= i < |p| :: p[i] == 255
    decreases |p|
  {
    if p == [] then []
    else if p[|p| - 1] < 255 then p[..|p| - 1] + [p[|p| - 1] + 1]
    else
      var e := PrefixEnd(p[..|p| - 1]);
      assert e == [] ==> forall i | 0 <= i < |p| :: p[i] == 255 by {
        assert forall i | 0 <= i < |p| - 1 :: p[..|p| - 1][i] == p[i];
      }
      e
  }

  lemma {:induction false} LessSameHead(p: Bytes, a: Bytes, b: Bytes)
    ensures Less(p + a, p + b) <==> Less(a, b)
    decreases |p|
  {
    if p == [] {
      assert p + a == a && p + b == b;
    } else {
      assert (p + a)[1..] == p[1..] + a && (p + b)[1..] == p[1..] + b;
      LessSameHead(p[1..], a, b);
    }
  }

  /** `[p, PrefixEnd(p))` is exactly the set of strings that start with p, carry included. */
  lemma {:induction false} PrefixRangeExact(p: Bytes, x: Bytes)
    ensures HasPrefix(x, p) <==> AtMost(p, x) && (PrefixEnd(p) == [] || Less(x, PrefixEnd(p)))
    decreases |p|
  {
    if p == [] { return; }
    var n := |p| - 1;
    var q, c := p[..n], p[n];
    assert p == q + [c];
    PrefixRangeExact(q, x);
    if !HasPrefix(x, q) {
      // Every string from p up to PrefixEnd(p) lies inside the range of q.
      PrefixAtMost(q, p);
      assert |x| > n ==> x[..n + 1][..n] == x[..n];
      if AtMost(p, x) && (PrefixEnd(p) == [] || Less(x, PrefixEnd(p))) {
        AtMostTransitive(q, p, x);
        if c < 255 {
          assert HasPrefix(PrefixEnd(p), q);
          PrefixConvex(q, p, x, PrefixEnd(p));
        }
        assert false;
      }
    } else {
      var y := x[n..];
      assert x == q + y;
      NextByteDecides(q, c, y);
      if c < 255 {
        LessSameHead(q, y, [c + 1]);
        assert Less(y, [c + 1]) <==> y == [] || y[0] <= c;
      }
    }
  }

  lemma NextByteDecides(q: Bytes, c: byte, y: Bytes)
    ensures HasPrefix(q + y, q + [c]) <==> y != [] && y[0] == c
    ensures AtMost(q + [c], q + y) <==> y != [] && c <= y[0]
  {
    var x, n := q + y, |q|;
    LessSameHead(q, [c], y);
    assert AtMost(q + [c], x) <==> AtMost([c], y) by {
      if q + [c] == x { assert (q + [c])[n..] == [c] && x[n..] == y; }
    }
    assert HasPrefix(x, q + [c]) <==> y != [] && y[0] == c by {
      assert HasPrefix(x, q + [c]) ==> x[n] == (q + [c])[n];
      if y != [] && y[0] == c { assert x[..n + 1] == q + [c]; }
    }
    assert AtMost([c], y) <==> y != [] && c <= y[0] by {
      assert [c][1..] == [];
      if y != [] && y[0] == c && y[1..] == [] { assert y == [c]; }
    }
  }

  // ---------- LIKE ----------

  const PERCENT: byte := 37    // %
  const UNDERSCORE: byte := 95 // _
  const BACKSLASH: byte := 92  // \

  /**
   SQL LIKE: `%` matches any string, `_` one character, a backslash makes the next character
   literal, everything else matches itself.
   */
  predicate Like(s: Bytes, pattern: Bytes)
    decreases |pattern|, |s|
  {
    if pattern == [] then s == []
    else if pattern[0] == PERCENT then
      Like(s, pattern[1..]) || (s != [] && Like(s[1..], pattern))
    else if pattern[0] == UNDERSCORE then s != [] && Like(s[1..], pattern[1..])
    else if pattern[0] == BACKSLASH && |pattern| > 1 then
      s != [] && s[0] == pattern[1] && Like(s[1..], pattern[2..])
    else s != [] && s[0] == pattern[0] && Like(s[1..], pattern[1..])
  }

  /** The pattern built for a prefix scan: the prefix as given, nothing escaped. */
  function LikePrefix(prefix: Bytes): (pattern: Bytes) {
    prefix + [PERCENT]
  }

  predicate WildcardFree(p: Bytes) {
    forall b | b in p :: b != PERCENT && b != UNDERSCORE && b != BACKSLASH
  }

  lemma {:induction false} LikePercent(s: Bytes)
    ensures Like(s, [PERCENT])
    decreases |s|
  {
    if s != [] {
      LikePercent(s[1..]);
    } else {
      assert [PERCENT][1..] == [];
    }
  }

  lemma PrefixTail(s: Bytes, p: Bytes)
    requires s != [] && p != [] && s[0] == p[0]
    ensures HasPrefix(s[1..], p[1..]) <==> HasPrefix(s, p)
  {
    if |p| <= |s| {
      assert s[1..][..|p| - 1] == s[..|p|][1..];
      assert s[..|p|] == [s[0]] + s[..|p|][1..];
      assert p == [p[0]] + p[1..];
    }
  }

  lemma {:induction false} WildcardFreeLike(p: Bytes, s: Bytes)
    requires WildcardFree(p)
    ensures Like(s, LikePrefix(p)) <==> HasPrefix(s, p)
    decreases |p|
  {
    if p == [] {
      assert LikePrefix(p) == [PERCENT];
      LikePercent(s);
    } else {
      assert p[0] in p;
      assert LikePrefix(p)[1..] == LikePrefix(p[1..]);
      if s != [] {
        assert WildcardFree(p[1..]) by { forall b | b in p[1..] ensures b in p { } }
        WildcardFreeLike(p[1..], s[1..]);
        if s[0] == p[0] { PrefixTail(s, p); }
      }
    }
  }

  /** One string a pattern matches: `%` for nothing, `_` for a zero byte, escapes resolved. */
  function Sample(pattern: Bytes): (s: Bytes)
    decreases |pattern|
  {
    if pattern == [] then []
    else if pattern[0] == PERCENT then Sample(pattern[1..])
    else if pattern[0] == UNDERSCORE then [0] + Sample(pattern[1..])
    else if pattern[0] == BACKSLASH && |pattern| > 1 then [pattern[1]] + Sample(pattern[2..])
    else [pattern[0]] + Sample(pattern[1..])
  }

  lemma {:induction false} SampleMatches(pattern: Bytes)
    ensures Like(Sample(pattern), pattern)
    decreases |pattern|
  {
    if pattern == [] {
    } else if pattern[0] == BACKSLASH && |pattern| > 1 {
      SampleMatches(pattern[2..]);
      assert Sample(pattern)[1..] == Sample(pattern[2..]);
    } else {
      SampleMatches(pattern[1..]);
      assert pattern[0] != PERCENT ==> Sample(pattern)[1..] == Sample(pattern[1..]);
    }
  }

  lemma {:induction false} SampleLength(p: Bytes)
    ensures |Sample(LikePrefix(p))| <= |p|
    decreases |p|
  {
    if p == [] {
      assert LikePrefix(p)[1..] == [];
    } else {
      assert LikePrefix(p)[1..] == LikePrefix(p[1..]);
      SampleLength(p[1..]);
      if p[0] == BACKSLASH && |p| > 1 {
        assert LikePrefix(p)[2..] == LikePrefix(p[2..]);
        SampleLength(p[2..]);
      }
    }
  }

  /** The sample of `p + "%"` starts with p only if p has no special character. */
  lemma {:induction false} SampleRepeatsPlainOnly(p: Bytes)
    requires HasPrefix(Sample(LikePrefix(p)), p)
    ensures WildcardFree(p)
    decreases |p|
  {
    if p == [] { return; }
    var s := Sample(LikePrefix(p));
    assert s[0] == p[0];
    assert LikePrefix(p)[1..] == LikePrefix(p[1..]);
    SampleLength(p[1..]);
    if p[0] == BACKSLASH && |p| > 1 {
      assert LikePrefix(p)[2..] == LikePrefix(p[2..]);
      SampleLength(p[2..]);
    }
    assert s[1..] == Sample(LikePrefix(p[1..]));
    assert s[1..][..|p| - 1] == s[..|p|][1..] == p[1..];
    SampleRepeatsPlainOnly(p[1..]);
    assert p == [p[0]] + p[1..];
  }

  /**
   A prefix scan is a LIKE with the prefix pasted in unescaped. It selects the keys with that
   prefix, for every key, exactly when the prefix holds no `%`, `_` or backslash.
   */
  lemma PrefixScanExactIffWildcardFree(p: Bytes)
    ensures (forall s :: Like(s, LikePrefix(p)) <==> HasPrefix(s, p)) <==> WildcardFree(p)
  {
    if WildcardFree(p) {
      forall s ensures Like(s, LikePrefix(p)) <==> HasPrefix(s, p) {
        WildcardFreeLike(p, s);
      }
    } else {
      SampleMatches(LikePrefix(p));
      if HasPrefix(Sample(LikePrefix(p)), p) { SampleRepeatsPlainOnly(p); }
      assert !(Like(Sample(LikePrefix(p)), LikePrefix(p)) <==> HasPrefix(Sample(LikePrefix(p)), p));
    }
  }

  /** An underscore in a prefix stands for any character: scanning for "_" also finds "a". */
  lemma UnderscoreOvermatches()
    ensures exists p: Bytes, s: Bytes :: Like(s, LikePrefix(p)) && !HasPrefix(s, p)
  {
    var p: Bytes, s: Bytes := [UNDERSCORE], [97];
    assert LikePrefix(p)[1..] == [PERCENT] && s[1..] == [];
    LikePercent(s[1..]);
    assert Like(s, LikePrefix(p)) && !HasPrefix(s, p);
  }

  predicate NoEscape(p: Bytes) {
    BACKSLASH !in p
  }

  /** `%` and `_` only ever match more than themselves, so only a backslash can lose keys. */
  lemma {:induction false} UnescapedLikeCoversPrefix(p: Bytes, s: Bytes)
    requires NoEscape(p) && HasPrefix(s, p)
    ensures Like(s, LikePrefix(p))
    decreases |p|
  {
    if p == [] {
      assert LikePrefix(p) == [PERCENT];
      LikePercent(s);
    } else {
      assert LikePrefix(p)[1..] == LikePrefix(p[1..]);
      assert p[0] in p && s[0] == p[0] && s[1..][..|p| - 1] == s[..|p|][1..] == p[1..];
      assert NoEscape(p[1..]) by { assert forall b | b in p[1..] :: b in p; }
      UnescapedLikeCoversPrefix(p[1..], s[1..]);
      if p[0] == PERCENT { PercentAbsorbs(s, LikePrefix(p)); }
    }
  }

  lemma {:induction false} PercentAbsorbs(s: Bytes, pattern: Bytes)
    requires s != [] && pattern != [] && pattern[0] == PERCENT && Like(s[1..], pattern[1..])
    ensures Like(s, pattern)
  {
    assert Like(s[1..], pattern);
  }
}
