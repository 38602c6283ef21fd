/**
 The `kv` table: one row per write, stamped with its commit timestamp as revision, and the
 "newest row of a key at or below a cap" query that every read is built on.
 */
module Rows {
  import opened Bytes

  datatype Option<+T> = None | Some(value: T)

  /** A nullable BYTES column: a nil Go slice and an empty one differ. */
  type Blob = Option<Bytes>

  datatype Row = Row(
    key: Key,
    rev: int,
    value: Blob,
    oldValue: Blob,
    lease: int,
    deleted: bool,
    created: bool,
    createRev: int,
    prevRev: Option<int>
  )

  /** No two rows of one key share a revision, so "the newest row" is well defined. */
  predicate DistinctRevs(rows: set<Row>) {
    forall a, b | a in rows && b in rows && a.key == b.key && a.rev == b.rev :: a == b
  }

  type Table = t: set<Row> | DistinctRevs(t) witness {}

  // ---------- timestamps and revisions ----------

  const SECOND := 1_000_000_000   // in nanoseconds

  /** A stored timestamp (nanoseconds) as the int64 revision clients see. */
  function TsToRev(ts: int): int {
    if ts <= 0 then 1 else ts
  }

  /** A client revision as the timestamp used in a query. */
  function RevToTs(rev: int): int {
    if rev <= 1 then 1 else rev
  }

  // ---------- the newest-row query ----------

  /** The `rev <= @cap` condition of a read; `Now` is a read without one. */
  datatype Cap = Now | At(rev: int)

  predicate Under(rev: int, cap: Cap) {
    cap.At? ==> rev <= cap.rev
  }

  predicate IsNewest(t: set<Row>, k: Key, cap: Cap, r: Row) {
    && r in t && r.key == k && Under(r.rev, cap)
    && forall x | x in t && x.key == k && Under(x.rev, cap) :: x.rev <= r.rev
  }

  lemma {:induction false} NewestExists(t: set<Row>, k: Key, cap: Cap, x: Row)
    requires x in t && x.key == k && Under(x.rev, cap)
    ensures exists r :: IsNewest(t, k, cap, r)
    decreases t
  {
    if y :| y in t && y.key == k && Under(y.rev, cap) && y.rev > x.rev {
      NewestExists(t - {x}, k, cap, y);
      var r :| IsNewest(t - {x}, k, cap, r);
      assert IsNewest(t, k, cap, r);
    } else {
      assert IsNewest(t, k, cap, x);
    }
  }

  /** `WHERE key = @key AND rev <= @cap ORDER BY rev DESC LIMIT 1` */
  function Newest(t: Table, k: Key, cap: Cap): (o: Option<Row>)
    ensures o.Some? ==> IsNewest(t, k, cap, o.value)
    ensures o.None? ==> forall x | x in t && x.key == k :: !Under(x.rev, cap)
  {
    if exists r :: r in t && IsNewest(t, k, cap, r) then
      var r :| r in t && IsNewest(t, k, cap, r);
      Some(r)
    else
      assert forall x | x in t && x.key == k :: !Under(x.rev, cap) by {
        forall x | x in t && x.key == k ensures !Under(x.rev, cap) {
          if Under(x.rev, cap) { NewestExists(t, k, cap, x); }
        }
      }
      None
  }

  /** The newest row at a cap when it is not a tombstone: what a read returns. */
  function LiveAt(t: Table, k: Key, cap: Cap): (o: Option<Row>)
    ensures o.Some? ==> !o.value.deleted && IsNewest(t, k, cap, o.value)
  {
    var n := Newest(t, k, cap);
    if n.Some? && !n.value.deleted then n else None
  }

  lemma NewestIs(t: Table, k: Key, cap: Cap, r: Row)
    requires IsNewest(t, k, cap, r)
    ensures Newest(t, k, cap) == Some(r)
  {
    var n := Newest(t, k, cap);
    assert n.Some?;
    assert n.value.rev == r.rev;
  }

  /** Reads of a key depend only on the rows of that key under the cap. */
  lemma NewestFrame(t: Table, u: Table, k: Key, cap: Cap)
    requires forall r: Row | r.key == k && Under(r.rev, cap) :: r in t <==> r in u
    ensures Newest(t, k, cap) == Newest(u, k, cap)
    ensures LiveAt(t, k, cap) == LiveAt(u, k, cap)
  {
    var n := Newest(t, k, cap);
    if n.Some? {
      assert IsNewest(u, k, cap, n.value);
      NewestIs(u, k, cap, n.value);
    }
  }

  // ---------- the current revision ----------

  function Revs(t: set<Row>): set<int> {
    set r | r in t :: r.rev
  }

  lemma {:induction false} MaxExists(s: set<int>, x: int)
    requires x in s
    ensures exists m :: m in s && forall y | y in s :: y <= m
    decreases s
  {
    if y :| y in s && y > x {
      MaxExists(s - {x}, y);
      var m :| m in s - {x} && forall z | z in s - {x} :: z <= m;
      assert forall z | z in s :: z == x || z in s - {x};
      assert m in s && forall z | z in s :: z <= m;
    }
  }

  /** `SELECT rev FROM kv ORDER BY rev DESC LIMIT 1`, 1 for an empty table. */
  function CurrentRevision(t: set<Row>): (c: int)
    ensures c >= 1 && forall r | r in t :: r.rev <= c
    ensures c == 1 || exists r :: r in t && r.rev == c
  {
    if t == {} then 1
    else
      assert exists m :: m in Revs(t) && forall y | y in Revs(t) :: y <= m by {
        var r :| r in t;
        assert r.rev in Revs(t);
        MaxExists(Revs(t), r.rev);
      }
      var m :| m in Revs(t) && forall y | y in Revs(t) :: y <= m;
      assert forall r | r in t :: r.rev in Revs(t);
      if TsToRev(m) <= 1 then 1 else TsToRev(m)
  }

  // ---------- the map a table stands for ----------

  /** What an etcd client sees under a key. */
  datatype Item = Item(value: Blob, lease: int, createRev: int, modRev: int)

  type KvMap = map<Key, Item>

  function ItemOf(r: Row): Item {
    Item(r.value, r.lease, r.createRev, r.rev)
  }

  function Keys(t: set<Row>): set<Key> {
    set r | r in t :: r.key
  }

  /** The key-value map a table shows at a cap. */
  function View(t: Table, cap: Cap): KvMap {
    map k | k in Keys(t) && LiveAt(t, k, cap).Some? :: ItemOf(LiveAt(t, k, cap).value)
  }

  lemma ViewAt(t: Table, cap: Cap, k: Key)
    ensures k in View(t, cap) <==> LiveAt(t, k, cap).Some?
    ensures k in View(t, cap) ==> View(t, cap)[k] == ItemOf(LiveAt(t, k, cap).value)
  {
    if LiveAt(t, k, cap).Some? { assert LiveAt(t, k, cap).value.key in Keys(t); }
  }

  lemma ViewsEqual(t: Table, capT: Cap, u: Table, capU: Cap)
    requires forall k :: LiveAt(t, k, capT) == LiveAt(u, k, capU)
    ensures View(t, capT) == View(u, capU)
  {
    var a, b := View(t, capT), View(u, capU);
    forall k ensures k in a <==> k in b
             ensures k in a ==> a[k] == b[k] {
      ViewAt(t, capT, k);
      ViewAt(u, capU, k);
    }
  }

  function Lookup(m: KvMap, k: Key): Option<Item> {
    if k in m then Some(m[k]) else None
  }

  lemma MapsEqual(a: KvMap, b: KvMap)
    requires forall k :: Lookup(a, k) == Lookup(b, k)
    ensures a == b
  {
    forall k ensures k in a <==> k in b
             ensures k in a ==> a[k] == b[k] {
      assert Lookup(a, k) == Lookup(b, k);
    }
  }

  // ---------- sizes ----------

  lemma SubsetSize<T>(a: set<T>, b: set<T>)
    requires a <= b
    ensures |a| <= |b| && (|a| == |b| ==> a == b)
  {
    assert b == a + (b - a);
    assert |b| == |a| + |b - a|;
  }

  lemma {:induction false} DistinctSize<T>(s: seq<T>)
    requires forall i, j | 0 <= i < j < |s| :: s[i] != s[j]
    ensures |set x | x in s| == |s|
    decreases |s|
  {
    if s != [] {
      var n := |s| - 1;
      DistinctSize(s[..n]);
      assert s == s[..n] + [s[n]];
      assert (set x | x in s) == (set x | x in s[..n]) + {s[n]};
    }
  }
}
