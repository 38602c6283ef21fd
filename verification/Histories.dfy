/** Concrete databases, written by real requests, on which later modules show what can go wrong. */
module Histories {
  import opened Bytes
  import opened Rows
  import opened Log
  import opened Refinement

  function Nothing(): Db {
    Db({}, {}, None)
  }

  /** The request that writes version n of a key whose versions sit at revisions 2, 4, 6, ... */
  function VersionRequest(k: Key, n: nat): Request {
    if n <= 1 then Create(k, Some([]), 0) else Update(k, Some([]), 2 * (n - 1), 0)
  }

  /** One key with n live versions and nothing else, none of it compacted. */
  predicate IsVersions(db: Db, k: Key, n: nat) {
    && db.table == db.history && db.kvRev == None && |db.table| == n
    && OnlyVersions(db.table, k, n) && AllVersions(db.table, n)
  }

  predicate OnlyVersions(t: set<Row>, k: Key, n: nat) {
    forall r | r in t :: r.key == k && !r.deleted && r.rev <= 2 * n && r.rev % 2 == 0
  }

  predicate AllVersions(t: set<Row>, n: nat) {
    forall i | 1 <= i <= n :: HasVersion(t, i)
  }

  predicate HasVersion(t: set<Row>, i: nat) {
    exists r :: r in t && r.rev == 2 * i
  }

  lemma NewestVersion(db: Db, k: Key, n: nat)
    requires IsVersions(db, k, n)
    ensures var v := LiveAt(db.table, k, Now); if n == 0 then v == None else v.Some? && v.value.rev == 2 * n
  {
    if n > 0 {
      assert HasVersion(db.table, n);
      var r :| r in db.table && r.rev == 2 * n;
      assert IsNewest(db.table, k, Now, r);
      NewestIs(db.table, k, Now, r);
    }
  }

  lemma VersionEffect(p: Db, k: Key, n: nat) returns (r: Row)
    requires n > 0 && IsVersions(p, k, n - 1)
    ensures Effect(p.table, VersionRequest(k, n), 2 * n) == {r} && r.key == k && r.rev == 2 * n && !r.deleted
  {
    NewestVersion(p, k, n - 1);
    r := PutRow(LiveAt(p.table, k, Now), k, Some([]), 0, 2 * n);
  }

  lemma MoreVersions(p: Db, q: Db, k: Key, n: nat, r: Row)
    requires n > 0 && IsVersions(p, k, n - 1) && r.key == k && r.rev == 2 * n && !r.deleted
    requires q.table == p.table + {r} && q.history == p.history + {r} && q.kvRev == p.kvRev
    ensures IsVersions(q, k, n)
  {
    assert r !in p.table;
    OneMoreVersion(p.table, n, r);
    OnlyMoreVersions(p.table, k, n, r);
  }

  lemma OnlyMoreVersions(t: set<Row>, k: Key, n: nat, r: Row)
    requires n > 0 && OnlyVersions(t, k, n - 1) && r.key == k && r.rev == 2 * n && !r.deleted
    ensures OnlyVersions(t + {r}, k, n)
  {
    forall x | x in t + {r} ensures x.key == k && !x.deleted && x.rev <= 2 * n && x.rev % 2 == 0 { }
  }

  lemma OneMoreVersion(t: set<Row>, n: nat, r: Row)
    requires n > 0 && AllVersions(t, n - 1) && r.rev == 2 * n
    ensures AllVersions(t + {r}, n)
  {
    assert HasVersion(t + {r}, n) by { assert r in t + {r}; }
    forall i | 1 <= i < n ensures HasVersion(t + {r}, i) {
      assert HasVersion(t, i);
      VersionStays(t, t + {r}, i);
    }
  }

  lemma VersionStays(t: set<Row>, u: set<Row>, i: nat)
    requires HasVersion(t, i) && t <= u
    ensures HasVersion(u, i)
  {
    var x :| x in t && x.rev == 2 * i;
    assert x in u;
  }

  lemma WriteVersion(p: Db, k: Key, n: nat)
    requires n > 0 && Inv(p) && IsVersions(p, k, n - 1)
    ensures Fresh(p, 2 * n) && IsVersions(After(p, VersionRequest(k, n), 2 * n), k, n)
  {
    var r := VersionEffect(p, k, n);
    MoreVersions(p, After(p, VersionRequest(k, n), 2 * n), k, n, r);
  }

  /** One key created at revision 2 and updated at revisions 4, 6, ..., 2 * n. */
  function Versions(k: Key, n: nat): (db: Db)
    ensures Inv(db) && IsVersions(db, k, n)
  {
    if n == 0 then Nothing()
    else
      WriteVersion(Versions(k, n - 1), k, n);
      After(Versions(k, n - 1), VersionRequest(k, n), 2 * n)
  }

  // ---------- many keys in one commit ----------

  function BurstKey(i: nat): Key {
    seq(i, (_: nat) => 0 as byte)
  }

  function BurstOps(n: nat): (ops: seq<TxnOp>)
    ensures |ops| == n && forall i | 0 <= i < n :: ops[i] == OpPut(BurstKey(i), Some([]), 0)
  {
    seq(n, i requires 0 <= i < n => OpPut(BurstKey(i), Some([]), 0))
  }

  function BurstRows(n: nat): (rows: seq<Row>)
    ensures |rows| == n && forall i | 0 <= i < n :: rows[i] == PutRow(None, BurstKey(i), Some([]), 0, 2)
  {
    seq(n, i requires 0 <= i < n => PutRow(None, BurstKey(i), Some([]), 0, 2))
  }

  lemma BurstEffect(n: nat)
    ensures Effect({}, Txn([], BurstOps(n), []), 2) == set r | r in BurstRows(n)
  {
    var ops, rows := BurstOps(n), BurstRows(n);
    assert DistinctMutations(ops) by {
      forall i, j | 0 <= i < j < |ops| ensures ops[i].key != ops[j].key {
        assert |ops[i].key| == i && |ops[j].key| == j;
      }
    }
    forall i | 0 <= i < n ensures OpRow({}, ops[i], 2) == Some(rows[i]) { }
    assert TxnRows({}, ops, 2) == set r | r in rows by {
      forall r | r in rows ensures r in TxnRows({}, ops, 2) {
        var i :| 0 <= i < n && rows[i] == r;
        assert ops[i] in ops;
      }
    }
  }

  predicate IsBurst(db: Db, n: nat) {
    db.table == db.history && db.kvRev == None && |db.table| == n && forall r | r in db.table :: r.rev == 2
  }

  /** n new keys put by one transaction into an empty store: n rows at revision 2. */
  function Burst(n: nat): (db: Db)
    ensures Inv(db) && IsBurst(db, n)
  {
    BurstEffect(n);
    BurstSize(n);
    After(Nothing(), Txn([], BurstOps(n), []), 2)
  }

  lemma BurstSize(n: nat)
    ensures |set r | r in BurstRows(n)| == n
  {
    var rows := BurstRows(n);
    forall i, j | 0 <= i < j < n ensures rows[i] != rows[j] {
      assert |rows[i].key| == i && |rows[j].key| == j;
    }
    DistinctSize(rows);
  }
}
