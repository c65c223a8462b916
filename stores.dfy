/**
 * The per-stage result store. Each stage keeps one SQLite table keyed by
 * `(author_username, video_id)`. The table has no unique constraint, so it is
 * modelled as the sequence of its rows in insertion order; a lookup returns the
 * first matching row, as `fetchone()` does.
 */
module Stores {
  import opened Wrappers

  /** The primary key of a record in every stage. */
  datatype Key = Key(author: string, video: string)

  datatype StoreRow<E> = StoreRow(key: Key, entry: E)

  /** Position of the first row with key `k`, or `|rows|` when there is none. */
  function KeyIndex<E>(rows: seq<StoreRow<E>>, k: Key): (i: nat)
    ensures i <= |rows|
    ensures forall j :: 0 <= j < i ==> rows[j].key != k
    ensures i < |rows| ==> rows[i].key == k
    decreases |rows|
  {
    if rows == [] then 0
    else if rows[0].key == k then 0
    else 1 + KeyIndex(rows[1..], k)
  }

  /** `SELECT ... WHERE author_username = ? AND video_id = ?` followed by `fetchone()`. */
  function Find<E>(rows: seq<StoreRow<E>>, k: Key): Option<E>
  {
    var i := KeyIndex(rows, k);
    if i < |rows| then Some(rows[i].entry) else None
  }

  predicate HasKey<E>(rows: seq<StoreRow<E>>, k: Key) {
    exists i :: 0 <= i < |rows| && rows[i].key == k
  }

  /** A lookup succeeds exactly when some row carries the key. */
  lemma FindFindsAnyRow<E>(rows: seq<StoreRow<E>>, k: Key)
    ensures Find(rows, k).Some? <==> HasKey(rows, k)
  {
    if HasKey(rows, k) {
      var j :| 0 <= j < |rows| && rows[j].key == k;
      assert KeyIndex(rows, k) <= j;
    }
  }

  /** At most one row per key. */
  ghost predicate Unique<E>(rows: seq<StoreRow<E>>) {
    forall i, j :: 0 <= i < j < |rows| ==> rows[i].key != rows[j].key
  }

  /** In a table without duplicates the lookup returns the one row with the key. */
  lemma FindUnique<E>(rows: seq<StoreRow<E>>, i: nat)
    requires Unique(rows) && i < |rows|
    ensures Find(rows, rows[i].key) == Some(rows[i].entry)
  {
    var n := KeyIndex(rows, rows[i].key);
    assert n <= i;
    assert n == i;
  }

  /** Appending a row whose key is absent keeps the table free of duplicates. */
  lemma InsertAbsentKeepsUnique<E>(rows: seq<StoreRow<E>>, k: Key, e: E)
    requires Unique(rows) && Find(rows, k).None?
    ensures Unique(rows + [StoreRow(k, e)])
  {
    var rows' := rows + [StoreRow(k, e)];
    forall i, j | 0 <= i < j < |rows'|
      ensures rows'[i].key != rows'[j].key
    {
      if j == |rows| {
        assert rows'[i] == rows[i];
        assert KeyIndex(rows, k) == |rows|;
      }
    }
  }

  /** Appending rows never changes the answer for a key already present. */
  lemma FindAppendPresent<E>(rows: seq<StoreRow<E>>, extra: seq<StoreRow<E>>, k: Key)
    requires Find(rows, k).Some?
    ensures Find(rows + extra, k) == Find(rows, k)
  {
    var i := KeyIndex(rows, k);
    var j := KeyIndex(rows + extra, k);
    assert (rows + extra)[i] == rows[i];
    assert j <= i;
    assert j < |rows| ==> (rows + extra)[j] == rows[j];
  }

  /** Appending rows without key `k` never changes the answer for `k`. */
  lemma FindAppendAbsent<E>(rows: seq<StoreRow<E>>, extra: seq<StoreRow<E>>, k: Key)
    requires forall j :: 0 <= j < |extra| ==> extra[j].key != k
    ensures Find(rows + extra, k) == Find(rows, k)
  {
    var all := rows + extra;
    var i := KeyIndex(rows, k);
    var j := KeyIndex(all, k);
    if i < |rows| {
      FindAppendPresent(rows, extra, k);
    } else {
      assert forall m :: 0 <= m < |rows| ==> all[m] == rows[m];
      assert forall m :: |rows| <= m < |all| ==> all[m] == extra[m - |rows|];
      assert j == |all|;
    }
  }

  /** A lookup in `rows + extra` for a key missing from `rows` answers from `extra`. */
  lemma FindAppendMissing<E>(rows: seq<StoreRow<E>>, extra: seq<StoreRow<E>>, k: Key)
    requires Find(rows, k).None?
    ensures Find(rows + extra, k) == Find(extra, k)
  {
    var all := rows + extra;
    var j := KeyIndex(all, k);
    var m := KeyIndex(extra, k);
    assert KeyIndex(rows, k) == |rows|;
    if m < |extra| {
      assert all[|rows| + m] == extra[m];
    }
    assert j == |rows| + m;
  }

  /**
   * One stage's SQLite table, held open for the whole run. Only `Insert`
   * changes it, and `Insert` does not look for an existing row: uniqueness is
   * up to the caller, which checks first.
   */
  class Store<E> {
    var rows: seq<StoreRow<E>>

    constructor ()
      ensures rows == []
    {
      rows := [];
    }

    /** The first stored entry for `k`, if any. */
    function Get(k: Key): Option<E>
      reads this
    {
      Find(rows, k)
    }

    /** `INSERT INTO tiktok_videos VALUES (...)` followed by `commit()`. */
    method Insert(k: Key, e: E)
      modifies this
      ensures rows == old(rows) + [StoreRow(k, e)]
    {
      rows := rows + [StoreRow(k, e)];
    }
  }
}
