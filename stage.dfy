/**
 * The memoizing loop that all three stages share. For each row, in table
 * order, the stage looks its key up in its store. On a hit it copies the
 * stored columns into the row (`hit`) and runs no analyzer. On a miss it runs
 * its analyzers (`miss`), which leave some columns in the row and, only when
 * the whole record succeeded, an entry that is appended to the store.
 *
 * `Run` is the specification of one pass over the table; each stage's
 * imperative loop is proved equal to it, and the lemmas below state what a
 * pass promises whatever the stage.
 */
module Stage {
  import opened Wrappers
  import opened Stores
  import opened Records

  /** What the miss branch leaves in the row, and the entry it stores when the record succeeded. */
  datatype Miss<E> = Miss(row: Row, entry: Option<E>)

  /** One record's outcome: its row, the store afterwards, and whether the analyzers were run. */
  datatype Visit<E> = Visit(row: Row, store: seq<StoreRow<E>>, invoked: bool)

  /** A pass's outcome: the rows, the store afterwards, and the keys whose analyzers were run. */
  datatype Pass<E> = Pass(rows: seq<Row>, store: seq<StoreRow<E>>, invoked: seq<Key>)

  /** Check the store, then either copy from it or compute and insert on success. */
  function Step<E>(r: Row, st: seq<StoreRow<E>>, hit: (Row, E) -> Row, miss: Row -> Miss<E>): (v: Visit<E>)
    ensures v.invoked <==> Find(st, RowKey(r)).None?
    ensures |st| <= |v.store| <= |st| + 1 && v.store[..|st|] == st
    ensures Find(v.store, RowKey(r)) == if Find(st, RowKey(r)).Some? then Find(st, RowKey(r)) else miss(r).entry
  {
    match Find(st, RowKey(r))
    case Some(e) => Visit(hit(r, e), st, false)
    case None =>
      var m := miss(r);
      if m.entry.Some? then
        var added := [StoreRow(RowKey(r), m.entry.value)];
        FindAppendMissing(st, added, RowKey(r));
        assert (st + added)[..|st|] == st;
        Visit(m.row, st + added, true)
      else
        Visit(m.row, st, true)
  }

  /** A pass over `rows` in order, starting from store `st`. */
  function Run<E>(rows: seq<Row>, st: seq<StoreRow<E>>, hit: (Row, E) -> Row, miss: Row -> Miss<E>): (p: Pass<E>)
    ensures |p.rows| == |rows|
    ensures |st| <= |p.store| <= |st| + |rows| && p.store[..|st|] == st
    ensures |p.invoked| <= |rows|
    decreases |rows|
  {
    if rows == [] then Pass([], st, [])
    else
      var n := |rows| - 1;
      var p := Run(rows[..n], st, hit, miss);
      var v := Step(rows[n], p.store, hit, miss);
      Pass(p.rows + [v.row], v.store, if v.invoked then p.invoked + [RowKey(rows[n])] else p.invoked)
  }

  /** Extending the processed prefix by one row performs that row's step. */
  lemma RunSnoc<E>(rows: seq<Row>, st: seq<StoreRow<E>>, hit: (Row, E) -> Row, miss: Row -> Miss<E>, i: nat)
    requires i < |rows|
    ensures var p := Run(rows[..i], st, hit, miss);
            var v := Step(rows[i], p.store, hit, miss);
            Run(rows[..i + 1], st, hit, miss) ==
              Pass(p.rows + [v.row], v.store, if v.invoked then p.invoked + [RowKey(rows[i])] else p.invoked)
  {
    assert rows[..i + 1][..i] == rows[..i];
  }

  /** Writing row `i` of a table whose rows from `i` on are untouched extends the processed prefix. */
  lemma UpdateExtendsPrefix(before: seq<Row>, after: seq<Row>, input: seq<Row>, i: nat, r: Row)
    requires i < |before| == |input|
    requires before[i..] == input[i..]
    requires after == before[i := r]
    ensures after[..i + 1] == before[..i] + [r]
    ensures after[i + 1..] == input[i + 1..]
  {
    assert before[i + 1..] == before[i..][1..];
  }

  /** Row `i` of a pass is the step of row `i` against the store left by the rows before it. */
  lemma {:induction false} RunRowAt<E>(rows: seq<Row>, st: seq<StoreRow<E>>, hit: (Row, E) -> Row, miss: Row -> Miss<E>, i: nat)
    requires i < |rows|
    ensures Run(rows, st, hit, miss).rows[i] == Step(rows[i], Run(rows[..i], st, hit, miss).store, hit, miss).row
    decreases |rows|
  {
    var n := |rows| - 1;
    var p := Run(rows[..n], st, hit, miss);
    assert Run(rows, st, hit, miss).rows == p.rows + [Step(rows[n], p.store, hit, miss).row];
    if i < n {
      RunRowAt(rows[..n], st, hit, miss, i);
      assert rows[..n][..i] == rows[..i];
    } else {
      assert rows[..n] == rows[..i];
    }
  }

  /** Since an insert only follows a failed lookup, a pass never creates a second row for a key. */
  lemma {:induction false} RunKeepsUnique<E>(rows: seq<Row>, st: seq<StoreRow<E>>, hit: (Row, E) -> Row, miss: Row -> Miss<E>)
    requires Unique(st)
    ensures Unique(Run(rows, st, hit, miss).store)
    decreases |rows|
  {
    if rows != [] {
      var n := |rows| - 1;
      var p := Run(rows[..n], st, hit, miss);
      RunKeepsUnique(rows[..n], st, hit, miss);
      var k := RowKey(rows[n]);
      var m := miss(rows[n]);
      if Find(p.store, k).None? && m.entry.Some? {
        InsertAbsentKeepsUnique(p.store, k, m.entry.value);
      }
    }
  }

  /** Entries present before a pass are still what a lookup returns after it. */
  lemma RunKeepsEntries<E>(rows: seq<Row>, st: seq<StoreRow<E>>, hit: (Row, E) -> Row, miss: Row -> Miss<E>, k: Key)
    requires Find(st, k).Some?
    ensures Find(Run(rows, st, hit, miss).store, k) == Find(st, k)
  {
    var s := Run(rows, st, hit, miss).store;
    assert s == st + s[|st|..];
    FindAppendPresent(st, s[|st|..], k);
  }

  /** When every row's key is already stored, a pass runs no analyzer, stores nothing and copies every row from the store. */
  lemma {:induction false} RunAllCached<E>(rows: seq<Row>, st: seq<StoreRow<E>>, hit: (Row, E) -> Row, miss: Row -> Miss<E>)
    requires forall i :: 0 <= i < |rows| ==> Find(st, RowKey(rows[i])).Some?
    ensures Run(rows, st, hit, miss).invoked == []
    ensures Run(rows, st, hit, miss).store == st
    ensures forall i :: 0 <= i < |rows| ==>
      Run(rows, st, hit, miss).rows[i] == hit(rows[i], Find(st, RowKey(rows[i])).value)
    decreases |rows|
  {
    if rows != [] {
      var n := |rows| - 1;
      var pre := rows[..n];
      assert forall i :: 0 <= i < n ==> pre[i] == rows[i];
      RunAllCached(pre, st, hit, miss);
      var p := Run(pre, st, hit, miss);
      var q := Run(rows, st, hit, miss);
      assert q == Pass(p.rows + [hit(rows[n], Find(st, RowKey(rows[n])).value)], st, []);
      forall i | 0 <= i < |rows|
        ensures q.rows[i] == hit(rows[i], Find(st, RowKey(rows[i])).value)
      {
        if i < n {
          assert q.rows[i] == p.rows[i];
        }
      }
    }
  }

  /** A pass never runs the analyzers for a key that was stored before it. */
  lemma {:induction false} RunInvokesOnlyMissing<E>(rows: seq<Row>, st: seq<StoreRow<E>>, hit: (Row, E) -> Row, miss: Row -> Miss<E>)
    ensures forall k :: k in Run(rows, st, hit, miss).invoked ==> Find(st, k).None?
    decreases |rows|
  {
    if rows != [] {
      var n := |rows| - 1;
      RunInvokesOnlyMissing(rows[..n], st, hit, miss);
      var k := RowKey(rows[n]);
      if Find(st, k).Some? {
        RunKeepsEntries(rows[..n], st, hit, miss, k);
      }
    }
  }

  /** A row whose key was stored before the pass is copied from that entry. */
  lemma RunHitRow<E>(rows: seq<Row>, st: seq<StoreRow<E>>, hit: (Row, E) -> Row, miss: Row -> Miss<E>, i: nat)
    requires i < |rows| && Find(st, RowKey(rows[i])).Some?
    ensures Run(rows, st, hit, miss).rows[i] == hit(rows[i], Find(st, RowKey(rows[i])).value)
    ensures RowKey(rows[i]) !in Run(rows, st, hit, miss).invoked
  {
    RunRowAt(rows, st, hit, miss, i);
    RunKeepsEntries(rows[..i], st, hit, miss, RowKey(rows[i]));
    RunInvokesOnlyMissing(rows, st, hit, miss);
  }

  /** The keys of the rows, in table order. */
  function RowKeys(rows: seq<Row>): (ks: seq<Key>)
    ensures |ks| == |rows| && forall i :: 0 <= i < |rows| ==> ks[i] == RowKey(rows[i])
  {
    seq(|rows|, i requires 0 <= i < |rows| => RowKey(rows[i]))
  }

  /** No two rows of the table share a key. */
  ghost predicate DistinctKeys(rows: seq<Row>) {
    forall i, j :: 0 <= i < j < |rows| ==> RowKey(rows[i]) != RowKey(rows[j])
  }

  /** The entries a pass appends when every row is looked up in `st` alone. */
  ghost function Inserted<E>(rows: seq<Row>, st: seq<StoreRow<E>>, miss: Row -> Miss<E>): (ins: seq<StoreRow<E>>)
    ensures forall j :: 0 <= j < |ins| ==> ins[j].key in RowKeys(rows)
    decreases |rows|
  {
    if rows == [] then []
    else
      var n := |rows| - 1;
      var ins := Inserted(rows[..n], st, miss);
      assert forall j :: 0 <= j < |ins| ==> ins[j].key in RowKeys(rows) by {
        assert forall t :: 0 <= t < n ==> RowKeys(rows[..n])[t] == RowKeys(rows)[t];
      }
      if Find(st, RowKey(rows[n])).None? && miss(rows[n]).entry.Some?
      then ins + [StoreRow(RowKey(rows[n]), miss(rows[n]).entry.value)]
      else ins
  }

  /** The keys, in table order, of the rows that miss in `st`. */
  ghost function Absent<E>(rows: seq<Row>, st: seq<StoreRow<E>>): (ks: seq<Key>)
    ensures forall k :: k in ks ==> Find(st, k).None?
    ensures forall i :: 0 <= i < |rows| && Find(st, RowKey(rows[i])).None? ==> RowKey(rows[i]) in ks
    decreases |rows|
  {
    if rows == [] then []
    else
      var n := |rows| - 1;
      var ks := Absent(rows[..n], st);
      assert forall i :: 0 <= i < n ==> rows[..n][i] == rows[i];
      if Find(st, RowKey(rows[n])).None? then ks + [RowKey(rows[n])] else ks
  }

  /**
   * With distinct keys, each row is processed as if it were alone against the
   * initial store: one record's outcome, success or failure, never affects
   * another's.
   */
  lemma RunPointwise<E>(rows: seq<Row>, st: seq<StoreRow<E>>, hit: (Row, E) -> Row, miss: Row -> Miss<E>)
    requires DistinctKeys(rows)
    ensures Run(rows, st, hit, miss).store == st + Inserted(rows, st, miss)
    ensures Run(rows, st, hit, miss).invoked == Absent(rows, st)
    ensures forall i :: 0 <= i < |rows| ==> Run(rows, st, hit, miss).rows[i] == Step(rows[i], st, hit, miss).row
  {
    RunStoreInvoked(rows, st, hit, miss);
    RunRowsPointwise(rows, st, hit, miss);
  }

  /** With distinct keys, a pass appends the entries of the rows missing from the initial store and runs exactly their analyzers. */
  lemma {:induction false} RunStoreInvoked<E>(rows: seq<Row>, st: seq<StoreRow<E>>, hit: (Row, E) -> Row, miss: Row -> Miss<E>)
    requires DistinctKeys(rows)
    ensures Run(rows, st, hit, miss).store == st + Inserted(rows, st, miss)
    ensures Run(rows, st, hit, miss).invoked == Absent(rows, st)
    decreases |rows|
  {
    if rows != [] {
      var n := |rows| - 1;
      var pre := rows[..n];
      assert DistinctKeys(pre);
      RunStoreInvoked(pre, st, hit, miss);
      var ins := Inserted(pre, st, miss);
      var k := RowKey(rows[n]);
      LastKeyNotInserted(rows, st, miss);
      FindAppendAbsent(st, ins, k);
      var p := Run(rows, st, hit, miss);
      if Find(st, k).None? && miss(rows[n]).entry.Some? {
        assert p.store == (st + ins) + [StoreRow(k, miss(rows[n]).entry.value)];
      } else {
        assert p.store == st + ins;
      }
    }
  }

  /** With distinct keys, each row of a pass is its step against the initial store. */
  lemma RunRowsPointwise<E>(rows: seq<Row>, st: seq<StoreRow<E>>, hit: (Row, E) -> Row, miss: Row -> Miss<E>)
    requires DistinctKeys(rows)
    ensures forall i :: 0 <= i < |rows| ==> Run(rows, st, hit, miss).rows[i] == Step(rows[i], st, hit, miss).row
  {
    forall i | 0 <= i < |rows|
      ensures Run(rows, st, hit, miss).rows[i] == Step(rows[i], st, hit, miss).row
    {
      RunRowAt(rows, st, hit, miss, i);
      RunRowAgainstInitial(rows, st, hit, miss, i);
    }
  }

  /** Under distinct keys, the store left by the rows before row `i` answers row `i`'s lookup as the initial store does. */
  lemma RunRowAgainstInitial<E>(rows: seq<Row>, st: seq<StoreRow<E>>, hit: (Row, E) -> Row, miss: Row -> Miss<E>, i: nat)
    requires DistinctKeys(rows) && i < |rows|
    ensures Step(rows[i], Run(rows[..i], st, hit, miss).store, hit, miss).row == Step(rows[i], st, hit, miss).row
  {
    var upto := rows[..i + 1];
    assert DistinctKeys(upto) by {
      assert forall t :: 0 <= t <= i ==> upto[t] == rows[t];
    }
    assert upto[..i] == rows[..i];
    assert DistinctKeys(rows[..i]);
    RunStoreInvoked(rows[..i], st, hit, miss);
    LastKeyNotInserted(upto, st, miss);
    FindAppendAbsent(st, Inserted(rows[..i], st, miss), RowKey(rows[i]));
    StepSameLookup(rows[i], Run(rows[..i], st, hit, miss).store, st, hit, miss);
  }

  /** Under distinct keys, no entry inserted for the earlier rows carries the last row's key. */
  lemma LastKeyNotInserted<E>(rows: seq<Row>, st: seq<StoreRow<E>>, miss: Row -> Miss<E>)
    requires DistinctKeys(rows) && rows != []
    ensures var ins := Inserted(rows[..|rows| - 1], st, miss);
            forall j :: 0 <= j < |ins| ==> ins[j].key != RowKey(rows[|rows| - 1])
  {
    var n := |rows| - 1;
    var pre := rows[..n];
    var ins := Inserted(pre, st, miss);
    forall j | 0 <= j < |ins|
      ensures ins[j].key != RowKey(rows[n])
    {
      var t :| 0 <= t < |pre| && RowKeys(pre)[t] == ins[j].key;
      assert pre[t] == rows[t];
    }
  }

  /** Two stores that answer the same for a row's key give that row the same step. */
  lemma StepSameLookup<E>(r: Row, s1: seq<StoreRow<E>>, s2: seq<StoreRow<E>>, hit: (Row, E) -> Row, miss: Row -> Miss<E>)
    requires Find(s1, RowKey(r)) == Find(s2, RowKey(r))
    ensures Step(r, s1, hit, miss).row == Step(r, s2, hit, miss).row
    ensures Step(r, s1, hit, miss).invoked == Step(r, s2, hit, miss).invoked
  {
  }

  /** Under distinct keys, the inserted entry for a missing key is the one its row's miss produced. */
  lemma {:induction false} InsertedFind<E>(rows: seq<Row>, st: seq<StoreRow<E>>, miss: Row -> Miss<E>, i: nat)
    requires DistinctKeys(rows) && i < |rows|
    requires Find(st, RowKey(rows[i])).None?
    ensures Find(Inserted(rows, st, miss), RowKey(rows[i])) == miss(rows[i]).entry
    decreases |rows|
  {
    var n := |rows| - 1;
    if i == n {
      InsertedFindLast(rows, st, miss);
    } else {
      var pre := rows[..n];
      var ins := Inserted(pre, st, miss);
      var kn := RowKey(rows[n]);
      var e := miss(rows[n]).entry;
      var ki := RowKey(rows[i]);
      assert DistinctKeys(pre) && pre[i] == rows[i];
      InsertedFind(pre, st, miss, i);
      assert Find(ins, ki) == miss(rows[i]).entry;
      if Find(st, kn).None? && e.Some? {
        assert Inserted(rows, st, miss) == ins + [StoreRow(kn, e.value)];
        if Find(ins, ki).Some? {
          FindAppendPresent(ins, [StoreRow(kn, e.value)], ki);
        } else {
          assert ki != kn;
          FindAppendAbsent(ins, [StoreRow(kn, e.value)], ki);
        }
      } else {
        assert Inserted(rows, st, miss) == ins;
      }
    }
  }

  /** The last row's key finds the entry its own miss produced, since no earlier row carries it. */
  lemma InsertedFindLast<E>(rows: seq<Row>, st: seq<StoreRow<E>>, miss: Row -> Miss<E>)
    requires DistinctKeys(rows) && rows != []
    requires Find(st, RowKey(rows[|rows| - 1])).None?
    ensures Find(Inserted(rows, st, miss), RowKey(rows[|rows| - 1])) == miss(rows[|rows| - 1]).entry
  {
    var n := |rows| - 1;
    var ins := Inserted(rows[..n], st, miss);
    var kn := RowKey(rows[n]);
    var e := miss(rows[n]).entry;
    LastKeyNotInserted(rows, st, miss);
    FindAppendAbsent([], ins, kn);
    assert [] + ins == ins;
    if e.Some? {
      assert Inserted(rows, st, miss) == ins + [StoreRow(kn, e.value)];
      FindAppendMissing(ins, [StoreRow(kn, e.value)], kn);
    } else {
      assert Inserted(rows, st, miss) == ins;
    }
  }

  /**
   * After a pass over rows with distinct keys, a row's key finds what was
   * stored before if anything was, and otherwise exactly the entry its own miss
   * produced; in particular a failed record has no entry.
   */
  lemma StoreAfterRun<E>(rows: seq<Row>, st: seq<StoreRow<E>>, hit: (Row, E) -> Row, miss: Row -> Miss<E>, i: nat)
    requires DistinctKeys(rows) && i < |rows|
    ensures Find(Run(rows, st, hit, miss).store, RowKey(rows[i])) ==
      (if Find(st, RowKey(rows[i])).Some? then Find(st, RowKey(rows[i])) else miss(rows[i]).entry)
  {
    RunPointwise(rows, st, hit, miss);
    var k := RowKey(rows[i]);
    var ins := Inserted(rows, st, miss);
    if Find(st, k).Some? {
      FindAppendPresent(st, ins, k);
    } else {
      FindAppendMissing(st, ins, k);
      InsertedFind(rows, st, miss, i);
    }
  }

  /** When every missing row's miss fails, nothing is inserted. */
  lemma {:induction false} InsertedNone<E>(rows: seq<Row>, st: seq<StoreRow<E>>, miss: Row -> Miss<E>)
    requires forall i :: 0 <= i < |rows| && Find(st, RowKey(rows[i])).None? ==> miss(rows[i]).entry.None?
    ensures Inserted(rows, st, miss) == []
    decreases |rows|
  {
    if rows != [] {
      var n := |rows| - 1;
      assert forall i :: 0 <= i < n ==> rows[..n][i] == rows[i];
      InsertedNone(rows[..n], st, miss);
    }
  }

  /**
   * Running the same table a second time, against the store the first pass
   * left: the store is unchanged, the analyzers run only for the records that
   * failed the first time, and each row either repeats its first outcome or,
   * for a record first computed in the first pass, is copied from the entry
   * that pass stored.
   */
  lemma Rerun<E>(rows: seq<Row>, st: seq<StoreRow<E>>, hit: (Row, E) -> Row, miss: Row -> Miss<E>)
    requires DistinctKeys(rows)
    ensures var p1 := Run(rows, st, hit, miss);
            Run(rows, p1.store, hit, miss).store == p1.store
    ensures var p1 := Run(rows, st, hit, miss);
            forall i :: 0 <= i < |rows| ==>
              (RowKey(rows[i]) in Run(rows, p1.store, hit, miss).invoked <==>
               Find(st, RowKey(rows[i])).None? && miss(rows[i]).entry.None?)
    ensures var p1 := Run(rows, st, hit, miss);
            forall i :: 0 <= i < |rows| ==>
              Run(rows, p1.store, hit, miss).rows[i] ==
                (if Find(st, RowKey(rows[i])).None? && miss(rows[i]).entry.Some?
                 then hit(rows[i], miss(rows[i]).entry.value)
                 else p1.rows[i])
  {
    RerunLookups(rows, st, hit, miss);
    RerunStore(rows, st, hit, miss);
    RerunInvoked(rows, st, hit, miss);
    RerunRows(rows, st, hit, miss);
  }

  /** After a first pass, every row's key finds what was stored before it or what its own miss produced. */
  lemma RerunLookups<E>(rows: seq<Row>, st: seq<StoreRow<E>>, hit: (Row, E) -> Row, miss: Row -> Miss<E>)
    requires DistinctKeys(rows)
    ensures var p1 := Run(rows, st, hit, miss);
            forall i :: 0 <= i < |rows| ==>
              Find(p1.store, RowKey(rows[i])) ==
                (if Find(st, RowKey(rows[i])).Some? then Find(st, RowKey(rows[i])) else miss(rows[i]).entry)
  {
    forall i | 0 <= i < |rows|
      ensures Find(Run(rows, st, hit, miss).store, RowKey(rows[i])) ==
        (if Find(st, RowKey(rows[i])).Some? then Find(st, RowKey(rows[i])) else miss(rows[i]).entry)
    {
      StoreAfterRun(rows, st, hit, miss, i);
    }
  }

  /** A second pass inserts nothing. */
  lemma RerunStore<E>(rows: seq<Row>, st: seq<StoreRow<E>>, hit: (Row, E) -> Row, miss: Row -> Miss<E>)
    requires DistinctKeys(rows)
    ensures var p1 := Run(rows, st, hit, miss);
            Run(rows, p1.store, hit, miss).store == p1.store
  {
    var p1 := Run(rows, st, hit, miss);
    RerunLookups(rows, st, hit, miss);
    RunPointwise(rows, p1.store, hit, miss);
    InsertedNone(rows, p1.store, miss);
    assert p1.store + [] == p1.store;
  }

  /** A second pass runs the analyzers exactly for the records that failed in the first. */
  lemma RerunInvoked<E>(rows: seq<Row>, st: seq<StoreRow<E>>, hit: (Row, E) -> Row, miss: Row -> Miss<E>)
    requires DistinctKeys(rows)
    ensures var p1 := Run(rows, st, hit, miss);
            forall i :: 0 <= i < |rows| ==>
              (RowKey(rows[i]) in Run(rows, p1.store, hit, miss).invoked <==>
               Find(st, RowKey(rows[i])).None? && miss(rows[i]).entry.None?)
  {
    var p1 := Run(rows, st, hit, miss);
    RerunLookups(rows, st, hit, miss);
    RunPointwise(rows, p1.store, hit, miss);
  }

  /** A second pass copies the first pass's new entries and repeats every other outcome. */
  lemma RerunRows<E>(rows: seq<Row>, st: seq<StoreRow<E>>, hit: (Row, E) -> Row, miss: Row -> Miss<E>)
    requires DistinctKeys(rows)
    ensures var p1 := Run(rows, st, hit, miss);
            forall i :: 0 <= i < |rows| ==>
              Run(rows, p1.store, hit, miss).rows[i] ==
                (if Find(st, RowKey(rows[i])).None? && miss(rows[i]).entry.Some?
                 then hit(rows[i], miss(rows[i]).entry.value)
                 else p1.rows[i])
  {
    var p1 := Run(rows, st, hit, miss);
    RerunLookups(rows, st, hit, miss);
    RunPointwise(rows, st, hit, miss);
    RunPointwise(rows, p1.store, hit, miss);
  }

  /**
   * If a hit reproduces what the miss that stored the entry wrote, a second
   * pass yields the same table and the same store as the first.
   */
  lemma RunIdempotent<E>(rows: seq<Row>, st: seq<StoreRow<E>>, hit: (Row, E) -> Row, miss: Row -> Miss<E>)
    requires DistinctKeys(rows)
    requires forall i :: 0 <= i < |rows| && miss(rows[i]).entry.Some? ==>
      hit(rows[i], miss(rows[i]).entry.value) == miss(rows[i]).row
    ensures var p1 := Run(rows, st, hit, miss);
            Run(rows, p1.store, hit, miss).rows == p1.rows &&
            Run(rows, p1.store, hit, miss).store == p1.store
  {
    var p1 := Run(rows, st, hit, miss);
    Rerun(rows, st, hit, miss);
    RunPointwise(rows, st, hit, miss);
    var p2 := Run(rows, p1.store, hit, miss);
    assert forall i :: 0 <= i < |rows| ==> p2.rows[i] == p1.rows[i];
  }
}
