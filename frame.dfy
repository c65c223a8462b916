/**
 * The frame-analysis stage (`puhti_frame.py`): every keyframe listed in a
 * record's `frame_files` is described by a vision model, and the
 * descriptions of frames 1..6 fill `frame_analysis_1`..`frame_analysis_6`.
 * The six columns are cached per (author, video).
 */
module Frame {
  import opened Wrappers
  import opened Strings
  import opened Stores
  import opened Records
  import opened Stage

  /** The text kept for one frame: a heading naming the frame and its time, then the model's answer. */
  function FrameBlock(number: nat, seconds: nat, response: string): (b: string)
    ensures |b| > 12 + |response| && b[..12] == "### **Frame "
  {
    "### **Frame " + NatToString(number) + " at " + NatToString(seconds) + FrameTail(response)
  }

  /** The rest of the heading, then the answer on its own indented line. */
  function FrameTail(response: string): (t: string)
    ensures |t| >= 1 && t[0] == ' '
  {
    " seconds**:" + Spaces(24) + "\n" + Spaces(20) + response + "\n" + Spaces(20)
  }

  lemma FrameBlockAfterNumber(number: nat, seconds: nat, response: string)
    ensures |FrameBlock(number, seconds, response)| >= 12
    ensures FrameBlock(number, seconds, response)[12..] ==
      NatToString(number) + (" at " + NatToString(seconds) + FrameTail(response))
  {
    DropHead("### **Frame ", NatToString(number), " at ", NatToString(seconds), FrameTail(response));
  }

  lemma DropHead(p: string, a: string, b: string, c: string, t: string)
    ensures (p + a + b + c + t)[|p|..] == a + (b + c + t)
  {
    assert p + a + b + c + t == p + (a + (b + c + t));
  }

  lemma DropLead(p: string, a: string, t: string)
    ensures (p + a + t)[|p|..] == a + t
  {
    assert p + a + t == p + (a + t);
  }

  lemma FrameTailResponse(response: string)
    ensures |FrameTail(response)| == 56 + |response| + 21
    ensures FrameTail(response)[56..56 + |response|] == response
  {
    var lead := " seconds**:" + Spaces(24) + "\n" + Spaces(20);
    assert FrameTail(response) == lead + response + ("\n" + Spaces(20));
  }

  /** A frame's text tells which frame it is, when it was taken and what the model answered. */
  lemma FrameBlockInjective(n1: nat, s1: nat, r1: string, n2: nat, s2: nat, r2: string)
    requires FrameBlock(n1, s1, r1) == FrameBlock(n2, s2, r2)
    ensures n1 == n2 && s1 == s2 && r1 == r2
  {
    FrameBlockAfterNumber(n1, s1, r1);
    FrameBlockAfterNumber(n2, s2, r2);
    var mid1 := " at " + NatToString(s1) + FrameTail(r1);
    var mid2 := " at " + NatToString(s2) + FrameTail(r2);
    DigitsThenSpace(NatToString(n1), mid1, NatToString(n2), mid2);
    NatToStringInjective(n1, n2);
    DropLead(" at ", NatToString(s1), FrameTail(r1));
    DropLead(" at ", NatToString(s2), FrameTail(r2));
    DigitsThenSpace(NatToString(s1), FrameTail(r1), NatToString(s2), FrameTail(r2));
    NatToStringInjective(s1, s2);
    FrameTailResponse(r1);
    FrameTailResponse(r2);
  }

  /**
   * The frames described before the loop stopped: `complete` when every frame
   * was described, otherwise the first failure ended the loop.
   */
  datatype Described = Described(blocks: seq<string>, complete: bool)

  /**
   * The loop over a record's frames: frame `i + 1` is taken at `i * 30`
   * seconds; a frame whose description fails stops the loop.
   */
  function Describe(frames: seq<string>, describe: string -> Option<string>): (d: Described)
    ensures |d.blocks| <= |frames|
    ensures d.complete <==> |d.blocks| == |frames|
    decreases |frames|
  {
    if frames == [] then Described([], true)
    else
      var n := |frames| - 1;
      var d := Describe(frames[..n], describe);
      if !d.complete then d
      else match describe(frames[n])
        case None => Described(d.blocks, false)
        case Some(response) => Described(d.blocks + [FrameBlock(n + 1, n * FrameInterval, response)], true)
  }

  /**
   * What the loop keeps: the text of frame `i + 1` for every frame before the
   * first failure, and nothing after it.
   */
  lemma {:induction false} DescribeBlocks(frames: seq<string>, describe: string -> Option<string>)
    ensures var d := Describe(frames, describe);
            forall i :: 0 <= i < |d.blocks| ==>
              describe(frames[i]).Some? && d.blocks[i] == FrameBlock(i + 1, i * FrameInterval, describe(frames[i]).value)
    ensures var d := Describe(frames, describe);
            !d.complete ==> describe(frames[|d.blocks|]).None?
    decreases |frames|
  {
    if frames != [] {
      var n := |frames| - 1;
      DescribeBlocks(frames[..n], describe);
    }
  }

  /** Every frame is described exactly when no frame's description fails. */
  lemma DescribeComplete(frames: seq<string>, describe: string -> Option<string>)
    ensures Describe(frames, describe).complete <==> forall i :: 0 <= i < |frames| ==> describe(frames[i]).Some?
  {
    DescribeBlocks(frames, describe);
  }

  /** A failure right after a fully described prefix keeps that prefix's blocks and ends the loop. */
  lemma {:induction false} DescribeStopsAtFailure(frames: seq<string>, describe: string -> Option<string>, j: nat)
    requires j < |frames| && describe(frames[j]).None?
    requires Describe(frames[..j], describe).complete
    ensures Describe(frames, describe) == Described(Describe(frames[..j], describe).blocks, false)
    decreases |frames|
  {
    var n := |frames| - 1;
    if j == n {
      assert frames[..n] == frames[..j];
    } else {
      assert frames[..n][..j] == frames[..j];
      DescribeStopsAtFailure(frames[..n], describe, j);
    }
  }

  /** Describing one more frame after a fully described prefix appends that frame's text. */
  lemma DescribeSnoc(frames: seq<string>, describe: string -> Option<string>, j: nat)
    requires j < |frames| && describe(frames[j]).Some?
    requires Describe(frames[..j], describe).complete
    ensures Describe(frames[..j + 1], describe) ==
      Described(Describe(frames[..j], describe).blocks + [FrameBlock(j + 1, j * FrameInterval, describe(frames[j]).value)], true)
  {
    assert frames[..j + 1][..j] == frames[..j];
  }

  /** A record's cached frame columns, in order. */
  type Entry = Slots

  /** The six frame columns of a record, copied from its stored entry. */
  function Hit(r: Row, e: Entry): (h: Row)
    ensures h.(frameAnalysis := r.frameAnalysis) == r && h.frameAnalysis == e
  {
    r.(frameAnalysis := e)
  }

  /**
   * The miss branch. Column `k` is written as soon as frame `k` is described,
   * so a failure leaves the columns of the frames before it filled; the
   * entry is stored only when every frame was described.
   */
  function Compute(r: Row, describe: string -> Option<string>): (m: Miss<Entry>)
    ensures m.row.(frameAnalysis := r.frameAnalysis) == r
    ensures |m.row.frameAnalysis| == |r.frameAnalysis|
    ensures m.entry.Some? ==> |m.entry.value| == SlotCount
    ensures m.entry.Some? && r.frameAnalysis == EmptySlots() ==> m.row.frameAnalysis == m.entry.value
  {
    var d := Describe(Split(r.frameFiles, ','), describe);
    Miss(r.(frameAnalysis := Overlay(r.frameAnalysis, d.blocks)),
         if d.complete then Some(FillSlots(d.blocks)) else None)
  }

  function ComputeWith(describe: string -> Option<string>): Row -> Miss<Entry> {
    r => Compute(r, describe)
  }

  /**
   * The rows of one language that have a transcript and keyframe files, with
   * the six frame columns emptied.
   */
  function SelectRows(table: seq<Row>, language: string): (rows: seq<Row>)
    ensures forall x :: x in rows ==>
      x.whisperResult != "" && x.frameFiles != "" && x.language == language && x.frameAnalysis == EmptySlots()
    ensures forall r :: r in table && r.whisperResult != "" && r.frameFiles != "" && r.language == language ==>
      r.(frameAnalysis := EmptySlots()) in rows
  {
    SelectMembers(table, QualifiesFor(language), Cleared);
    Select(table, QualifiesFor(language), Cleared)
  }

  /** A row this stage works on: it has a transcript, keyframe files and the requested language. */
  predicate Qualifies(r: Row, language: string) {
    r.whisperResult != "" && r.frameFiles != "" && r.language == language
  }

  function QualifiesFor(language: string): Row -> bool {
    r => Qualifies(r, language)
  }

  /** A row with the six frame columns emptied. */
  function Cleared(r: Row): Row {
    r.(frameAnalysis := EmptySlots())
  }

  /**
   * The selection keeps the table's order and multiplicity: no rows from an
   * empty table, and each further row adds its emptied copy at the end exactly
   * when it qualifies.
   */
  lemma SelectRowsInOrder(table: seq<Row>, r: Row, language: string)
    ensures SelectRows([], language) == []
    ensures SelectRows(table + [r], language) ==
      SelectRows(table, language) + (if Qualifies(r, language) then [Cleared(r)] else [])
  {
    SelectSnoc(table, r, QualifiesFor(language), Cleared);
  }

  /**
   * Running the stage again on rows with empty frame columns, against the
   * store the first pass left, changes neither the table nor the store.
   */
  lemma FrameRerun(rows: seq<Row>, st: seq<StoreRow<Entry>>, describe: string -> Option<string>)
    requires DistinctKeys(rows)
    requires forall i :: 0 <= i < |rows| ==> rows[i].frameAnalysis == EmptySlots()
    ensures var p1 := Run(rows, st, Hit, ComputeWith(describe));
            Run(rows, p1.store, Hit, ComputeWith(describe)).rows == p1.rows &&
            Run(rows, p1.store, Hit, ComputeWith(describe)).store == p1.store
  {
    forall i | 0 <= i < |rows| && ComputeWith(describe)(rows[i]).entry.Some?
      ensures Hit(rows[i], ComputeWith(describe)(rows[i]).entry.value) == ComputeWith(describe)(rows[i]).row
    {
      var d := Describe(Split(rows[i].frameFiles, ','), describe);
      assert FillSlots(d.blocks) == Overlay(rows[i].frameAnalysis, d.blocks);
    }
    RunIdempotent(rows, st, Hit, ComputeWith(describe));
  }

  /**
   * A record that is not stored yet and all of whose frames are described
   * gets an entry, and its column `k` holds frame `k`'s text when the record
   * has a frame `k` and is empty otherwise; frames after the sixth are dropped.
   */
  lemma FrameSuccess(rows: seq<Row>, st: seq<StoreRow<Entry>>, describe: string -> Option<string>, i: nat)
    requires DistinctKeys(rows) && i < |rows| && rows[i].frameAnalysis == EmptySlots()
    requires Find(st, RowKey(rows[i])).None?
    requires forall j :: 0 <= j < |Split(rows[i].frameFiles, ',')| ==> describe(Split(rows[i].frameFiles, ',')[j]).Some?
    ensures var out := Run(rows, st, Hit, ComputeWith(describe)).rows[i];
            Find(Run(rows, st, Hit, ComputeWith(describe)).store, RowKey(rows[i])) == Some(out.frameAnalysis)
    ensures var out := Run(rows, st, Hit, ComputeWith(describe)).rows[i];
            var frames := Split(rows[i].frameFiles, ',');
            out == rows[i].(frameAnalysis := out.frameAnalysis) && |out.frameAnalysis| == SlotCount &&
            forall k :: 0 <= k < SlotCount ==>
              out.frameAnalysis[k] == (if k < |frames| then FrameBlock(k + 1, k * FrameInterval, describe(frames[k]).value) else "")
  {
    DescribeComplete(Split(rows[i].frameFiles, ','), describe);
    DescribeBlocks(Split(rows[i].frameFiles, ','), describe);
    StoreAfterRun(rows, st, Hit, ComputeWith(describe), i);
    RunPointwise(rows, st, Hit, ComputeWith(describe));
  }

  /**
   * A record that is not stored yet and one of whose frames cannot be
   * described gets no entry, yet keeps the columns of the frames described
   * before the failure; its other columns stay as they were.
   */
  lemma FramePartialFailure(rows: seq<Row>, st: seq<StoreRow<Entry>>, describe: string -> Option<string>, i: nat)
    requires DistinctKeys(rows) && i < |rows|
    requires Find(st, RowKey(rows[i])).None?
    requires exists j :: 0 <= j < |Split(rows[i].frameFiles, ',')| && describe(Split(rows[i].frameFiles, ',')[j]).None?
    ensures Find(Run(rows, st, Hit, ComputeWith(describe)).store, RowKey(rows[i])).None?
    ensures var out := Run(rows, st, Hit, ComputeWith(describe)).rows[i];
            var frames := Split(rows[i].frameFiles, ',');
            var done := Describe(frames, describe).blocks;
            |done| < |frames| && describe(frames[|done|]).None? &&
            (forall k :: 0 <= k < |done| ==> describe(frames[k]).Some?) &&
            out == rows[i].(frameAnalysis := out.frameAnalysis) && |out.frameAnalysis| == |rows[i].frameAnalysis| &&
            forall k :: 0 <= k < |rows[i].frameAnalysis| ==>
              out.frameAnalysis[k] == (if k < |done| then FrameBlock(k + 1, k * FrameInterval, describe(frames[k]).value)
                                       else rows[i].frameAnalysis[k])
  {
    DescribeComplete(Split(rows[i].frameFiles, ','), describe);
    DescribeBlocks(Split(rows[i].frameFiles, ','), describe);
    StoreAfterRun(rows, st, Hit, ComputeWith(describe), i);
    RunPointwise(rows, st, Hit, ComputeWith(describe));
  }

  /** One iteration of `analyze_videos`: look the record up, then copy or describe its frames. */
  method ProcessRow(rows: array<Row>, i: nat, store: Store<Entry>, describe: string -> Option<string>) returns (invoked: bool)
    requires i < rows.Length && |rows[i].frameAnalysis| == SlotCount
    modifies rows, store
    ensures var v := Step(old(rows[i]), old(store.rows), Hit, ComputeWith(describe));
            rows[..] == old(rows[..])[i := v.row] && store.rows == v.store && invoked == v.invoked
  {
    var r := rows[i];
    var key := RowKey(r);
    var cached := store.Get(key);
    if cached.Some? {
      rows[i] := r.(frameAnalysis := cached.value);
      return false;
    }
    invoked := true;
    DescribeRecord(rows, i, store, describe);
  }

  /** `df.at[index, 'frame_analysis_k'] = text`: column `k` (1-based) of row `i`. */
  method SetColumn(rows: array<Row>, i: nat, k: nat, text: string)
    requires i < rows.Length && 1 <= k <= |rows[i].frameAnalysis|
    modifies rows
    ensures rows[..] == old(rows[..])[i := old(rows[i]).(frameAnalysis := old(rows[i]).frameAnalysis[k - 1 := text])]
  {
    var current := rows[i];
    rows[i] := current.(frameAnalysis := current.frameAnalysis[k - 1 := text]);
  }

  /**
   * The miss branch of `analyze_videos`: describe the frames one by one,
   * writing column `k` as soon as frame `k` is described, and insert the six
   * columns once the last frame is done. A failing description abandons the
   * record with the columns written so far.
   */
  method DescribeRecord(rows: array<Row>, i: nat, store: Store<Entry>, describe: string -> Option<string>)
    requires i < rows.Length && |rows[i].frameAnalysis| == SlotCount
    modifies rows, store
    ensures var m := Compute(old(rows[i]), describe);
            rows[..] == old(rows[..])[i := m.row] &&
            store.rows == if m.entry.Some? then old(store.rows) + [StoreRow(RowKey(old(rows[i])), m.entry.value)] else old(store.rows)
  {
    var r := rows[i];
    var key := RowKey(r);
    ghost var orig := rows[..];
    var frames := Split(r.frameFiles, ',');
    var analyses := EmptySlots();
    var frameNumber := 1;
    var j := 0;
    ghost var blocks: seq<string> := [];
    ghost var columns := r.frameAnalysis;
    while j < |frames|
      invariant 0 <= j <= |frames| && frameNumber == j + 1 && |blocks| == j
      invariant Describe(frames[..j], describe) == Described(blocks, true)
      invariant analyses == FillSlots(blocks)
      invariant columns == Overlay(r.frameAnalysis, blocks)
      invariant rows[..] == orig[i := r.(frameAnalysis := columns)]
      invariant store.rows == old(store.rows)
    {
      var response := describe(frames[j]);
      if response.None? {
        DescribeStopsAtFailure(frames, describe, j);
        return;
      }
      var seconds := j * FrameInterval;
      var block := FrameBlock(frameNumber, seconds, response.value);
      DescribeSnoc(frames, describe, j);
      analyses, columns := KeepBlock(rows, i, frameNumber, block, analyses, r, orig, blocks, columns);
      blocks := blocks + [block];
      frameNumber := frameNumber + 1;
      j := j + 1;
    }
    assert frames[..j] == frames;
    store.Insert(key, analyses);
  }

  /**
   * Frame `number`'s text goes to column `number` of the row and of the
   * entry being built, when there is such a column.
   */
  method KeepBlock(rows: array<Row>, i: nat, number: nat, block: string, analyses: Slots,
                   ghost r: Row, ghost orig: seq<Row>, ghost blocks: seq<string>, ghost columns: Slots)
    returns (analyses': Slots, ghost columns': Slots)
    requires i < rows.Length == |orig| && |r.frameAnalysis| == SlotCount && number == |blocks| + 1
    requires analyses == FillSlots(blocks) && columns == Overlay(r.frameAnalysis, blocks)
    requires rows[..] == orig[i := r.(frameAnalysis := columns)]
    modifies rows
    ensures analyses' == FillSlots(blocks + [block]) && columns' == Overlay(r.frameAnalysis, blocks + [block])
    ensures rows[..] == orig[i := r.(frameAnalysis := columns')]
  {
    OverlaySnoc(r.frameAnalysis, blocks, block);
    FillSlotsSnoc(blocks, block);
    analyses', columns' := analyses, columns;
    if number <= SlotCount {
      analyses' := analyses[number - 1 := block];
      SetColumn(rows, i, number, block);
      columns' := columns[number - 1 := block];
    }
  }

  /** The loop of `analyze_videos` over the selected rows, updating them in place. */
  method ProcessTable(rows: array<Row>, store: Store<Entry>, describe: string -> Option<string>) returns (invoked: seq<Key>)
    requires forall j :: 0 <= j < rows.Length ==> |rows[j].frameAnalysis| == SlotCount
    modifies rows, store
    ensures var p := Run(old(rows[..]), old(store.rows), Hit, ComputeWith(describe));
            rows[..] == p.rows && store.rows == p.store && invoked == p.invoked
  {
    ghost var input := rows[..];
    ghost var st := store.rows;
    ghost var done := Run(input[..0], st, Hit, ComputeWith(describe));
    invoked := [];
    var i := 0;
    while i < rows.Length
      invariant 0 <= i <= rows.Length
      invariant done == Run(input[..i], st, Hit, ComputeWith(describe))
      invariant rows[i..] == input[i..]
      invariant rows[..i] == done.rows && store.rows == done.store && invoked == done.invoked
    {
      RunSnoc(input, st, Hit, ComputeWith(describe), i);
      ghost var before := rows[..];
      ghost var v := Step(input[i], done.store, Hit, ComputeWith(describe));
      var key := RowKey(rows[i]);
      assert rows[i] == rows[i..][0] == input[i..][0] == input[i];
      var called := ProcessRow(rows, i, store, describe);
      UpdateExtendsPrefix(before, rows[..], input, i, v.row);
      if called {
        invoked := invoked + [key];
      }
      done := Pass(done.rows + [v.row], v.store, if v.invoked then done.invoked + [key] else done.invoked);
      i := i + 1;
    }
    assert input[..i] == input;
  }

  /** `analyze_videos(language)` for this stage: select the rows, then run the loop over them. */
  method AnalyzeVideos(table: seq<Row>, language: string, store: Store<Entry>, describe: string -> Option<string>)
    returns (output: seq<Row>, invoked: seq<Key>)
    modifies store
    ensures var p := Run(SelectRows(table, language), old(store.rows), Hit, ComputeWith(describe));
            output == p.rows && store.rows == p.store && invoked == p.invoked
  {
    var selected := SelectRows(table, language);
    var rows := new Row[|selected|](i requires 0 <= i < |selected| => selected[i]);
    assert rows[..] == selected;
    assert forall j :: 0 <= j < |selected| ==> selected[j] in selected;
    invoked := ProcessTable(rows, store, describe);
    output := rows[..];
  }
}
