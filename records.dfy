/**
 * One row of the per-language video table, with the columns every stage reads
 * or writes. A missing cell is the empty string. The six numbered columns of
 * one kind (`ocr_1`..`ocr_6`, `frame_analysis_1`..`frame_analysis_6`) are a
 * sequence whose element `k - 1` is column `k`.
 */
module Records {
  import opened Stores

  /** Number of numbered frame columns: frames 1..6. */
  const SlotCount: nat := 6

  /** Seconds between two keyframes: frame `k` (1-based) is taken at `(k - 1) * 30` seconds. */
  const FrameInterval: nat := 30

  type Slots = seq<string>

  /** Descriptive columns used to build the summary's metadata block, as the table holds them. */
  datatype VideoInfo = VideoInfo(
    timestamp: string,
    duration: string,
    diggs: string,
    shares: string,
    comments: string,
    plays: string,
    description: string,
    nickname: string,
    signature: string)

  datatype Row = Row(
    author: string,             // authorUniqueId
    video: string,              // videoId
    language: string,
    country: string,            // scrapedCountry
    whisperResult: string,      // the scraper's transcript column
    info: VideoInfo,
    frameFiles: string,         // written by preprocessing
    ocr: Slots,
    transcript: string,
    transcriptLanguage: string,
    translated: string,
    frameAnalysis: Slots,       // written by frame analysis
    metadata: string,           // written by the summary stage
    summary: string)

  function RowKey(r: Row): Key {
    Key(r.author, r.video)
  }

  /** Six empty numbered columns, as a stage initialises them. */
  function EmptySlots(): (s: Slots)
    ensures |s| == SlotCount && forall k :: 0 <= k < SlotCount ==> s[k] == ""
  {
    seq(SlotCount, _ => "")
  }

  /** `base` with its first columns replaced by `vals`; values beyond the last column are dropped. */
  function Overlay(base: Slots, vals: seq<string>): (r: Slots)
    ensures |r| == |base|
    ensures forall k :: 0 <= k < |base| ==> r[k] == (if k < |vals| then vals[k] else base[k])
    decreases |base|
  {
    if vals == [] || base == [] then base else [vals[0]] + Overlay(base[1..], vals[1..])
  }

  /** Column `k` (1-based) receives value `k`; columns without a value stay empty. */
  function FillSlots(vals: seq<string>): (s: Slots)
    ensures |s| == SlotCount
    ensures forall k :: 0 <= k < SlotCount ==> s[k] == (if k < |vals| then vals[k] else "")
  {
    Overlay(EmptySlots(), vals)
  }

  /** Adding value `k` fills column `k` when there is one and changes nothing otherwise. */
  lemma FillSlotsSnoc(vals: seq<string>, v: string)
    ensures FillSlots(vals + [v]) == if |vals| < SlotCount then FillSlots(vals)[|vals| := v] else FillSlots(vals)
  {
  }

  /** Adding value `k` to an overlay replaces column `k` when there is one and changes nothing otherwise. */
  lemma {:induction false} OverlaySnoc(base: Slots, vals: seq<string>, v: string)
    ensures Overlay(base, vals + [v]) == if |vals| < |base| then Overlay(base, vals)[|vals| := v] else Overlay(base, vals)
  {
    var a := Overlay(base, vals + [v]);
    var b := Overlay(base, vals);
    assert forall k :: 0 <= k < |vals| ==> (vals + [v])[k] == vals[k];
    if |vals| < |base| {
      forall k | 0 <= k < |base| ensures a[k] == b[|vals| := v][k] {
      }
      assert a == b[|vals| := v];
    } else {
      forall k | 0 <= k < |base| ensures a[k] == b[k] {
      }
      assert a == b;
    }
  }

  /** Column `k` (1-based), read as empty when the table has no such column. */
  function SlotAt(s: Slots, k: nat): string {
    if 1 <= k <= |s| then s[k - 1] else ""
  }

  /**
   * The rows a stage works on: the table's rows that pass `keep`, in order,
   * each with the stage's output columns reset by `reset`.
   */
  function Select(table: seq<Row>, keep: Row -> bool, reset: Row -> Row): (rows: seq<Row>)
    ensures |rows| <= |table|
    decreases |table|
  {
    if table == [] then []
    else
      var rest := Select(table[1..], keep, reset);
      if keep(table[0]) then [reset(table[0])] + rest else rest
  }

  /** Every selected row is the reset copy of a kept row, and every kept row's reset copy is selected. */
  lemma {:induction false} SelectMembers(table: seq<Row>, keep: Row -> bool, reset: Row -> Row)
    ensures forall x :: x in Select(table, keep, reset) ==> exists r :: r in table && keep(r) && x == reset(r)
    ensures forall r :: r in table && keep(r) ==> reset(r) in Select(table, keep, reset)
    decreases |table|
  {
    if table != [] {
      SelectMembers(table[1..], keep, reset);
      assert forall r :: r in table[1..] ==> r in table;
      assert forall r :: r in table ==> r == table[0] || r in table[1..];
    }
  }

  /**
   * Selection keeps the table's order: the rows selected from two runs of the
   * table are those of the first run followed by those of the second.
   */
  lemma {:induction false} SelectAppend(a: seq<Row>, b: seq<Row>, keep: Row -> bool, reset: Row -> Row)
    ensures Select(a + b, keep, reset) == Select(a, keep, reset) + Select(b, keep, reset)
    decreases |a|
  {
    if a != [] {
      var t := a + b;
      assert t[0] == a[0] && t[1..] == a[1..] + b;
      var head := if keep(a[0]) then [reset(a[0])] else [];
      assert Select(t, keep, reset) == head + Select(t[1..], keep, reset);
      assert Select(a, keep, reset) == head + Select(a[1..], keep, reset);
      SelectAppend(a[1..], b, keep, reset);
      var x := Select(a[1..], keep, reset);
      var y := Select(b, keep, reset);
      assert Select(t[1..], keep, reset) == x + y;
      assert head + (x + y) == (head + x) + y;
    } else {
      assert a + b == b;
    }
  }

  /**
   * Selection row by row: nothing from an empty table, and each further row
   * adds its reset copy at the end exactly when it is kept. Together these fix
   * the result completely, order and multiplicity included.
   */
  lemma SelectSnoc(table: seq<Row>, r: Row, keep: Row -> bool, reset: Row -> Row)
    ensures Select([], keep, reset) == []
    ensures Select(table + [r], keep, reset) == Select(table, keep, reset) + (if keep(r) then [reset(r)] else [])
  {
    SelectAppend(table, [r], keep, reset);
    assert [r][1..] == [];
  }
}
