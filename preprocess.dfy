/**
 * The preprocessing stage: for each video not yet in the preprocess store,
 * sample up to six keyframes, read the on-screen text of each, transcribe and
 * translate the speech, store the ten result columns and write them into the
 * row.
 */
module Preprocess {
  import opened Wrappers
  import opened Strings
  import opened Stores
  import opened Records
  import opened Stage

  /** Keyframes are sampled only in the first 180 seconds. */
  const MaxSeconds: int := 180
  /** Characters of the transcript sent to the translator. */
  const TranslationBudget: nat := 3000

  /** The sampling window: the whole-second duration, capped at 180. */
  function Window(duration: int): int {
    if duration > MaxSeconds then MaxSeconds else duration
  }

  /** Number of keyframes: one per 30 seconds started within the window. */
  function FrameCount(duration: int): nat {
    if Window(duration) <= 0 then 0 else (Window(duration) + FrameInterval - 1) / FrameInterval
  }

  /** At most six keyframes, every one of them taken within the window. */
  lemma FrameCountBounds(duration: int)
    ensures FrameCount(duration) <= SlotCount
    ensures forall i :: 0 <= i < FrameCount(duration) ==> FrameInterval * i < Window(duration)
  {
    if Window(duration) > 0 {
      assert FrameInterval * FrameCount(duration) <= Window(duration) + FrameInterval - 1;
    }
  }

  /** `range(0, window, 30)`: the seconds at which keyframes are taken. */
  function SampleTimes(duration: int): (ts: seq<nat>)
    ensures |ts| <= SlotCount
    ensures forall i :: 0 <= i < |ts| ==> ts[i] == FrameInterval * i && ts[i] < Window(duration)
  {
    FrameCountBounds(duration);
    seq(FrameCount(duration), i => FrameInterval * i)
  }

  /** The sample times are exactly the multiples of 30 strictly below the window, so there are at most six. */
  lemma SampleTimesExact(duration: int, t: int)
    ensures t in SampleTimes(duration) <==> 0 <= t < Window(duration) && t % FrameInterval == 0
    ensures |SampleTimes(duration)| <= SlotCount
  {
    var ts := SampleTimes(duration);
    if 0 <= t < Window(duration) && t % FrameInterval == 0 {
      var i := t / FrameInterval;
      assert t == FrameInterval * i;
      assert i < FrameCount(duration);
      assert ts[i] == t;
    }
    if t in ts {
      var i :| 0 <= i < |ts| && ts[i] == t;
      assert t == FrameInterval * i;
      assert i * FrameInterval < Window(duration);
    }
  }

  /** A 75-second video gives keyframes at 0, 30 and 60 seconds. */
  lemma SampleTimesOf75()
    ensures SampleTimes(75) == [0, 30, 60]
  {
  }

  /** A video of three minutes or more gives six keyframes, at 0 to 150 seconds. */
  lemma SampleTimesOfLong(duration: int)
    requires duration >= MaxSeconds
    ensures SampleTimes(duration) == [0, 30, 60, 90, 120, 150]
  {
    assert FrameCount(duration) == 6;
  }

  /** The directory that holds one video's keyframes. */
  function KeyframeDir(author: string, video: string): string {
    "./Keyframes/TikTok/" + author + "/" + video + "/"
  }

  /** The file of keyframe `k`: a `.jpg` named by its number, in the video's keyframe directory. */
  function KeyframePath(author: string, video: string, k: nat): (p: string)
    ensures |p| > |KeyframeDir(author, video)| + 4
    ensures p[..|KeyframeDir(author, video)|] == KeyframeDir(author, video)
    ensures p[|p| - 4..] == ".jpg"
  {
    KeyframeDir(author, video) + NatToString(k) + ".jpg"
  }

  /** Different keyframes of one video never share a file. */
  lemma KeyframePathInjective(author: string, video: string, j: nat, k: nat)
    requires KeyframePath(author, video, j) == KeyframePath(author, video, k)
    ensures j == k
  {
    var dir := KeyframeDir(author, video);
    var pj := KeyframePath(author, video, j);
    var nj := NatToString(j);
    var nk := NatToString(k);
    assert |nj| == |nk|;
    assert nj == pj[|dir|..|dir| + |nj|];
    assert nk == pj[|dir|..|dir| + |nk|];
    NatToStringInjective(j, k);
  }

  /** One requested keyframe: its number, its time, the seek position in milliseconds and its file. */
  datatype Keyframe = Keyframe(number: nat, time: nat, seekMs: nat, path: string)

  /**
   * `save_keyframe`: seek to `time * 1000` milliseconds and name the file after
   * the frame number. The file name is returned whether or not the frame could
   * be read, so it does not depend on the video at all.
   */
  function SaveKeyframe(author: string, video: string, time: nat, number: nat): Keyframe {
    Keyframe(number, time, time * 1000, KeyframePath(author, video, number))
  }

  /** The keyframe files of a video of the given whole-second duration. */
  function KeyframePaths(author: string, video: string, duration: int): (ps: seq<string>)
    ensures |ps| == FrameCount(duration)
  {
    seq(FrameCount(duration), (i: nat) => KeyframePath(author, video, i + 1))
  }

  function Paths(shots: seq<Keyframe>): (ps: seq<string>)
    ensures |ps| == |shots| && forall i :: 0 <= i < |shots| ==> ps[i] == shots[i].path
  {
    seq(|shots|, i requires 0 <= i < |shots| => shots[i].path)
  }

  /**
   * `get_keyframes` after the duration probe: keyframe `k` is numbered `k`,
   * taken at `(k - 1) * 30` seconds with a seek of that many thousand
   * milliseconds, and every multiple of 30 below the window is taken.
   */
  method GetKeyframes(author: string, video: string, duration: int) returns (shots: seq<Keyframe>)
    ensures |shots| == |SampleTimes(duration)| <= SlotCount
    ensures forall i :: 0 <= i < |shots| ==>
      shots[i] == SaveKeyframe(author, video, SampleTimes(duration)[i], i + 1)
    ensures forall i :: 0 <= i < |shots| ==>
      shots[i].number == i + 1 && shots[i].time == (shots[i].number - 1) * FrameInterval &&
      shots[i].seekMs == shots[i].time * 1000
    ensures Paths(shots) == KeyframePaths(author, video, duration)
  {
    var window := duration;
    if window > MaxSeconds {
      window := MaxSeconds;
    }
    shots := [];
    var frameNumber := 1;
    var time := 0;
    while time < window
      invariant time == FrameInterval * |shots| && frameNumber == |shots| + 1
      invariant |shots| <= FrameCount(duration)
      invariant |shots| > 0 ==> FrameInterval * (|shots| - 1) < window
      invariant forall i :: 0 <= i < |shots| ==> shots[i] == SaveKeyframe(author, video, FrameInterval * i, i + 1)
      decreases window - time
    {
      var shot := SaveKeyframe(author, video, time, frameNumber);
      shots := shots + [shot];
      frameNumber := frameNumber + 1;
      time := time + FrameInterval;
    }
    assert |shots| == FrameCount(duration);
    SampleTimesExact(duration, 0);
  }

  /** Each detected string followed by a newline, in detection order. */
  function Lines(detections: seq<string>): (s: string)
    ensures |detections| <= |s|
    ensures detections != [] ==> s[|s| - 1] == '\n'
    decreases |detections|
  {
    if detections == [] then "" else detections[0] + "\n" + Lines(detections[1..])
  }

  lemma {:induction false} LinesSnoc(ds: seq<string>, d: string)
    ensures Lines(ds + [d]) == Lines(ds) + d + "\n"
    decreases |ds|
  {
    if ds != [] {
      LinesSnoc(ds[1..], d);
      assert (ds + [d])[1..] == ds[1..] + [d];
    }
  }

  /** The lines are the detections joined by newlines, with a final newline. */
  lemma {:induction false} LinesAsJoin(ds: seq<string>)
    ensures Lines(ds) == Join("\n", ds + [""])
    decreases |ds|
  {
    if ds != [] {
      LinesAsJoin(ds[1..]);
      assert (ds + [""])[1..] == ds[1..] + [""];
    }
  }

  /** Detections without newlines are recovered by splitting the text on newlines. */
  lemma LinesRoundTrip(ds: seq<string>)
    requires forall i :: 0 <= i < |ds| ==> '\n' !in ds[i]
    ensures Split(Lines(ds), '\n') == ds + [""]
    ensures Lines(ds) == "" <==> ds == []
  {
    LinesAsJoin(ds);
    var parts := ds + [""];
    forall i | 0 <= i < |parts| ensures '\n' !in parts[i] {
      if i < |ds| {
        assert parts[i] == ds[i];
      }
    }
    SplitJoin(parts, '\n');
  }

  /** The OCR text of one frame: every detected string followed by `'\n'`. */
  method OcrText(detections: seq<string>) returns (text: string)
    ensures text == Lines(detections)
  {
    text := "";
    var i := 0;
    while i < |detections|
      invariant 0 <= i <= |detections|
      invariant text == Lines(detections[..i])
    {
      LinesSnoc(detections[..i], detections[i]);
      assert detections[..i + 1] == detections[..i] + [detections[i]];
      text := text + detections[i];
      text := text + "\n";
      i := i + 1;
    }
    assert detections[..i] == detections;
  }

  /** The OCR text of every frame, or failure as soon as one read fails. */
  function OcrAll(frames: seq<string>, ocr: string -> Option<seq<string>>): (r: Option<seq<string>>)
    ensures r.Some? <==> forall i :: 0 <= i < |frames| ==> ocr(frames[i]).Some?
    ensures r.Some? ==> |r.value| == |frames|
    ensures r.Some? ==> forall i :: 0 <= i < |frames| ==> r.value[i] == Lines(ocr(frames[i]).value)
    decreases |frames|
  {
    if frames == [] then Some([])
    else
      var n := |frames| - 1;
      var front := OcrAll(frames[..n], ocr);
      assert forall i :: 0 <= i < n ==> frames[..n][i] == frames[i];
      if front.None? then None
      else match ocr(frames[n])
        case None => None
        case Some(ds) => Some(front.value + [Lines(ds)])
  }

  /** Reading one more frame after a prefix that was read extends the texts, or fails with that frame. */
  lemma OcrAllSnoc(frames: seq<string>, ocr: string -> Option<seq<string>>, i: nat)
    requires i < |frames| && OcrAll(frames[..i], ocr).Some?
    ensures OcrAll(frames[..i + 1], ocr) ==
      match ocr(frames[i])
      case None => None
      case Some(ds) => Some(OcrAll(frames[..i], ocr).value + [Lines(ds)])
  {
    assert frames[..i + 1][..i] == frames[..i];
  }

  /** Once a frame's read fails, the whole record fails. */
  lemma OcrAllStops(frames: seq<string>, ocr: string -> Option<seq<string>>, i: nat)
    requires i < |frames| && ocr(frames[i]).None?
    ensures OcrAll(frames, ocr).None?
  {
  }

  /**
   * The OCR loop of one record: frame `k`'s text goes to column `ocr_k`,
   * columns without a frame stay empty, and a failing read abandons the
   * record.
   */
  method OcrFrames(frames: seq<string>, ocr: string -> Option<seq<string>>) returns (slots: Option<Slots>)
    ensures slots.Some? <==> OcrAll(frames, ocr).Some?
    ensures slots.Some? ==> slots.value == FillSlots(OcrAll(frames, ocr).value)
  {
    var s := EmptySlots();
    ghost var texts: seq<string> := [];
    var frameNumber := 1;
    var i := 0;
    while i < |frames|
      invariant 0 <= i <= |frames| && frameNumber == i + 1
      invariant OcrAll(frames[..i], ocr) == Some(texts)
      invariant s == FillSlots(texts)
    {
      OcrAllSnoc(frames, ocr, i);
      var results := ocr(frames[i]);
      if results.None? {
        OcrAllStops(frames, ocr, i);
        return None;
      }
      var text := OcrText(results.value);
      s := KeepText(s, frameNumber, text, texts);
      texts := texts + [text];
      frameNumber := frameNumber + 1;
      i := i + 1;
    }
    assert frames[..i] == frames;
    slots := Some(s);
  }

  /** Frame `number`'s text goes to column `ocr_number` when there is one. */
  method KeepText(s: Slots, number: nat, text: string, ghost texts: seq<string>) returns (s': Slots)
    requires number == |texts| + 1 && s == FillSlots(texts)
    ensures s' == FillSlots(texts + [text])
  {
    FillSlotsSnoc(texts, text);
    if number <= SlotCount {
      s' := s[number - 1 := text];
    } else {
      s' := s;
    }
  }

  /** What the speech recogniser returns: the text and the detected language code. */
  datatype Recognition = Recognition(text: string, language: string)

  /** The three transcript columns. */
  datatype Transcript = Transcript(text: string, language: string, translated: string)

  /**
   * `get_transcript`: errors are swallowed. If recognition fails all three
   * fields stay empty; if only the translation fails the text and language are
   * kept. The translator receives only the first 3000 characters.
   */
  function GetTranscript(video: string, transcribe: string -> Option<Recognition>,
                         translate: (string, string) -> Option<string>): (t: Transcript)
    ensures transcribe(video).None? ==> t == Transcript("", "", "")
    ensures transcribe(video).Some? ==>
      t.text == transcribe(video).value.text && t.language == transcribe(video).value.language
    ensures transcribe(video).Some? ==>
      t.translated == translate(t.language, Prefix(t.text, TranslationBudget)).GetOr("")
    ensures t.translated != "" ==>
      translate(t.language, Prefix(t.text, TranslationBudget)) == Some(t.translated)
  {
    match transcribe(video)
    case None => Transcript("", "", "")
    case Some(rec) =>
      Transcript(rec.text, rec.language, translate(rec.language, Prefix(rec.text, TranslationBudget)).GetOr(""))
  }

  /** Transcripts that agree on their language and first 3000 characters get the same translation. */
  lemma TranslationSeesOnlyBudget(video: string, t1: string -> Option<Recognition>, t2: string -> Option<Recognition>,
                                  translate: (string, string) -> Option<string>)
    requires t1(video).Some? && t2(video).Some?
    requires t1(video).value.language == t2(video).value.language
    requires |t1(video).value.text| >= TranslationBudget && |t2(video).value.text| >= TranslationBudget
    requires t1(video).value.text[..TranslationBudget] == t2(video).value.text[..TranslationBudget]
    ensures GetTranscript(video, t1, translate).translated == GetTranscript(video, t2, translate).translated
  {
    PrefixDependsOnlyOnPrefix(t1(video).value.text, t2(video).value.text, TranslationBudget);
  }

  /** The external capabilities of this stage, each a function of its input that may fail. */
  datatype Analyzers = Analyzers(
    videoExists: string -> bool,                       // os.path.exists
    probe: string -> Option<int>,                      // int(frame_count / fps)
    ocr: string -> Option<seq<string>>,                // reader.readtext, the texts only
    transcribe: string -> Option<Recognition>,         // model.transcribe
    translate: (string, string) -> Option<string>)     // GoogleTranslator(source, 'en').translate

  /** A record's cached preprocessing results. */
  datatype Entry = Entry(frames: string, ocr: Slots, transcript: string, language: string, translated: string)

  const VideoRoot := "./Allas/Scraper/TikTok/Videos/"

  /** Where the scraper put the video file: an `.mp4` under its country's directory. */
  function VideoPath(country: string, author: string, video: string): (p: string)
    ensures |p| > |VideoRoot| + |country| + 4
    ensures p[..|VideoRoot| + |country| + 1] == VideoRoot + country + "/"
    ensures p[|p| - 4..] == ".mp4"
  {
    VideoRoot + country + "/" + author + "/" + video + ".mp4"
  }

  /** `str(list)` of the keyframe files: each quoted, separated by `", "`, in brackets. */
  function ListRepr(paths: seq<string>): (s: string)
    ensures |s| >= 2 && s[0] == '['
  {
    "[" + Join(", ", seq(|paths|, i requires 0 <= i < |paths| => "'" + paths[i] + "'")) + "]"
  }

  /** The ten preprocessing columns of a record, copied from its stored entry. */
  function Hit(r: Row, e: Entry): (h: Row)
    ensures h.(frameFiles := r.frameFiles, ocr := r.ocr, transcript := r.transcript,
               transcriptLanguage := r.transcriptLanguage, translated := r.translated) == r
    ensures h.frameFiles == e.frames && h.ocr == e.ocr && h.transcript == e.transcript &&
            h.transcriptLanguage == e.language && h.translated == e.translated
  {
    r.(frameFiles := e.frames, ocr := e.ocr, transcript := e.transcript,
       transcriptLanguage := e.language, translated := e.translated)
  }

  /**
   * The miss branch: a missing video, a failed duration probe or a failed OCR
   * read leaves the row as it is and stores nothing; otherwise the entry is
   * stored, whatever happened to the transcript.
   */
  function Compute(r: Row, env: Analyzers): (m: Miss<Entry>)
    ensures m.entry.None? ==> m.row == r
    ensures m.row.(frameFiles := r.frameFiles, ocr := r.ocr, transcript := r.transcript,
                   transcriptLanguage := r.transcriptLanguage, translated := r.translated) == r
    ensures m.entry.Some? ==>
      m.row.ocr == m.entry.value.ocr && m.row.transcript == m.entry.value.transcript &&
      m.row.transcriptLanguage == m.entry.value.language && m.row.translated == m.entry.value.translated
  {
    var path := VideoPath(r.country, r.author, r.video);
    if !env.videoExists(path) then Miss(r, None)
    else match env.probe(path)
      case None => Miss(r, None)
      case Some(duration) =>
        var frames := KeyframePaths(r.author, r.video, duration);
        match OcrAll(frames, env.ocr)
        case None => Miss(r, None)
        case Some(texts) =>
          var slots := FillSlots(texts);
          var t := GetTranscript(path, env.transcribe, env.translate);
          Miss(r.(frameFiles := Join(",", frames), ocr := slots, transcript := t.text,
                  transcriptLanguage := t.language, translated := t.translated),
               Some(Entry(ListRepr(frames), slots, t.text, t.language, t.translated)))
  }

  function ComputeWith(env: Analyzers): Row -> Miss<Entry> {
    r => Compute(r, env)
  }

  /** A row this stage works on: it has a transcript and is in the requested language. */
  predicate Qualifies(r: Row, language: string) {
    r.whisperResult != "" && r.language == language
  }

  function QualifiesFor(language: string): Row -> bool {
    r => Qualifies(r, language)
  }

  /** A row with the ten preprocessing columns emptied. */
  function Cleared(r: Row): Row {
    r.(frameFiles := "", ocr := EmptySlots(), transcript := "", transcriptLanguage := "", translated := "")
  }

  /** The rows of one language that have a transcript, with the ten columns emptied. */
  function SelectRows(table: seq<Row>, language: string): (rows: seq<Row>)
    ensures forall x :: x in rows ==>
      x.whisperResult != "" && x.language == language && x.frameFiles == "" && x.ocr == EmptySlots() &&
      x.transcript == "" && x.transcriptLanguage == "" && x.translated == ""
    ensures forall r :: r in table && r.whisperResult != "" && r.language == language ==>
      r.(frameFiles := "", ocr := EmptySlots(), transcript := "", transcriptLanguage := "", translated := "") in rows
  {
    SelectMembers(table, QualifiesFor(language), Cleared);
    Select(table, QualifiesFor(language), Cleared)
  }

  /**
   * The selection keeps the table's order and multiplicity: no rows from an
   * empty table, and each further row adds its emptied copy at the end exactly
   * when it qualifies.
   */
  lemma SelectRowsInOrder(table: seq<Row>, r: Row, language: string)
    ensures SelectRows([], language) == []
    ensures SelectRows(table + [r], language) ==
      SelectRows(table, language) + (if Qualifies(r, language) then [Cleared(r)] else [])
  {
    SelectSnoc(table, r, QualifiesFor(language), Cleared);
  }

  /** A keyframe file contains no comma when the author and video names do not. */
  lemma KeyframePathNoComma(author: string, video: string, k: nat)
    requires ',' !in author && ',' !in video
    ensures ',' !in KeyframePath(author, video, k)
  {
    var digits := NatToString(k);
    assert ',' !in digits by {
      forall j | 0 <= j < |digits| ensures digits[j] != ',' {
        assert IsDigit(digits[j]);
      }
    }
  }

  /**
   * The frame stage splits `frame_files` on commas: for a video with at least
   * one keyframe and comma-free names, that gives back exactly the keyframe
   * files preprocessing joined.
   */
  lemma FrameFilesHandOff(author: string, video: string, duration: int)
    requires FrameCount(duration) >= 1
    requires ',' !in author && ',' !in video
    ensures Split(Join(",", KeyframePaths(author, video, duration)), ',') == KeyframePaths(author, video, duration)
  {
    var ps := KeyframePaths(author, video, duration);
    forall i | 0 <= i < |ps| ensures ',' !in ps[i] {
      KeyframePathNoComma(author, video, i + 1);
    }
    SplitJoin(ps, ',');
  }

  /** `','.join` of keyframe files never reads as `str(list)` of them. */
  lemma JoinedNotListRepr(author: string, video: string, duration: int)
    ensures Join(",", KeyframePaths(author, video, duration)) != ListRepr(KeyframePaths(author, video, duration))
  {
    var ps := KeyframePaths(author, video, duration);
    if |ps| >= 1 {
      JoinStartsWithFirst(",", ps);
      assert ps[0][0] == '.';
    }
  }

  /**
   * Preprocessing a table with distinct keys a second time, against the store
   * the first pass left: the store does not change, every column except
   * `frame_files` is as the first pass wrote it, and `frame_files` differs
   * exactly for the records first computed in the first pass, because a miss
   * writes `','.join(frame_files)` and a hit copies the stored `str(frame_files)`.
   */
  lemma PreprocessRerun(rows: seq<Row>, st: seq<StoreRow<Entry>>, env: Analyzers)
    requires DistinctKeys(rows)
    ensures var p1 := Run(rows, st, Hit, ComputeWith(env));
            Run(rows, p1.store, Hit, ComputeWith(env)).store == p1.store
    ensures var p1 := Run(rows, st, Hit, ComputeWith(env));
            var p2 := Run(rows, p1.store, Hit, ComputeWith(env));
            forall i :: 0 <= i < |rows| ==> p2.rows[i].(frameFiles := p1.rows[i].frameFiles) == p1.rows[i]
    ensures var p1 := Run(rows, st, Hit, ComputeWith(env));
            var p2 := Run(rows, p1.store, Hit, ComputeWith(env));
            forall i :: 0 <= i < |rows| ==>
              (p2.rows[i].frameFiles != p1.rows[i].frameFiles <==>
               Find(st, RowKey(rows[i])).None? && Compute(rows[i], env).entry.Some?)
  {
    forall r: Row ensures OnlyFrameFilesDiffer(r, ComputeWith(env)(r)) {
      if Compute(r, env).entry.Some? {
        HitAfterCompute(r, env);
      }
    }
    RerunFrameFiles(rows, st, ComputeWith(env));
  }

  /** Copying a freshly computed entry back gives the computed row, except for its `frame_files`, which always differs. */
  ghost predicate OnlyFrameFilesDiffer(r: Row, m: Miss<Entry>) {
    m.entry.Some? ==>
      Hit(r, m.entry.value).(frameFiles := m.row.frameFiles) == m.row &&
      Hit(r, m.entry.value).frameFiles != m.row.frameFiles
  }

  /** A computed entry differs from the computed row in `frame_files` alone. */
  lemma HitAfterCompute(r: Row, env: Analyzers)
    requires Compute(r, env).entry.Some?
    ensures OnlyFrameFilesDiffer(r, Compute(r, env))
  {
    var path := VideoPath(r.country, r.author, r.video);
    JoinedNotListRepr(r.author, r.video, env.probe(path).value);
  }

  /**
   * A second pass, for any miss branch whose entries differ from their rows
   * in `frame_files` alone: the store stays, and a row differs from the
   * first pass's exactly in `frame_files`, and exactly when it was first
   * computed in the first pass.
   */
  lemma RerunFrameFiles(rows: seq<Row>, st: seq<StoreRow<Entry>>, miss: Row -> Miss<Entry>)
    requires DistinctKeys(rows)
    requires forall r :: OnlyFrameFilesDiffer(r, miss(r))
    ensures var p1 := Run(rows, st, Hit, miss);
            Run(rows, p1.store, Hit, miss).store == p1.store
    ensures var p1 := Run(rows, st, Hit, miss);
            var p2 := Run(rows, p1.store, Hit, miss);
            forall i :: 0 <= i < |rows| ==> p2.rows[i].(frameFiles := p1.rows[i].frameFiles) == p1.rows[i]
    ensures var p1 := Run(rows, st, Hit, miss);
            var p2 := Run(rows, p1.store, Hit, miss);
            forall i :: 0 <= i < |rows| ==>
              (p2.rows[i].frameFiles != p1.rows[i].frameFiles <==>
               Find(st, RowKey(rows[i])).None? && miss(rows[i]).entry.Some?)
  {
    var p1 := Run(rows, st, Hit, miss);
    var p2 := Run(rows, p1.store, Hit, miss);
    Rerun(rows, st, Hit, miss);
    RunPointwise(rows, st, Hit, miss);
    forall i | 0 <= i < |rows|
      ensures p2.rows[i].(frameFiles := p1.rows[i].frameFiles) == p1.rows[i]
      ensures p2.rows[i].frameFiles != p1.rows[i].frameFiles <==>
              Find(st, RowKey(rows[i])).None? && miss(rows[i]).entry.Some?
    {
      assert OnlyFrameFilesDiffer(rows[i], miss(rows[i]));
    }
  }

  /**
   * A record missing from the store ends the pass without an entry exactly
   * when its video file is missing, its duration cannot be read or one of its
   * keyframes cannot be read; it then keeps the empty columns it started with.
   */
  lemma PreprocessFailure(rows: seq<Row>, st: seq<StoreRow<Entry>>, env: Analyzers, i: nat)
    requires DistinctKeys(rows) && i < |rows|
    requires Find(st, RowKey(rows[i])).None?
    ensures var r := rows[i];
            var path := VideoPath(r.country, r.author, r.video);
            Find(Run(rows, st, Hit, ComputeWith(env)).store, RowKey(r)).None? <==>
              (!env.videoExists(path) || env.probe(path).None? ||
               OcrAll(KeyframePaths(r.author, r.video, env.probe(path).value), env.ocr).None?)
    ensures Find(Run(rows, st, Hit, ComputeWith(env)).store, RowKey(rows[i])).None? ==>
              Run(rows, st, Hit, ComputeWith(env)).rows[i] == rows[i]
  {
    StoreAfterRun(rows, st, Hit, ComputeWith(env), i);
    RunPointwise(rows, st, Hit, ComputeWith(env));
  }

  /**
   * A failed transcription does not stop the record: its entry is stored with
   * the keyframes and OCR columns and three empty transcript columns.
   */
  lemma TranscriptionFailureStillStored(rows: seq<Row>, st: seq<StoreRow<Entry>>, env: Analyzers, i: nat)
    requires DistinctKeys(rows) && i < |rows|
    requires Find(st, RowKey(rows[i])).None?
    requires var r := rows[i];
             var path := VideoPath(r.country, r.author, r.video);
             env.videoExists(path) && env.probe(path).Some? &&
             OcrAll(KeyframePaths(r.author, r.video, env.probe(path).value), env.ocr).Some? &&
             env.transcribe(path).None?
    ensures var r := rows[i];
            var path := VideoPath(r.country, r.author, r.video);
            var frames := KeyframePaths(r.author, r.video, env.probe(path).value);
            Find(Run(rows, st, Hit, ComputeWith(env)).store, RowKey(r)) ==
              Some(Entry(ListRepr(frames), FillSlots(OcrAll(frames, env.ocr).value), "", "", ""))
    ensures var out := Run(rows, st, Hit, ComputeWith(env)).rows[i];
            out.transcript == "" && out.transcriptLanguage == "" && out.translated == ""
  {
    StoreAfterRun(rows, st, Hit, ComputeWith(env), i);
    RunPointwise(rows, st, Hit, ComputeWith(env));
  }

  /** One iteration of `analyze_videos`: look the record up, then copy or compute. */
  method ProcessRow(rows: array<Row>, i: nat, store: Store<Entry>, env: Analyzers) returns (invoked: bool)
    requires i < rows.Length
    modifies rows, store
    ensures var v := Step(old(rows[i]), old(store.rows), Hit, ComputeWith(env));
            rows[..] == old(rows[..])[i := v.row] && store.rows == v.store && invoked == v.invoked
  {
    var r := rows[i];
    var key := RowKey(r);
    var cached := store.Get(key);
    if cached.Some? {
      var e := cached.value;
      rows[i] := r.(frameFiles := e.frames, ocr := e.ocr, transcript := e.transcript,
                    transcriptLanguage := e.language, translated := e.translated);
      return false;
    }
    invoked := true;
    var path := VideoPath(r.country, r.author, r.video);
    if !env.videoExists(path) {
      return;
    }
    var duration := env.probe(path);
    if duration.None? {
      return;
    }
    var shots := GetKeyframes(r.author, r.video, duration.value);
    var frames := Paths(shots);
    var slots := OcrFrames(frames, env.ocr);
    if slots.None? {
      return;
    }
    var t := GetTranscript(path, env.transcribe, env.translate);
    store.Insert(key, Entry(ListRepr(frames), slots.value, t.text, t.language, t.translated));
    var frameFiles := Join(",", frames);
    rows[i] := r.(frameFiles := frameFiles, ocr := slots.value, transcript := t.text,
                  transcriptLanguage := t.language, translated := t.translated);
  }

  /** The loop of `analyze_videos` over the selected rows, updating them in place. */
  method ProcessTable(rows: array<Row>, store: Store<Entry>, env: Analyzers) returns (invoked: seq<Key>)
    modifies rows, store
    ensures var p := Run(old(rows[..]), old(store.rows), Hit, ComputeWith(env));
            rows[..] == p.rows && store.rows == p.store && invoked == p.invoked
  {
    ghost var input := rows[..];
    ghost var st := store.rows;
    ghost var done := Run(input[..0], st, Hit, ComputeWith(env));
    invoked := [];
    var i := 0;
    while i < rows.Length
      invariant 0 <= i <= rows.Length
      invariant done == Run(input[..i], st, Hit, ComputeWith(env))
      invariant rows[i..] == input[i..]
      invariant rows[..i] == done.rows && store.rows == done.store && invoked == done.invoked
    {
      RunSnoc(input, st, Hit, ComputeWith(env), i);
      ghost var before := rows[..];
      ghost var v := Step(input[i], done.store, Hit, ComputeWith(env));
      var key := RowKey(rows[i]);
      assert rows[i] == rows[i..][0] == input[i..][0] == input[i];
      var called := ProcessRow(rows, i, store, env);
      UpdateExtendsPrefix(before, rows[..], input, i, v.row);
      if called {
        invoked := invoked + [key];
      }
      done := Pass(done.rows + [v.row], v.store, if v.invoked then done.invoked + [key] else done.invoked);
      i := i + 1;
    }
    assert input[..i] == input;
  }

  /** `analyze_videos(language)` for this stage: select the rows, then run the loop over them. */
  method AnalyzeVideos(table: seq<Row>, language: string, store: Store<Entry>, env: Analyzers)
    returns (output: seq<Row>, invoked: seq<Key>)
    modifies store
    ensures var p := Run(SelectRows(table, language), old(store.rows), Hit, ComputeWith(env));
            output == p.rows && store.rows == p.store && invoked == p.invoked
  {
    var selected := SelectRows(table, language);
    var rows := new Row[|selected|](i requires 0 <= i < |selected| => selected[i]);
    assert rows[..] == selected;
    invoked := ProcessTable(rows, store, env);
    output := rows[..];
  }
}
