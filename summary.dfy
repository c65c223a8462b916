/**
 * The summary stage (`puhti_summary.py`): for every record with a
 * transcript, build the metadata block and the frame context, put them with
 * the transcript into the user prompt, and ask a model for the report. The
 * report is cached per (author, video); the metadata column is written for
 * every record, whether or not the report comes from the store.
 */
module Summary {
  import opened Wrappers
  import opened Strings
  import opened Stores
  import opened Records
  import opened Stage

  // ---------------------------------------------------------------- URLs

  const SiteRoot := "https://www.tiktok.com/@"

  /** The author's profile page. */
  function AuthorUrl(user: string): string {
    SiteRoot + user
  }

  /** The video's page, under its author's profile page. */
  function VideoUrl(user: string, video: string): string {
    SiteRoot + user + "/video/" + video
  }

  /** The video page's address is the author page's address followed by `/video/` and the video id. */
  lemma VideoUrlExtendsAuthorUrl(user: string, video: string)
    ensures VideoUrl(user, video) == AuthorUrl(user) + "/video/" + video
  {
  }

  /** For user names without `/`, the video address tells the user and the video apart. */
  lemma VideoUrlInjective(u1: string, v1: string, u2: string, v2: string)
    requires '/' !in u1 && '/' !in u2
    requires VideoUrl(u1, v1) == VideoUrl(u2, v2)
    ensures u1 == u2 && v1 == v2
  {
    var t1 := "/video/" + v1;
    var t2 := "/video/" + v2;
    assert VideoUrl(u1, v1) == SiteRoot + (u1 + t1);
    assert VideoUrl(u2, v2) == SiteRoot + (u2 + t2);
    assert u1 + t1 == VideoUrl(u1, v1)[|SiteRoot|..];
    assert u2 + t2 == VideoUrl(u2, v2)[|SiteRoot|..];
    UpToFirst(u1, t1, u2, t2, '/');
    assert v1 == t1[7..] && v2 == t2[7..];
  }

  // ------------------------------------------------------------ hashtags

  /** `[tag.strip() for tag in words if tag.startswith('#')]`. */
  function Tags(words: seq<string>): (tags: seq<string>)
    ensures |tags| <= |words|
    decreases |words|
  {
    if words == [] then []
    else (if StartsWith(words[0], '#') then [Strip(words[0])] else []) + Tags(words[1..])
  }

  /** Filtering keeps order: the tags of two runs of words are the tags of each, one after the other. */
  lemma {:induction false} TagsAppend(w1: seq<string>, w2: seq<string>)
    ensures Tags(w1 + w2) == Tags(w1) + Tags(w2)
    decreases |w1|
  {
    if w1 != [] {
      assert (w1 + w2)[0] == w1[0];
      assert (w1 + w2)[1..] == w1[1..] + w2;
      TagsAppend(w1[1..], w2);
    } else {
      assert w1 + w2 == w2;
    }
  }

  /** Of the tokens of `str.split()`, the tags are exactly those starting with `#`, unchanged by the strip. */
  lemma {:induction false} TagsOfWords(words: seq<string>)
    requires forall i :: 0 <= i < |words| ==> IsWord(words[i])
    ensures forall t :: t in Tags(words) <==> t in words && StartsWith(t, '#')
    ensures forall i :: 0 <= i < |Tags(words)| ==> IsWord(Tags(words)[i])
    decreases |words|
  {
    if words != [] {
      TagsOfWords(words[1..]);
      StripWord(words[0]);
      assert words == [words[0]] + words[1..];
    }
  }

  /** The description's hashtags, joined by `", "`. */
  function Hashtags(description: string): string {
    Join(", ", Tags(Words(description)))
  }

  /** The hashtags are empty exactly when no token of the description starts with `#`. */
  lemma HashtagsEmpty(description: string)
    ensures Hashtags(description) == "" <==> forall w :: w in Words(description) ==> !StartsWith(w, '#')
  {
    var ws := Words(description);
    TagsOfWords(ws);
    var tags := Tags(ws);
    if tags != [] {
      assert tags[0] in tags;
      JoinStartsWithFirst(", ", tags);
    }
  }

  /** Hashtags lie on one line. */
  lemma HashtagsOneLine(description: string)
    ensures '\n' !in Hashtags(description)
  {
    var ws := Words(description);
    TagsOfWords(ws);
    var tags := Tags(ws);
    forall i | 0 <= i < |tags| ensures '\n' !in tags[i] {
      assert IsWord(tags[i]);
    }
    JoinFree(", ", tags, '\n');
  }

  // ------------------------------------------------------------ metadata

  /** The blanks the source's triple-quoted templates carry as indentation. */
  const Indent8: string := "        "
  const Indent12: string := "            "
  const Indent24: string := "                        "

  /** One `- Label: value` line with the blanks the template leaves after it. */
  function Field(name: string, value: string, trail: string): string {
    "- " + name + ": " + value + trail
  }

  /**
   * The lines of the metadata block. Every line but the first carries the
   * template's eight blanks of indentation, and the last line is that
   * indentation alone. `timestamp` is the creation time already formatted.
   */
  function MetadataLines(r: Row, timestamp: string): (lines: seq<string>)
    ensures |lines| == 14
  {
    AuthorLines(r) + VideoLines(r, timestamp) + LinkLines(r)
  }

  /** The lines about the author. */
  function AuthorLines(r: Row): (lines: seq<string>)
    ensures |lines| == 3
  {
    [ Field("Author name", r.info.nickname, Indent8),
      Indent8 + Field("Author username", r.author, Indent8),
      Indent8 + Field("Author signature", r.info.signature, Indent8) ]
  }

  /** The lines about the video and its audience. */
  function VideoLines(r: Row, timestamp: string): (lines: seq<string>)
    ensures |lines| == 7
  {
    [ Indent8 + Field("Description", r.info.description, "      "),
      Indent8 + Field("Timestamp", timestamp, "      "),
      Indent8 + Field("Duration", r.info.duration, Indent8),
      Indent8 + Field("Diggs", r.info.diggs, Indent8),
      Indent8 + Field("Shares", r.info.shares, Indent8),
      Indent8 + Field("Comments", r.info.comments, Indent8),
      Indent8 + Field("Plays", r.info.plays, "    ") ]
  }

  /** The links, the hashtags and the closing indentation. */
  function LinkLines(r: Row): (lines: seq<string>)
    ensures |lines| == 4
  {
    [ Indent8 + Field("Video URL", VideoUrl(r.author, r.video), Indent8),
      Indent8 + Field("Author URL", AuthorUrl(r.author), " "),
      Indent8 + Field("Hashtags", Hashtags(r.info.description), ""),
      Indent8 ]
  }

  /** The `metadata` column. */
  function Metadata(r: Row, timestamp: string): string {
    Join("\n", MetadataLines(r, timestamp))
  }

  /** The values shown in the metadata block, none of which may span lines for it to be read back. */
  predicate OneLineFields(r: Row, timestamp: string) {
    '\n' !in r.info.nickname && '\n' !in r.author && '\n' !in r.info.signature &&
    '\n' !in r.info.description && '\n' !in timestamp && '\n' !in r.info.duration &&
    '\n' !in r.info.diggs && '\n' !in r.info.shares && '\n' !in r.info.comments &&
    '\n' !in r.info.plays && '\n' !in r.video
  }

  /** No line contains a line break. */
  predicate SingleLines(lines: seq<string>) {
    forall i :: 0 <= i < |lines| ==> '\n' !in lines[i]
  }

  lemma AuthorLinesSingle(r: Row, timestamp: string)
    requires OneLineFields(r, timestamp)
    ensures SingleLines(AuthorLines(r))
  {
  }

  lemma VideoLinesSingle(r: Row, timestamp: string)
    requires OneLineFields(r, timestamp)
    ensures SingleLines(VideoLines(r, timestamp))
  {
  }

  lemma LinkLinesSingle(r: Row, timestamp: string)
    requires OneLineFields(r, timestamp)
    ensures SingleLines(LinkLines(r))
  {
    HashtagsOneLine(r.info.description);
    assert '\n' !in VideoUrl(r.author, r.video);
    assert '\n' !in AuthorUrl(r.author);
  }

  /**
   * When no value spans lines, splitting the metadata column on newlines
   * gives back its lines, so every field can be read back from it.
   */
  lemma MetadataRoundTrip(r: Row, timestamp: string)
    requires OneLineFields(r, timestamp)
    ensures Split(Metadata(r, timestamp), '\n') == MetadataLines(r, timestamp)
  {
    AuthorLinesSingle(r, timestamp);
    VideoLinesSingle(r, timestamp);
    LinkLinesSingle(r, timestamp);
    var lines := MetadataLines(r, timestamp);
    assert SingleLines(lines);
    SplitJoin(lines, '\n');
  }

  // ------------------------------------------------------- frame context

  /** The headings the template writes out before the OCR text of frames 1..6. */
  function OcrHeading(k: nat): string {
    match k
    case 1 => "### OCR results for frame " + "1" + " at " + "0" + " seconds:"
    case 2 => "### OCR results for frame " + "2" + " at " + "30" + " seconds:"
    case 3 => "### OCR results for frame " + "3" + " at " + "60" + " seconds:"
    case 4 => "### OCR results for frame " + "4" + " at " + "90" + " seconds:"
    case 5 => "### OCR results for frame " + "5" + " at " + "120" + " seconds:"
    case 6 => "### OCR results for frame " + "6" + " at " + "150" + " seconds:"
    case _ => ""
  }

  /** The numerals the headings use. */
  lemma HeadingNumerals()
    ensures NatToString(1) == "1" && NatToString(2) == "2" && NatToString(3) == "3"
    ensures NatToString(4) == "4" && NatToString(5) == "5" && NatToString(6) == "6"
    ensures NatToString(0) == "0" && NatToString(30) == "30" && NatToString(60) == "60" && NatToString(90) == "90"
    ensures NatToString(120) == "120" && NatToString(150) == "150"
  {
    assert NatToString(3) == "3" && NatToString(6) == "6" && NatToString(9) == "9";
    assert NatToString(12) == "12" && NatToString(15) == "15";
  }

  /**
   * The written-out headings name their frame and the second it was taken
   * at: frame `k` at `(k - 1) * FrameInterval` seconds, the spacing the
   * preprocessing stage samples keyframes with.
   */
  lemma OcrHeadingsFollowFrames(k: nat)
    requires 1 <= k <= SlotCount
    ensures OcrHeading(k) ==
      "### OCR results for frame " + NatToString(k) + " at " + NatToString((k - 1) * FrameInterval) + " seconds:"
  {
    HeadingNumerals();
  }

  /** Frame 1's part of the context: its analysis, then its OCR text under its heading. */
  function OpeningBlock(analysis: string, heading: string, ocr: string): string {
    "\n\n" + Indent8 + analysis + "\n\n" + Indent8 + heading + "\n" + Indent8 + "\n" +
    Indent8 + ocr + "\n" + Indent12 + "\n" + Indent8
  }

  /** The part appended for a later frame, with the deeper indentation of its template. */
  function FollowingBlock(analysis: string, heading: string, ocr: string): string {
    "\n" + Indent12 + "\n" + Indent12 + analysis + "\n" + Indent24 + "\n" + Indent12 + heading + "\n" +
    Indent12 + "\n" + Indent12 + ocr + "\n" + Indent12 + "\n" + Indent12
  }

  /** Frames 2..n whose analysis is not empty, in ascending order. */
  function Present(analyses: Slots, n: nat): (ks: seq<nat>)
    ensures |ks| <= n
    decreases n
  {
    if n < 2 then []
    else Present(analyses, n - 1) + (if SlotAt(analyses, n) != "" then [n] else [])
  }

  /** `Present` lists exactly the frames 2..n with an analysis, each once and in ascending order. */
  lemma {:induction false} PresentExactly(analyses: Slots, n: nat)
    ensures forall k :: k in Present(analyses, n) <==> 2 <= k <= n && SlotAt(analyses, k) != ""
    ensures forall i, j :: 0 <= i < j < |Present(analyses, n)| ==> Present(analyses, n)[i] < Present(analyses, n)[j]
    decreases n
  {
    if n >= 2 {
      PresentExactly(analyses, n - 1);
      var before := Present(analyses, n - 1);
      forall i | 0 <= i < |before| ensures before[i] < n {
        assert before[i] in before;
      }
    }
  }

  /** The blocks of frames `ks`, one after the other, each as `block` writes it. */
  function Following(block: nat -> string, ks: seq<nat>): string
    decreases |ks|
  {
    if ks == [] then "" else Following(block, ks[..|ks| - 1]) + block(ks[|ks| - 1])
  }

  /** The block appended for frame `k`. */
  function LaterBlock(analyses: Slots, ocr: Slots): nat -> string {
    (k: nat) => FollowingBlock(SlotAt(analyses, k), OcrHeading(k), SlotAt(ocr, k))
  }

  /**
   * The frame context: frame 1's block, present or not, then the block of
   * every later frame with an analysis, in frame order.
   */
  function FrameContext(analyses: Slots, ocr: Slots): string {
    OpeningBlock(SlotAt(analyses, 1), OcrHeading(1), SlotAt(ocr, 1)) +
    Following(LaterBlock(analyses, ocr), Present(analyses, SlotCount))
  }

  /** Going from frame `k - 1` to frame `k` appends frame `k`'s block exactly when it has an analysis. */
  lemma FollowingStep(block: nat -> string, analyses: Slots, k: nat)
    requires k >= 2
    ensures Following(block, Present(analyses, k)) ==
      Following(block, Present(analyses, k - 1)) + (if SlotAt(analyses, k) != "" then block(k) else "")
  {
    var before := Present(analyses, k - 1);
    if SlotAt(analyses, k) != "" {
      var ks := before + [k];
      assert ks[..|ks| - 1] == before;
    } else {
      assert Present(analyses, k) == before;
    }
  }

  /** Two blocks one after the other. */
  lemma FollowingPair(block: nat -> string, j: nat, k: nat)
    ensures Following(block, [j, k]) == block(j) + block(k)
  {
    assert [j, k][..1] == [j] && [j][..0] == [];
    assert Following(block, [j]) == block(j);
  }

  /** Moving on to frame `k` keeps the context equal to frame 1's block followed by the blocks of frames 2..k. */
  lemma ExtendContext(opening: string, block: nat -> string, analyses: Slots, k: nat, before: string, after: string)
    requires k >= 2
    requires before == opening + Following(block, Present(analyses, k - 1))
    requires after == before + (if SlotAt(analyses, k) != "" then block(k) else "")
    ensures after == opening + Following(block, Present(analyses, k))
  {
    FollowingStep(block, analyses, k);
  }

  /** Without later analyses the context is frame 1's block alone, even when frame 1 has no analysis. */
  lemma FrameContextOpening(analyses: Slots, ocr: Slots)
    requires forall k :: 2 <= k <= SlotCount ==> SlotAt(analyses, k) == ""
    ensures FrameContext(analyses, ocr) == OpeningBlock(SlotAt(analyses, 1), OcrHeading(1), SlotAt(ocr, 1))
  {
    PresentExactly(analyses, SlotCount);
    assert Present(analyses, SlotCount) == [];
  }

  /** With analyses for frames 1, 2 and 4 only, the context holds the blocks of 1, 2 and 4, in that order. */
  lemma FrameContextOneTwoFour(analyses: Slots, ocr: Slots)
    requires |analyses| == SlotCount
    requires analyses[0] != "" && analyses[1] != "" && analyses[3] != ""
    requires analyses[2] == "" && analyses[4] == "" && analyses[5] == ""
    ensures FrameContext(analyses, ocr) ==
      OpeningBlock(SlotAt(analyses, 1), OcrHeading(1), SlotAt(ocr, 1)) +
      LaterBlock(analyses, ocr)(2) + LaterBlock(analyses, ocr)(4)
  {
    var block := LaterBlock(analyses, ocr);
    assert Present(analyses, SlotCount) == [2, 4];
    FollowingPair(block, 2, 4);
  }

  /**
   * One `if frame_analysis_k:` block of the source: append frame `k`'s block
   * when its analysis is not empty. Given the context of frames up to
   * `k - 1`, it leaves the context of frames up to `k`.
   */
  method AppendFrame(context: string, analyses: Slots, ocr: Slots, k: nat, ghost opening: string) returns (extended: string)
    requires k >= 2 && context == opening + Following(LaterBlock(analyses, ocr), Present(analyses, k - 1))
    ensures extended == opening + Following(LaterBlock(analyses, ocr), Present(analyses, k))
  {
    extended := context;
    if SlotAt(analyses, k) != "" {
      extended := context + FollowingBlock(SlotAt(analyses, k), OcrHeading(k), SlotAt(ocr, k));
    }
    ExtendContext(opening, LaterBlock(analyses, ocr), analyses, k, context, extended);
  }

  /**
   * The context assembled as the source does: frame 1's block, then one
   * `if` per frame 2..6 that appends the frame's block when its analysis is
   * not empty.
   */
  method BuildFrameContext(analyses: Slots, ocr: Slots) returns (context: string)
    ensures context == FrameContext(analyses, ocr)
  {
    var opening := OpeningBlock(SlotAt(analyses, 1), OcrHeading(1), SlotAt(ocr, 1));
    context := opening;
    assert context == opening + Following(LaterBlock(analyses, ocr), Present(analyses, 1));
    context := AppendFrame(context, analyses, ocr, 2, opening);
    context := AppendFrame(context, analyses, ocr, 3, opening);
    context := AppendFrame(context, analyses, ocr, 4, opening);
    context := AppendFrame(context, analyses, ocr, 5, opening);
    context := AppendFrame(context, analyses, ocr, 6, opening);
  }

  // --------------------------------------------------------- user prompt

  /** The four fixed pieces of the template, around the three values it splices in. */
  datatype Piece = Head | BeforeMetadata | BeforeTranscript | Tail

  function PromptText(piece: Piece): string {
    match piece
    case Head =>
      "### **User Prompt**:\n" + "\n" + "    **Data for Analysis**:\n" + "\n" +
      "    1. **Multimodal Llama And EasyOCR " + "Frame Analysis Results (1-6 Frames)**:\n" + "    ```\n" + "    "
    case BeforeMetadata =>
      "\n    ```\n" + "\n" + "    2. **TikTok Metadata**:\n" + "    ```\n" + "    "
    case BeforeTranscript =>
      "\n    ```\n" + "   \n" + "    3. **Whisper Transcript**:\n" + "    ```\n" + "    "
    case Tail =>
      "\n    ```\n" + "        \n" + "    ### **Task**:\n" +
      "    Utilize the provided data " + "(**frame analysis**, **metadata** " + "and **transcript**) to conduct " +
      "a comprehensive political analysis " + "of the TikTok video.\n" + "    "
  }

  /** `get_llama_summary_user_prompt(metadata, transcript, frame_analysis)`. */
  function UserPrompt(frameAnalysis: string, metadata: string, transcript: string): string {
    PromptText(Head) + frameAnalysis + PromptText(BeforeMetadata) + metadata + PromptText(BeforeTranscript) + transcript + PromptText(Tail)
  }

  /** Splicing three values into four fixed pieces puts each value at its own offset, in order. */
  lemma Spliced(h: string, a: string, m1: string, b: string, m2: string, c: string, t: string)
    ensures var s := h + a + m1 + b + m2 + c + t;
            var i := |h|;
            var j := i + |a| + |m1|;
            var k := j + |b| + |m2|;
            |s| == k + |c| + |t| && s[i..i + |a|] == a && s[j..j + |b|] == b && s[k..k + |c|] == c
  {
    var s := h + a + m1 + b + m2 + c + t;
    assert s == h + (a + (m1 + (b + (m2 + (c + t)))));
  }

  /**
   * The prompt carries the frame analysis, the metadata and the transcript
   * verbatim, in that order, at offsets fixed by the lengths of the values
   * before them.
   */
  lemma UserPromptEmbeds(frameAnalysis: string, metadata: string, transcript: string)
    ensures var p := UserPrompt(frameAnalysis, metadata, transcript);
            var i := |PromptText(Head)|;
            var j := i + |frameAnalysis| + |PromptText(BeforeMetadata)|;
            var k := j + |metadata| + |PromptText(BeforeTranscript)|;
            i < j <= k && k + |transcript| <= |p| &&
            p[i..i + |frameAnalysis|] == frameAnalysis && p[j..j + |metadata|] == metadata &&
            p[k..k + |transcript|] == transcript
  {
    Spliced(PromptText(Head), frameAnalysis, PromptText(BeforeMetadata), metadata, PromptText(BeforeTranscript), transcript, PromptText(Tail));
  }

  // ---------------------------------------------------------- the stage

  /** The stage's external capabilities. */
  datatype Services = Services(
    localTime: string -> string,          // time.strftime('%Y-%m-%d %H:%M:%S', time.localtime(t))
    generate: string -> Option<string>)   // the chat model, given the user prompt

  /** The metadata of a row, as this stage writes it. */
  function RowMetadata(r: Row, env: Services): string {
    Metadata(r, env.localTime(r.info.timestamp))
  }

  /** The user prompt of a row. */
  function RowPrompt(r: Row, env: Services): string {
    UserPrompt(FrameContext(r.frameAnalysis, r.ocr), RowMetadata(r, env), r.whisperResult)
  }

  /** The metadata each row receives. */
  function MetadataOf(env: Services): Row -> string {
    r => RowMetadata(r, env)
  }

  /** The model's answer to each row's prompt. */
  function AnswerOf(env: Services): Row -> Option<string> {
    r => env.generate(RowPrompt(r, env))
  }

  /** A hit: the metadata is written, and the stored report is copied. */
  function HitFrom(metadata: Row -> string): (Row, string) -> Row
  {
    (r: Row, e: string) => r.(metadata := metadata(r), summary := e)
  }

  /** A miss: the metadata is written, and the report is written and stored only when the model answers. */
  function MissFrom(metadata: Row -> string, answer: Row -> Option<string>): Row -> Miss<string>
  {
    r => match answer(r)
         case None => Miss(r.(metadata := metadata(r)), None)
         case Some(report) => Miss(r.(metadata := metadata(r), summary := report), Some(report))
  }

  /** A hit writes the metadata and copies the stored report, and changes no other column. */
  lemma HitColumns(metadata: Row -> string, r: Row, e: string)
    ensures var h := HitFrom(metadata)(r, e);
            h.(metadata := r.metadata, summary := r.summary) == r && h.metadata == metadata(r) && h.summary == e
  {
  }

  /**
   * A miss writes the metadata and changes no other column but the report; it
   * stores an entry exactly when the model answers, and the report written is
   * the one stored. Without an answer the report column keeps its text.
   */
  lemma MissColumns(metadata: Row -> string, answer: Row -> Option<string>, r: Row)
    ensures var m := MissFrom(metadata, answer)(r);
            m.row.(metadata := r.metadata, summary := r.summary) == r && m.row.metadata == metadata(r) &&
            (m.entry.Some? <==> answer(r).Some?) &&
            (m.entry.Some? ==> m.row.summary == m.entry.value == answer(r).value) &&
            (m.entry.None? ==> m.row.summary == r.summary)
  {
  }

  /** The per-row results of this stage: the metadata it writes, the frame context it assembles, and the model's answer. */
  datatype Plan = Plan(metadata: Row -> string, context: Row -> string, answer: Row -> Option<string>)

  /** The stage's own per-row results under `env`. */
  function PlanOf(env: Services): Plan {
    Plan(MetadataOf(env), (r: Row) => FrameContext(r.frameAnalysis, r.ocr), AnswerOf(env))
  }

  /**
   * `plan` gives this stage's per-row results under `env`. The methods below
   * are stated over such a plan, which keeps the text of the templates out of
   * the reasoning about the loop; `PlanOf(env)` is one.
   */
  ghost predicate Plans(plan: Plan, env: Services) {
    (forall r {:trigger RowMetadata(r, env)} :: plan.metadata(r) == RowMetadata(r, env)) &&
    (forall r {:trigger FrameContext(r.frameAnalysis, r.ocr)} :: plan.context(r) == FrameContext(r.frameAnalysis, r.ocr)) &&
    (forall r {:trigger RowPrompt(r, env)} :: plan.answer(r) == env.generate(RowPrompt(r, env)))
  }

  /** The functions that compute the metadata, the context and the answer are such a plan. */
  lemma PlansOfServices(env: Services)
    ensures Plans(PlanOf(env), env)
  {
  }

  /** The rows that have a transcript, with the report column emptied; there is no language filter. */
  function SelectRows(table: seq<Row>): (rows: seq<Row>)
    ensures forall x :: x in rows ==> x.whisperResult != "" && x.summary == ""
    ensures forall r :: r in table && r.whisperResult != "" ==> r.(summary := "") in rows
  {
    SelectMembers(table, HasTranscript, Cleared);
    Select(table, HasTranscript, Cleared)
  }

  /** A row this stage works on: it has a transcript, whatever its language. */
  predicate HasTranscript(r: Row) {
    r.whisperResult != ""
  }

  /** A row with the report column emptied. */
  function Cleared(r: Row): Row {
    r.(summary := "")
  }

  /**
   * The selection keeps the table's order and multiplicity: no rows from an
   * empty table, and each further row adds its emptied copy at the end exactly
   * when it has a transcript.
   */
  lemma SelectRowsInOrder(table: seq<Row>, r: Row)
    ensures SelectRows([]) == []
    ensures SelectRows(table + [r]) == SelectRows(table) + (if HasTranscript(r) then [Cleared(r)] else [])
  {
    SelectSnoc(table, r, HasTranscript, Cleared);
  }

  /**
   * Every row leaves the pass with its metadata written, whether its report
   * was copied, generated or not produced at all.
   */
  lemma MetadataOnEveryRow(rows: seq<Row>, st: seq<StoreRow<string>>, metadata: Row -> string, answer: Row -> Option<string>)
    ensures forall i :: 0 <= i < |rows| ==>
      Run(rows, st, HitFrom(metadata), MissFrom(metadata, answer)).rows[i].metadata == metadata(rows[i])
  {
    forall i | 0 <= i < |rows|
      ensures Run(rows, st, HitFrom(metadata), MissFrom(metadata, answer)).rows[i].metadata == metadata(rows[i])
    {
      RunRowAt(rows, st, HitFrom(metadata), MissFrom(metadata, answer), i);
    }
  }

  /** Running the stage a second time, against the store the first pass left, changes neither the table nor the store. */
  lemma SummaryRerun(rows: seq<Row>, st: seq<StoreRow<string>>, metadata: Row -> string, answer: Row -> Option<string>)
    requires DistinctKeys(rows)
    ensures var p1 := Run(rows, st, HitFrom(metadata), MissFrom(metadata, answer));
            Run(rows, p1.store, HitFrom(metadata), MissFrom(metadata, answer)).rows == p1.rows &&
            Run(rows, p1.store, HitFrom(metadata), MissFrom(metadata, answer)).store == p1.store
  {
    RunIdempotent(rows, st, HitFrom(metadata), MissFrom(metadata, answer));
  }

  /**
   * A record that is not stored yet gets an entry exactly when the model
   * answers its prompt; without an answer its report stays as it was and
   * only the metadata is written.
   */
  lemma SummaryOutcome(rows: seq<Row>, st: seq<StoreRow<string>>, metadata: Row -> string, answer: Row -> Option<string>, i: nat)
    requires DistinctKeys(rows) && i < |rows|
    requires Find(st, RowKey(rows[i])).None?
    ensures Find(Run(rows, st, HitFrom(metadata), MissFrom(metadata, answer)).store, RowKey(rows[i])) == answer(rows[i])
    ensures Run(rows, st, HitFrom(metadata), MissFrom(metadata, answer)).rows[i] ==
      rows[i].(metadata := metadata(rows[i]), summary := answer(rows[i]).GetOr(rows[i].summary))
  {
    StoreAfterRun(rows, st, HitFrom(metadata), MissFrom(metadata, answer), i);
    RunPointwise(rows, st, HitFrom(metadata), MissFrom(metadata, answer));
  }

  /** `df.at[index, 'metadata'] = str(metadata)`. */
  method SetMetadata(rows: array<Row>, i: nat, metadata: string)
    requires i < rows.Length
    modifies rows
    ensures rows[..] == old(rows[..])[i := old(rows[i]).(metadata := metadata)]
  {
    var current := rows[i];
    rows[i] := current.(metadata := metadata);
  }

  /** `df.at[index, 'summary_analysis'] = str(summary_analysis)`. */
  method SetSummary(rows: array<Row>, i: nat, report: string)
    requires i < rows.Length
    modifies rows
    ensures rows[..] == old(rows[..])[i := old(rows[i]).(summary := report)]
  {
    var current := rows[i];
    rows[i] := current.(summary := report);
  }

  /** The metadata block of a row, with its creation time formatted by the local clock. */
  method BuildMetadata(r: Row, env: Services, ghost plan: Plan) returns (metadata: string)
    requires Plans(plan, env)
    ensures metadata == plan.metadata(r)
  {
    var timestamp := env.localTime(r.info.timestamp);
    metadata := Metadata(r, timestamp);
    assert metadata == RowMetadata(r, env);
  }

  /** The frame context of a row, from its frame-analysis and OCR columns. */
  method RowFrameContext(r: Row, env: Services, ghost plan: Plan) returns (context: string)
    requires Plans(plan, env)
    ensures context == plan.context(r)
  {
    context := BuildFrameContext(r.frameAnalysis, r.ocr);
  }

  /** The miss branch's call to the model, with the prompt built from the row's context, metadata and transcript. */
  method Summarize(r: Row, context: string, metadata: string, env: Services, ghost plan: Plan)
    returns (report: Option<string>)
    requires Plans(plan, env)
    requires context == plan.context(r) && metadata == plan.metadata(r)
    ensures report == plan.answer(r)
  {
    assert metadata == RowMetadata(r, env);
    assert context == FrameContext(r.frameAnalysis, r.ocr);
    var prompt := UserPrompt(context, metadata, r.whisperResult);
    report := env.generate(prompt);
    assert prompt == RowPrompt(r, env);
  }

  /** One iteration of `analyze_videos`: write the metadata, assemble the context, then copy or generate the report. */
  method ProcessRow(rows: array<Row>, i: nat, store: Store<string>, env: Services, ghost plan: Plan)
    returns (invoked: bool)
    requires i < rows.Length && Plans(plan, env)
    modifies rows, store
    ensures var v := Step(old(rows[i]), old(store.rows), HitFrom(plan.metadata), MissFrom(plan.metadata, plan.answer));
            rows[..] == old(rows[..])[i := v.row] && store.rows == v.store && invoked == v.invoked
  {
    var r := rows[i];
    var key := RowKey(r);
    var metadata := BuildMetadata(r, env, plan);
    SetMetadata(rows, i, metadata);
    var context := RowFrameContext(r, env, plan);
    var cached := store.Get(key);
    if cached.Some? {
      SetSummary(rows, i, cached.value);
      return false;
    }
    invoked := true;
    var report := Summarize(r, context, metadata, env, plan);
    if report.None? {
      return;
    }
    store.Insert(key, report.value);
    SetSummary(rows, i, report.value);
  }

  /** The loop of `analyze_videos` over the selected rows, updating them in place. */
  method ProcessTable(rows: array<Row>, store: Store<string>, env: Services, ghost plan: Plan)
    returns (invoked: seq<Key>)
    requires Plans(plan, env)
    modifies rows, store
    ensures var p := Run(old(rows[..]), old(store.rows), HitFrom(plan.metadata), MissFrom(plan.metadata, plan.answer));
            rows[..] == p.rows && store.rows == p.store && invoked == p.invoked
  {
    ghost var hit := HitFrom(plan.metadata);
    ghost var miss := MissFrom(plan.metadata, plan.answer);
    ghost var input := rows[..];
    ghost var st := store.rows;
    ghost var done := Run(input[..0], st, hit, miss);
    invoked := [];
    var i := 0;
    while i < rows.Length
      invariant 0 <= i <= rows.Length
      invariant done == Run(input[..i], st, hit, miss)
      invariant rows[i..] == input[i..]
      invariant rows[..i] == done.rows && store.rows == done.store && invoked == done.invoked
    {
      RunSnoc(input, st, hit, miss, i);
      ghost var before := rows[..];
      ghost var v := Step(input[i], done.store, hit, miss);
      var key := RowKey(rows[i]);
      assert rows[i] == rows[i..][0] == input[i..][0] == input[i];
      var called := ProcessRow(rows, i, store, env, plan);
      UpdateExtendsPrefix(before, rows[..], input, i, v.row);
      if called {
        invoked := invoked + [key];
      }
      done := Pass(done.rows + [v.row], v.store, if v.invoked then done.invoked + [key] else done.invoked);
      i := i + 1;
    }
    assert input[..i] == input;
  }

  /** `analyze_videos(language)` for this stage: select the rows, then run the loop over them. */
  method AnalyzeVideos(table: seq<Row>, store: Store<string>, env: Services)
    returns (output: seq<Row>, invoked: seq<Key>)
    modifies store
    ensures var p := Run(SelectRows(table), old(store.rows), HitFrom(MetadataOf(env)), MissFrom(MetadataOf(env), AnswerOf(env)));
            output == p.rows && store.rows == p.store && invoked == p.invoked
  {
    var selected := SelectRows(table);
    var rows := new Row[|selected|](i requires 0 <= i < |selected| => selected[i]);
    assert rows[..] == selected;
    PlansOfServices(env);
    invoked := ProcessTable(rows, store, env, PlanOf(env));
    output := rows[..];
  }
}
