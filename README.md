# Restartable stages of the TikTok video-annotation pipeline

The pipeline runs three batch scripts in turn, one language at a time. Each
script walks the rows of that language's video table in order. It caches
what it computes in its own SQLite table, keyed by `(author_username,
video_id)`, so a rerun does not repeat work for records it already finished.

- **Preprocessing** (`puhti_preprocess.py`) does four things per record:
  - It samples up to six keyframes, one every 30 seconds in the first 180 seconds.
  - It reads the on-screen text of each keyframe into `ocr_1`..`ocr_6`.
  - It transcribes the speech.
  - It translates the first 3000 characters of the transcript.
- **Frame analysis** (`puhti_frame.py`) asks a vision model to describe every keyframe listed in `frame_files`. It writes a labelled block per frame into `frame_analysis_1`..`frame_analysis_6`.
- **Summary** (`puhti_summary.py`) does three things per record:
  - It writes a metadata block: author, counters, URLs and hashtags.
  - It assembles a frame context from the frame analyses and OCR texts.
  - It puts both, with the transcript, into a user prompt and asks a model for a report.

## How the model is built

All three stages share one loop: look the record up in the store, copy the
stored columns on a hit, and on a miss compute the columns and store them
when the whole record succeeded. The model follows that structure.

- `Stores` (`stores.dfy`) models a stage's SQLite table.
  - `Stores.Store` is a class whose `rows` field is an append-only sequence of `(key, entry)` rows.
  - `Find` returns the first row with the key, as `fetchone()` does.
  - The tables have no unique constraint. "At most one row per key" (`Unique`) is therefore a property the loop keeps, not something the store enforces. For that reason the store is a sequence rather than a map.
- `Records` (`records.dfy`) models one row of the CSV table.
  - It is a datatype with the columns every stage reads or writes.
  - The six numbered columns of one kind form a sequence `Slots`.
  - `Select` models `dropna`, the language filter and the stage's column reset.
- `Stage` (`stage.dfy`) holds the shared loop as a specification.
  - `Step` is one record's look-up, then copy or compute.
  - `Run` is a pass over the rows.
  - The stage's columns on a hit are a function `hit`. The miss branch is a function `miss` that returns the row it leaves and the entry it stores, if any.
  - The lemmas there state what every pass promises: the properties listed in the table below.
- `Preprocess`, `Frame` and `Summary` each model their stage in the same way.
  - Each gives its own `hit` and `miss`, the latter as a pure function `Compute`.
  - Each has an imperative `ProcessRow` that works in place on an `array<Row>` and a `Store`. It is proved to perform `Step`.
  - Each has a `ProcessTable` loop proved to perform `Run`.
  - Each has an `AnalyzeVideos` that selects the rows and runs the loop.
- External services are function values that may fail (`Option`):
  - the file-existence check;
  - the duration probe, after `int(frame_count / fps)`;
  - EasyOCR, Whisper and the translator;
  - the vision model and the summary model;
  - the local-time formatter.
  Each is a plain function of its input, so a second pass sees the same answers. Reruns are stated under that assumption.
- In the summary stage the methods take a ghost `Plan`.
  - A `Plan` names the per-row metadata, frame context and model answer.
  - The predicate `Plans(plan, env)` ties it to the stage's own functions, and `PlanOf(env)` is such a plan.
  - This keeps the long template texts out of the proofs about the loop. `AnalyzeVideos` states its result with `PlanOf(env)`.

### Behaviour of the code worth knowing

Each point below is what the code does, which is not always what its
comments or the rest of the pipeline would suggest. The model follows the code.

- **Frame analysis, failed description.**
  - `get_analysis` catches the model's exception and then returns `frame_analysis`, which was never bound (`puhti_frame.py:85-96`). That raises again in the caller.
  - The record is abandoned: frames before the failure are already written into the row, and nothing is stored (`puhti_frame.py:172-173`; `Frame.DescribeRecord`, `Frame.FramePartialFailure`).
- **Summary, frame 1's block.** The opening block for frame 1 is emitted unconditionally, even when its analysis is empty (`puhti_summary.py:211-219`). Only frames 2..6 are guarded by `if frame_analysis_k:`.
- **Summary, language filter.**
  - The comment `# Take only rows where language is fi` (`puhti_summary.py:154`) has no code under it.
  - The stage takes every row of the language's file that has a transcript (`puhti_summary.py:152-155`). The other two stages do filter on the `language` column (`puhti_preprocess.py:109`, `puhti_frame.py:111`).
- **Preprocessing, `frame_files` column.**
  - A miss writes `','.join(frame_files)` into the row (`puhti_preprocess.py:174`).
  - The store keeps `str(frame_files)` (`puhti_preprocess.py:171`), and a hit copies that back (`puhti_preprocess.py:123`).
  - A rerun therefore changes `frame_files` of exactly the records first computed in the previous pass. `Preprocess.PreprocessRerun` states this.
- **Summary, metadata column.** The metadata column is written before the cache check. It is filled on hits and misses alike (`puhti_summary.py:197`).

## Model

| member | source | states |
|---|---|---|
| Strings.NatToString | puhti_preprocess.py:49 | `str(k)` of a frame number is a non-empty run of decimal digits, without a leading zero unless `k` is 0 |
| Strings.NatToStringRoundTrip | puhti_frame.py:143-146 | reading back the digits of `str(n)` gives `n` |
| Strings.NatToStringInjective | puhti_preprocess.py:49 | different numbers give different `str(n)` |
| Strings.Split | puhti_frame.py:133 | `s.split(',')` has at least one piece and no piece contains the separator |
| Strings.JoinSplit | puhti_frame.py:133 | joining the pieces of `s.split(c)` with `c` gives `s` back |
| Strings.SplitJoin | puhti_preprocess.py:174 | splitting a `c.join` of parts free of `c` gives the parts back |
| Strings.JoinFree | puhti_summary.py:175 | a character in neither the separator nor any part is not in the join |
| Strings.Words | puhti_summary.py:174 | every token of `str.split()` is non-empty and contains no whitespace |
| Strings.WordsOfJoin | puhti_summary.py:174 | `str.split()` of tokens joined by single blanks gives the tokens back |
| Strings.StripWord | puhti_summary.py:174 | `strip()` leaves a token of `str.split()` unchanged |
| Strings.Prefix | puhti_preprocess.py:86 | `s[:n]` has exactly `min(n, len(s))` characters and is that leading part of `s`, so all of `s` when it is shorter |
| Strings.PrefixDependsOnlyOnPrefix | puhti_preprocess.py:86 | strings that agree on their first `n` characters have the same `s[:n]` |
| Stores.FindFindsAnyRow | puhti_preprocess.py:117-118 | the look-up succeeds exactly when some stored row has the key |
| Stores.FindUnique | puhti_preprocess.py:121-122 | when no key is stored twice, the look-up returns the one row stored for the key |
| Stores.InsertAbsentKeepsUnique | puhti_preprocess.py:171 | inserting a key that the look-up did not find keeps at most one row per key |
| Stores.FindAppendPresent | puhti_preprocess.py:171-172 | rows inserted later never change what the look-up returns for a key already stored |
| Stores.FindAppendMissing | puhti_preprocess.py:171-172 | for a key missing from the old rows, the look-up answers from the rows inserted later |
| Stores.Store.constructor | puhti_preprocess.py:25-37 | a new table has no rows |
| Stores.Store.Insert | puhti_preprocess.py:171-172 | an insert appends exactly one row and changes none of the others |
| Records.Overlay | puhti_frame.py:150-167 | column `k` takes value `k` when there is one and keeps its old text otherwise; values beyond the last column are dropped |
| Records.FillSlots | puhti_preprocess.py:155-166 | column `k` (1..6) holds value `k` when there is one and `''` otherwise |
| Records.FillSlotsSnoc | puhti_preprocess.py:155-167 | adding frame `k`'s text sets column `k` when `k` is at most 6 and changes nothing otherwise |
| Records.OverlaySnoc | puhti_frame.py:150-168 | adding frame `k`'s block replaces column `k` when there is one and changes nothing otherwise |
| Records.SelectMembers | puhti_preprocess.py:97-109 | every selected row is the reset copy of a kept table row, and every kept row's reset copy is selected |
| Records.SelectAppend | puhti_preprocess.py:97-110 | selection keeps the table's order: selecting from two runs of rows gives the selection of the first followed by that of the second |
| Records.SelectSnoc | puhti_preprocess.py:97-110 | nothing is selected from an empty table, and each further row adds its reset copy at the end exactly when it is kept; this fixes the result, order and multiplicity included |
| Stage.Step | puhti_preprocess.py:117-172 | one record: the analyzers run exactly when its key is not stored; the store grows by at most one row and keeps its old rows; afterwards the key finds the old entry if there was one and otherwise exactly the entry the computation produced |
| Stage.Run | puhti_preprocess.py:110-187 | a pass gives one row per input row; the store only grows, by at most one row per record, and keeps its old rows as they were |
| Stage.RunSnoc | puhti_preprocess.py:110 | processing one more record performs that record's look-up against the store left by the records before it |
| Stage.RunRowAt | puhti_frame.py:112-117 | the row of record `i` is its look-up, then copy or compute, against the store left by records `0..i-1` |
| Stage.RunKeepsUnique | puhti_preprocess.py:117-118 | since an insert follows only a failed look-up, a pass never stores a second row for a key |
| Stage.RunKeepsEntries | puhti_preprocess.py:171-172 | entries stored before a pass are what the look-up still returns after it |
| Stage.RunAllCached | puhti_preprocess.py:117-132 | when every record is stored, no analyzer runs, nothing is inserted, and every row is copied from its entry |
| Stage.RunInvokesOnlyMissing | puhti_frame.py:116-128 | the analyzers run only for records whose key was not stored before the pass |
| Stage.RunHitRow | puhti_summary.py:284-290 | a record stored before the pass is copied from its entry and no analyzer runs for it |
| Stage.Inserted | puhti_preprocess.py:171 | the entries a pass would insert if each record were looked up in the initial store alone; each belongs to one of the rows |
| Stage.Absent | puhti_preprocess.py:133 | the keys of the records missing from the initial store: all of them, and only those |
| Stage.RunPointwise | puhti_preprocess.py:110-187 | with distinct keys, a pass appends the entries of the missing records, runs exactly their analyzers, and leaves each row as if it were processed alone, so one record's failure never affects another |
| Stage.RunStoreInvoked | puhti_preprocess.py:117-172 | with distinct keys, the store after a pass is the initial store plus the successful missing records' entries, in order, and the analyzers run exactly for the missing records |
| Stage.RunRowsPointwise | puhti_frame.py:112-173 | with distinct keys, each output row is that record's look-up, then copy or compute, against the initial store |
| Stage.RunRowAgainstInitial | puhti_frame.py:116-117 | with distinct keys, the rows before record `i` never store its key |
| Stage.LastKeyNotInserted | puhti_preprocess.py:171 | with distinct keys, no entry inserted for the earlier records carries the last record's key |
| Stage.StepSameLookup | puhti_preprocess.py:117-118 | a record's outcome depends on the store only through the look-up of its own key |
| Stage.InsertedFind | puhti_preprocess.py:171 | with distinct keys, the entry inserted for a missing record is the one its own computation produced |
| Stage.StoreAfterRun | puhti_summary.py:284-298 | after a pass, a record's key finds what was stored before if anything was, and otherwise exactly the entry its own computation produced; a failed record has none |
| Stage.InsertedNone | puhti_preprocess.py:186-187 | when every missing record fails, a pass inserts nothing |
| Stage.Rerun | puhti_preprocess.py:117-132 | a second pass against the store the first left inserts nothing; it runs the analyzers exactly for the records that failed, and copies the first pass's entry into every record first computed in that pass |
| Stage.RerunLookups | puhti_preprocess.py:117-172 | after a first pass, each record's key finds its earlier entry, or else the entry its own computation produced |
| Stage.RerunStore | puhti_preprocess.py:117-172 | a second pass against the store the first left inserts nothing |
| Stage.RerunInvoked | puhti_preprocess.py:117-136 | a second pass runs the analyzers exactly for the records whose computation failed in the first |
| Stage.RerunRows | puhti_preprocess.py:117-132 | a second pass copies the first pass's new entries into their records and repeats every other row |
| Stage.RunIdempotent | puhti_frame.py:116-171 | when a stored entry copied back gives the same row as computing it, a second pass changes neither the rows nor the store |
| Preprocess.FrameCountBounds | puhti_preprocess.py:66-69 | at most six keyframes, each taken strictly within the capped duration |
| Preprocess.SampleTimes | puhti_preprocess.py:65-69 | `range(0, duration, 30)` after the cap: at most six times, time `i` is `30*i` and lies strictly below the capped duration |
| Preprocess.SampleTimesExact | puhti_preprocess.py:65-69 | keyframes are taken at exactly the multiples of 30 strictly below `min(duration, 180)`, so there are at most six |
| Preprocess.SampleTimesOf75 | puhti_preprocess.py:65-69 | a 75-second video gives keyframes at 0, 30 and 60 seconds |
| Preprocess.SampleTimesOfLong | puhti_preprocess.py:66-69 | a video of 180 seconds or more gives keyframes at 0, 30, 60, 90, 120 and 150 seconds |
| Preprocess.KeyframePath | puhti_preprocess.py:46-49 | a keyframe file is a `.jpg` inside `./Keyframes/TikTok/{author}/{video}/` |
| Preprocess.KeyframePathInjective | puhti_preprocess.py:46-49 | different frame numbers of one video never share a keyframe file |
| Preprocess.KeyframePaths | puhti_preprocess.py:46-49 | one `./Keyframes/TikTok/{author}/{video}/{k}.jpg` per sampled time |
| Preprocess.GetKeyframes | puhti_preprocess.py:55-73 | keyframe `k` is numbered `k`, is taken at `(k-1)*30` seconds with a seek of that many thousand milliseconds, and its file name does not depend on whether the frame could be read |
| Preprocess.Lines | puhti_preprocess.py:151-154 | the OCR text has at least one character per detection and, when anything was detected, ends with a line break |
| Preprocess.LinesSnoc | puhti_preprocess.py:152-154 | each further detection appends its text and one `'\n'` |
| Preprocess.LinesAsJoin | puhti_preprocess.py:151-154 | a frame's OCR text is its detections joined by `'\n'`, with a final `'\n'` |
| Preprocess.LinesRoundTrip | puhti_preprocess.py:151-154 | detections without line breaks are recovered by splitting the text on `'\n'`; the text is `''` exactly when nothing was detected |
| Preprocess.OcrText | puhti_preprocess.py:151-154 | the loop builds exactly that concatenation |
| Preprocess.OcrAll | puhti_preprocess.py:148-154 | the OCR of a record succeeds exactly when every frame is read, and then gives frame `k`'s text in position `k` |
| Preprocess.OcrAllSnoc | puhti_preprocess.py:148-154 | reading one more frame extends the texts, or fails with that frame |
| Preprocess.OcrAllStops | puhti_preprocess.py:150 | one failing read fails the whole record |
| Preprocess.OcrFrames | puhti_preprocess.py:141-167 | the slot loop fails exactly when some read fails, and otherwise leaves frame `k`'s text in `ocr_k` and `''` in slots without a frame |
| Preprocess.GetTranscript | puhti_preprocess.py:75-90 | errors are swallowed: a failed transcription leaves all three fields `''`; otherwise text and language are kept, and the translation is the translator's answer for the language and the first 3000 characters, or `''` when the translator fails |
| Preprocess.TranslationSeesOnlyBudget | puhti_preprocess.py:86 | transcripts that agree on their language and their first 3000 characters get the same translation |
| Preprocess.VideoPath | puhti_preprocess.py:115 | the video file is an `.mp4` under `./Allas/Scraper/TikTok/Videos/{scrapedCountry}/` |
| Preprocess.Hit | puhti_preprocess.py:121-132 | a hit sets the ten preprocessing columns from the stored entry and changes no other column |
| Preprocess.Compute | puhti_preprocess.py:133-187 | a failed record keeps its row unchanged; a miss changes only the ten preprocessing columns; on success the OCR and transcript columns written equal those stored |
| Preprocess.ListRepr | puhti_preprocess.py:171 | `str(frame_files)` starts with `[` |
| Preprocess.KeyframePathNoComma | puhti_preprocess.py:46-49 | a keyframe file has no comma when the author and video names have none |
| Preprocess.FrameFilesHandOff | puhti_preprocess.py:174 | for at least one keyframe and comma-free names, the frame stage's `split(',')` gives back exactly the files this stage joined |
| Preprocess.JoinedNotListRepr | puhti_preprocess.py:171-176 | the `','.join` written on a miss never equals the `str(list)` that a hit copies back |
| Preprocess.SelectRows | puhti_preprocess.py:96-109 | the selected rows have a transcript and the requested language and have their ten columns emptied, and every such row of the table is selected |
| Preprocess.SelectRowsInOrder | puhti_preprocess.py:96-110 | the selection keeps table order and multiplicity: each further table row adds its emptied copy at the end exactly when it has a transcript and the language |
| Preprocess.PreprocessRerun | puhti_preprocess.py:117-185 | a second pass leaves the store as it is, and every column except `frame_files` as the first pass wrote it; `frame_files` differs exactly for the records first computed in the first pass |
| Preprocess.HitAfterCompute | puhti_preprocess.py:121-185 | a computed entry, copied back, gives the computed row except for `frame_files`, which always differs |
| Preprocess.RerunFrameFiles | puhti_preprocess.py:117-185 | the rerun statement, for any miss branch whose entries differ from their rows in `frame_files` alone |
| Preprocess.PreprocessFailure | puhti_preprocess.py:134-187 | a missing record gets no entry exactly when its video is missing, its duration cannot be read or one of its keyframes cannot be read, and it then keeps its empty columns |
| Preprocess.TranscriptionFailureStillStored | puhti_preprocess.py:169-172 | a failed transcription still stores the record, with its keyframes, OCR columns and three empty transcript columns |
| Preprocess.ProcessRow | puhti_preprocess.py:110-187 | one iteration works in place: it copies the ten columns on a hit, and otherwise computes them and inserts them only on success |
| Preprocess.ProcessTable | puhti_preprocess.py:110-187 | the loop leaves the rows, the store and the records whose analyzers ran exactly as a pass does |
| Preprocess.AnalyzeVideos | puhti_preprocess.py:93-189 | `analyze_videos(language)` is a pass over the selected rows |
| Frame.FrameBlock | puhti_frame.py:146-148 | a frame's block starts with `### **Frame ` and is longer than the model's answer it carries |
| Frame.FrameTail | puhti_frame.py:146-148 | the rest of a frame's block starts with the blank after the seconds |
| Frame.FrameTailResponse | puhti_frame.py:146-148 | the model's answer sits after a fixed 56-character heading tail and before a fixed 21-character line ending, so it can be read back from the block |
| Frame.FrameBlockInjective | puhti_frame.py:146-148 | a frame's block tells its frame number, its seconds and the model's answer apart |
| Frame.Describe | puhti_frame.py:141-168 | the loop over the frames keeps at most one block per frame, and is complete exactly when every frame got one |
| Frame.DescribeBlocks | puhti_frame.py:141-168 | block `i` is `### **Frame {i+1} at {i*30} seconds**:` with frame `i`'s answer; an incomplete loop stopped at the first frame that failed |
| Frame.DescribeComplete | puhti_frame.py:141-171 | every frame is described exactly when no description fails |
| Frame.DescribeStopsAtFailure | puhti_frame.py:85-96 | a failed description ends the loop, keeping the blocks before it |
| Frame.DescribeSnoc | puhti_frame.py:141-168 | describing one more frame appends its block |
| Frame.SelectRows | puhti_frame.py:101-111 | the selected rows have a transcript, keyframe files and the requested language, with the six columns emptied; every such row is selected |
| Frame.SelectRowsInOrder | puhti_frame.py:101-112 | the selection keeps table order and multiplicity: each further table row adds its emptied copy at the end exactly when it qualifies |
| Frame.Hit | puhti_frame.py:117-128 | a hit sets the six frame columns from the stored entry and changes no other column |
| Frame.Compute | puhti_frame.py:129-173 | a miss changes only the six frame columns; a stored entry has six columns, and on a row with emptied columns it equals what was written |
| Frame.FrameRerun | puhti_frame.py:116-171 | on rows with empty frame columns, a second pass changes neither the rows nor the store |
| Frame.FrameSuccess | puhti_frame.py:130-171 | a record fully described gets an entry equal to its columns: column `k` holds frame `k`'s block, or `""` when there is no frame `k`; frames after the sixth are dropped |
| Frame.FramePartialFailure | puhti_frame.py:150-173 | a record with a failing frame gets no entry, yet keeps the columns of the frames described before the failure |
| Frame.ProcessRow | puhti_frame.py:112-173 | one iteration works in place: it copies the six columns on a hit and otherwise describes the frames |
| Frame.SetColumn | puhti_frame.py:150-167 | `df.at[index, 'frame_analysis_k']` changes that one cell |
| Frame.DescribeRecord | puhti_frame.py:130-173 | the miss branch writes column `k` as soon as frame `k` is described, and inserts the six columns only once the last frame is done |
| Frame.KeepBlock | puhti_frame.py:150-168 | frame `k`'s block goes to column `k` of the row and of the entry being built, when `k` is at most 6 |
| Frame.ProcessTable | puhti_frame.py:112-173 | the loop leaves the rows, the store and the described records exactly as a pass does |
| Frame.AnalyzeVideos | puhti_frame.py:98-175 | `analyze_videos(language)` is a pass over the selected rows |
| Summary.VideoUrlExtendsAuthorUrl | puhti_summary.py:169-170 | the video URL is the author URL followed by `/video/` and the video id |
| Summary.VideoUrlInjective | puhti_summary.py:169 | for user names without `/`, the video URL tells the user and the video apart |
| Summary.Tags | puhti_summary.py:174 | the comprehension keeps at most one tag per token |
| Summary.TagsAppend | puhti_summary.py:174 | tags keep the order of the tokens |
| Summary.TagsOfWords | puhti_summary.py:174 | the tags are exactly the tokens starting with `#`, unchanged by the strip |
| Summary.HashtagsEmpty | puhti_summary.py:172-178 | the hashtags are `''` exactly when no token of the description starts with `#` |
| Summary.HashtagsOneLine | puhti_summary.py:175 | the hashtags contain no line break |
| Summary.MetadataLines | puhti_summary.py:179-192 | the metadata block has fourteen lines: thirteen fields and the closing indentation |
| Summary.MetadataRoundTrip | puhti_summary.py:179-192 | when no value spans lines, splitting the metadata on `'\n'` gives back its lines, so every field can be read back |
| Summary.OcrHeadingsFollowFrames | puhti_summary.py:215-275 | the written-out heading of frame `k` names `k` and `(k-1)*30` seconds, the times at which preprocessing samples keyframes |
| Summary.Present | puhti_summary.py:221-279 | at most one later frame per slot |
| Summary.PresentExactly | puhti_summary.py:221-279 | the later frames in the context are exactly frames 2..6 with a non-empty analysis, each once and in ascending order |
| Summary.FollowingStep | puhti_summary.py:221-231 | each `if frame_analysis_k:` appends frame `k`'s block exactly when its analysis is not empty |
| Summary.ExtendContext | puhti_summary.py:221-279 | after the check for frame `k`, the context is frame 1's block followed by the blocks of frames 2..k that have an analysis |
| Summary.FrameContextOpening | puhti_summary.py:211-219 | without later analyses the context is frame 1's block alone, even when frame 1 has no analysis |
| Summary.FrameContextOneTwoFour | puhti_summary.py:211-255 | with analyses for frames 1, 2 and 4 only, the context holds the blocks of frames 1, 2 and 4, in that order |
| Summary.AppendFrame | puhti_summary.py:221-231 | one `if` block keeps the context equal to frame 1's block followed by the present later frames up to `k` |
| Summary.BuildFrameContext | puhti_summary.py:211-279 | the if-chain builds exactly the frame context |
| Summary.UserPromptEmbeds | puhti_summary.py:27-51 | the user prompt holds the frame analysis, the metadata and the transcript, verbatim and in that order |
| Summary.SelectRows | puhti_summary.py:152-153 | the selected rows have a transcript and an empty report column, and every such row is selected, whatever its language |
| Summary.SelectRowsInOrder | puhti_summary.py:152-155 | the selection keeps table order and multiplicity: each further table row adds its emptied copy at the end exactly when it has a transcript |
| Summary.HitColumns | puhti_summary.py:284-290 | a hit writes the metadata, copies the stored report, and changes no other column |
| Summary.MissColumns | puhti_summary.py:291-301 | a miss writes the metadata and no other column but the report; it stores an entry exactly when the model answers, and the report written is the one stored |
| Summary.MetadataOnEveryRow | puhti_summary.py:197 | every row leaves the pass with its metadata written, whether its report was copied, generated or not produced |
| Summary.SummaryRerun | puhti_summary.py:284-298 | a second pass changes neither the rows nor the store |
| Summary.SummaryOutcome | puhti_summary.py:291-301 | a record not yet stored gets an entry exactly when the model answers; without an answer its report stays `''` and only the metadata is written |
| Summary.SetMetadata | puhti_summary.py:197 | `df.at[index, 'metadata']` changes that one cell |
| Summary.SetSummary | puhti_summary.py:290 | `df.at[index, 'summary_analysis']` changes that one cell |
| Summary.ProcessRow | puhti_summary.py:155-301 | one iteration works in place: it writes the metadata, then copies the stored report on a hit, or generates one and stores it only when the model answers |
| Summary.ProcessTable | puhti_summary.py:155-301 | the loop leaves the rows, the store and the records sent to the model exactly as a pass does |
| Summary.AnalyzeVideos | puhti_summary.py:147-302 | `analyze_videos(language)` is a pass over every row with a transcript, with the stage's own metadata and answers |

## Left out

- File, CSV and SQLite I/O, logging, and the loop over the ten languages.
  - A table is a sequence of rows, and a store is the sequence of its table's rows.
  - `str(...)` coercion of stored values is not modelled: stored text reads back as written.
- Video decoding.
  - `cv2.VideoCapture`, the float `frame_count / fps` and the keyframe image writes are not modelled.
  - The duration is an input after `int(...)`, returned by a probe that may fail.
  - Any other exception raised by `get_keyframes` is not modelled separately.
- The external models are function values, and each call's failure is its `None`:
  - EasyOCR, which is given the texts of its detections only;
  - Whisper;
  - the translator;
  - the vision model, and the summary model.
  - Their prompts, system prompts and sampling options are not part of the model.
  - The summary model is given only the user prompt.
- Summary.BuildMetadata: the creation time is formatted by a `localTime` function parameter, because `time.localtime` and `strftime` depend on the time zone. The counters are the table's text as read.
- pandas NaN: an empty cell is `""`.
  - In the source, NaN is truthy at `if frame_analysis_k:` and prints as `nan`. The model does not represent that.
- Python's `str.split()` recognises non-ASCII whitespace. The model's whitespace is the ASCII set.
- Preprocess.ListRepr: `str(list)` is modelled with plain single quotes and no escaping. Python switches to double quotes or escapes for file names containing quotes or backslashes.
- Concurrency: two pipeline instances sharing one store could both miss and both insert. The model is sequential, so "at most one row per key" is proved only for sequential passes.
- Stage.RunPointwise and the other per-record lemmas assume distinct `(author, video)` keys in the selected rows. With a duplicate key, the later record is a hit on the entry the earlier one inserted. `Stage.Run` models that case; the per-record statements do not cover it.
