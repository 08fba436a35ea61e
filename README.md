# Subtitle tools of YouTubeSubber, modelled in Dafny

This project models four Python scripts that work on SubRip (`.srt`) subtitle files, and proves properties of them:

- `translate.py`: the batch-translation pipeline of `SrtTranslator`.
  - It parses the file into entries.
  - It cuts the entries into batches of 30.
  - It sends each batch to a chat-completion service as numbered `[START_SEGn]…[END_SEGn]` units.
  - It reads the translations back out of the reply. An entry whose translation is missing gets its own text.
  - It writes index, timing and translation back out.
- `srt_to_ass_dialogue.py`: converts parsed entries into ASS `Dialogue:` event lines.
  - Time stamps go from `H:MM:SS,mmm` to `H:MM:SS.cc`.
  - HTML-like tags are removed.
  - An entry whose cleaned text repeats the previous one is dropped.
- `split_srt.py`: rewrites each block whose first line is a number.
  - It joins the text lines with spaces and removes trailing punctuation.
  - A text of more than 35 characters that holds no ASS hard break `\N` is cut into two halves joined by `\N`.
  - A text that already holds `\N` is not cut again, whatever its length; only each piece's trailing punctuation is removed.
  - Any other block is copied unchanged.
- `merge_short_srt_segments.py`: absorbs a segment whose text is shorter than a minimum length into the segment before it, then renumbers the segments.

Modules:

- `Text`: the Python string operations the scripts use.
  - `strip`, `rstrip` and `lstrip`.
  - `split` and `join`.
  - `int()` and `str()` on integers.
- `Blocks`: the two ways the scripts cut a file into blocks, `re.split(r'\n\n+')` and `re.split(r'\n\s*\n')`.
- `Markers`: the request encoder and the reply decoder of `translate_batch`.
- `Translate`, `AssDialogue`, `LineSplit`, `MergeShort`: one module per script.

How the source's state is modelled:

- Loops in the source are methods with loop invariants, proved against specification functions.
- `translate_batch` writes into the entries of a batch in place. It is modelled on an `array` that it updates.
- The remote service is a function parameter from the batch's ordinal and the request to an outcome: a failure, or a reply that may have no content. The proofs therefore hold for every behaviour of the remote side.
- `time.sleep(1)` between batches is an event in a returned schedule.

## Model

| member | source | states |
|---|---|---|
| Translate.ParseSrt | translate.py:14-42 | returns exactly the entries of the blocks of `re.split(r'\n\n+', content.strip())` that parse, in file order, none yet translated |
| Blocks.SplitParagraphs | translate.py:20 | `re.split(r'\n\n+', …)` always yields at least one piece |
| Blocks.SplitParagraphsFree | translate.py:20 | no piece contains a blank line, every piece after the first starts with text (the whole run of line breaks goes to the cut), and the first piece is where the text starts |
| Blocks.SplitParagraphsJoin | translate.py:20 | blocks that are non-empty, have no line break at either end and no blank line inside, joined by one blank line, split back into the same blocks |
| Blocks.SplitBlankLines | split_srt.py:60 | `re.split(r'\n\s*\n', …)` always yields at least one piece |
| Blocks.SplitBlankLinesFree | split_srt.py:60 | no piece holds a further match: no two line breaks in a piece have only whitespace between them |
| Text.ParseInt | translate.py:29 | `int()` succeeds only on text holding at least one digit |
| Text.IntToStringParses | translate.py:29 | `int(str(i)) == i` for every integer up to the interpreter's digit limit, negative ones included |
| Text.Split | split_srt.py:9 | `str.split` with a non-empty separator always yields at least one piece |
| Text.SplitPiecesFree | split_srt.py:9 | no piece of `str.split(sep)` contains `sep` |
| Text.JoinSplit | split_srt.py:9-18 | `sep.join(s.split(sep)) == s` |
| Text.RStrip | split_srt.py:13 | `rstrip(cs)` keeps a prefix that does not end in a character of `cs`, and drops only characters of `cs` |
| Text.LStrip | split_srt.py:35 | `lstrip(cs)` keeps a suffix that does not start with a character of `cs`, and drops only characters of `cs` |
| Translate.ParseBlocks | translate.py:23-41 | at most one entry per block; no entry is translated yet |
| Translate.ParseBlocksAppend | translate.py:23-41 | parsing is block by block: the entries of two runs of blocks are the entries of each run, concatenated |
| Translate.TranslateBatch | translate.py:44-114 | after the one service call, the batch in place equals the batch annotated from that call's outcome |
| Translate.AssignTranslations | translate.py:99-114 | each entry gets the translation numbered with its 1-based position, or its own text when that number is missing; when the call failed or the reply had no content, every entry gets its own text; nothing else changes |
| Translate.AssignFound | translate.py:99-106 | the assignment loop over a decoded reply leaves every entry with the translation numbered with its 1-based position, or its own text when that number is missing, and changes nothing else |
| Translate.AssignFallback | translate.py:108-113 | the exception handler leaves every entry with its own text as translation and changes nothing else |
| Translate.Translated | translate.py:97-113 | the batch after its call: same length, every entry unchanged but for a translation, and every entry has one |
| Translate.TranslatedAgree | translate.py:99-113 | only the translations numbered 1..n matter: two outcomes that supply the same ones leave the batch the same, whatever else their replies carry; a failed call counts as a reply with none |
| Translate.NoKeysFallsBack | translate.py:99-113 | a reply that numbers none of the batch's positions leaves every entry with its own text, exactly as a failed call does |
| Translate.NoMarkerFallsBack | translate.py:92-105 | a reply without a single `[START_SEG` leaves every entry with its own text |
| Translate.EchoTranslated | translate.py:74-105 | if the service echoes the request back, every entry's translation is its own stripped text, provided no text contains `[END_SEG` |
| Translate.BatchesCover | translate.py:125-131 | the batches `xs[i:i+30]` cover the entries in order with no gap or overlap |
| Translate.BatchwiseSlice | translate.py:125-131 | batch `b` starts at `30*b`, and its part of the run is the step's result for that batch and ordinal alone |
| Translate.Translation | translate.py:116-131 | one output entry per input entry, in order; index, timing and text are unchanged; every entry has a translation |
| Translate.TranslationBatch | translate.py:125-131 | the entries of batch `b` are that batch annotated with the outcome of call `b`; no batch sees another batch's reply |
| Translate.BatchCount | translate.py:128 | the number of batches is `ceil(total/30)`: the smallest `n` with `30*n >= total` |
| Translate.TranslateEntries | translate.py:118-135 | the batch loop produces `Translation(...)` and the schedule of one call per batch with a pause between consecutive calls |
| Translate.TranslateSrt | translate.py:116-142 | the output file is the rendering of the translated entries of the parsed input; calls and pauses follow `Schedule(BatchCount(n))` |
| Translate.ScheduleAlternates | translate.py:125-135 | calls and pauses alternate, starting and ending with a call: `2n-1` events, call `k/2` at even `k`, a pause at odd `k` |
| Translate.SchedulePauses | translate.py:133-135 | a run of `n >= 1` batches pauses `n-1` times; no run pauses after its last batch |
| Translate.WriteSrt | translate.py:138-142 | the writing loop produces `index\ntiming\ntranslation\n\n` for every entry, in order |
| Translate.Render | translate.py:138-142 | the file is empty exactly when there are no entries, and otherwise ends in a blank line |
| Translate.RenderJoined | translate.py:138-142 | the file is the entries' blocks one blank line apart, followed by a blank line |
| Translate.EntryBlockParses | translate.py:139-142 | a written block whose timing and translation are trimmed, one-line and without blank lines parses back into the entry, with the translation as its text |
| Translate.RenderParses | translate.py:138-142 | parsing the written file gives back every entry, each with its translation as its text |
| Markers.Payload | translate.py:74-77 | the user message contains the unit `[START_SEG{p}]\n{text}\n[END_SEG{p}]` of every entry, numbered from 1 |
| Markers.FindAll | translate.py:92-94 | every match carries a number made of digits only, so `int(num)` never raises for numbers up to the interpreter's digit limit |
| Markers.Decode | translate.py:92-97 | a reply without a `[START_SEG` decodes to no translations |
| Markers.NoMarkerNoMatch | translate.py:93-94 | where no open marker occurs, `re.findall` finds nothing |
| Markers.FindAllUnits | translate.py:74-77 | scanning the encoded units with the marker pattern finds each unit once, in order, with its own number and its text |
| Markers.TranslationsKeys | translate.py:97 | a number is a key of the translations dictionary exactly when some match carries it |
| Markers.TranslationsLastWins | translate.py:97 | of several matches with the same number, the last one's stripped text is the value |
| Markers.TranslationsNumbered | translate.py:97 | matches numbered 1..n in order give exactly the keys 1..n, each with its stripped text |
| Markers.DecodePayload | translate.py:74-97 | decoding the encoded request gives keys exactly 1..n and the stripped text of every entry, provided no text contains `[END_SEG` |
| Markers.UnitMatch | translate.py:93 | the pattern matches a whole unit: its number, and its text with the line breaks around it |
| AssDialogue.ConvertStamp | srt_to_ass_dialogue.py:8-18 | the ASS time written for a matched stamp has no comma or newline, so it cannot break the comma-separated event line |
| AssDialogue.ConvertStampMeaning | srt_to_ass_dialogue.py:8-18 | for a well-formed stamp, `convert_time_format` succeeds and yields that time; the ASS time read back is the SRT time in centiseconds (milliseconds floor-divided by 10) |
| AssDialogue.ConvertTime | srt_to_ass_dialogue.py:8-18 | conversion succeeds only on text with exactly two colons whose last field has exactly one comma; otherwise the unpacking raises `ValueError` |
| AssDialogue.StampConverts | srt_to_ass_dialogue.py:8-18 | a well-formed stamp converts to its hours as an unpadded integer, its minutes and seconds as written, and its milliseconds floor-divided by 10, padded to two digits |
| AssDialogue.StampInstant | srt_to_ass_dialogue.py:10-14 | reading an SRT stamp's fields gives `((h*60+m)*60+s)*1000+ms` |
| AssDialogue.Pad2Digits | srt_to_ass_dialogue.py:17 | `f"{n:02d}"` is all digits, has value `n`, has at least two characters, and exactly two below 100 |
| AssDialogue.MatchStamp | srt_to_ass_dialogue.py:42 | a match of `\d+:\d+:\d+,\d+` is a well-formed stamp followed by text that does not start with a digit |
| AssDialogue.MatchStampOf | srt_to_ass_dialogue.py:42 | every well-formed stamp followed by a non-digit (or nothing) is matched as exactly that stamp |
| AssDialogue.MatchTimeRange | srt_to_ass_dialogue.py:42 | a match yields two stamps whose four fields are all digits |
| AssDialogue.MatchTimeRangeSound | srt_to_ass_dialogue.py:42-46 | a matching time line is start stamp, whitespace, `-->`, whitespace, end stamp, then anything not continuing the stamp |
| AssDialogue.MatchTimeRangeOf | srt_to_ass_dialogue.py:42-46 | every line of that shape matches, giving its two stamps |
| AssDialogue.TimeRangeLineMatches | srt_to_ass_dialogue.py:42-46 | a time line written as `start --> end` has no line break and matches with exactly those two stamps |
| AssDialogue.ParseBlock | srt_to_ass_dialogue.py:29-60 | a parsed entry's start and end times contain no comma |
| AssDialogue.ShortBlockSkipped | srt_to_ass_dialogue.py:30-32 | a stripped block with fewer than two line breaks is skipped |
| AssDialogue.ParseBlockOf | srt_to_ass_dialogue.py:29-60 | a block of number line, time line and text parses into that number, the converted stamps and the text lines joined with spaces |
| AssDialogue.ParseBlocks | srt_to_ass_dialogue.py:26-62 | at most one entry per block, none with a comma in its times |
| AssDialogue.ParseSrt | srt_to_ass_dialogue.py:20-62 | the parsing loop returns exactly the entries of the blocks that parse, in order |
| AssDialogue.StripTags | srt_to_ass_dialogue.py:74 | tag removal never lengthens the text and adds no character |
| AssDialogue.StripTagsClean | srt_to_ass_dialogue.py:74 | what `re.sub(r'<[^>]+>', '', …)` leaves contains no further match |
| AssDialogue.StripTagsFixed | srt_to_ass_dialogue.py:74 | a text without a match is left unchanged |
| AssDialogue.StripTagsUnchanged | srt_to_ass_dialogue.py:74 | tag removal leaves the text unchanged exactly when the text has no match |
| AssDialogue.StripTagsIdempotent | srt_to_ass_dialogue.py:74 | removing tags twice is the same as removing them once |
| AssDialogue.Kept | srt_to_ass_dialogue.py:69-80 | no more lines are written than there are entries |
| AssDialogue.KeptFrom | srt_to_ass_dialogue.py:76-80 | every written line comes from one of the parsed entries |
| AssDialogue.CreateAssDialogues | srt_to_ass_dialogue.py:64-87 | the loop returns one `Dialogue: 1,start,end,style,,0,0,0,,text` line for each kept entry, in order |
| AssDialogue.KeptEnds | srt_to_ass_dialogue.py:76-80 | the first entry is always written, and the last written line carries the last entry's cleaned text |
| AssDialogue.KeptNoRepeat | srt_to_ass_dialogue.py:76-80 | two consecutive written lines never carry the same cleaned text |
| AssDialogue.KeptCovers | srt_to_ass_dialogue.py:76-80 | only repetitions are dropped: every entry's cleaned text is carried by some written line |
| AssDialogue.KeptAll | srt_to_ass_dialogue.py:76-80 | nothing is dropped exactly when no two consecutive entries have the same cleaned text |
| AssDialogue.DialogueLineJoined | srt_to_ass_dialogue.py:84 | the dialogue f-string is the ten event fields joined with commas |
| AssDialogue.DialogueFields | srt_to_ass_dialogue.py:84 | for a style without commas, splitting a line at commas gives the nine event fields, and the rest joined back is the cleaned text |
| AssDialogue.ParsedDialogueFields | srt_to_ass_dialogue.py:20-87 | every line written for a parsed file has the nine event fields of its kept entry, then its cleaned text |
| LineSplit.SplitLongLine | split_srt.py:6-52 | a line without `\N` of at most 35 characters only loses its trailing punctuation: the result is a prefix of it, not ending in punctuation, and what is cut off is all punctuation; a longer line without `\N` always comes out holding `\N` |
| LineSplit.Nearest | split_srt.py:28-31 | the position picked by `min(positions, key=abs(x - mid))`: a matching character nearest to the middle, the first of those on a tie; none when there is no match |
| LineSplit.NearestFinds | split_srt.py:31 | the scan picks exactly the position that `min` picks |
| LineSplit.CutPoint | split_srt.py:27-52 | a long line is always cut strictly inside the text |
| LineSplit.CutAfterNearestPeriod | split_srt.py:30-36 | when the period nearest the middle is neither the first nor the last character, the cut is right after it |
| LineSplit.CutAfterNearestComma | split_srt.py:38-46 | when the nearest period is at an end or missing, the cut is after the nearest comma if that one is inside; other periods are never tried |
| LineSplit.CutAtMiddle | split_srt.py:48-52 | with neither a usable period nor a usable comma, the cut is at `len // 2` |
| LineSplit.CutKeepsText | split_srt.py:34-35 | the first half is a prefix of the text without trailing punctuation, the second a suffix without leading punctuation; only punctuation lies between them |
| LineSplit.LongLineSplits | split_srt.py:26-52 | a line longer than 35 characters without `\N` becomes the first half, `\N` and the second half, losing only punctuation at the cut |
| LineSplit.BrokenLineParts | split_srt.py:8-18 | text that already holds `\N` keeps its number of pieces; each piece loses its trailing punctuation |
| LineSplit.BrokenLineStable | split_srt.py:8-18 | splitting text that already held `\N` a second time changes nothing |
| LineSplit.BlockRebuilt | split_srt.py:68-89 | a numbered block comes out as its stripped number, its old second line (or nothing), and the processed text; any other block comes out unchanged |
| LineSplit.ProcessBlocksEach | split_srt.py:64-90 | exactly one processed block per non-blank block, in the same order |
| LineSplit.RebuildBlock | split_srt.py:68-89 | the loop body turns a numbered block into its stripped number, its old second line (or nothing) and the processed text, each on lines of its own; any other block comes out unchanged |
| LineSplit.ProcessSrtFile | split_srt.py:54-95 | the file written is the processed non-blank blocks of the stripped content, joined by one blank line |
| MergeShort.MergeFrom | merge_short_srt_segments.py:29-47 | when no merge fails, the number of output segments is between `ceil(n/2)` and `n` |
| MergeShort.MergeSegments | merge_short_srt_segments.py:26-47 | the merge loop returns the merged segments, or signals the `IndexError` of a timing without `" --> "` |
| MergeShort.Merged | merge_short_srt_segments.py:35-40 | the merge fails (`next_time_parts[1]` raises `IndexError`) exactly when the next timing has no `" --> "`; a merged segment keeps the current segment's number |
| MergeShort.AbsorbNext | merge_short_srt_segments.py:35-40 | the merged segment has timing `start of current --> end of next` and text `current.strip() + " " + next.strip()`; it fails when the next timing has no `" --> "` |
| MergeShort.WriteSegments | merge_short_srt_segments.py:50-52 | the output is `idx\ntiming\ntext\n\n` for each merged segment, numbered from 1 |
| MergeShort.MergeShortSegments | merge_short_srt_segments.py:20-56 | no segments: nothing written; a failing merge: nothing written; otherwise the renumbered merged segments are written |
| MergeShort.StartsCover | merge_short_srt_segments.py:29-47 | the outputs start at 0, each one or two after the previous (two exactly after a merge), and the last consumes the last input: no gaps, overlaps or chains |
| MergeShort.MergeOutputs | merge_short_srt_segments.py:30-47 | each output segment is its starting input unchanged, or that input merged with the next one exactly when the next one's stripped text is shorter than the minimum |
| MergeShort.LongSegmentsKept | merge_short_srt_segments.py:33 | when no segment after the first is short, every segment is kept exactly as extracted |
| MergeShort.MergedTimingReads | merge_short_srt_segments.py:35-37 | splitting a merged timing at `" --> "` again gives the current segment's start and the next one's end |
| MergeShort.RenderNumbers | merge_short_srt_segments.py:50-52 | output segment `j` is written as block number `j+1`, right after the blocks of the segments before it |

## Left out

- The chat-completion request (translate.py:79-89) is modelled only as an outcome given by the service parameter. The prompt wording, the message roles and `temperature=0.3` are not modelled; the model name is a constant of the request.
- The command-line entry points and all `print` messages are not modelled. This covers each script's `main`/`__main__` block, argparse, output file names and the progress message, whose batch count is `BatchCount`.
- File reading and writing are not modelled. Each operation takes the file's content and returns the text it would write. `write_ass_file` (srt_to_ass_dialogue.py:89-93) only writes each line followed by a newline, so it is not modelled.
- `time.sleep(1)` is recorded as a `Pause` event in the run's schedule. No clock is modelled.
- The segment-extraction regular expression of merge_short_srt_segments.py:19 is not modelled. `MergeShort` takes the extracted `(number, timing, text)` triples as input.
- Python's Unicode leniency is replaced by ASCII:
  - digits are `0`-`9` for `int()`, `\d` and `str.isdigit`;
  - `int()` accepts an optional sign and surrounding whitespace, but not underscores;
  - whitespace is the fixed set ` \t\n\v\f\r` plus `\x1c`-`\x1f`.
- The `if not lines: continue` of split_srt.py:69-70 cannot fire, because `split` always returns at least one piece, so it is not modelled.
- The two branches of split_srt.py:11-18 compute the same result, so they are modelled as one expression.
- The unused `counter` of `create_ass_dialogues` is kept as a local, with the invariant that it equals the number of lines so far.
- `convert_time_format` can raise `ValueError` on input the time regex would never produce. `ConvertTime` returns `None` there, and `ConvertStampMeaning` shows this never happens for matched stamps.
- Markers.DecodePayload and Translate.EchoTranslated: proved only for texts that do not contain `[END_SEG`. Such a text could end a unit early in the reply.
- Text.ParseInt: does not model the interpreter's limit on integer conversion. Since CPython 3.11, `int()` raises `ValueError` on more than 4300 digits (`sys.int_info.default_max_str_digits`). A block whose index is that long is skipped by the `except` of translate.py:38 and of srt_to_ass_dialogue.py:35-37; the model parses the index.
- Text.IntToStringParses: holds only up to that digit limit; past it `str()` and `int()` raise instead of round-tripping.
- Markers.FindAll: a marker number past that digit limit makes the `int(num)` of translate.py:97 raise, which sends the whole batch to the fallback of translate.py:108-113; the model decodes the number instead.
- AssDialogue.ConvertTime: a stamp field past that digit limit makes `int()` in srt_to_ass_dialogue.py:14-17 raise; the model converts it.
- MergeShort.MergedTimingReads: proved only when the start time cannot run into the arrow (`Separable`). The regex-extracted timings always meet this.
