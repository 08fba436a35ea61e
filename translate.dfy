/**
 * The batch translation pipeline of `translate.py` (class `SrtTranslator`):
 * parse SubRip text into entries, cut the entries into batches of 30, send
 * each batch to the translation service with numbered markers, take each
 * entry's translation from the reply or fall back to its own text, and
 * write the entries back out with their index and timing unchanged.
 *
 * The service is a parameter: a function from the batch's ordinal and the
 * request to an outcome, so that every possible behaviour of the remote
 * side, failures included, is covered.
 */
module Translate {
  import opened Text
  import opened Blocks
  import opened Markers

  /** `SrtTranslator.batch_size` */
  const BatchSize: nat := 30
  /** The model named in every request. */
  const ModelName := "gpt-3.5-turbo"

  /**
   * One subtitle entry (the dictionary of the source).  `translated` is
   * absent until the entry's batch has been processed.
   */
  datatype Subtitle = Subtitle(index: int, timing: string, text: string, translated: Option<string>)

  // ---------------------------------------------------------------- parsing

  /** One block of the file: at least three lines, the first an integer. */
  function ParseBlock(block: string): Option<Subtitle> {
    var lines := Split(block, "\n");
    if |lines| < 3 then None
    else match ParseInt(Strip(lines[0]))
      case None => None
      case Some(index) => Some(Subtitle(index, Strip(lines[1]), Strip(Join(lines[2..], "\n")), None))
  }

  /** The entries of the blocks that parse, in file order. */
  function ParseBlocks(blocks: seq<string>): (subs: seq<Subtitle>)
    ensures |subs| <= |blocks|
    ensures forall k :: 0 <= k < |subs| ==> subs[k].translated == None
  {
    if blocks == [] then []
    else
      ParseBlocks(blocks[..|blocks| - 1])
      + match ParseBlock(blocks[|blocks| - 1]) case Some(s) => [s] case None => []
  }

  /** What `parse_srt` returns for a file's content. */
  function Parsed(content: string): seq<Subtitle> {
    ParseBlocks(SplitParagraphs(Strip(content)))
  }

  /** `SrtTranslator.parse_srt`, once the file has been read. */
  method ParseSrt(content: string) returns (subtitles: seq<Subtitle>)
    ensures subtitles == Parsed(content)
    ensures forall k :: 0 <= k < |subtitles| ==> subtitles[k].translated == None
  {
    var blocks := SplitParagraphs(Strip(content));
    subtitles := [];
    for k := 0 to |blocks|
      invariant subtitles == ParseBlocks(blocks[..k])
    {
      // a block of fewer than three lines, or whose first line int() rejects, is dropped
      var entry := ParseBlock(blocks[k]);
      ParseBlocksNext(blocks, k);
      if entry.Some? {
        subtitles := subtitles + [entry.value];
      }
    }
    WholePrefix(blocks);
  }

  /** The entries of the first `k + 1` blocks: those of the first `k`, then block `k`'s if it parses. */
  lemma ParseBlocksNext(blocks: seq<string>, k: nat)
    requires k < |blocks|
    ensures ParseBlocks(blocks[..k + 1])
            == ParseBlocks(blocks[..k]) + match ParseBlock(blocks[k]) case Some(s) => [s] case None => []
  {
    assert blocks[..k + 1][..k] == blocks[..k];
  }

  /** Parsing is block by block: the entries of two runs of blocks are those of each, in order. */
  lemma {:induction false} ParseBlocksAppend(a: seq<string>, b: seq<string>)
    ensures ParseBlocks(a + b) == ParseBlocks(a) + ParseBlocks(b)
  {
    if b == [] {
      assert a + b == a;
    } else {
      var c := b[..|b| - 1];
      var tail := match ParseBlock(b[|b| - 1]) case Some(s) => [s] case None => [];
      InitOfAppend(a, b);
      assert ParseBlocks(a + b) == ParseBlocks(a + c) + tail;
      ParseBlocksAppend(a, c);
      assert ParseBlocks(b) == ParseBlocks(c) + tail;
      AppendAssoc(ParseBlocks(a), ParseBlocks(c), tail);
    }
  }

  // ---------------------------------------------------------------- one batch

  /** What goes to the service: the model, the target language of the (fixed) instructions, and the payload. */
  datatype Request = Request(model: string, language: string, payload: string)

  /** What comes back: an error raised by the call, or the reply's message content, which may be missing. */
  datatype Outcome = ServiceError | Completed(content: Option<string>)

  /** The translation service, asked once per batch; the first argument is the batch's ordinal. */
  type Service = (nat, Request) -> Outcome

  function Texts(batch: seq<Subtitle>): (ts: seq<string>)
    ensures |ts| == |batch|
  {
    seq(|batch|, i requires 0 <= i < |batch| => batch[i].text)
  }

  function RequestFor(batch: seq<Subtitle>, language: string): Request {
    Request(ModelName, language, Payload(Texts(batch)))
  }

  /**
   * The decoded translations, or `None` when the `try` block raised: the
   * service failed, or the reply had no content (`re.findall` on `None`).
   */
  function Decoded(outcome: Outcome): Option<map<nat, string>> {
    match outcome
    case ServiceError => None
    case Completed(None) => None
    case Completed(Some(reply)) => Some(Decode(reply))
  }

  /** The text an entry at 1-based position `p` ends up with. */
  function Resolve(translations: Option<map<nat, string>>, p: nat, text: string): string {
    match translations
    case None => text
    case Some(d) => if p in d then d[p] else text
  }

  /** The batch as `translate_batch` leaves it, given the outcome of its one service call. */
  function Translated(batch: seq<Subtitle>, outcome: Outcome): (r: seq<Subtitle>)
    ensures |r| == |batch|
    ensures forall i :: 0 <= i < |r| ==> SameEntry(r[i], batch[i]) && r[i].translated.Some?
  {
    Annotate(batch, Decoded(outcome))
  }

  /**
   * The translation each entry gets: its own text when the call failed or
   * came back empty, otherwise the reply's text for its position, if the
   * reply has one.
   */
  lemma TranslatedTexts(batch: seq<Subtitle>, outcome: Outcome)
    ensures var r := Translated(batch, outcome);
            Decoded(outcome).None? ==> forall i :: 0 <= i < |r| ==> r[i].translated == Some(batch[i].text)
    ensures var r := Translated(batch, outcome);
            Decoded(outcome).Some? ==> forall i :: 0 <= i < |r| ==>
              r[i].translated == Some(if i + 1 in Decoded(outcome).value then Decoded(outcome).value[i + 1]
                                      else batch[i].text)
  {
    var r, t := Translated(batch, outcome), Decoded(outcome);
    assert r == Annotate(batch, t);
    forall i | 0 <= i < |r| ensures r[i].translated == Some(Resolve(t, i + 1, batch[i].text)) {
    }
  }

  /** The translations an outcome supplies: none when the call failed or came back without content. */
  function Found(outcome: Outcome): map<nat, string> {
    if Decoded(outcome).Some? then Decoded(outcome).value else map[]
  }

  /**
   * Only the positions of the batch matter: two outcomes that supply the
   * same translations at every position 1..n leave the batch the same,
   * whatever else their replies carry, and a failed call counts as a reply
   * with no translations.
   */
  lemma TranslatedAgree(batch: seq<Subtitle>, o1: Outcome, o2: Outcome)
    requires forall p :: 1 <= p <= |batch| ==> (p in Found(o1) <==> p in Found(o2))
    requires forall p :: 1 <= p <= |batch| && p in Found(o1) && p in Found(o2) ==> Found(o1)[p] == Found(o2)[p]
    ensures Translated(batch, o1) == Translated(batch, o2)
  {
    AnnotateAgree(batch, Decoded(o1), Decoded(o2), Found(o1), Found(o2));
  }

  /** Annotating with two sets of translations that agree on the batch's positions. */
  lemma AnnotateAgree(batch: seq<Subtitle>, t1: Option<map<nat, string>>, t2: Option<map<nat, string>>,
                      f1: map<nat, string>, f2: map<nat, string>)
    requires f1 == (if t1.Some? then t1.value else map[]) && f2 == (if t2.Some? then t2.value else map[])
    requires forall p :: 1 <= p <= |batch| ==> (p in f1 <==> p in f2)
    requires forall p :: 1 <= p <= |batch| && p in f1 && p in f2 ==> f1[p] == f2[p]
    ensures Annotate(batch, t1) == Annotate(batch, t2)
  {
    var r1, r2 := Annotate(batch, t1), Annotate(batch, t2);
    forall i | 0 <= i < |batch| ensures r1[i] == r2[i] {
      assert Resolve(t1, i + 1, batch[i].text) == Resolve(t2, i + 1, batch[i].text);
    }
  }

  /** A reply that numbers none of the batch's positions leaves every entry with its own text, as a failed call does. */
  lemma NoKeysFallsBack(batch: seq<Subtitle>, outcome: Outcome)
    requires forall p :: 1 <= p <= |batch| ==> p !in Found(outcome)
    ensures Translated(batch, outcome) == Translated(batch, ServiceError)
  {
    TranslatedAgree(batch, outcome, ServiceError);
  }

  /** A reply without a single open marker leaves every entry with its own text. */
  lemma NoMarkerFallsBack(batch: seq<Subtitle>, reply: string)
    requires !Contains(reply, StartTag)
    ensures Translated(batch, Completed(Some(reply))) == Translated(batch, ServiceError)
  {
    assert Found(Completed(Some(reply))) == map[];
    NoKeysFallsBack(batch, Completed(Some(reply)));
  }

  /** Every entry of the batch with the text `Resolve` gives its position. */
  function Annotate(batch: seq<Subtitle>, translations: Option<map<nat, string>>): seq<Subtitle> {
    seq(|batch|, i requires 0 <= i < |batch| =>
      batch[i].(translated := Some(Resolve(translations, i + 1, batch[i].text))))
  }

  /**
   * If the service echoes the payload back, every entry gets its own text,
   * stripped, provided no text contains `[END_SEG`.
   */
  lemma EchoTranslated(batch: seq<Subtitle>, language: string)
    requires forall i :: 0 <= i < |batch| ==> !Contains(batch[i].text, EndTag)
    ensures var r := Translated(batch, Completed(Some(RequestFor(batch, language).payload)));
            forall i :: 0 <= i < |batch| ==> r[i].translated == Some(Strip(batch[i].text))
  {
    var texts := Texts(batch);
    forall i | 0 <= i < |texts| ensures !Contains(texts[i], EndTag) {
      assert texts[i] == batch[i].text;
    }
    DecodePayload(texts);
    var outcome := Completed(Some(Payload(texts)));
    var d := Decode(Payload(texts));
    assert Decoded(outcome) == Some(d);
    TranslatedTexts(batch, outcome);
    var r := Translated(batch, outcome);
    forall i | 0 <= i < |batch| ensures r[i].translated == Some(Strip(batch[i].text)) {
      assert i + 1 in d && d[i + 1] == Strip(texts[i]);
    }
  }

  /**
   * `SrtTranslator.translate_batch`.  The batch is a list of its own, but its
   * items are the entries themselves, so the translations are written into
   * them in place.  The batch's ordinal `number` is what the service sees of
   * the call's position in the run.
   */
  method TranslateBatch(batch: array<Subtitle>, number: nat, language: string, service: Service)
    modifies batch
    ensures batch[..] == Translated(old(batch[..]), service(number, RequestFor(old(batch[..]), language)))
  {
    var request := RequestFor(batch[..], language);
    var outcome := service(number, request);
    AssignTranslations(batch, outcome);
  }

  /**
   * The part of `translate_batch` after the call: each entry gets the
   * translation numbered with its 1-based position, or its own text; when
   * the `try` block raised, every entry gets its own text.
   */
  method AssignTranslations(batch: array<Subtitle>, outcome: Outcome)
    modifies batch
    ensures batch[..] == Translated(old(batch[..]), outcome)
  {
    var translations := Decoded(outcome);
    if translations.Some? {
      AssignFound(batch, translations.value);
    } else {
      AssignFallback(batch);
    }
  }

  /** The loop over a decoded reply: the numbered translation, or the entry's own text when it is missing. */
  method AssignFound(batch: array<Subtitle>, translations: map<nat, string>)
    modifies batch
    ensures batch[..] == Annotate(old(batch[..]), Some(translations))
  {
    ghost var want := Annotate(batch[..], Some(translations));
    var i := 0;
    while i < batch.Length
      invariant 0 <= i <= batch.Length
      invariant forall k :: i <= k < batch.Length ==> batch[k] == old(batch[k])
      invariant forall k :: 0 <= k < i ==> batch[k] == want[k]
    {
      var item := batch[i];
      var segmentNum := i + 1;
      if segmentNum in translations {
        batch[i] := item.(translated := Some(translations[segmentNum]));
      } else {
        // the translation is missing from the reply
        batch[i] := item.(translated := Some(item.text));
      }
      i := i + 1;
    }
  }

  /** The exception handler: every entry keeps its own text. */
  method AssignFallback(batch: array<Subtitle>)
    modifies batch
    ensures batch[..] == Annotate(old(batch[..]), None)
  {
    ghost var want := Annotate(batch[..], None);
    for k := 0 to batch.Length
      invariant forall j :: k <= j < batch.Length ==> batch[j] == old(batch[j])
      invariant forall j :: 0 <= j < k ==> batch[j] == want[j]
    {
      batch[k] := batch[k].(translated := Some(batch[k].text));
    }
  }

  // ---------------------------------------------------------------- the whole file

  /** Where the batch that starts at `i` ends: `i + BatchSize`, or the end of the entries. */
  function BatchEnd(total: nat, i: nat): (hi: nat)
    requires i < total
    ensures i < hi <= total && hi - i <= BatchSize
    ensures hi < total ==> hi - i == BatchSize
  {
    if i + BatchSize < total then i + BatchSize else total
  }

  /** What happens to one batch, given the batch and its ordinal. */
  type BatchStep = (seq<Subtitle>, nat) -> seq<Subtitle>

  /** A step that keeps every entry of the batch, in place, and gives each a translation. */
  ghost predicate Annotates(step: BatchStep) {
    forall batch, b :: |step(batch, b)| == |batch| &&
      forall g :: 0 <= g < |batch| ==> SameEntry(step(batch, b)[g], batch[g]) && step(batch, b)[g].translated.Some?
  }

  /** Two entries that agree on everything but their translation. */
  predicate SameEntry(s: Subtitle, t: Subtitle) {
    s.index == t.index && s.timing == t.timing && s.text == t.text
  }

  /**
   * `for i in range(0, len(xs), BatchSize)` from `i` on: the batch
   * `xs[i:i + BatchSize]` with ordinal `b`, then the rest with ordinal `b + 1`.
   */
  function Batchwise(xs: seq<Subtitle>, i: nat, b: nat, step: BatchStep): seq<Subtitle>
    requires i <= |xs|
    decreases |xs| - i
  {
    if i == |xs| then []
    else
      var hi := BatchEnd(|xs|, i);
      step(xs[i..hi], b) + Batchwise(xs, hi, b + 1, step)
  }

  /** The batches cover the entries in order: with a step that hands each batch back, nothing changes. */
  lemma {:induction false} BatchesCover(xs: seq<Subtitle>, i: nat, b: nat)
    requires i <= |xs|
    ensures Batchwise(xs, i, b, (batch, n) => batch) == xs[i..]
    decreases |xs| - i
  {
    if i < |xs| {
      var hi := BatchEnd(|xs|, i);
      BatchesCover(xs, hi, b + 1);
      assert xs[i..hi] + xs[hi..] == xs[i..];
    }
  }

  /** A step that annotates every entry does so for the whole run. */
  lemma {:induction false} BatchwiseShape(xs: seq<Subtitle>, i: nat, b: nat, step: BatchStep)
    requires i <= |xs| && Annotates(step)
    ensures var out := Batchwise(xs, i, b, step);
            |out| == |xs| - i &&
            forall g :: 0 <= g < |out| ==> SameEntry(out[g], xs[i + g]) && out[g].translated.Some?
    decreases |xs| - i
  {
    if i < |xs| {
      var hi := BatchEnd(|xs|, i);
      BatchwiseShape(xs, hi, b + 1, step);
      var head := step(xs[i..hi], b);
      var tail := Batchwise(xs, hi, b + 1, step);
      assert |head| == hi - i;
      forall g | 0 <= g < |head| + |tail|
        ensures SameEntry((head + tail)[g], xs[i + g]) && (head + tail)[g].translated.Some?
      {
        if g < |head| {
          assert SameEntry(head[g], xs[i..hi][g]);
        } else {
          assert (head + tail)[g] == tail[g - |head|];
        }
      }
    }
  }

  /** A step that gives back as many entries as it is handed. */
  ghost predicate KeepsLength(step: BatchStep) {
    forall batch, b :: |step(batch, b)| == |batch|
  }

  /** A step that keeps lengths keeps the length of the run. */
  lemma {:induction false} BatchwiseLength(xs: seq<Subtitle>, i: nat, b: nat, step: BatchStep)
    requires i <= |xs| && KeepsLength(step)
    ensures |Batchwise(xs, i, b, step)| == |xs| - i
    decreases |xs| - i
  {
    if i < |xs| {
      BatchwiseLength(xs, BatchEnd(|xs|, i), b + 1, step);
    }
  }

  /**
   * Batch `b` starts at `b * BatchSize`, and its entries in the run are the
   * step's result for that batch and ordinal alone.
   */
  lemma {:induction false} BatchwiseSlice(xs: seq<Subtitle>, j: nat, c: nat, b: nat, step: BatchStep)
    requires j == c * BatchSize && c <= b && b * BatchSize < |xs| && KeepsLength(step)
    ensures var i := b * BatchSize;
            var hi := BatchEnd(|xs|, i);
            var out := Batchwise(xs, j, c, step);
            hi - j <= |out| && out[i - j..hi - j] == step(xs[i..hi], b)
    decreases b - c
  {
    var i := b * BatchSize;
    var hi := BatchEnd(|xs|, i);
    var h := BatchEnd(|xs|, j);
    var head := step(xs[j..h], c);
    var tail := Batchwise(xs, h, c + 1, step);
    assert Batchwise(xs, j, c, step) == head + tail;
    assert |head| == h - j;
    BatchwiseLength(xs, h, c + 1, step);
    if c == b {
      SliceOfAppend(head, tail, 0, h - j);
    } else {
      assert h == j + BatchSize;
      BatchwiseSlice(xs, h, c + 1, b, step);
      SliceOfAppend(head, tail, i - j, hi - j);
    }
  }

  /** The step of `translate_srt`: one service call per batch, its ordinal passed along. */
  function ServiceStep(language: string, service: Service): BatchStep {
    (batch: seq<Subtitle>, b: nat) => Translated(batch, service(b, RequestFor(batch, language)))
  }

  lemma ServiceStepAnnotates(language: string, service: Service)
    ensures Annotates(ServiceStep(language, service)) && KeepsLength(ServiceStep(language, service))
  {
    var step := ServiceStep(language, service);
    forall batch, b ensures |step(batch, b)| == |batch| &&
      forall g :: 0 <= g < |batch| ==> SameEntry(step(batch, b)[g], batch[g]) && step(batch, b)[g].translated.Some?
    {
      assert step(batch, b) == Translated(batch, service(b, RequestFor(batch, language)));
    }
  }

  /**
   * The entries of a file after translation: nothing changes but
   * `translated`, which every entry gets; one output entry per input entry,
   * in the same order.
   */
  function Translation(xs: seq<Subtitle>, language: string, service: Service): (out: seq<Subtitle>)
    ensures |out| == |xs|
    ensures forall g :: 0 <= g < |out| ==> SameEntry(out[g], xs[g]) && out[g].translated.Some?
  {
    ServiceStepAnnotates(language, service);
    BatchwiseShape(xs, 0, 0, ServiceStep(language, service));
    Batchwise(xs, 0, 0, ServiceStep(language, service))
  }

  /**
   * The entries of batch `b` are that batch translated with the outcome of
   * call `b`: no batch sees another batch's reply.
   */
  lemma TranslationBatch(xs: seq<Subtitle>, language: string, service: Service, b: nat)
    requires b * BatchSize < |xs|
    ensures var i := b * BatchSize;
            var hi := BatchEnd(|xs|, i);
            var out := Translation(xs, language, service);
            hi <= |out| && out[i..hi] == Translated(xs[i..hi], service(b, RequestFor(xs[i..hi], language)))
  {
    var step := ServiceStep(language, service);
    ServiceStepKeepsLength(language, service);
    BatchwiseSlice(xs, 0, 0, b, step);
    var i := b * BatchSize;
    ServiceStepApplies(language, service, xs[i..BatchEnd(|xs|, i)], b);
  }

  /** The service step on one batch is that batch translated with the outcome of its call. */
  lemma ServiceStepApplies(language: string, service: Service, batch: seq<Subtitle>, b: nat)
    ensures ServiceStep(language, service)(batch, b) == Translated(batch, service(b, RequestFor(batch, language)))
  {
  }

  /** The service step hands back as many entries as it is given. */
  lemma ServiceStepKeepsLength(language: string, service: Service)
    ensures KeepsLength(ServiceStep(language, service))
  {
    ServiceStepAnnotates(language, service);
  }

  /** The number of batches, `ceil(total / BatchSize)`, as the progress message computes it. */
  function BatchCount(total: nat): (n: nat)
    ensures n * BatchSize >= total && (n == 0 || (n - 1) * BatchSize < total)
  {
    (total + BatchSize - 1) / BatchSize
  }

  /**
   * The batch loop of `SrtTranslator.translate_srt`: every batch translated
   * in order, with a pause between consecutive calls.
   */
  method TranslateEntries(subtitles: seq<Subtitle>, language: string, service: Service)
    returns (translatedSubtitles: seq<Subtitle>, events: seq<Event>)
    ensures translatedSubtitles == Translation(subtitles, language, service)
    ensures events == Schedule(BatchCount(|subtitles|))
  {
    ghost var whole := Translation(subtitles, language, service);
    var totalSegments := |subtitles|;
    translatedSubtitles := [];
    events := [];
    var i := 0;
    var b := 0;
    while i < totalSegments
      invariant i <= totalSegments
      invariant translatedSubtitles == whole[..i]
      invariant i < totalSegments ==> i == b * BatchSize
      invariant b == BatchCount(i)
      invariant events == Progress(b, i < totalSegments)
      decreases totalSegments - i
    {
      var hi, translatedBatch := TranslateNext(subtitles, i, b, language, service);
      ProgressNext(b, hi < totalSegments);
      events := events + [Call(b)];
      translatedSubtitles := translatedSubtitles + translatedBatch;
      assert translatedSubtitles == whole[..hi];
      if i + BatchSize < totalSegments {
        events := events + [Pause];
      }
      i := hi;
      b := b + 1;
    }
    assert whole[..i] == whole;
  }

  /**
   * One turn of the batch loop: the batch `subtitles[i:i + BatchSize]`, a
   * list of its own over the same entries, handed to `translate_batch`.
   */
  method TranslateNext(subtitles: seq<Subtitle>, i: nat, b: nat, language: string, service: Service)
    returns (hi: nat, translatedBatch: seq<Subtitle>)
    requires i < |subtitles| && i == b * BatchSize
    ensures hi == BatchEnd(|subtitles|, i)
    ensures translatedBatch == Translation(subtitles, language, service)[i..hi]
  {
    hi := if i + BatchSize < |subtitles| then i + BatchSize else |subtitles|;
    var batch := new Subtitle[hi - i](k requires 0 <= k < hi - i => subtitles[i + k]);
    assert batch[..] == subtitles[i..hi];
    TranslateBatch(batch, b, language, service);
    translatedBatch := batch[..];
    TranslationBatch(subtitles, language, service, b);
  }

  /**
   * `SrtTranslator.translate_srt` once the input has been read: the content
   * of the output file, and the calls and pauses made on the way.
   */
  method TranslateSrt(content: string, language: string, service: Service) returns (output: string, events: seq<Event>)
    ensures var subtitles := Parsed(content);
            output == Render(Translation(subtitles, language, service))
            && events == Schedule(BatchCount(|subtitles|))
  {
    var subtitles := ParseSrt(content);
    var translatedSubtitles;
    translatedSubtitles, events := TranslateEntries(subtitles, language, service);
    output := WriteSrt(translatedSubtitles);
  }

  // ---------------------------------------------------------------- pacing

  /** What the run does over time: one call per batch, a pause between batches. */
  datatype Event = Call(batch: nat) | Pause

  /** The run of `n` batches: calls 0 .. n-1 with a pause after each but the last. */
  function Schedule(n: nat): seq<Event> {
    if n == 0 then []
    else if n == 1 then [Call(0)]
    else Schedule(n - 1) + [Pause, Call(n - 1)]
  }

  /** The events after `b` calls, with the pause that follows a call when `more` batches remain. */
  function Progress(b: nat, more: bool): seq<Event> {
    if b == 0 then [] else Schedule(b) + if more then [Pause] else []
  }

  /** The next call extends the run, and is followed by a pause exactly when more batches remain. */
  lemma ProgressNext(b: nat, more: bool)
    ensures Progress(b, true) + [Call(b)] + (if more then [Pause] else []) == Progress(b + 1, more)
  {
    if b > 0 {
      assert Schedule(b) + [Pause] + [Call(b)] == Schedule(b) + [Pause, Call(b)];
    }
  }

  function Pauses(events: seq<Event>): nat {
    if events == [] then 0
    else Pauses(events[..|events| - 1]) + if events[|events| - 1] == Pause then 1 else 0
  }

  /** Calls and pauses alternate, starting and ending with a call. */
  lemma {:induction false} ScheduleAlternates(n: nat)
    requires n >= 1
    ensures |Schedule(n)| == 2 * n - 1
    ensures forall k :: 0 <= k < |Schedule(n)| ==>
              Schedule(n)[k] == if k % 2 == 0 then Call(k / 2) else Pause
  {
    if n > 1 {
      ScheduleAlternates(n - 1);
    }
  }

  /** A run of `n >= 1` batches pauses `n - 1` times. */
  lemma {:induction false} SchedulePauses(n: nat)
    ensures Pauses(Schedule(n)) == if n == 0 then 0 else n - 1
  {
    if n > 1 {
      SchedulePauses(n - 1);
      var s := Schedule(n - 1) + [Pause, Call(n - 1)];
      assert s[..|s| - 1] == Schedule(n - 1) + [Pause];
      assert (Schedule(n - 1) + [Pause])[..|s| - 2] == Schedule(n - 1);
    }
  }

  // ---------------------------------------------------------------- writing

  /** An entry's block as written: index, timing and translation, each on a line of its own. */
  function EntryBlock(s: Subtitle): string
    requires s.translated.Some?
  {
    IntToString(s.index) + "\n" + s.timing + "\n" + s.translated.value
  }

  /** One entry as written: its block, then a blank line. */
  function EntryText(s: Subtitle): string
    requires s.translated.Some?
  {
    EntryBlock(s) + "\n\n"
  }

  /** The output file's content: empty exactly when there are no entries, and otherwise ending in a blank line. */
  function Render(subs: seq<Subtitle>): (file: string)
    requires forall k :: 0 <= k < |subs| ==> subs[k].translated.Some?
    ensures file == [] <==> subs == []
    ensures subs != [] ==> |file| >= 2 && file[|file| - 2] == '\n' && file[|file| - 1] == '\n'
  {
    if subs == [] then ""
    else Render(subs[..|subs| - 1]) + EntryText(subs[|subs| - 1])
  }

  /** Writing one entry more appends its text. */
  lemma {:induction false} RenderNext(subs: seq<Subtitle>, k: nat)
    requires forall k :: 0 <= k < |subs| ==> subs[k].translated.Some?
    requires k < |subs|
    ensures Render(subs[..k + 1]) == Render(subs[..k]) + EntryText(subs[k])
  {
    PrefixOfPrefix(subs, k + 1, k);
    assert subs[..k + 1][k] == subs[k];
  }

  /** The loop of `translate_srt` that writes the entries out. */
  method WriteSrt(subs: seq<Subtitle>) returns (file: string)
    requires forall k :: 0 <= k < |subs| ==> subs[k].translated.Some?
    ensures file == Render(subs)
  {
    file := "";
    for k := 0 to |subs|
      invariant file == Render(subs[..k])
    {
      var sub := subs[k];
      RenderNext(subs, k);
      Chain(file, IntToString(sub.index), "\n", sub.timing, "\n", sub.translated.value, "\n\n");
      file := file + IntToString(sub.index) + "\n";
      file := file + sub.timing + "\n";
      file := file + sub.translated.value + "\n\n";
    }
    WholePrefix(subs);
  }

  // ---------------------------------------------------------------- reading the output back

  /** Non-empty, with no whitespace at either end. */
  predicate Trimmed(t: string) {
    |t| > 0 && t[0] !in Whitespace && t[|t| - 1] !in Whitespace
  }

  /**
   * A translated entry whose written block `parse_srt` reads back as it is:
   * a one-line timing and a translation without blank lines, neither with
   * whitespace at its ends.
   */
  predicate Rereadable(s: Subtitle)
    requires s.translated.Some?
  {
    && Trimmed(s.timing) && '\n' !in s.timing
    && Trimmed(s.translated.value) && !Contains(s.translated.value, "\n\n")
  }

  /** The entry `parse_srt` makes of a written entry: the translation becomes the text. */
  function Reread(s: Subtitle): Subtitle
    requires s.translated.Some?
  {
    Subtitle(s.index, s.timing, s.translated.value, None)
  }

  /** A rendered integer is a line of its own, with no whitespace at its ends. */
  lemma IndexLine(i: int)
    ensures Trimmed(IntToString(i)) && '\n' !in IntToString(i)
  {
    var num := IntToString(i);
    IntToStringPlain(i);
    assert forall k :: 0 <= k < |num| ==> num[k] != '\n';
  }

  /** A written block parses back into the entry with its translation as text. */
  lemma EntryBlockParses(s: Subtitle)
    requires s.translated.Some? && Rereadable(s)
    ensures ParseBlock(EntryBlock(s)) == Some(Reread(s))
  {
    var num := IntToString(s.index);
    var text := s.translated.value;
    IndexLine(s.index);
    LinesOf(num, s.timing, text);
    var lines := Split(EntryBlock(s), "\n");
    assert lines[2..] == Split(text, "\n");
    TextLines(text);
    IndexParses(s.index);
    StripTrimmed(s.timing);
  }

  /** The lines of a trimmed text, joined again and stripped, are the text. */
  lemma TextLines(text: string)
    requires Trimmed(text)
    ensures Strip(Join(Split(text, "\n"), "\n")) == text
  {
    JoinSplit(text, "\n");
    StripTrimmed(text);
  }

  /** The first line of a written block reads back as the index. */
  lemma IndexParses(i: int)
    ensures ParseInt(Strip(IntToString(i))) == Some(i)
  {
    IndexLine(i);
    StripTrimmed(IntToString(i));
    IntToStringParses(i);
  }

  /** Non-blank at both ends and without a blank line: what `re.split(r'\n\n+', ...)` keeps whole. */
  predicate Paragraph(b: string) {
    Trimmed(b) && !Contains(b, "\n\n")
  }

  /** A written block is a paragraph of its own. */
  lemma EntryBlockShape(s: Subtitle)
    requires s.translated.Some? && Rereadable(s)
    ensures Paragraph(EntryBlock(s))
  {
    var num := IntToString(s.index);
    var text := s.translated.value;
    IndexLine(s.index);
    NoBlankLineInLine(num);
    assert !Contains("\n", "\n\n");
    NoBlankLineInLine(s.timing);
    NoBlankLineConcat(num, "\n");
    NoBlankLineConcat(num + "\n", s.timing);
    NoBlankLineConcat(num + "\n" + s.timing, "\n");
    NoBlankLineConcat(num + "\n" + s.timing + "\n", text);
    assert EntryBlock(s)[0] == num[0];
  }

  /** The blocks of the entries, in order. */
  function EntryBlocks(subs: seq<Subtitle>): (bs: seq<string>)
    requires forall k :: 0 <= k < |subs| ==> subs[k].translated.Some?
    ensures |bs| == |subs|
  {
    if subs == [] then [] else EntryBlocks(subs[..|subs| - 1]) + [EntryBlock(subs[|subs| - 1])]
  }

  /** The entries `parse_srt` makes of written entries. */
  function RereadAll(subs: seq<Subtitle>): (r: seq<Subtitle>)
    requires forall k :: 0 <= k < |subs| ==> subs[k].translated.Some?
    ensures |r| == |subs|
  {
    if subs == [] then [] else RereadAll(subs[..|subs| - 1]) + [Reread(subs[|subs| - 1])]
  }

  /** The output is the entries' blocks, one blank line apart, with a blank line at the end. */
  lemma {:induction false} RenderJoined(subs: seq<Subtitle>)
    requires |subs| >= 1 && forall k :: 0 <= k < |subs| ==> subs[k].translated.Some?
    ensures Render(subs) == Join(EntryBlocks(subs), "\n\n") + "\n\n"
  {
    var init := subs[..|subs| - 1];
    var block := EntryBlock(subs[|subs| - 1]);
    if |init| == 0 {
      assert EntryBlocks(subs) == [block];
    } else {
      RenderJoined(init);
      var joined := Join(EntryBlocks(init), "\n\n");
      JoinSnoc(EntryBlocks(init), block, "\n\n");
      calc {
        Render(subs);
        Render(init) + (block + "\n\n");
        (joined + "\n\n") + (block + "\n\n");
        (joined + "\n\n" + block) + "\n\n";
      }
    }
  }

  /** Parsing the blocks of rereadable entries gives the reread entries. */
  lemma {:induction false} ParseEntryBlocks(subs: seq<Subtitle>)
    requires forall k :: 0 <= k < |subs| ==> subs[k].translated.Some? && Rereadable(subs[k])
    ensures ParseBlocks(EntryBlocks(subs)) == RereadAll(subs)
  {
    if subs != [] {
      var init := subs[..|subs| - 1];
      var last := subs[|subs| - 1];
      assert forall k :: 0 <= k < |init| ==> init[k] == subs[k];
      var blocks := EntryBlocks(subs);
      assert blocks[..|blocks| - 1] == EntryBlocks(init);
      ParseEntryBlocks(init);
      EntryBlockParses(last);
    }
  }

  /** Every written block is a paragraph of its own. */
  lemma {:induction false} EntryBlocksShape(subs: seq<Subtitle>)
    requires forall k :: 0 <= k < |subs| ==> subs[k].translated.Some? && Rereadable(subs[k])
    ensures forall k :: 0 <= k < |subs| ==> Paragraph(EntryBlocks(subs)[k])
  {
    if subs != [] {
      var init := subs[..|subs| - 1];
      assert forall k :: 0 <= k < |init| ==> init[k] == subs[k];
      EntryBlocksShape(init);
      EntryBlockShape(subs[|subs| - 1]);
      assert forall k :: 0 <= k < |init| ==> EntryBlocks(subs)[k] == EntryBlocks(init)[k];
    }
  }

  /** Paragraphs joined by blank lines, with a blank line at the end, strip to the join. */
  lemma JoinStripped(blocks: seq<string>)
    requires |blocks| >= 1 && forall k :: 0 <= k < |blocks| ==> Paragraph(blocks[k])
    ensures Strip(Join(blocks, "\n\n") + "\n\n") == Join(blocks, "\n\n")
  {
    forall k | 0 <= k < |blocks| ensures |blocks[k]| > 0 {
      assert Paragraph(blocks[k]);
    }
    JoinEnds(blocks, "\n\n");
    assert Paragraph(blocks[0]) && Paragraph(blocks[|blocks| - 1]);
    TrailingBlankLine(Join(blocks, "\n\n"));
  }

  /** A trimmed text followed by a blank line strips back to the text. */
  lemma TrailingBlankLine(t: string)
    requires Trimmed(t)
    ensures Strip(t + "\n\n") == t
  {
    RStripPadded(t, "\n\n");
    StripTrimmed(t);
  }

  /** An empty file has no entries. */
  lemma NothingParses()
    ensures Parsed("") == []
  {
    assert Strip("") == "";
    assert SplitParagraphs("") == [""];
    assert Split("", "\n") == [""];
  }

  /**
   * The output of `translate_srt` is itself a subtitle file: `parse_srt`
   * reads it back as the written entries, each with its translation as text,
   * as long as the timings and translations are single paragraphs with no
   * whitespace at their ends.
   */
  lemma RenderParses(subs: seq<Subtitle>)
    requires forall k :: 0 <= k < |subs| ==> subs[k].translated.Some? && Rereadable(subs[k])
    ensures Parsed(Render(subs)) == RereadAll(subs)
  {
    if subs == [] {
      NothingParses();
    } else {
      var blocks := EntryBlocks(subs);
      EntryBlocksShape(subs);
      RenderJoined(subs);
      JoinStripped(blocks);
      SplitParagraphsJoin(blocks);
      ParseEntryBlocks(subs);
    }
  }
}
