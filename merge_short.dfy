/**
 * `merge_short_srt_segments.py`: a greedy pass over the extracted segments
 * that absorbs a segment whose text is too short into the one before it.
 * One merge at a time, never a chain: after a merge the pass continues two
 * segments on.  The survivors are renumbered from 1 and written out.
 */
module MergeShort {
  import opened Text

  /** One `(number, timing, text)` triple as the extraction regex yields it. */
  datatype Segment = Segment(number: string, timing: string, text: string)

  /** What one run of `merge_short_segments` does with the file. */
  datatype Outcome =
    | NoSegments                // nothing extracted: a message, no file written
    | IndexError                // a timing to merge has no " --> ": the script stops, no file written
    | Written(content: string)  // the text written to the output file

  /** The default `min_length`. */
  const DefaultMinLength: int := 20

  /** The separator the timings are split at. */
  const Arrow: string := " --> "

  /** Segment `i` absorbs the next one: there is a next one and its stripped text is shorter than `minLength`. */
  predicate MergesAt(segments: seq<Segment>, minLength: int, i: nat) {
    i + 1 < |segments| && |Strip(segments[i + 1].text)| < minLength
  }

  /**
   * `cur` with `next` absorbed; `None` where `next_time_parts[1]` raises,
   * which is exactly when the next timing has no `" --> "`.  The merged
   * segment keeps the current segment's number.
   */
  function Merged(cur: Segment, next: Segment): (r: Option<Segment>)
    ensures r.None? <==> !Contains(next.timing, Arrow)
    ensures r.Some? ==> r.value.number == cur.number
  {
    SplitSeveral(next.timing, Arrow);
    var timeParts := Split(cur.timing, Arrow);
    var nextTimeParts := Split(next.timing, Arrow);
    if |nextTimeParts| < 2 then None
    else Some(Segment(cur.number, timeParts[0] + Arrow + nextTimeParts[1], Strip(cur.text) + " " + Strip(next.text)))
  }

  /**
   * The segments the loop appends from index `i` on, or `None` when a merge
   * fails.  Each output consumes one or two inputs, so there are between
   * half (rounded up) and all of the remaining inputs.
   */
  function MergeFrom(segments: seq<Segment>, minLength: int, i: nat): (r: Option<seq<Segment>>)
    requires i <= |segments|
    ensures r.Some? ==> (|segments| - i + 1) / 2 <= |r.value| <= |segments| - i
    decreases |segments| - i
  {
    if i == |segments| then Some([])
    else if MergesAt(segments, minLength, i) then
      match Merged(segments[i], segments[i + 1])
      case None => None
      case Some(m) =>
        var rest := MergeFrom(segments, minLength, i + 2);
        if rest.Some? then Some([m] + rest.value) else None
    else
      var rest := MergeFrom(segments, minLength, i + 1);
      if rest.Some? then Some([segments[i]] + rest.value) else None
  }

  /** One output block: `f"{idx}\n{timing}\n{text}\n\n"`. */
  function SegmentBlock(idx: int, s: Segment): string {
    IntToString(idx) + "\n" + s.timing + "\n" + s.text + "\n\n"
  }

  /** The output file for the merged segments, numbered from 1. */
  function Render(merged: seq<Segment>): string {
    if merged == [] then ""
    else Render(merged[..|merged| - 1]) + SegmentBlock(|merged|, merged[|merged| - 1])
  }

  /** What a run of `merge_short_segments` leads to. */
  function MergeOutcome(segments: seq<Segment>, minLength: int): Outcome {
    if segments == [] then NoSegments
    else
      var merged := MergeFrom(segments, minLength, 0);
      if merged.Some? then Written(Render(merged.value)) else IndexError
  }

  /** The outputs collected so far in front of the ones still to come. */
  function Prepend(done: seq<Segment>, rest: Option<seq<Segment>>): Option<seq<Segment>> {
    if rest.Some? then Some(done + rest.value) else None
  }

  lemma PrependStep(done: seq<Segment>, s: Segment, rest: Option<seq<Segment>>)
    ensures Prepend(done, if rest.Some? then Some([s] + rest.value) else None) == Prepend(done + [s], rest)
  {
    if rest.Some? {
      assert done + ([s] + rest.value) == done + [s] + rest.value;
    }
  }

  lemma PrependNothing(rest: Option<seq<Segment>>)
    ensures Prepend([], rest) == rest
  {
    if rest.Some? {
      assert [] + rest.value == rest.value;
    }
  }

  /** The merge branch of the loop body: the current segment's end time and text extended by the next one's. */
  method AbsorbNext(currentSegment: Segment, nextSegment: Segment) returns (merged: Option<Segment>)
    ensures merged == Merged(currentSegment, nextSegment)
  {
    var timeParts := Split(currentSegment.timing, Arrow);
    var nextTimeParts := Split(nextSegment.timing, Arrow);
    if |nextTimeParts| < 2 {
      return None;
    }
    var segment := currentSegment.(timing := timeParts[0] + Arrow + nextTimeParts[1]);
    segment := segment.(text := Strip(segment.text) + " " + Strip(nextSegment.text));
    return Some(segment);
  }

  /** The merge loop: `None` where the script raises `IndexError`. */
  method MergeSegments(segments: seq<Segment>, minLength: int) returns (merged: Option<seq<Segment>>)
    ensures merged == MergeFrom(segments, minLength, 0)
  {
    var mergedSegments: seq<Segment> := [];
    var i := 0;
    PrependNothing(MergeFrom(segments, minLength, 0));
    while i < |segments|
      invariant 0 <= i <= |segments|
      invariant MergeFrom(segments, minLength, 0) == Prepend(mergedSegments, MergeFrom(segments, minLength, i))
      decreases |segments| - i
    {
      var currentSegment := segments[i];
      if i + 1 < |segments| && |Strip(segments[i + 1].text)| < minLength {
        var absorbed := AbsorbNext(currentSegment, segments[i + 1]);
        if absorbed.None? {
          return None;
        }
        currentSegment := absorbed.value;
        PrependStep(mergedSegments, currentSegment, MergeFrom(segments, minLength, i + 2));
        i := i + 2;
      } else {
        PrependStep(mergedSegments, currentSegment, MergeFrom(segments, minLength, i + 1));
        i := i + 1;
      }
      mergedSegments := mergedSegments + [currentSegment];
    }
    assert MergeFrom(segments, minLength, i) == Some([]);
    assert mergedSegments + [] == mergedSegments;
    return Some(mergedSegments);
  }

  /** The renumbering loop: `output_content` built block by block. */
  method WriteSegments(mergedSegments: seq<Segment>) returns (outputContent: string)
    ensures outputContent == Render(mergedSegments)
  {
    outputContent := "";
    for idx := 0 to |mergedSegments|
      invariant outputContent == Render(mergedSegments[..idx])
    {
      assert mergedSegments[..idx + 1][..idx] == mergedSegments[..idx];
      outputContent := outputContent + (IntToString(idx + 1) + "\n" + mergedSegments[idx].timing + "\n" + mergedSegments[idx].text + "\n\n");
    }
    WholePrefix(mergedSegments);
  }

  /** `merge_short_segments` on the extracted segments. */
  method MergeShortSegments(segments: seq<Segment>, minLength: int) returns (outcome: Outcome)
    ensures outcome == MergeOutcome(segments, minLength)
  {
    if |segments| == 0 {
      return NoSegments;
    }
    var merged := MergeSegments(segments, minLength);
    if merged.None? {
      return IndexError;
    }
    var outputContent := WriteSegments(merged.value);
    return Written(outputContent);
  }

  // ---------------------------------------------------------------- properties

  /** Where each output segment starts when the pass begins at `i`: the next start is one on, or two after a merge. */
  function Starts(segments: seq<Segment>, minLength: int, i: nat): (st: seq<nat>)
    requires i <= |segments|
    decreases |segments| - i
  {
    if i == |segments| then []
    else [i] + Starts(segments, minLength, NextStart(segments, minLength, i))
  }

  /** Output `j` comes from input `s`, merged with `s + 1` exactly when that one is short. */
  predicate OutputOf(segments: seq<Segment>, minLength: int, s: nat, out: Segment) {
    s < |segments| &&
    if MergesAt(segments, minLength, s) then Merged(segments[s], segments[s + 1]) == Some(out)
    else out == segments[s]
  }

  /** Where the output after the one starting at `i` starts: one on, or two on after a merge. */
  function NextStart(segments: seq<Segment>, minLength: int, i: nat): nat {
    if MergesAt(segments, minLength, i) then i + 2 else i + 1
  }

  lemma StartsStep(segments: seq<Segment>, minLength: int, i: nat)
    requires i < |segments|
    ensures NextStart(segments, minLength, i) <= |segments|
    ensures Starts(segments, minLength, i) == [i] + Starts(segments, minLength, NextStart(segments, minLength, i))
  {
  }

  /**
   * The starts cover the inputs without gaps or overlaps: they begin at
   * `i`, each is one past its predecessor, or two past one that merged, and
   * the last one consumes the last input.
   */
  lemma {:induction false} StartsCover(segments: seq<Segment>, minLength: int, i: nat)
    requires i <= |segments|
    ensures var st := Starts(segments, minLength, i);
            (i < |segments| ==> |st| > 0 && st[0] == i) &&
            (forall j :: 0 <= j < |st| ==> i <= st[j] < |segments|) &&
            (forall j :: 0 <= j < |st| - 1 ==> st[j + 1] == NextStart(segments, minLength, st[j])) &&
            (|st| > 0 ==> NextStart(segments, minLength, st[|st| - 1]) == |segments|)
    decreases |segments| - i
  {
    if i < |segments| {
      var next := NextStart(segments, minLength, i);
      StartsStep(segments, minLength, i);
      StartsCover(segments, minLength, next);
      ConsCover(segments, minLength, i, Starts(segments, minLength, next));
    }
  }

  /** Putting `i` in front of the starts from its successor keeps them a gapless chain. */
  lemma ConsCover(segments: seq<Segment>, minLength: int, i: nat, rest: seq<nat>)
    requires i < |segments|
    requires var next := NextStart(segments, minLength, i);
             next <= |segments| &&
             (next < |segments| ==> |rest| > 0 && rest[0] == next) &&
             (forall j :: 0 <= j < |rest| ==> next <= rest[j] < |segments|) &&
             (forall j :: 0 <= j < |rest| - 1 ==> rest[j + 1] == NextStart(segments, minLength, rest[j])) &&
             (|rest| > 0 ==> NextStart(segments, minLength, rest[|rest| - 1]) == |segments|)
    ensures var st := [i] + rest;
            |st| > 0 && st[0] == i &&
            (forall j :: 0 <= j < |st| ==> i <= st[j] < |segments|) &&
            (forall j :: 0 <= j < |st| - 1 ==> st[j + 1] == NextStart(segments, minLength, st[j])) &&
            NextStart(segments, minLength, st[|st| - 1]) == |segments|
  {
    ConsAt(i, rest);
  }

  /** The first output of the pass from `i`, and the rest. */
  lemma FirstOutput(segments: seq<Segment>, minLength: int, i: nat)
    requires i < |segments| && MergeFrom(segments, minLength, i).Some?
    ensures NextStart(segments, minLength, i) <= |segments|
    ensures var m := MergeFrom(segments, minLength, i).value;
            var rest := MergeFrom(segments, minLength, NextStart(segments, minLength, i));
            |m| > 0 && OutputOf(segments, minLength, i, m[0]) && rest.Some? && m == [m[0]] + rest.value
  {
  }

  /**
   * Each merged segment is the input at its start, unchanged, or that input
   * with the next one absorbed when the next one is short.
   */
  lemma {:induction false} MergeOutputs(segments: seq<Segment>, minLength: int, i: nat)
    requires i <= |segments| && MergeFrom(segments, minLength, i).Some?
    ensures var m := MergeFrom(segments, minLength, i).value;
            var st := Starts(segments, minLength, i);
            |m| == |st| && forall j :: 0 <= j < |st| ==> OutputOf(segments, minLength, st[j], m[j])
    decreases |segments| - i
  {
    if i < |segments| {
      var next := NextStart(segments, minLength, i);
      FirstOutput(segments, minLength, i);
      StartsStep(segments, minLength, i);
      MergeOutputs(segments, minLength, next);
      var m := MergeFrom(segments, minLength, i).value;
      var rest := MergeFrom(segments, minLength, next).value;
      var st := Starts(segments, minLength, i);
      var sts := Starts(segments, minLength, next);
      ConsAt(i, sts);
      ConsAt(m[0], rest);
      forall j | 1 <= j < |st| ensures OutputOf(segments, minLength, st[j], m[j]) {
        assert st[j] == sts[j - 1] && m[j] == rest[j - 1];
      }
    }
  }

  lemma KeepStep(segments: seq<Segment>, minLength: int, i: nat)
    requires i < |segments| && !MergesAt(segments, minLength, i)
    ensures MergeFrom(segments, minLength, i) ==
            (var rest := MergeFrom(segments, minLength, i + 1); if rest.Some? then Some([segments[i]] + rest.value) else None)
  {
  }

  /** When no segment after the current one is short, every segment is kept exactly as extracted. */
  lemma {:induction false} LongSegmentsKept(segments: seq<Segment>, minLength: int, i: nat)
    requires i <= |segments|
    requires forall k :: i < k < |segments| ==> |Strip(segments[k].text)| >= minLength
    ensures MergeFrom(segments, minLength, i) == Some(segments[i..])
    decreases |segments| - i
  {
    if i == |segments| {
      assert segments[i..] == [];
    } else {
      KeepStep(segments, minLength, i);
      LongSegmentsKept(segments, minLength, i + 1);
      ConsSlice(segments, i);
    }
  }

  /**
   * Splitting a merged timing at the arrow again gives the start of the
   * current segment and the end of the next one, provided the start cannot
   * run into the arrow.
   */
  lemma MergedTimingReads(cur: Segment, next: Segment)
    requires |Split(next.timing, Arrow)| >= 2
    requires Separable(Split(cur.timing, Arrow)[0], Arrow)
    ensures Merged(cur, next).Some?
    ensures Split(Merged(cur, next).value.timing, Arrow) == [Split(cur.timing, Arrow)[0], Split(next.timing, Arrow)[1]]
  {
    var start := Split(cur.timing, Arrow)[0];
    var end := Split(next.timing, Arrow)[1];
    SplitPiecesFree(next.timing, Arrow);
    assert Merged(cur, next).value.timing == start + Arrow + end;
    ArrowSplits(start, end);
  }

  lemma ArrowSplits(start: string, end: string)
    requires Separable(start, Arrow) && !Contains(end, Arrow)
    ensures Split(start + Arrow + end, Arrow) == [start, end]
  {
    SplitFirst(start, Arrow, end);
    SplitNone(end, Arrow);
    assert [start] + [end] == [start, end];
  }

  lemma {:induction false} RenderPrefix(merged: seq<Segment>, k: nat)
    requires k <= |merged|
    ensures Render(merged[..k]) <= Render(merged)
  {
    if k < |merged| {
      var init := merged[..|merged| - 1];
      PrefixOfPrefix(merged, |merged| - 1, k);
      RenderPrefix(init, k);
      assert Render(init) <= Render(merged);
    } else {
      WholePrefix(merged);
    }
  }

  /** Output segment `j` is written as block number `j + 1`, after the blocks of the segments before it. */
  lemma {:induction false} RenderNumbers(merged: seq<Segment>, j: nat)
    requires j < |merged|
    ensures Render(merged[..j]) + SegmentBlock(j + 1, merged[j]) <= Render(merged)
  {
    var pre := merged[..j + 1];
    RenderPrefix(merged, j + 1);
    PrefixOfPrefix(merged, j + 1, j);
    assert pre[|pre| - 1] == merged[j];
    assert Render(pre) == Render(merged[..j]) + SegmentBlock(j + 1, merged[j]);
  }
}
