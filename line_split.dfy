/**
 * `split_srt.py`: break a subtitle text longer than 35 characters that
 * does not yet hold the ASS hard line break `\N` (a backslash and the
 * letter N) into two lines joined by `\N`, cutting after the period nearest
 * the middle, else after the comma nearest the middle, else at the middle;
 * punctuation at the cut is dropped.  A text that already holds `\N` is
 * never cut again, whatever its length: only each piece loses its trailing
 * punctuation, as does every short text.  The block pass rebuilds
 * numbered blocks around the new text and leaves every other block as it
 * was.
 */
module LineSplit {
  import opened Text
  import opened Blocks

  /** The default `max_length` of `split_long_line`. */
  const MaxLength: nat := 35

  /** The ASS hard line break: a backslash followed by `N`. */
  const Break: string := "\\N"

  /** The characters stripped at a cut: fullwidth comma, ideographic full stop, ideographic comma, fullwidth semicolon and colon, and their ASCII forms. */
  const Punct: set<char> := {'\U{FF0C}', '\U{3002}', '\U{3001}', '\U{FF1B}', '\U{FF1A}', ',', '.', ';', ':'}

  /** The class `[。.]` */
  const Periods: set<char> := {'\U{3002}', '.'}

  /** The class `[，,]` */
  const Commas: set<char> := {'\U{FF0C}', ','}

  // ---------------------------------------------------------------- the cut point

  function Dist(x: int, y: int): nat {
    if x >= y then x - y else y - x
  }

  /**
   * `min(positions, key=lambda x: abs(x - mid))` over the positions below `n`
   * of characters of `cs`: the first of those nearest to `mid`, or `None`
   * when there is none.
   */
  function Nearest(text: string, cs: set<char>, mid: int, n: nat): (r: Option<nat>)
    requires n <= |text|
    ensures r.Some? ==> r.value < n && text[r.value] in cs
    ensures r.Some? ==> forall x :: 0 <= x < n && text[x] in cs ==>
              Dist(r.value, mid) < Dist(x, mid) || (Dist(r.value, mid) == Dist(x, mid) && r.value <= x)
    ensures r.None? ==> forall x :: 0 <= x < n ==> text[x] !in cs
  {
    if n == 0 then None
    else
      var best := Nearest(text, cs, mid, n - 1);
      if text[n - 1] in cs && (best.None? || Dist(n - 1, mid) < Dist(best.value, mid)) then Some(n - 1)
      else best
  }

  /**
   * Where a long line is cut: after the nearest period if that is neither
   * the first nor the last character, else after the nearest comma under
   * the same rule, else at the middle.
   */
  function CutPoint(text: string): (k: nat)
    requires |text| > MaxLength
    ensures 0 < k < |text|
  {
    var mid := |text| / 2;
    var p := Nearest(text, Periods, mid, |text|);
    if p.Some? && 0 < p.value < |text| - 1 then p.value + 1
    else
      var c := Nearest(text, Commas, mid, |text|);
      if c.Some? && 0 < c.value < |text| - 1 then c.value + 1
      else mid
  }

  /** The two halves around a cut, punctuation trimmed at the cut, with the break between them. */
  function CutAt(text: string, k: nat): (r: string)
    requires k <= |text|
    ensures Contains(r, Break)
  {
    var first := RStrip(text[..k], Punct);
    var r := first + Break + LStrip(text[k..], Punct);
    assert OccursAt(r, Break, |first|) by {
      assert r[|first|..|first| + |Break|] == Break;
    }
    r
  }

  /** Each piece with its trailing punctuation removed. */
  function CleanParts(parts: seq<string>): (cleaned: seq<string>)
    ensures |cleaned| == |parts|
  {
    seq(|parts|, i requires 0 <= i < |parts| => RStrip(parts[i], Punct))
  }

  /**
   * `split_long_line(text)` with the default maximum length.  A line that
   * has no `\N` and is short enough only loses its trailing punctuation: the
   * result is a prefix of it, and what is cut off is all punctuation.  A
   * longer line without `\N` always comes out holding one.
   */
  function SplitLongLine(text: string): (r: string)
    ensures !Contains(text, Break) && |text| <= MaxLength ==>
              r <= text && (r == [] || r[|r| - 1] !in Punct) && forall i :: |r| <= i < |text| ==> text[i] in Punct
    ensures !Contains(text, Break) && |text| > MaxLength ==> Contains(r, Break)
  {
    if Contains(text, Break) then
      // both branches of the source compute the same cleaned re-join
      Join(CleanParts(Split(text, Break)), Break)
    else if |text| <= MaxLength then RStrip(text, Punct)
    else CutAt(text, CutPoint(text))
  }

  // ---------------------------------------------------------------- properties of the cut

  /** `p` is what `min(..., key=abs(x - mid))` picks: a position of `cs`, nearer to `mid` than every other, or as near and earlier. */
  predicate NearestOf(text: string, cs: set<char>, mid: int, p: int) {
    0 <= p < |text| && text[p] in cs &&
    forall x :: 0 <= x < |text| && text[x] in cs ==>
      Dist(p, mid) < Dist(x, mid) || (Dist(p, mid) == Dist(x, mid) && p <= x)
  }

  /** The scan finds exactly the position the `min` picks. */
  lemma NearestFinds(text: string, cs: set<char>, mid: int, p: int)
    requires NearestOf(text, cs, mid, p)
    ensures Nearest(text, cs, mid, |text|) == Some(p)
  {
    var r := Nearest(text, cs, mid, |text|);
    assert r.Some?;
    assert NearestOf(text, cs, mid, r.value);
  }

  /** When the period nearest the middle is inside the text, the line is cut right after it. */
  lemma CutAfterNearestPeriod(text: string, p: int)
    requires |text| > MaxLength
    requires NearestOf(text, Periods, |text| / 2, p) && 0 < p < |text| - 1
    ensures CutPoint(text) == p + 1
  {
    NearestFinds(text, Periods, |text| / 2, p);
  }

  /**
   * Only the nearest period is tried: when it is the first or last
   * character (or there is none), the nearest comma inside the text is used,
   * even if another period would have been inside.
   */
  lemma CutAfterNearestComma(text: string, c: int)
    requires |text| > MaxLength
    requires forall p :: NearestOf(text, Periods, |text| / 2, p) ==> p == 0 || p == |text| - 1
    requires NearestOf(text, Commas, |text| / 2, c) && 0 < c < |text| - 1
    ensures CutPoint(text) == c + 1
  {
    var r := Nearest(text, Periods, |text| / 2, |text|);
    if r.Some? {
      assert NearestOf(text, Periods, |text| / 2, r.value);
    }
    NearestFinds(text, Commas, |text| / 2, c);
  }

  /** With neither a usable period nor a usable comma the line is cut at `len // 2`. */
  lemma CutAtMiddle(text: string)
    requires |text| > MaxLength
    requires forall p :: NearestOf(text, Periods, |text| / 2, p) ==> p == 0 || p == |text| - 1
    requires forall c :: NearestOf(text, Commas, |text| / 2, c) ==> c == 0 || c == |text| - 1
    ensures CutPoint(text) == |text| / 2
  {
    var r := Nearest(text, Periods, |text| / 2, |text|);
    if r.Some? {
      assert NearestOf(text, Periods, |text| / 2, r.value);
    }
    var q := Nearest(text, Commas, |text| / 2, |text|);
    if q.Some? {
      assert NearestOf(text, Commas, |text| / 2, q.value);
    }
  }

  /**
   * `first` and `second` are what is left of the text either side of cut
   * `k`: a prefix and a suffix, no punctuation at the cut, and only
   * punctuation between them.
   */
  predicate Halves(text: string, k: nat, first: string, second: string) {
    |first| <= k <= |text| - |second| &&
    first == text[..|first|] && second == text[|text| - |second|..] &&
    (forall i :: |first| <= i < |text| - |second| ==> text[i] in Punct) &&
    (first == [] || first[|first| - 1] !in Punct) &&
    (second == [] || second[0] !in Punct)
  }

  /** Cutting loses nothing but the punctuation around the cut. */
  lemma {:induction false} CutKeepsText(text: string, k: nat)
    requires k <= |text|
    ensures Halves(text, k, RStrip(text[..k], Punct), LStrip(text[k..], Punct))
  {
    var first := RStrip(text[..k], Punct);
    var second := LStrip(text[k..], Punct);
    FirstHalf(text, k);
    SecondHalf(text, k);
    assert forall i :: |first| <= i < k ==> text[i] in Punct;
    assert forall i :: k <= i < |text| - |second| ==> text[i] in Punct;
  }

  /** What is left before the cut is a prefix of the text, followed by punctuation up to the cut. */
  lemma FirstHalf(text: string, k: nat)
    requires k <= |text|
    ensures var first := RStrip(text[..k], Punct);
            first == text[..|first|] && forall i :: |first| <= i < k ==> text[i] in Punct
  {
    var first := RStrip(text[..k], Punct);
    assert first == text[..k][..|first|];
    forall i | |first| <= i < k ensures text[i] in Punct {
      assert text[..k][i] == text[i];
    }
  }

  /** What is left after the cut is a suffix of the text, preceded by punctuation from the cut on. */
  lemma SecondHalf(text: string, k: nat)
    requires k <= |text|
    ensures var second := LStrip(text[k..], Punct);
            second == text[|text| - |second|..] && forall i :: k <= i < |text| - |second| ==> text[i] in Punct
  {
    var second := LStrip(text[k..], Punct);
    assert second == text[k..][|text| - k - |second|..];
    forall i | k <= i < |text| - |second| ensures text[i] in Punct {
      assert text[k..][i - k] == text[i];
    }
  }

  /** A line longer than 35 characters with no break in it becomes two halves around one break. */
  lemma LongLineSplits(text: string)
    requires !Contains(text, Break) && |text| > MaxLength
    ensures exists first, second :: SplitLongLine(text) == first + Break + second && Halves(text, CutPoint(text), first, second)
  {
    var k := CutPoint(text);
    CutKeepsText(text, k);
    var first := RStrip(text[..k], Punct);
    var second := LStrip(text[k..], Punct);
    assert SplitLongLine(text) == first + Break + second;
  }

  // ---------------------------------------------------------------- text that already has breaks

  /** No piece cut off by `split` can run into the break that follows it. */
  lemma BreakSeparable(p: string)
    requires !Contains(p, Break)
    ensures Separable(p, Break)
  {
    forall j | 0 <= j < |p| ensures !OccursAt(p + Break, Break, j) {
      if j + 2 <= |p| {
        assert (p + Break)[j..j + 2] == p[j..j + 2];
        assert !OccursAt(p, Break, j);
      } else {
        assert (p + Break)[j + 1] == '\\';
      }
    }
  }

  /** A prefix of a break-free string is break-free. */
  lemma PrefixBreakFree(p: string, q: string)
    requires q <= p && !Contains(p, Break)
    ensures !Contains(q, Break)
  {
    forall j | 0 <= j <= |q| ensures !OccursAt(q, Break, j) {
      if OccursAt(q, Break, j) {
        assert p[j..j + 2] == q[j..j + 2];
        assert OccursAt(p, Break, j);
      }
    }
  }

  /** Cleaned pieces are still break-free and separable. */
  lemma CleanPartsFree(parts: seq<string>)
    requires forall k :: 0 <= k < |parts| ==> !Contains(parts[k], Break)
    ensures forall k :: 0 <= k < |parts| ==> Separable(CleanParts(parts)[k], Break) && !Contains(CleanParts(parts)[k], Break)
  {
    forall k | 0 <= k < |parts|
      ensures Separable(CleanParts(parts)[k], Break) && !Contains(CleanParts(parts)[k], Break)
    {
      PrefixBreakFree(parts[k], CleanParts(parts)[k]);
      BreakSeparable(CleanParts(parts)[k]);
    }
  }

  /**
   * Text that already holds `\N` keeps its pieces: splitting the result at
   * the breaks gives the same number of pieces, each with its trailing
   * punctuation removed.
   */
  lemma BrokenLineParts(text: string)
    requires Contains(text, Break)
    ensures Split(SplitLongLine(text), Break) == CleanParts(Split(text, Break))
  {
    SplitPiecesFree(text, Break);
    CleanPartsFree(Split(text, Break));
    SplitJoin(CleanParts(Split(text, Break)), Break);
  }

  /** Text with a break has at least two pieces. */
  lemma SplitAtBreak(text: string)
    requires Contains(text, Break)
    ensures |Split(text, Break)| >= 2
  {
  }

  lemma RStripTwice(s: string)
    ensures RStrip(RStrip(s, Punct), Punct) == RStrip(s, Punct)
  {
  }

  /** Running the splitter again over text that already had breaks changes nothing. */
  lemma BrokenLineStable(text: string)
    requires Contains(text, Break)
    ensures SplitLongLine(SplitLongLine(text)) == SplitLongLine(text)
  {
    var parts := Split(text, Break);
    var cleaned := CleanParts(parts);
    var r := SplitLongLine(text);
    SplitAtBreak(text);
    assert r == cleaned[0] + Break + Join(cleaned[1..], Break);
    assert OccursAt(r, Break, |cleaned[0]|) by {
      assert r[|cleaned[0]|..|cleaned[0]| + 2] == Break;
    }
    BrokenLineParts(text);
    assert CleanParts(cleaned) == cleaned by {
      forall k | 0 <= k < |cleaned| ensures CleanParts(cleaned)[k] == cleaned[k] {
        RStripTwice(parts[k]);
      }
    }
  }

  // ---------------------------------------------------------------- the block pass

  /** `[line.strip() for line in lines]` */
  function StripAll(lines: seq<string>): (stripped: seq<string>)
    ensures |stripped| == |lines|
  {
    seq(|lines|, i requires 0 <= i < |lines| => Strip(lines[i]))
  }

  /** The text lines of a block (from the third line on), stripped and joined with spaces. */
  function FullText(lines: seq<string>): string {
    Join(StripAll(if |lines| > 2 then lines[2..] else []), " ")
  }

  /** The processed text of a block: split when there is any text, empty otherwise. */
  function ProcessedText(lines: seq<string>): string {
    if FullText(lines) != "" then SplitLongLine(FullText(lines)) else ""
  }

  /**
   * One block of `process_srt_file`: a block whose first line is a number
   * is rebuilt as number, time line and processed text; any other block is
   * kept as it is.
   */
  function ProcessBlock(block: string): string {
    var lines := Split(block, "\n");
    if IsDigits(Strip(lines[0])) then
      Strip(lines[0]) + "\n" + (if |lines| > 1 then lines[1] else "") + "\n" + ProcessedText(lines)
    else block
  }

  /** A piece cut off by splitting at a character does not contain it. */
  lemma NoChar(p: string, c: char)
    requires !Contains(p, [c])
    ensures c !in p
  {
    if c in p {
      var i :| 0 <= i < |p| && p[i] == c;
      assert p[i..i + 1] == [c];
      assert OccursAt(p, [c], i);
    }
  }

  /**
   * What a block becomes: a block numbered on its first line comes out with
   * that number (stripped) on its first line, the old second line (or
   * nothing) on its second, and the processed text on the lines after;
   * every other block comes out unchanged.
   */
  lemma BlockRebuilt(block: string)
    ensures var lines := Split(block, "\n");
            var out := Split(ProcessBlock(block), "\n");
            if IsDigits(Strip(lines[0])) then
              |out| >= 3 && out[0] == Strip(lines[0]) && out[1] == (if |lines| > 1 then lines[1] else "") &&
              Join(out[2..], "\n") == ProcessedText(lines)
            else ProcessBlock(block) == block
  {
    var lines := Split(block, "\n");
    if IsDigits(Strip(lines[0])) {
      var num := Strip(lines[0]);
      var stamp := if |lines| > 1 then lines[1] else "";
      var text := ProcessedText(lines);
      assert '\n' !in num by {
        forall i | 0 <= i < |num| ensures num[i] != '\n' {
          assert IsDigit(num[i]);
        }
      }
      if |lines| > 1 {
        SplitPiecesFree(block, "\n");
        NoChar(lines[1], '\n');
      }
      assert ProcessBlock(block) == num + "\n" + stamp + "\n" + text;
      ThreeLines(num, stamp, text);
    }
  }

  /** A number line and a time line in front of a text split back into the two lines and the text's lines. */
  lemma ThreeLines(num: string, stamp: string, text: string)
    requires '\n' !in num && '\n' !in stamp
    ensures var out := Split(num + "\n" + stamp + "\n" + text, "\n");
            |out| >= 3 && out[0] == num && out[1] == stamp && Join(out[2..], "\n") == text
  {
    LinesOf(num, stamp, text);
    var out := Split(num + "\n" + stamp + "\n" + text, "\n");
    FrontRest([num, stamp], Split(text, "\n"));
    JoinSplit(text, "\n");
  }

  /** The blocks that are not blank, in order. */
  function NonBlank(blocks: seq<string>): (kept: seq<string>)
    ensures |kept| <= |blocks|
    ensures forall i :: 0 <= i < |kept| ==> Strip(kept[i]) != []
  {
    if blocks == [] then []
    else
      var init := NonBlank(blocks[..|blocks| - 1]);
      if Strip(blocks[|blocks| - 1]) == [] then init else init + [blocks[|blocks| - 1]]
  }

  /** The loop of `process_srt_file` over the blocks: blank blocks are skipped. */
  function ProcessBlocks(blocks: seq<string>): (processed: seq<string>)
    ensures |processed| <= |blocks|
  {
    if blocks == [] then []
    else
      var init := ProcessBlocks(blocks[..|blocks| - 1]);
      if Strip(blocks[|blocks| - 1]) == [] then init else init + [ProcessBlock(blocks[|blocks| - 1])]
  }

  /** Every block processed on its own, in order. */
  function ProcessEach(blocks: seq<string>): (processed: seq<string>)
    ensures |processed| == |blocks|
  {
    seq(|blocks|, i requires 0 <= i < |blocks| => ProcessBlock(blocks[i]))
  }

  lemma ProcessEachSnoc(blocks: seq<string>, b: string)
    ensures ProcessEach(blocks + [b]) == ProcessEach(blocks) + [ProcessBlock(b)]
  {
    var l := ProcessEach(blocks + [b]);
    var r := ProcessEach(blocks) + [ProcessBlock(b)];
    forall i | 0 <= i < |l| ensures l[i] == r[i] {
      if i < |blocks| {
        assert (blocks + [b])[i] == blocks[i];
      }
    }
  }

  /** Exactly one processed block for each block that is not blank, in the same order. */
  lemma {:induction false} ProcessBlocksEach(blocks: seq<string>)
    ensures ProcessBlocks(blocks) == ProcessEach(NonBlank(blocks))
  {
    if blocks != [] {
      var init := blocks[..|blocks| - 1];
      var b := blocks[|blocks| - 1];
      ProcessBlocksEach(init);
      if Strip(b) != [] {
        assert NonBlank(blocks) == NonBlank(init) + [b];
        ProcessEachSnoc(NonBlank(init), b);
      }
    }
  }

  /** The file after `process_srt_file`: the processed blocks separated by one blank line. */
  function Processed(content: string): string {
    Join(ProcessBlocks(SplitBlankLines(Strip(content))), "\n\n")
  }

  /** One more block processed. */
  lemma ProcessBlocksNext(blocks: seq<string>, k: nat)
    requires k < |blocks|
    ensures ProcessBlocks(blocks[..k + 1]) ==
            ProcessBlocks(blocks[..k]) + (if Strip(blocks[k]) == [] then [] else [ProcessBlock(blocks[k])])
  {
    assert blocks[..k + 1][..k] == blocks[..k];
  }

  /**
   * The body of the loop of `process_srt_file` for a block that is not
   * blank: a numbered block comes out with its stripped number, its old
   * second line (or nothing) and the processed text on the lines after;
   * any other block comes out as it was.
   */
  method RebuildBlock(block: string) returns (processedBlock: string)
    ensures processedBlock == ProcessBlock(block)
    ensures var lines := Split(block, "\n");
            var out := Split(processedBlock, "\n");
            if IsDigits(Strip(lines[0])) then
              |out| >= 3 && out[0] == Strip(lines[0]) && out[1] == (if |lines| > 1 then lines[1] else "") &&
              Join(out[2..], "\n") == ProcessedText(lines)
            else processedBlock == block
  {
    BlockRebuilt(block);
    var lines := Split(block, "\n");
    if IsDigits(Strip(lines[0])) {
      var subtitleNumber := Strip(lines[0]);
      var timestamp := if |lines| > 1 then lines[1] else "";
      var textLines := if |lines| > 2 then lines[2..] else [];
      var fullText := Join(StripAll(textLines), " ");
      assert fullText == FullText(lines);
      var processedText := if fullText != "" then SplitLongLine(fullText) else "";
      processedBlock := subtitleNumber + "\n" + timestamp + "\n" + processedText;
    } else {
      processedBlock := block;
    }
  }

  /** One turn of the loop of `process_srt_file`: a blank block is skipped, any other is rebuilt. */
  method ProcessNext(subtitleBlocks: seq<string>, k: nat, processedBlocks: seq<string>) returns (next: seq<string>)
    requires k < |subtitleBlocks|
    requires processedBlocks == ProcessBlocks(subtitleBlocks[..k])
    ensures next == ProcessBlocks(subtitleBlocks[..k + 1])
  {
    var block := subtitleBlocks[k];
    ProcessBlocksNext(subtitleBlocks, k);
    if Strip(block) == [] {
      return processedBlocks;
    }
    var processedBlock := RebuildBlock(block);
    next := processedBlocks + [processedBlock];
  }

  /** `process_srt_file` on the file's content, returning what it writes. */
  method ProcessSrtFile(content: string) returns (processedContent: string)
    ensures processedContent == Processed(content)
  {
    var subtitleBlocks := SplitBlankLines(Strip(content));
    var processedBlocks: seq<string> := [];
    for k := 0 to |subtitleBlocks|
      invariant processedBlocks == ProcessBlocks(subtitleBlocks[..k])
    {
      processedBlocks := ProcessNext(subtitleBlocks, k, processedBlocks);
    }
    WholePrefix(subtitleBlocks);
    processedContent := Join(processedBlocks, "\n\n");
  }
}
