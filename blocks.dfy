/**
 * The two ways the scripts cut a subtitle file into blocks with `re.split`:
 * on runs of two or more line breaks (`\n\n+`), and on two line breaks with
 * only whitespace between them (`\n\s*\n`).
 */
module Blocks {
  import opened Text

  /** `re.split(r'\n\n+', s)`: cut at every maximal run of at least two line breaks. */
  function SplitParagraphs(s: string): (pieces: seq<string>)
    ensures |pieces| >= 1
    decreases |s|
  {
    match IndexOf(s, "\n\n")
    case None => [s]
    case Some(i) =>
      assert s[i] == s[i..i + 2][0] == '\n';
      [s[..i]] + SplitParagraphs(LStrip(s[i..], {'\n'}))
  }

  /** Pieces as `re.split(r'\n\n+', …)` leaves them: none contains a blank line, and each after the first starts with text. */
  predicate Paragraphs(ps: seq<string>) {
    && (forall k :: 0 <= k < |ps| ==> !Contains(ps[k], "\n\n"))
    && (forall k :: 1 <= k < |ps| ==> ps[k] == [] || ps[k][0] != '\n')
  }

  /**
   * The pieces of `re.split(r'\n\n+', s)`: none contains a blank line, each
   * after the first starts with text (the whole run of line breaks goes to
   * the cut), and the first is where `s` starts.
   */
  lemma {:induction false} SplitParagraphsFree(s: string)
    ensures SplitParagraphs(s)[0] <= s && Paragraphs(SplitParagraphs(s))
    decreases |s|
  {
    match IndexOf(s, "\n\n")
    case None =>
    case Some(i) =>
      var t := SplitParagraphsStep(s, i);
      BeforeFirstFree(s, "\n\n", i);
      SplitParagraphsFree(t);
      ConsParagraphs(s[..i], SplitParagraphs(t), t);
  }

  /** The cut at the first blank line, and what is split after it. */
  lemma SplitParagraphsStep(s: string, i: nat) returns (t: string)
    requires IndexOf(s, "\n\n") == Some(i)
    ensures t == LStrip(s[i..], {'\n'}) && |t| < |s| && (t == [] || t[0] != '\n')
    ensures SplitParagraphs(s) == [s[..i]] + SplitParagraphs(t)
  {
    assert s[i] == s[i..i + 2][0] == '\n';
    t := LStrip(s[i..], {'\n'});
  }

  /** A piece without a blank line in front of the pieces of a text that starts with text. */
  lemma ConsParagraphs(p: string, tail: seq<string>, t: string)
    requires !Contains(p, "\n\n") && |tail| >= 1 && Paragraphs(tail)
    requires tail[0] <= t && (t == [] || t[0] != '\n')
    ensures Paragraphs([p] + tail)
  {
    var ps := [p] + tail;
    ConsFree(p, tail, "\n\n");
    forall k | 1 <= k < |ps| ensures ps[k] == [] || ps[k][0] != '\n' {
      assert ps[k] == tail[k - 1];
    }
  }

  /** Leading characters of `cs` in front of a string that starts otherwise are exactly what `lstrip` removes. */
  lemma {:induction false} LStripOver(pre: string, t: string, cs: set<char>)
    requires forall i :: 0 <= i < |pre| ==> pre[i] in cs
    requires t == [] || t[0] !in cs
    ensures LStrip(pre + t, cs) == t
  {
    if pre != [] {
      assert (pre + t)[1..] == pre[1..] + t;
      LStripOver(pre[1..], t, cs);
    } else {
      assert pre + t == t;
    }
  }

  /** `"\n\n"` appears in `a + b` only where it appears in one of them or across the seam. */
  lemma NoBlankLineConcat(a: string, b: string)
    requires !Contains(a, "\n\n") && !Contains(b, "\n\n")
    requires a == [] || b == [] || a[|a| - 1] != '\n' || b[0] != '\n'
    ensures !Contains(a + b, "\n\n")
  {
    var s := a + b;
    forall j | 0 <= j && j + 2 <= |s| ensures !OccursAt(s, "\n\n", j) {
      assert s[j..j + 2] == [s[j], s[j + 1]];
      if j + 2 <= |a| {
        assert s[j..j + 2] == a[j..j + 2];
        assert !OccursAt(a, "\n\n", j);
      } else if j >= |a| {
        assert s[j..j + 2] == b[j - |a|..j - |a| + 2];
        assert !OccursAt(b, "\n\n", j - |a|);
      } else {
        assert s[j] == a[|a| - 1] && s[j + 1] == b[0];
      }
    }
  }

  /** A string with no line break has no blank line. */
  lemma NoBlankLineInLine(a: string)
    requires '\n' !in a
    ensures !Contains(a, "\n\n")
  {
    forall j | 0 <= j && j + 2 <= |a| ensures !OccursAt(a, "\n\n", j) {
      assert a[j..j + 2][0] == a[j];
    }
  }

  /** A block followed by one blank line and a block that starts with text is cut off first. */
  lemma FirstParagraph(b: string, rest: string)
    requires |b| > 0 && b[|b| - 1] != '\n' && !Contains(b, "\n\n")
    requires |rest| > 0 && rest[0] != '\n'
    ensures SplitParagraphs(b + "\n\n" + rest) == [b] + SplitParagraphs(rest)
  {
    var s := b + "\n\n" + rest;
    Parts3(b, "\n\n", rest);
    BlankLineAfter(b, rest);
    LStripOver("\n\n", rest, {'\n'});
  }

  /** The first blank line of a block, a blank line and more is the one after the block. */
  lemma BlankLineAfter(b: string, rest: string)
    requires |b| > 0 && b[|b| - 1] != '\n' && !Contains(b, "\n\n")
    ensures IndexOf(b + "\n\n" + rest, "\n\n") == Some(|b|)
  {
    var s := b + "\n\n" + rest;
    Parts3(b, "\n\n", rest);
    forall j | 0 <= j < |b| ensures !OccursAt(s, "\n\n", j) {
      assert s[j..j + 2] == [s[j], s[j + 1]];
      if j + 2 <= |b| {
        assert b[j..j + 2] == s[j..j + 2];
        assert !OccursAt(b, "\n\n", j);
      } else {
        assert s[j] == b[|b| - 1];
      }
    }
    FirstOccurrence(s, "\n\n", |b|);
  }

  /** Blocks joined by exactly one blank line are cut back into the same blocks. */
  lemma {:induction false} SplitParagraphsJoin(blocks: seq<string>)
    requires |blocks| >= 1
    requires forall k :: 0 <= k < |blocks| ==>
               |blocks[k]| > 0 && blocks[k][0] != '\n' && blocks[k][|blocks[k]| - 1] != '\n'
               && !Contains(blocks[k], "\n\n")
    ensures SplitParagraphs(Join(blocks, "\n\n")) == blocks
  {
    if |blocks| == 1 {
      assert IndexOf(blocks[0], "\n\n").None?;
    } else {
      var b, rest := blocks[0], blocks[1..];
      assert forall k :: 0 <= k < |rest| ==> rest[k] == blocks[k + 1];
      SplitParagraphsJoin(rest);
      var tail := Join(rest, "\n\n");
      JoinHead(rest);
      assert |tail| > 0 && tail[0] != '\n';
      assert |b| > 0 && b[|b| - 1] != '\n' && !Contains(b, "\n\n");
      FirstParagraph(b, tail);
      HeadTail(blocks);
      JoinFirst(b, rest, "\n\n");
    }
  }

  /** The join of non-empty blocks starts with the first block's first character. */
  lemma JoinHead(blocks: seq<string>)
    requires |blocks| >= 1 && |blocks[0]| > 0
    ensures |Join(blocks, "\n\n")| > 0 && Join(blocks, "\n\n")[0] == blocks[0][0]
  {
  }

  /** The index of the last occurrence of `c` in `s`. */
  function LastIndexOf(s: string, c: char): (r: Option<nat>)
    ensures r.Some? ==> r.value < |s| && s[r.value] == c
    ensures r.Some? ==> forall k :: r.value < k < |s| ==> s[k] != c
    ensures r.None? ==> c !in s
  {
    if s == [] then None
    else if s[|s| - 1] == c then Some(|s| - 1)
    else LastIndexOf(s[..|s| - 1], c)
  }

  /**
   * Length of the match of `\n\s*\n` at the start of `t`, if there is one.
   * `\s*` is greedy and gives back characters only until a line break follows,
   * so the match runs to the last line break of the whitespace run.
   */
  function BlankLineAt(t: string): (r: Option<nat>)
    ensures r.Some? ==> 2 <= r.value <= |t|
  {
    if t == [] || t[0] != '\n' then None
    else
      var run := |t| - |LStrip(t[1..], Whitespace)|;
      match LastIndexOf(t[..run], '\n')
      case Some(q) => if q > 0 then Some(q + 1) else None
      case None => None
  }

  /** The leftmost match of `\n\s*\n` at or after `k`, as a start and an end index. */
  function FirstBlankLine(s: string, k: nat): (r: Option<(nat, nat)>)
    ensures r.Some? ==> k <= r.value.0 < r.value.1 <= |s|
    decreases |s| - k
  {
    if k >= |s| then None
    else match BlankLineAt(s[k..])
      case Some(n) => Some((k, k + n))
      case None => FirstBlankLine(s, k + 1)
  }

  /** `re.split(r'\n\s*\n', s)` */
  function SplitBlankLines(s: string): (pieces: seq<string>)
    ensures |pieces| >= 1
    decreases |s|
  {
    match FirstBlankLine(s, 0)
    case None => [s]
    case Some((i, j)) => [s[..i]] + SplitBlankLines(s[j..])
  }

  /** `\n\s*\n` matches somewhere in `s`: two line breaks with only whitespace between them. */
  predicate HasBlankLine(s: string) {
    exists a, b :: 0 <= a < b < |s| && BlankBetween(s, a, b)
  }

  /** Line breaks at `a` and `b`, and only whitespace in between. */
  predicate BlankBetween(s: string, a: int, b: int)
    requires 0 <= a < b < |s|
  {
    s[a] == '\n' && s[b] == '\n' && forall m :: a < m < b ==> s[m] in Whitespace
  }

  /** Two line breaks with only whitespace between them make the pattern match where the first one is. */
  lemma BlankLineFound(s: string, a: nat, b: nat)
    requires a < b < |s| && BlankBetween(s, a, b)
    ensures BlankLineAt(s[a..]).Some?
  {
    var t := s[a..];
    forall m | 0 < m < b - a ensures t[m] in Whitespace {
      assert t[m] == s[a + m];
    }
    assert BlankBetween(t, 0, b - a);
    BlankLineAtStart(t, b - a);
  }

  /** A line break at the start and another at `n` with only whitespace between: the pattern matches. */
  lemma BlankLineAtStart(t: string, n: nat)
    requires 0 < n < |t| && BlankBetween(t, 0, n)
    ensures BlankLineAt(t).Some?
  {
    var u := t[1..];
    WhitespaceAfterBreak(t, n);
    LeadingRun(u, n);
    var run := |t| - |LStrip(u, Whitespace)|;
    LaterBreak(t[..run], n);
    BlankLineAtRun(t, run);
  }

  /** The pattern matches when the whitespace run after the first line break holds a later line break. */
  lemma BlankLineAtRun(t: string, run: nat)
    requires |t| > 0 && t[0] == '\n' && run == |t| - |LStrip(t[1..], Whitespace)|
    requires LastIndexOf(t[..run], '\n').Some? && LastIndexOf(t[..run], '\n').value > 0
    ensures BlankLineAt(t).Some?
  {
  }

  /** The whitespace and the line break after the first line break, seen from just after it. */
  lemma WhitespaceAfterBreak(t: string, n: nat)
    requires 0 < n < |t| && BlankBetween(t, 0, n)
    ensures forall m :: 0 <= m < n ==> t[1..][m] in Whitespace
  {
    forall m | 0 <= m < n ensures t[1..][m] in Whitespace {
      assert t[1..][m] == t[m + 1];
    }
  }

  /** `lstrip` removes at least the leading run of `n` characters of `cs`. */
  lemma LeadingRun(u: string, n: nat)
    requires n <= |u| && forall m :: 0 <= m < n ==> u[m] in Whitespace
    ensures |u| - |LStrip(u, Whitespace)| >= n
  {
    var r := LStrip(u, Whitespace);
    assert r == [] || r[0] == u[|u| - |r|];
  }

  /** A line break at `p` makes the last line break at `p` or later. */
  lemma LaterBreak(t: string, p: nat)
    requires p < |t| && t[p] == '\n'
    ensures LastIndexOf(t, '\n').Some? && LastIndexOf(t, '\n').value >= p
  {
  }

  /** The leftmost match found from `k` on: no match starts between `k` and it. */
  lemma {:induction false} FirstBlankLineLeftmost(s: string, k: nat, i: nat, j: nat)
    requires FirstBlankLine(s, k) == Some((i, j))
    ensures forall a :: k <= a < i ==> BlankLineAt(s[a..]).None?
    decreases |s| - k
  {
    if BlankLineAt(s[k..]).None? {
      assert FirstBlankLine(s, k) == FirstBlankLine(s, k + 1);
      FirstBlankLineLeftmost(s, k + 1, i, j);
    }
  }

  /** No match found from `k` on: the pattern matches at no position from `k` on. */
  lemma {:induction false} FirstBlankLineNone(s: string, k: nat)
    requires FirstBlankLine(s, k).None?
    ensures forall a :: k <= a < |s| ==> BlankLineAt(s[a..]).None?
    decreases |s| - k
  {
    if k < |s| {
      assert FirstBlankLine(s, k) == FirstBlankLine(s, k + 1);
      FirstBlankLineNone(s, k + 1);
    }
  }

  /** No piece of `re.split(r'\n\s*\n', s)` holds a further match of the pattern. */
  lemma {:induction false} SplitBlankLinesFree(s: string)
    ensures forall k :: 0 <= k < |SplitBlankLines(s)| ==> !HasBlankLine(SplitBlankLines(s)[k])
    decreases |s|
  {
    match FirstBlankLine(s, 0)
    case None =>
      FirstBlankLineNone(s, 0);
      NoBlankLine(s, |s|);
      assert s[..|s|] == s;
    case Some((i, j)) =>
      FirstBlankLineLeftmost(s, 0, i, j);
      NoBlankLine(s, i);
      SplitBlankLinesFree(s[j..]);
      ConsNoBlankLine(s[..i], SplitBlankLines(s[j..]));
  }

  lemma ConsNoBlankLine(p: string, tail: seq<string>)
    requires !HasBlankLine(p) && forall k :: 0 <= k < |tail| ==> !HasBlankLine(tail[k])
    ensures forall k :: 0 <= k < |[p] + tail| ==> !HasBlankLine(([p] + tail)[k])
  {
    var ps := [p] + tail;
    forall k | 1 <= k < |ps| ensures !HasBlankLine(ps[k]) {
      assert ps[k] == tail[k - 1];
    }
  }

  /** Where the pattern matches at no position below `i`, the text before `i` holds no match. */
  lemma NoBlankLine(s: string, i: nat)
    requires i <= |s|
    requires forall a :: 0 <= a < i ==> BlankLineAt(s[a..]).None?
    ensures !HasBlankLine(s[..i])
  {
    var p := s[..i];
    forall a, b | 0 <= a < b < |p| ensures !BlankBetween(p, a, b) {
      if BlankBetween(p, a, b) {
        BlankBetweenPrefix(s, i, a, b);
        BlankLineFound(s, a, b);
      }
    }
  }

  lemma BlankBetweenPrefix(s: string, i: nat, a: nat, b: nat)
    requires a < b < i <= |s| && BlankBetween(s[..i], a, b)
    ensures BlankBetween(s, a, b)
  {
    forall m | a < m < b ensures s[m] in Whitespace {
      assert s[..i][m] == s[m];
    }
  }
}
