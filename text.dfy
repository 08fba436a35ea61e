/**
 * The handful of Python `str` operations the subtitle scripts rely on:
 * stripping, splitting on a separator, joining, `int()` and decimal
 * rendering.  Characters are Unicode code points, as in Python 3.
 *
 * Whitespace is the ASCII part of what `str.isspace` accepts; digits are
 * the ASCII digits.  Python's wider Unicode notion of both is not modelled.
 */
module Text {

  datatype Option<T> = None | Some(value: T)

  /** The characters `str.strip()` (and the regex class `\s`) treat as whitespace. */
  const Whitespace: set<char> :=
    {' ', '\t', '\n', '\r', '\U{000B}', '\U{000C}', '\U{001C}', '\U{001D}', '\U{001E}', '\U{001F}'}

  predicate IsDigit(c: char) { '0' <= c <= '9' }

  /** `str.isdigit()`: non-empty and every character a digit. */
  predicate IsDigits(s: string) {
    |s| > 0 && forall i :: 0 <= i < |s| ==> IsDigit(s[i])
  }

  /** `s.rstrip(cs)`: the longest prefix of `s` that does not end in a character of `cs`. */
  function RStrip(s: string, cs: set<char>): (r: string)
    ensures r <= s
    ensures r == [] || r[|r| - 1] !in cs
    ensures forall i :: |r| <= i < |s| ==> s[i] in cs
  {
    if s != [] && s[|s| - 1] in cs then RStrip(s[..|s| - 1], cs) else s
  }

  /** `s.lstrip(cs)`: the longest suffix of `s` that does not begin with a character of `cs`. */
  function LStrip(s: string, cs: set<char>): (r: string)
    ensures |r| <= |s| && r == s[|s| - |r|..]
    ensures r == [] || r[0] !in cs
    ensures forall i :: 0 <= i < |s| - |r| ==> s[i] in cs
  {
    if s != [] && s[0] in cs then LStrip(s[1..], cs) else s
  }

  /** `s.strip()` */
  function Strip(s: string): string {
    LStrip(RStrip(s, Whitespace), Whitespace)
  }

  /** A string with no whitespace at either end is its own `strip()`. */
  lemma StripTrimmed(s: string)
    requires s == [] || (s[0] !in Whitespace && s[|s| - 1] !in Whitespace)
    ensures Strip(s) == s
  {
  }

  /** Whitespace added at both ends does not change `strip()`. */
  lemma StripPadded(s: string, pre: string, post: string)
    requires forall i :: 0 <= i < |pre| ==> pre[i] in Whitespace
    requires forall i :: 0 <= i < |post| ==> post[i] in Whitespace
    ensures Strip(pre + s + post) == Strip(s)
  {
    RStripPadded(pre + s, post);
    assert pre + s + post == (pre + s) + post;
    RStripPrefixed(pre, s);
    var t := RStrip(s, Whitespace);
    if t != [] {
      LStripPrefixed(pre, t);
    }
  }

  lemma {:induction false} RStripPadded(s: string, post: string)
    requires forall i :: 0 <= i < |post| ==> post[i] in Whitespace
    ensures RStrip(s + post, Whitespace) == RStrip(s, Whitespace)
  {
    if post != [] {
      var p := post[..|post| - 1];
      assert (s + post)[..|s + post| - 1] == s + p;
      RStripPadded(s, p);
    } else {
      assert s + post == s;
    }
  }

  lemma {:induction false} RStripPrefixed(pre: string, s: string)
    requires forall i :: 0 <= i < |pre| ==> pre[i] in Whitespace
    ensures RStrip(s, Whitespace) != [] ==> RStrip(pre + s, Whitespace) == pre + RStrip(s, Whitespace)
    ensures RStrip(s, Whitespace) == [] ==> RStrip(pre + s, Whitespace) == []
  {
    if s != [] {
      assert (pre + s)[|pre + s| - 1] == s[|s| - 1];
      if s[|s| - 1] in Whitespace {
        assert (pre + s)[..|pre + s| - 1] == pre + s[..|s| - 1];
        RStripPrefixed(pre, s[..|s| - 1]);
      }
    } else {
      assert pre + s == pre;
    }
  }

  lemma {:induction false} LStripPrefixed(pre: string, t: string)
    requires forall i :: 0 <= i < |pre| ==> pre[i] in Whitespace
    ensures LStrip(pre + t, Whitespace) == LStrip(t, Whitespace)
  {
    if pre != [] {
      assert (pre + t)[1..] == pre[1..] + t;
      LStripPrefixed(pre[1..], t);
    } else {
      assert pre + t == t;
    }
  }

  /** `pat` occurs in `s` starting at index `i`. */
  predicate OccursAt(s: string, pat: string, i: int) {
    0 <= i && i + |pat| <= |s| && s[i..i + |pat|] == pat
  }

  predicate Contains(s: string, pat: string) {
    exists i | 0 <= i <= |s| :: OccursAt(s, pat, i)
  }

  /** The first index at or after `k` at which `pat` occurs. */
  function IndexFrom(s: string, pat: string, k: nat): (r: Option<nat>)
    ensures r.Some? ==> k <= r.value && OccursAt(s, pat, r.value)
    ensures r.Some? ==> forall j :: k <= j < r.value ==> !OccursAt(s, pat, j)
    ensures r.None? ==> forall j :: k <= j ==> !OccursAt(s, pat, j)
    decreases |s| - k
  {
    if k + |pat| > |s| then None
    else if OccursAt(s, pat, k) then Some(k)
    else IndexFrom(s, pat, k + 1)
  }

  /** `s.find(pat)`, with "not found" as `None`: the first index at which `pat` occurs. */
  function IndexOf(s: string, pat: string): (r: Option<nat>)
    ensures r.Some? ==> OccursAt(s, pat, r.value)
    ensures r.Some? ==> forall j :: 0 <= j < r.value ==> !OccursAt(s, pat, j)
    ensures r.None? ==> forall j :: !OccursAt(s, pat, j)
  {
    IndexFrom(s, pat, 0)
  }

  /** `s.split(sep)` for a non-empty separator: the pieces between the leftmost non-overlapping occurrences. */
  function Split(s: string, sep: string): (parts: seq<string>)
    requires |sep| > 0
    ensures |parts| >= 1
    decreases |s|
  {
    match IndexOf(s, sep)
    case None => [s]
    case Some(i) => [s[..i]] + Split(s[i + |sep|..], sep)
  }

  /** A split has more than one piece exactly when the separator occurs. */
  lemma SplitSeveral(s: string, sep: string)
    requires |sep| > 0
    ensures |Split(s, sep)| >= 2 <==> Contains(s, sep)
  {
    match IndexOf(s, sep)
    case None =>
    case Some(i) => assert OccursAt(s, sep, i);
  }

  /** No piece of a split contains the separator. */
  lemma {:induction false} SplitPiecesFree(s: string, sep: string)
    requires |sep| > 0
    ensures forall k :: 0 <= k < |Split(s, sep)| ==> !Contains(Split(s, sep)[k], sep)
    decreases |s|
  {
    match IndexOf(s, sep)
    case None =>
    case Some(i) =>
      BeforeFirstFree(s, sep, i);
      var rest := s[i + |sep|..];
      SplitPiecesFree(rest, sep);
      SplitAt(s, sep, i);
      ConsFree(s[..i], Split(rest, sep), sep);
  }

  /** The text before the first occurrence of `sep` does not contain `sep`. */
  lemma BeforeFirstFree(s: string, sep: string, i: nat)
    requires |sep| > 0 && IndexOf(s, sep) == Some(i)
    ensures !Contains(s[..i], sep)
  {
    forall j | OccursAt(s[..i], sep, j) ensures false {
      assert s[..i][j..j + |sep|] == s[j..j + |sep|];
      assert OccursAt(s, sep, j);
    }
  }

  /** A piece without `sep` in front of pieces without `sep`. */
  lemma ConsFree(p: string, parts: seq<string>, sep: string)
    requires !Contains(p, sep)
    requires forall k :: 0 <= k < |parts| ==> !Contains(parts[k], sep)
    ensures forall k :: 0 <= k < |[p] + parts| ==> !Contains(([p] + parts)[k], sep)
  {
    var all := [p] + parts;
    forall k | 0 < k < |all| ensures !Contains(all[k], sep) {
      assert all[k] == parts[k - 1];
    }
  }

  /** Splitting on a character gives one more piece than there are occurrences of it. */
  lemma {:induction false} SplitCount(s: string, c: char)
    ensures |Split(s, [c])| == multiset(s)[c] + 1
    decreases |s|
  {
    match IndexOf(s, [c])
    case None =>
      forall j | 0 <= j < |s| ensures s[j] != c {
        assert !OccursAt(s, [c], j);
        assert s[j..j + 1] == [s[j]];
      }
      assert c !in multiset(s);
    case Some(i) =>
      var rest := s[i + 1..];
      SplitCount(rest, c);
      forall j | 0 <= j < i ensures s[j] != c {
        assert !OccursAt(s, [c], j);
        assert s[j..j + 1] == [s[j]];
      }
      assert c !in multiset(s[..i]);
      assert s[i..i + 1] == [c];
      Cut3(s, i, i + 1);
      assert multiset(s) == multiset(s[..i]) + multiset([c]) + multiset(rest);
  }

  /** `sep.join(parts)` */
  function Join(parts: seq<string>, sep: string): string {
    if |parts| == 0 then ""
    else if |parts| == 1 then parts[0]
    else parts[0] + sep + Join(parts[1..], sep)
  }

  /** Every part occurs in the join. */
  lemma {:induction false} JoinContains(parts: seq<string>, sep: string, i: nat)
    requires i < |parts|
    ensures Contains(Join(parts, sep), parts[i])
  {
    var j := Join(parts, sep);
    if i == 0 {
      var rest := if |parts| == 1 then "" else sep + Join(parts[1..], sep);
      assert j == parts[0] + rest;
      assert j[0..|parts[0]|] == parts[0];
      assert OccursAt(j, parts[0], 0);
    } else {
      JoinContains(parts[1..], sep, i - 1);
      var rest := Join(parts[1..], sep);
      var k :| 0 <= k <= |rest| && OccursAt(rest, parts[i], k);
      var off := |parts[0]| + |sep|;
      assert j == parts[0] + sep + rest;
      assert j[off + k..off + k + |parts[i]|] == rest[k..k + |parts[i]|];
      assert OccursAt(j, parts[i], off + k);
    }
  }

  /** Joining one more part puts a separator and the part at the end. */
  lemma {:induction false} JoinSnoc(parts: seq<string>, p: string, sep: string)
    requires |parts| >= 1
    ensures Join(parts + [p], sep) == Join(parts, sep) + sep + p
  {
    if |parts| > 1 {
      assert (parts + [p])[1..] == parts[1..] + [p];
      JoinSnoc(parts[1..], p, sep);
    } else {
      assert (parts + [p])[1..] == [p];
    }
  }

  /** A join of non-empty parts starts with the first part's first character and ends with the last part's last. */
  lemma {:induction false} JoinEnds(parts: seq<string>, sep: string)
    requires |parts| >= 1 && forall k :: 0 <= k < |parts| ==> |parts[k]| > 0
    ensures var j := Join(parts, sep);
            |j| > 0 && j[0] == parts[0][0] && j[|j| - 1] == parts[|parts| - 1][|parts[|parts| - 1]| - 1]
  {
    if |parts| > 1 {
      JoinEnds(parts[1..], sep);
    }
  }

  /** Joining what a split produced gives back the original string. */
  lemma {:induction false} JoinSplit(s: string, sep: string)
    requires |sep| > 0
    ensures Join(Split(s, sep), sep) == s
    decreases |s|
  {
    match IndexOf(s, sep)
    case None =>
    case Some(i) =>
      var rest := s[i + |sep|..];
      JoinSplit(rest, sep);
      SplitAt(s, sep, i);
      JoinFirst(s[..i], Split(rest, sep), sep);
      assert s[i..i + |sep|] == sep;
      Cut3(s, i, i + |sep|);
  }

  /** `split` cuts off the piece before the first occurrence of the separator. */
  lemma SplitAt(s: string, sep: string, i: nat)
    requires |sep| > 0 && IndexOf(s, sep) == Some(i)
    ensures Split(s, sep) == [s[..i]] + Split(s[i + |sep|..], sep)
  { }

  /** Joining a first piece in front of at least one more. */
  lemma JoinFirst(p: string, parts: seq<string>, sep: string)
    requires |parts| >= 1
    ensures Join([p] + parts, sep) == p + sep + Join(parts, sep)
  {
    assert ([p] + parts)[1..] == parts;
  }

  /** The first occurrence is at `i` when `pat` occurs there and nowhere before. */
  lemma FirstOccurrence(s: string, pat: string, i: nat)
    requires OccursAt(s, pat, i)
    requires forall j :: 0 <= j < i ==> !OccursAt(s, pat, j)
    ensures IndexOf(s, pat) == Some(i)
  { }

  /** The three parts of `a + m + r` are found back by slicing. */
  lemma Parts3<T>(a: seq<T>, m: seq<T>, r: seq<T>)
    ensures (a + m + r)[..|a|] == a
    ensures (a + m + r)[|a|..] == m + r
    ensures (a + m + r)[|a|..|a| + |m|] == m
    ensures (a + m + r)[|a| + |m|..] == r
  { }

  lemma Cut3(s: string, i: nat, j: nat)
    requires i <= j <= |s|
    ensures s == s[..i] + s[i..j] + s[j..]
  {
    assert s[..j] == s[..i] + s[i..j];
    assert s == s[..j] + s[j..];
  }

  /** No occurrence of `sep` in `p + sep` starts before the appended `sep`. */
  predicate Separable(p: string, sep: string) {
    forall j :: 0 <= j < |p| ==> !OccursAt(p + sep, sep, j)
  }

  /** A separable piece is what `split` cuts off first. */
  lemma SplitFirst(p: string, sep: string, rest: string)
    requires |sep| > 0 && Separable(p, sep)
    ensures Split(p + sep + rest, sep) == [p] + Split(rest, sep)
  {
    var s := p + sep + rest;
    Parts3(p, sep, rest);
    forall j | 0 <= j < |p| ensures !OccursAt(s, sep, j) {
      if OccursAt(s, sep, j) {
        assert s[j..j + |sep|] == (p + sep)[j..j + |sep|];
        assert OccursAt(p + sep, sep, j);
      }
    }
    FirstOccurrence(s, sep, |p|);
    SplitAt(s, sep, |p|);
  }

  /** A piece without `sep` is what `split` returns alone. */
  lemma SplitNone(p: string, sep: string)
    requires |sep| > 0 && !Contains(p, sep)
    ensures Split(p, sep) == [p]
  {
    assert IndexOf(p, sep).None?;
  }

  /** Splitting a join of separable pieces recovers the pieces. */
  lemma {:induction false} SplitJoin(parts: seq<string>, sep: string)
    requires |sep| > 0 && |parts| >= 1
    requires forall k :: 0 <= k < |parts| ==> Separable(parts[k], sep) && !Contains(parts[k], sep)
    ensures Split(Join(parts, sep), sep) == parts
  {
    if |parts| == 1 {
      SplitNone(parts[0], sep);
    } else {
      SplitJoin(parts[1..], sep);
      SplitFirst(parts[0], sep, Join(parts[1..], sep));
    }
  }

  /** Pieces free of the separator, joined in front of a last piece, split back off it. */
  lemma {:induction false} SplitJoinFront(front: seq<string>, last: string, c: char)
    requires forall k :: 0 <= k < |front| ==> c !in front[k]
    ensures Split(Join(front + [last], [c]), [c]) == front + Split(last, [c])
  {
    if front == [] {
      assert front + [last] == [last];
    } else {
      var rest := front[1..];
      var tail := Split(last, [c]);
      JoinCons(front, last, [c]);
      SeparableChar(front[0], c);
      SplitFirst(front[0], [c], Join(rest + [last], [c]));
      SplitJoinFront(rest, last, c);
      ConsAppend(front, tail);
    }
  }

  /** Joining a non-empty front and a last piece starts with the front's first piece. */
  lemma JoinCons(front: seq<string>, last: string, sep: string)
    requires |front| > 0
    ensures Join(front + [last], sep) == front[0] + sep + Join(front[1..] + [last], sep)
  {
    assert (front + [last])[1..] == front[1..] + [last];
  }

  lemma ConsAppend<T>(front: seq<T>, back: seq<T>)
    requires |front| > 0
    ensures [front[0]] + (front[1..] + back) == front + back
  {
  }

  /** For a one-character separator, separable means "does not contain it". */
  lemma SeparableChar(p: string, c: char)
    requires c !in p
    ensures Separable(p, [c]) && !Contains(p, [c])
  {
    forall j | 0 <= j < |p| ensures !OccursAt(p, [c], j) && !OccursAt(p + [c], [c], j) {
      assert p[j..j + 1] == [p[j]];
      assert (p + [c])[j..j + 1] == [p[j]];
    }
  }

  /** A non-empty sequence is its front followed by its last element. */
  lemma Snoc<T>(s: seq<T>)
    requires |s| > 0
    ensures s[..|s| - 1] + [s[|s| - 1]] == s
  {
  }

  /** A non-empty sequence is its first element followed by the others. */
  lemma HeadTail<T>(s: seq<T>)
    requires |s| > 0
    ensures s == [s[0]] + s[1..]
  { }

  /** The elements of a sequence without its last one are the sequence's own. */
  lemma InitAt<T>(s: seq<T>)
    requires s != []
    ensures forall i :: 0 <= i < |s| - 1 ==> s[..|s| - 1][i] == s[i]
  { }

  /** The elements after the first of `[x] + rest` are those of `rest`. */
  lemma ConsAt<T>(x: T, rest: seq<T>)
    ensures forall j :: 1 <= j <= |rest| ==> ([x] + rest)[j] == rest[j - 1]
  {
  }

  /** A suffix is its first element followed by the suffix after it. */
  lemma ConsSlice<T>(s: seq<T>, i: nat)
    requires i < |s|
    ensures [s[i]] + s[i + 1..] == s[i..]
  {
  }

  /** Dropping the last element of `a + b`, for a non-empty `b`. */
  lemma InitOfAppend<T>(a: seq<T>, b: seq<T>)
    requires b != []
    ensures (a + b)[..|a + b| - 1] == a + b[..|b| - 1]
    ensures (a + b)[|a + b| - 1] == b[|b| - 1]
  { }

  /** Concatenation is associative. */
  lemma AppendAssoc<T>(x: seq<T>, y: seq<T>, z: seq<T>)
    ensures x + y + z == x + (y + z)
  { }

  /** A slice of `a + b` that lies within `a`, or within `b`. */
  lemma SliceOfAppend<T>(a: seq<T>, b: seq<T>, lo: nat, hi: nat)
    requires lo <= hi <= |a| + |b|
    ensures hi <= |a| ==> (a + b)[lo..hi] == a[lo..hi]
    ensures |a| <= lo ==> (a + b)[lo..hi] == b[lo - |a|..hi - |a|]
  {
  }

  /** Appending six pieces one after the other appends their concatenation. */
  lemma Chain<T>(f: seq<T>, a: seq<T>, b: seq<T>, c: seq<T>, d: seq<T>, e: seq<T>, g: seq<T>)
    ensures f + (a + b + c + d + e + g) == f + a + b + c + d + e + g
  { }

  /** Slicing `a + b` at `|a|` gives back both. */
  lemma FrontRest<T>(a: seq<T>, b: seq<T>)
    ensures (a + b)[..|a|] == a && (a + b)[|a|..] == b
    ensures b != [] ==> (a + b)[|a|] == b[0]
  { }

  /** The prefix as long as the sequence is the sequence. */
  lemma WholePrefix<T>(s: seq<T>)
    ensures s[..|s|] == s
  { }

  /** A prefix of a prefix is a prefix. */
  lemma PrefixOfPrefix<T>(s: seq<T>, i: nat, k: nat)
    requires k <= i <= |s|
    ensures s[..i][..k] == s[..k]
  { }

  /** The first two lines of a block and the lines of the rest. */
  lemma LinesOf(first: string, second: string, rest: string)
    requires '\n' !in first && '\n' !in second
    ensures Split(first + "\n" + second + "\n" + rest, "\n") == [first, second] + Split(rest, "\n")
  {
    SeparableChar(first, '\n');
    SeparableChar(second, '\n');
    assert first + "\n" + second + "\n" + rest == first + "\n" + (second + "\n" + rest);
    SplitFirst(first, "\n", second + "\n" + rest);
    SplitFirst(second, "\n", rest);
  }

  /** Value of a string of decimal digits (the empty string counts as 0). */
  function DigitsValue(ds: string): nat
    requires forall i :: 0 <= i < |ds| ==> IsDigit(ds[i])
  {
    if ds == [] then 0
    else 10 * DigitsValue(ds[..|ds| - 1]) + DigitValue(ds[|ds| - 1])
  }

  function DigitValue(c: char): nat
    requires IsDigit(c)
  {
    c as int - '0' as int
  }

  function DigitChar(d: nat): (c: char)
    requires d < 10
    ensures IsDigit(c)
  {
    ('0' as int + d) as char
  }

  /** `str(n)` for a natural number: decimal digits without leading zeros. */
  function NatToString(n: nat): (s: string)
    ensures IsDigits(s)
    ensures s[0] == '0' ==> n == 0 && s == "0"
  {
    if n < 10 then [DigitChar(n)] else NatToString(n / 10) + [DigitChar(n % 10)]
  }

  /** `str(i)` for any integer. */
  function IntToString(i: int): string {
    if i < 0 then "-" + NatToString(-i) else NatToString(i)
  }

  /** Rendering a natural number and reading its digits back gives the number. */
  lemma {:induction false} NatToStringValue(n: nat)
    ensures DigitsValue(NatToString(n)) == n
  {
    if n >= 10 {
      NatToStringValue(n / 10);
      var s := NatToString(n / 10) + [DigitChar(n % 10)];
      assert s[..|s| - 1] == NatToString(n / 10);
    }
  }

  /**
   * Python's `int(s)` on a `str`: surrounding whitespace is ignored, an
   * optional sign may precede one or more digits.  `None` stands for the
   * `ValueError` it raises otherwise.
   */
  function ParseInt(s: string): (r: Option<int>)
    ensures r.Some? ==> exists k :: 0 <= k < |s| && IsDigit(s[k])
  {
    var t := Strip(s);
    if |t| > 0 && (t[0] == '-' || t[0] == '+') && IsDigits(t[1..]) then
      assert IsDigit(t[1..][0]);
      var v: int := DigitsValue(t[1..]);
      Some(if t[0] == '-' then -v else v)
    else if IsDigits(t) then
      assert IsDigit(t[0]);
      Some(DigitsValue(t))
    else None
  }

  /** The longest run of digits at the start of `s`. */
  function DigitPrefix(s: string): (d: string)
    ensures d <= s
    ensures forall i :: 0 <= i < |d| ==> IsDigit(d[i])
    ensures |d| == |s| || !IsDigit(s[|d|])
  {
    if s != [] && IsDigit(s[0]) then
      var d := [s[0]] + DigitPrefix(s[1..]);
      assert d[1..] == DigitPrefix(s[1..]);
      d
    else []
  }

  /** `DigitPrefix` stops exactly at the end of a digit string followed by a non-digit. */
  lemma {:induction false} DigitPrefixOf(d: string, tail: string)
    requires IsDigits(d) || d == []
    requires tail == [] || !IsDigit(tail[0])
    ensures DigitPrefix(d + tail) == d
  {
    if d != [] {
      assert (d + tail)[1..] == d[1..] + tail;
      DigitPrefixOf(d[1..], tail);
    } else {
      assert d + tail == tail;
    }
  }

  /** `int(str(i)) == i` */
  lemma {:induction false} IntToStringParses(i: int)
    ensures ParseInt(IntToString(i)) == Some(i)
  {
    if i >= 0 {
      NonNegativeParses(i);
    } else {
      NegativeParses(i);
    }
  }

  lemma NatParses(n: nat)
    ensures ParseInt(NatToString(n)) == Some(n)
  {
    DigitsParse(NatToString(n));
    NatToStringValue(n);
  }

  /** A digit string reads as its value. */
  lemma DigitsParse(d: string)
    requires IsDigits(d)
    ensures ParseInt(d) == Some(DigitsValue(d))
  {
    DigitsStripped(d);
    assert IsDigit(d[0]);
  }

  /** Numbers from 10 on take at least two digits, numbers below 100 at most two. */
  lemma NatToStringLength(n: nat)
    ensures n >= 10 ==> |NatToString(n)| >= 2
    ensures n < 100 ==> |NatToString(n)| <= 2
  {
    if n >= 10 {
      assert NatToString(n) == NatToString(n / 10) + [DigitChar(n % 10)];
    }
  }

  lemma {:induction false} NonNegativeParses(i: int)
    requires i >= 0
    ensures ParseInt(IntToString(i)) == Some(i)
  {
    assert IntToString(i) == NatToString(i);
    NatParses(i);
  }

  lemma {:induction false} NegativeParses(i: int)
    requires i < 0
    ensures ParseInt(IntToString(i)) == Some(i)
  {
    var n: nat := -i;
    var d := NatToString(n);
    NatToStringValue(n);
    SignedParses(d, IntToString(i), i);
  }

  /** A minus sign followed by digits reads as the negated value of the digits. */
  lemma {:induction false} SignedParses(d: string, s: string, v: int)
    requires IsDigits(d) && s == "-" + d && v == -(DigitsValue(d) as int)
    ensures ParseInt(s) == Some(v)
  {
    SignedStripped(d);
    assert s[0] == '-' && s[1..] == d;
  }

  /** A minus sign followed by digits has no whitespace to strip. */
  lemma {:induction false} SignedStripped(d: string)
    requires IsDigits(d)
    ensures Strip("-" + d) == "-" + d
  {
    var s := "-" + d;
    assert s[|s| - 1] == d[|d| - 1] && IsDigit(d[|d| - 1]);
    StripTrimmed(s);
  }

  /** A digit string has no whitespace to strip. */
  lemma DigitsStripped(d: string)
    requires IsDigits(d)
    ensures Strip(d) == d
  {
    assert IsDigit(d[0]) && IsDigit(d[|d| - 1]);
    StripTrimmed(d);
  }

  /** A rendered integer contains no line break and no whitespace. */
  lemma IntToStringPlain(i: int)
    ensures |IntToString(i)| > 0
    ensures forall k :: 0 <= k < |IntToString(i)| ==> IntToString(i)[k] !in Whitespace
  {
    var d := NatToString(if i < 0 then -i else i);
    assert forall k :: 0 <= k < |d| ==> IsDigit(d[k]);
  }
}
