/**
 * `srt_to_ass_dialogue.py`: read SubRip entries, convert their timestamps to
 * the Advanced SubStation Alpha notation (hours without padding,
 * centiseconds after a dot), strip HTML-like tags from the text, drop an
 * entry whose cleaned text repeats the one just before it, and format the
 * rest as `Dialogue:` event lines.
 */
module AssDialogue {
  import opened Text
  import opened Blocks

  // ---------------------------------------------------------------- time stamps

  /** The four digit groups of a SubRip time stamp `HH:MM:SS,mmm`. */
  datatype Stamp = Stamp(hours: string, minutes: string, seconds: string, millis: string)

  /** Each group is one or more digits, as `\d+` demands. */
  predicate ValidStamp(st: Stamp) {
    IsDigits(st.hours) && IsDigits(st.minutes) && IsDigits(st.seconds) && IsDigits(st.millis)
  }

  function StampText(st: Stamp): string {
    st.hours + ":" + st.minutes + ":" + st.seconds + "," + st.millis
  }

  /** Hours, minutes, seconds and a fraction of `1/scale` seconds, as a count of `1/scale` seconds. */
  function Instant(h: int, m: int, s: int, f: int, scale: int): int {
    ((h * 60 + m) * 60 + s) * scale + f
  }

  /**
   * The instant a time text denotes, in units of `1/scale` seconds: three
   * colon-separated fields, the last cut at `dot` into seconds and a
   * fraction, every field read by `int()`.
   */
  function ReadTime(t: string, dot: char, scale: int): Option<int> {
    var parts := Split(t, ":");
    if |parts| != 3 then None
    else
      var frac := Split(parts[2], [dot]);
      if |frac| != 2 then None
      else match (ParseInt(parts[0]), ParseInt(parts[1]), ParseInt(frac[0]), ParseInt(frac[1]))
        case (Some(h), Some(m), Some(s), Some(f)) => Some(Instant(h, m, s, f, scale))
        case _ => None
  }

  /** A SubRip time in milliseconds. */
  function SrtInstant(t: string): Option<int> { ReadTime(t, ',', 1000) }

  /** An ASS time in centiseconds. */
  function AssInstant(t: string): Option<int> { ReadTime(t, '.', 100) }

  /** `f"{n:02d}"`: at least two characters, zero-padded on the left. */
  function Pad2(n: int): string {
    if 0 <= n < 10 then "0" + IntToString(n) else IntToString(n)
  }

  /** A padded natural number is a digit string of at least two digits with the same value. */
  lemma Pad2Digits(n: nat)
    ensures IsDigits(Pad2(n)) && DigitsValue(Pad2(n)) == n
    ensures |Pad2(n)| >= 2 && (n < 100 ==> |Pad2(n)| == 2)
  {
    NatToStringValue(n);
    NatToStringLength(n);
    if n < 10 {
      var p := Pad2(n);
      assert p == ['0', DigitChar(n)];
      assert p[..1] == ['0'] && p[..1][..0] == [];
    }
  }

  /**
   * `convert_time_format`: `None` stands for the `ValueError` raised when the
   * text does not have exactly three colon-separated fields, the last with
   * exactly one comma, or when the hours or milliseconds are not integers.
   * So a conversion that succeeds saw exactly two colons, and exactly one
   * comma after the second.
   */
  function ConvertTime(srtTime: string): (r: Option<string>)
    ensures r.Some? ==> multiset(srtTime)[':'] == 2
    ensures r.Some? ==> var parts := Split(srtTime, ":"); |parts| == 3 && multiset(parts[2])[','] == 1
  {
    var parts := Split(srtTime, ":");
    SplitCount(srtTime, ':');
    if |parts| != 3 then None
    else
      SplitCount(parts[2], ',');
      ConvertFieldsOf(parts[0], parts[1], Split(parts[2], ","))
  }

  /** The hours and minutes fields, then the seconds field split at its commas. */
  function ConvertFieldsOf(hours: string, minutes: string, secondsMs: seq<string>): Option<string> {
    if |secondsMs| != 2 then None
    else match (ParseInt(secondsMs[1]), ParseInt(hours))
      case (Some(ms), Some(h)) =>
        // Python's // rounds toward minus infinity, as Dafny's / does for a positive divisor
        Some(IntToString(h) + ":" + minutes + ":" + secondsMs[0] + "." + Pad2(ms / 10))
      case _ => None
  }

  /** Three fields without a colon, joined by colons, split back into the three. */
  lemma ColonFields(a: string, b: string, last: string)
    requires ':' !in a && ':' !in b && ':' !in last
    ensures Split(a + ":" + b + ":" + last, ":") == [a, b, last]
  {
    SeparableChar(a, ':');
    SeparableChar(b, ':');
    SeparableChar(last, ':');
    assert a + ":" + b + ":" + last == a + ":" + (b + ":" + last);
    SplitFirst(a, ":", b + ":" + last);
    SplitFirst(b, ":", last);
    SplitNone(last, ":");
  }

  /** Two fields without `dot`, joined by it, split back into the two. */
  lemma DotFields(c: string, d: string, dot: char)
    requires dot !in c && dot !in d
    ensures Split(c + [dot] + d, [dot]) == [c, d]
  {
    SeparableChar(c, dot);
    SeparableChar(d, dot);
    SplitFirst(c, [dot], d);
    SplitNone(d, [dot]);
  }

  /** Three colon-separated fields, the last cut once at `dot`, split back into their pieces. */
  lemma TimeSplits(a: string, b: string, c: string, d: string, dot: char)
    requires ':' !in a && ':' !in b && ':' !in c && ':' !in d && dot != ':'
    requires dot !in c && dot !in d
    ensures Split(a + ":" + b + ":" + c + [dot] + d, ":") == [a, b, c + [dot] + d]
    ensures Split(c + [dot] + d, [dot]) == [c, d]
  {
    var last := c + [dot] + d;
    assert ':' !in last;
    ColonFields(a, b, last);
    assert a + ":" + b + ":" + c + [dot] + d == a + ":" + b + ":" + last;
    DotFields(c, d, dot);
  }

  /** A digit string contains no separator character. */
  lemma DigitsPlain(d: string)
    requires IsDigits(d)
    ensures ':' !in d && ',' !in d && '.' !in d && '\n' !in d
  {
    assert forall k :: 0 <= k < |d| ==> IsDigit(d[k]);
  }

  /** The instant denoted by four fields that split apart cleanly and each read as an integer. */
  lemma ReadTimeOf(a: string, b: string, c: string, d: string, dot: char, scale: int)
    requires ':' !in a && ':' !in b && ':' !in c && ':' !in d && dot != ':'
    requires dot !in c && dot !in d
    requires ParseInt(a).Some? && ParseInt(b).Some? && ParseInt(c).Some? && ParseInt(d).Some?
    ensures ReadTime(a + ":" + b + ":" + c + [dot] + d, dot, scale)
            == Some(Instant(ParseInt(a).value, ParseInt(b).value, ParseInt(c).value, ParseInt(d).value, scale))
  {
    TimeSplits(a, b, c, d, dot);
  }

  /** The SubRip instant of a well-formed time stamp. */
  lemma StampInstant(st: Stamp)
    requires ValidStamp(st)
    ensures SrtInstant(StampText(st))
            == Some(Instant(DigitsValue(st.hours), DigitsValue(st.minutes), DigitsValue(st.seconds),
                            DigitsValue(st.millis), 1000))
  {
    DigitsPlain(st.hours);
    DigitsPlain(st.minutes);
    DigitsPlain(st.seconds);
    DigitsPlain(st.millis);
    DigitsParse(st.hours);
    DigitsParse(st.minutes);
    DigitsParse(st.seconds);
    DigitsParse(st.millis);
    ReadTimeOf(st.hours, st.minutes, st.seconds, st.millis, ',', 1000);
  }

  /** What `convert_time_format` makes of four fields that split apart cleanly. */
  lemma ConvertTimeOf(a: string, b: string, c: string, d: string)
    requires ':' !in a && ':' !in b && ':' !in c && ':' !in d && ',' !in c && ',' !in d
    requires ParseInt(a).Some? && ParseInt(d).Some?
    ensures ConvertTime(a + ":" + b + ":" + c + "," + d)
            == Some(IntToString(ParseInt(a).value) + ":" + b + ":" + c + "." + Pad2(ParseInt(d).value / 10))
  {
    TimeSplits(a, b, c, d, ',');
    ConvertFields(a + ":" + b + ":" + c + "," + d, a, b, c + "," + d, c, d, ParseInt(a).value, ParseInt(d).value);
  }

  /** What `convert_time_format` makes of a text once its fields are known. */
  lemma ConvertFields(srtTime: string, a: string, b: string, rest: string, c: string, d: string, h: int, ms: int)
    requires Split(srtTime, ":") == [a, b, rest] && Split(rest, ",") == [c, d]
    requires ParseInt(a) == Some(h) && ParseInt(d) == Some(ms)
    ensures ConvertTime(srtTime) == Some(IntToString(h) + ":" + b + ":" + c + "." + Pad2(ms / 10))
  {
    ConvertColons(srtTime, a, b, rest);
    SecondsField(a, b, Split(rest, ","), c, d, h, ms);
  }

  /** Once the text splits into three fields at its colons, the seconds field is split at its commas. */
  lemma ConvertColons(srtTime: string, a: string, b: string, rest: string)
    requires Split(srtTime, ":") == [a, b, rest]
    ensures ConvertTime(srtTime) == ConvertFieldsOf(a, b, Split(rest, ","))
  {
    var parts := Split(srtTime, ":");
    assert |parts| == 3 && parts[0] == a && parts[1] == b && parts[2] == rest;
  }

  /** What `convert_time_format` makes of the fields once the seconds field is split. */
  lemma SecondsField(a: string, b: string, secondsMs: seq<string>, c: string, d: string, h: int, ms: int)
    requires secondsMs == [c, d]
    requires ParseInt(a) == Some(h) && ParseInt(d) == Some(ms)
    ensures ConvertFieldsOf(a, b, secondsMs) == Some(IntToString(h) + ":" + b + ":" + c + "." + Pad2(ms / 10))
  {
    assert |secondsMs| == 2 && secondsMs[0] == c && secondsMs[1] == d;
  }

  /** The ASS text `convert_time_format` produces for a well-formed time stamp. */
  lemma StampConverts(st: Stamp)
    requires ValidStamp(st)
    ensures ConvertTime(StampText(st))
            == Some(NatToString(DigitsValue(st.hours)) + ":" + st.minutes + ":" + st.seconds + "."
                    + Pad2(DigitsValue(st.millis) / 10))
  {
    DigitsPlain(st.hours);
    DigitsPlain(st.minutes);
    DigitsPlain(st.seconds);
    DigitsPlain(st.millis);
    DigitsParse(st.hours);
    DigitsParse(st.millis);
    ConvertTimeOf(st.hours, st.minutes, st.seconds, st.millis);
  }

  /** Dropping the last decimal of the milliseconds gives the instant in centiseconds. */
  lemma Centis(h: int, m: int, s: int, ms: nat)
    ensures Instant(h, m, s, ms, 1000) / 10 == Instant(h, m, s, ms / 10, 100)
  {
    var whole := (h * 60 + m) * 60 + s;
    assert whole * 1000 + ms == (whole * 100) * 10 + ms;
  }

  /** The ASS time `convert_time_format` writes for a stamp the time regex matched. */
  function ConvertStamp(st: Stamp): (t: string)
    requires ValidStamp(st)
    ensures ',' !in t && '\n' !in t
  {
    var cs := DigitsValue(st.millis) / 10;
    AssStampPlain(DigitsValue(st.hours), st.minutes, st.seconds, cs);
    NatToString(DigitsValue(st.hours)) + ":" + st.minutes + ":" + st.seconds + "." + Pad2(cs)
  }

  /**
   * The time the regex accepts always converts, and the ASS time denotes the
   * same instant truncated to the centisecond.
   */
  lemma ConvertStampMeaning(st: Stamp)
    requires ValidStamp(st)
    ensures ConvertTime(StampText(st)) == Some(ConvertStamp(st))
    ensures SrtInstant(StampText(st)).Some? && AssInstant(ConvertStamp(st)) == Some(SrtInstant(StampText(st)).value / 10)
  {
    StampConverts(st);
    StampInstant(st);
    var cs := DigitsValue(st.millis) / 10;
    AssStampInstant(DigitsValue(st.hours), st.minutes, st.seconds, cs);
    Centis(DigitsValue(st.hours), DigitsValue(st.minutes), DigitsValue(st.seconds), DigitsValue(st.millis));
  }

  /** The instant of an ASS time written from digit fields. */
  lemma AssStampInstant(hours: nat, minutes: string, seconds: string, cs: nat)
    requires IsDigits(minutes) && IsDigits(seconds)
    ensures AssInstant(NatToString(hours) + ":" + minutes + ":" + seconds + "." + Pad2(cs))
            == Some(Instant(hours, DigitsValue(minutes), DigitsValue(seconds), cs, 100))
  {
    var h := NatToString(hours);
    var p := Pad2(cs);
    Pad2Digits(cs);
    DigitsPlain(h);
    DigitsPlain(minutes);
    DigitsPlain(seconds);
    DigitsPlain(p);
    NatParses(hours);
    DigitsParse(minutes);
    DigitsParse(seconds);
    DigitsParse(p);
    ReadTimeOf(h, minutes, seconds, p, '.', 100);
  }

  /** An ASS time written from digit fields has no comma and no line break. */
  lemma AssStampPlain(hours: nat, minutes: string, seconds: string, cs: nat)
    requires IsDigits(minutes) && IsDigits(seconds)
    ensures var t := NatToString(hours) + ":" + minutes + ":" + seconds + "." + Pad2(cs);
            ',' !in t && '\n' !in t
  {
    Pad2Digits(cs);
    DigitsPlain(NatToString(hours));
    DigitsPlain(minutes);
    DigitsPlain(seconds);
    DigitsPlain(Pad2(cs));
  }

  // ---------------------------------------------------------------- the time line

  /** A run of digits followed by `c`: the digits and what follows `c`. */
  function DigitsThen(s: string, c: char): (r: Option<(string, string)>)
    ensures r.Some? ==> IsDigits(r.value.0) && s == r.value.0 + [c] + r.value.1
  {
    var d := DigitPrefix(s);
    if |d| > 0 && |d| < |s| && s[|d|] == c then
      assert s == d + [c] + s[|d| + 1..] by { assert s[..|d|] == d; Cut3(s, |d|, |d| + 1); }
      Some((d, s[|d| + 1..]))
    else None
  }

  /**
   * `\d+:\d+:\d+,\d+` matched at the start of `s`.  Every `\d+` is followed
   * by a non-digit or the end, so its greedy match is the only one.
   */
  function MatchStamp(s: string): (r: Option<(Stamp, string)>)
    ensures r.Some? ==> ValidStamp(r.value.0) && s == StampText(r.value.0) + r.value.1
    ensures r.Some? ==> r.value.1 == [] || !IsDigit(r.value.1[0])
  {
    match DigitsThen(s, ':')
    case None => None
    case Some((h, r1)) =>
      match DigitsThen(r1, ':')
      case None => None
      case Some((m, r2)) =>
        match DigitsThen(r2, ',')
        case None => None
        case Some((sec, r3)) =>
          var ms := DigitPrefix(r3);
          if |ms| == 0 then None
          else
            assert r3 == ms + r3[|ms|..];
            StampTextNested(Stamp(h, m, sec, ms), r3[|ms|..]);
            Some((Stamp(h, m, sec, ms), r3[|ms|..]))
  }

  /** A stamp followed by more text, regrouped from the right. */
  lemma StampTextNested(st: Stamp, rest: string)
    ensures StampText(st) + rest
            == st.hours + ":" + (st.minutes + ":" + (st.seconds + "," + (st.millis + rest)))
  {
    var r3 := st.millis + rest;
    var r2 := st.seconds + "," + r3;
    assert st.seconds + "," + st.millis + rest == r2;
    var r1 := st.minutes + ":" + r2;
    assert st.minutes + ":" + st.seconds + "," + st.millis + rest == r1;
    assert st.hours + ":" + st.minutes + ":" + st.seconds + "," + st.millis + rest == st.hours + ":" + r1;
  }

  /** A digit run followed by `c` is cut off exactly there. */
  lemma DigitsThenOf(d: string, c: char, rest: string)
    requires IsDigits(d) && !IsDigit(c)
    ensures DigitsThen(d + [c] + rest, c) == Some((d, rest))
  {
    DigitPrefixOf(d, [c] + rest);
    assert d + [c] + rest == d + ([c] + rest);
  }

  /** A well-formed stamp followed by a non-digit is matched as itself. */
  lemma MatchStampOf(st: Stamp, rest: string)
    requires ValidStamp(st) && (rest == [] || !IsDigit(rest[0]))
    ensures MatchStamp(StampText(st) + rest) == Some((st, rest))
  {
    var tail := st.millis + rest;
    var r2 := st.seconds + "," + tail;
    var r1 := st.minutes + ":" + r2;
    StampTextNested(st, rest);
    DigitsThenOf(st.hours, ':', r1);
    DigitsThenOf(st.minutes, ':', r2);
    DigitsThenOf(st.seconds, ',', tail);
    DigitPrefixOf(st.millis, rest);
    assert tail[|st.millis|..] == rest;
  }

  /**
   * `re.match(r'(\d+:\d+:\d+,\d+)\s+-->\s+(\d+:\d+:\d+,\d+)', line)`: the two
   * stamps, or `None`.  Text after the second stamp is ignored.
   */
  function MatchTimeRange(line: string): (r: Option<(Stamp, Stamp)>)
    ensures r.Some? ==> ValidStamp(r.value.0) && ValidStamp(r.value.1)
  {
    match MatchStamp(line)
    case None => None
    case Some((a, r1)) => MatchArrowed(a, r1)
  }

  /** The rest of the time line after the start stamp `a`: the arrow, then the end stamp. */
  function MatchArrowed(a: Stamp, r1: string): (r: Option<(Stamp, Stamp)>)
    ensures r.Some? ==> r.value.0 == a && ValidStamp(r.value.1)
  {
    match Arrow(r1)
    case None => None
    case Some(w2) =>
      match MatchStamp(w2)
      case None => None
      case Some((b, _)) => Some((a, b))
  }

  /** Past the start stamp, the match is decided by the rest of the line. */
  lemma RangeStart(line: string, a: Stamp, r1: string)
    requires MatchStamp(line) == Some((a, r1))
    ensures MatchTimeRange(line) == MatchArrowed(a, r1)
  {
  }

  /** An arrow followed by a stamp completes the match. */
  lemma RangeEnd(a: Stamp, r1: string, w2: string, b: Stamp, rest: string)
    requires Arrow(r1) == Some(w2) && MatchStamp(w2) == Some((b, rest))
    ensures MatchArrowed(a, r1) == Some((a, b))
  {
  }

  /**
   * `\s+-->\s+` matched at the start of `s`: what follows it.  Each `\s+`
   * is followed by a non-space, so its greedy match is the only one.
   */
  function Arrow(s: string): (r: Option<string>)
    ensures r.Some? ==> |r.value| < |s|
  {
    var w1 := LStrip(s, Whitespace);
    if |w1| == |s| || |w1| < 3 || w1[..3] != "-->" then None
    else
      var r2 := w1[3..];
      var w2 := LStrip(r2, Whitespace);
      if |w2| == |r2| then None else Some(w2)
  }

  /** What `\s+` matches: one or more whitespace characters. */
  predicate Gap(g: string) {
    |g| > 0 && forall k :: 0 <= k < |g| ==> g[k] in Whitespace
  }

  /** Text that can follow a stamp without lengthening its last digit group. */
  predicate StampEnd(tail: string) {
    tail == [] || !IsDigit(tail[0])
  }

  /** The shape of a line the time regex accepts: two stamps around an arrow with whitespace on both sides;
   * the second stamp's last digit group runs as far as the digits do. */
  predicate TimeLine(line: string, a: Stamp, b: Stamp, gap1: string, gap2: string, tail: string) {
    && Gap(gap1) && Gap(gap2) && StampEnd(tail)
    && line == StampText(a) + gap1 + "-->" + gap2 + StampText(b) + tail
  }

  lemma DigitNotSpace(c: char)
    requires IsDigit(c)
    ensures c !in Whitespace
  {
  }

  /** A time line regrouped from the right. */
  lemma TimeLineNested(first: string, gap1: string, gap2: string, second: string, tail: string)
    ensures first + gap1 + "-->" + gap2 + second + tail
            == first + (gap1 + ("-->" + (gap2 + (second + tail))))
  {
  }

  /** The arrow the match accepts is surrounded by whitespace, and what follows does not start with a space. */
  lemma ArrowSound(s: string) returns (gap1: string, gap2: string)
    requires Arrow(s).Some?
    ensures Gap(gap1) && Gap(gap2) && s == gap1 + ("-->" + (gap2 + Arrow(s).value))
  {
    var w1 := LStrip(s, Whitespace);
    var r2 := w1[3..];
    assert Arrow(s).value == LStrip(r2, Whitespace);
    gap1 := LeadingSpace(s);
    gap2 := LeadingSpace(r2);
    ArrowText(w1);
  }

  /** Text that starts with an arrow is the arrow and the rest. */
  lemma ArrowText(w: string)
    requires |w| >= 3 && w[..3] == "-->"
    ensures w == "-->" + w[3..]
  {
    assert w == w[..3] + w[3..];
  }

  /** The whitespace `lstrip` removes, which put back in front gives the string again. */
  lemma LeadingSpace(s: string) returns (gap: string)
    ensures s == gap + LStrip(s, Whitespace)
    ensures |LStrip(s, Whitespace)| < |s| ==> Gap(gap)
  {
    gap := s[..|s| - |LStrip(s, Whitespace)|];
  }

  /** An arrow with whitespace on both sides is matched, up to the first non-space after it. */
  lemma ArrowOf(gap1: string, gap2: string, rest: string)
    requires Gap(gap1) && Gap(gap2) && (rest == [] || rest[0] !in Whitespace)
    ensures Arrow(gap1 + ("-->" + (gap2 + rest))) == Some(rest)
  {
    var r2 := gap2 + rest;
    var w1 := "-->" + r2;
    assert w1[0] == '-';
    LStripOver(gap1, w1, Whitespace);
    assert w1[..3] == "-->" && w1[3..] == r2;
    LStripOver(gap2, rest, Whitespace);
  }

  /** Every line the match accepts has that shape. */
  lemma MatchTimeRangeSound(line: string)
    requires MatchTimeRange(line).Some?
    ensures exists gap1, gap2, tail ::
              TimeLine(line, MatchTimeRange(line).value.0, MatchTimeRange(line).value.1, gap1, gap2, tail)
  {
    var (a, r1) := MatchStamp(line).value;
    var w2 := Arrow(r1).value;
    var (b, tail) := MatchStamp(w2).value;
    var gap1, gap2 := ArrowSound(r1);
    TimeLineNested(StampText(a), gap1, gap2, StampText(b), tail);
    assert TimeLine(line, a, b, gap1, gap2, tail);
  }

  /** Every line of that shape is accepted, with its two stamps. */
  lemma MatchTimeRangeOf(a: Stamp, b: Stamp, gap1: string, gap2: string, tail: string)
    requires ValidStamp(a) && ValidStamp(b) && Gap(gap1) && Gap(gap2) && StampEnd(tail)
    ensures MatchTimeRange(StampText(a) + gap1 + "-->" + gap2 + StampText(b) + tail) == Some((a, b))
  {
    var w2 := StampText(b) + tail;
    var r1 := gap1 + ("-->" + (gap2 + w2));
    TimeLineNested(StampText(a), gap1, gap2, StampText(b), tail);
    assert r1[0] == gap1[0] && !IsDigit(gap1[0]);
    MatchStampOf(a, r1);
    RangeStart(StampText(a) + r1, a, r1);
    assert w2[0] == b.hours[0];
    DigitNotSpace(b.hours[0]);
    ArrowOf(gap1, gap2, w2);
    MatchStampOf(b, tail);
    RangeEnd(a, r1, w2, b, tail);
  }

  // ---------------------------------------------------------------- parsing

  /** One subtitle entry as `parse_srt` stores it, times already in ASS notation. */
  datatype Entry = Entry(number: int, startTime: string, endTime: string, text: string)

  /** The times of an entry hold no comma, the separator of ASS event fields. */
  predicate CommaFreeTimes(e: Entry) {
    ',' !in e.startTime && ',' !in e.endTime
  }

  /**
   * One block of the file: its stripped lines, the first read by `int()`,
   * the second matched as a time range; the remaining lines joined by spaces.
   */
  function ParseBlock(block: string): (r: Option<Entry>)
    ensures r.Some? ==> CommaFreeTimes(r.value)
  {
    ParseLines(Split(Strip(block), "\n"))
  }

  /** The stripped lines of a block: the number line, then the rest. */
  function ParseLines(lines: seq<string>): (r: Option<Entry>)
    ensures r.Some? ==> CommaFreeTimes(r.value)
  {
    if |lines| < 3 then None
    else match ParseInt(lines[0])
      case None => None
      case Some(number) => ParseTimed(number, lines[1], lines[2..])
  }

  /** The time line of a numbered block, then its text lines. */
  function ParseTimed(number: int, timeLine: string, text: seq<string>): (r: Option<Entry>)
    ensures r.Some? ==> CommaFreeTimes(r.value)
  {
    match MatchTimeRange(timeLine)
    case None => None
    case Some((a, b)) => Some(Entry(number, ConvertStamp(a), ConvertStamp(b), Join(text, " ")))
  }

  /** A block with fewer than two line breaks inside its stripped text is skipped. */
  lemma ShortBlockSkipped(block: string)
    requires multiset(Strip(block))['\n'] < 2
    ensures ParseBlock(block) == None
  {
    SplitCount(Strip(block), '\n');
  }

  /** The entries of the blocks that parse, in file order. */
  function ParseBlocks(blocks: seq<string>): (entries: seq<Entry>)
    ensures |entries| <= |blocks|
    ensures forall k :: 0 <= k < |entries| ==> CommaFreeTimes(entries[k])
  {
    if blocks == [] then []
    else
      var init := ParseBlocks(blocks[..|blocks| - 1]);
      var last := ParseBlock(blocks[|blocks| - 1]);
      if last.Some? then
        CommaFreeSnoc(init, last.value);
        init + [last.value]
      else init
  }

  lemma CommaFreeSnoc(entries: seq<Entry>, e: Entry)
    requires forall k :: 0 <= k < |entries| ==> CommaFreeTimes(entries[k])
    requires CommaFreeTimes(e)
    ensures forall k :: 0 <= k < |entries| + 1 ==> CommaFreeTimes((entries + [e])[k])
  {
  }

  /** What `parse_srt` returns for a file's content. */
  function Parsed(content: string): seq<Entry> {
    ParseBlocks(SplitParagraphs(Strip(content)))
  }

  /** `parse_srt`, once the file has been read. */
  method ParseSrt(content: string) returns (subtitles: seq<Entry>)
    ensures subtitles == Parsed(content)
  {
    var blocks := SplitParagraphs(Strip(content));
    subtitles := [];
    for k := 0 to |blocks|
      invariant subtitles == ParseBlocks(blocks[..k])
    {
      var entry := ParseBlock(blocks[k]);
      ParseBlocksNext(blocks, k);
      if entry.Some? {
        subtitles := subtitles + [entry.value];
      }
    }
    WholePrefix(blocks);
  }

  /** The entries of the first `k + 1` blocks: those of the first `k`, then block `k`'s if it parses. */
  lemma ParseBlocksNext(blocks: seq<string>, k: nat)
    requires k < |blocks|
    ensures ParseBlocks(blocks[..k + 1])
            == ParseBlocks(blocks[..k]) + if ParseBlock(blocks[k]).Some? then [ParseBlock(blocks[k]).value] else []
  {
    assert blocks[..k + 1][..k] == blocks[..k];
  }

  /** A stamp holds no line break. */
  lemma StampPlain(st: Stamp)
    requires ValidStamp(st)
    ensures '\n' !in StampText(st)
  {
    DigitsPlain(st.hours);
    DigitsPlain(st.minutes);
    DigitsPlain(st.seconds);
    DigitsPlain(st.millis);
  }

  /** The time line a SubRip writer puts in a block. */
  function TimeRangeLine(a: Stamp, b: Stamp): string {
    StampText(a) + " --> " + StampText(b)
  }

  /** A written time line has no line break, and the match reads its two stamps back. */
  lemma TimeRangeLineMatches(a: Stamp, b: Stamp)
    requires ValidStamp(a) && ValidStamp(b)
    ensures '\n' !in TimeRangeLine(a, b)
    ensures MatchTimeRange(TimeRangeLine(a, b)) == Some((a, b))
  {
    TimeRangeLinePlain(a, b);
    assert TimeRangeLine(a, b) == StampText(a) + " " + "-->" + " " + StampText(b) + "";
    MatchTimeRangeOf(a, b, " ", " ", "");
  }

  /** A written time line has no line break. */
  lemma TimeRangeLinePlain(a: Stamp, b: Stamp)
    requires ValidStamp(a) && ValidStamp(b)
    ensures '\n' !in TimeRangeLine(a, b)
  {
    var x, y := StampText(a), StampText(b);
    StampPlain(a);
    StampPlain(b);
    assert '\n' !in " --> ";
    assert TimeRangeLine(a, b) == x + " --> " + y;
  }

  /**
   * A well-formed block (number, time line, then text lines) is read as the
   * entry with those times converted and the text lines joined by spaces.
   */
  lemma ParseBlockOf(number: int, a: Stamp, b: Stamp, body: string)
    requires ValidStamp(a) && ValidStamp(b)
    requires |body| > 0 && body[|body| - 1] !in Whitespace
    ensures ParseBlock(IntToString(number) + "\n" + TimeRangeLine(a, b) + "\n" + body)
            == Some(Entry(number, ConvertStamp(a), ConvertStamp(b), Join(Split(body, "\n"), " ")))
  {
    var num, line := IntToString(number), TimeRangeLine(a, b);
    var block := num + "\n" + line + "\n" + body;
    IntToStringPlain(number);
    assert block[0] == num[0] && block[|block| - 1] == body[|body| - 1];
    StripTrimmed(block);
    assert '\n' !in num;
    TimeRangeLineMatches(a, b);
    LinesOf(num, line, body);
    IntToStringParses(number);
    ParseBlockLines(block, num, line, Split(body, "\n"), number, a, b);
  }

  /** A block whose first line reads as a number and whose second matches the time range. */
  lemma ParseBlockLines(block: string, first: string, second: string, rest: seq<string>, number: int, a: Stamp, b: Stamp)
    requires Split(Strip(block), "\n") == [first, second] + rest && rest != []
    requires ParseInt(first) == Some(number) && MatchTimeRange(second) == Some((a, b))
    ensures ParseBlock(block) == Some(Entry(number, ConvertStamp(a), ConvertStamp(b), Join(rest, " ")))
  {
    NumberLine([first, second] + rest, first, second, rest, number);
  }

  /** Past a number line, the block is decided by its time line. */
  lemma NumberLine(lines: seq<string>, first: string, second: string, rest: seq<string>, number: int)
    requires lines == [first, second] + rest && rest != []
    requires ParseInt(first) == Some(number)
    ensures ParseLines(lines) == ParseTimed(number, second, rest)
  {
    FrontRest([first, second], rest);
    assert |lines| >= 3 && lines[0] == first && lines[1] == second;
  }

  // ---------------------------------------------------------------- tags

  /**
   * The end of a match of `<[^>]+>` at the start of `s`: a `<`, at least one
   * character other than `>`, then the first `>`.
   */
  function TagEnd(s: string): (r: Option<nat>)
    ensures r.Some? ==> 3 <= r.value <= |s| && s[0] == '<' && s[r.value - 1] == '>'
    ensures r.Some? ==> forall k :: 1 <= k < r.value - 1 ==> s[k] != '>'
    ensures r.None? && 2 <= |s| && s[0] == '<' && s[1] != '>' ==> forall k :: 1 <= k < |s| ==> s[k] != '>'
  {
    if s == [] || s[0] != '<' then None
    else match CloseFrom(s, 1)
      case Some(j) => if j >= 2 then Some(j + 1) else None
      case None => None
  }

  /** The first `>` at or after index `k`. */
  function CloseFrom(s: string, k: nat): (r: Option<nat>)
    ensures r.Some? ==> k <= r.value < |s| && s[r.value] == '>'
    ensures r.Some? ==> forall i :: k <= i < r.value ==> s[i] != '>'
    ensures r.None? ==> forall i :: k <= i < |s| ==> s[i] != '>'
    decreases |s| - k
  {
    if k >= |s| then None
    else if s[k] == '>' then Some(k)
    else CloseFrom(s, k + 1)
  }

  /**
   * `re.sub(r'<[^>]+>', '', s)`: scanning left to right, every match is
   * removed and the scan resumes after it; other characters are kept.
   */
  function StripTags(s: string): (r: string)
    ensures |r| <= |s|
    ensures forall c :: c in r ==> c in s
    decreases |s|
  {
    if s == [] then []
    else match TagEnd(s)
      case Some(j) => StripTags(s[j..])
      case None => [s[0]] + StripTags(s[1..])
  }

  /**
   * No match of `<[^>]+>` anywhere: a `<` with a `>` somewhere after it is
   * immediately followed by `>`.
   */
  predicate TagFree(s: string) {
    forall i, j :: 0 <= i < j < |s| && s[i] == '<' && s[j] == '>' ==> s[i + 1] == '>'
  }

  /** A kept first character stays first. */
  lemma StripTagsKeeps(s: string)
    requires s != [] && TagEnd(s).None?
    ensures StripTags(s) == [s[0]] + StripTags(s[1..])
  {
  }

  /** What `re.sub` leaves holds no further match. */
  lemma {:induction false} StripTagsClean(s: string)
    ensures TagFree(StripTags(s))
    decreases |s|
  {
    if s != [] {
      match TagEnd(s)
      case Some(j) =>
        StripTagsClean(s[j..]);
      case None =>
        StripTagsClean(s[1..]);
        var rest := StripTags(s[1..]);
        var r := [s[0]] + rest;
        forall i, j | 0 <= i < j < |r| && r[i] == '<' && r[j] == '>' ensures r[i + 1] == '>' {
          if i > 0 {
            assert rest[i - 1] == '<' && rest[j - 1] == '>';
          } else {
            assert rest[j - 1] == '>' && '>' in rest;
            StripTagsKeeps(s[1..]);
          }
        }
    }
  }

  /** A string with no match is left as it is. */
  lemma {:induction false} StripTagsFixed(s: string)
    requires TagFree(s)
    ensures StripTags(s) == s
    decreases |s|
  {
    if s != [] {
      assert TagFree(s[1..]) by {
        forall i, j | 0 <= i < j < |s| - 1 && s[1..][i] == '<' && s[1..][j] == '>' ensures s[1..][i + 1] == '>' {
          assert s[i + 1] == '<' && s[j + 1] == '>';
        }
      }
      StripTagsFixed(s[1..]);
    }
  }

  /** Tag removal changes a string exactly when it holds a match. */
  lemma StripTagsUnchanged(s: string)
    ensures StripTags(s) == s <==> TagFree(s)
  {
    StripTagsClean(s);
    if TagFree(s) {
      StripTagsFixed(s);
    }
  }

  /** Removing tags twice is removing them once. */
  lemma StripTagsIdempotent(s: string)
    ensures StripTags(StripTags(s)) == StripTags(s)
  {
    StripTagsClean(s);
    StripTagsFixed(StripTags(s));
  }

  // ---------------------------------------------------------------- dialogue lines

  /** An entry's text with tags removed, as it is compared and written. */
  function Cleaned(e: Entry): string {
    StripTags(e.text)
  }

  /** Entry `k` is written: it is the first, or its cleaned text differs from the entry before it. */
  predicate Fresh(subs: seq<Entry>, k: nat)
    requires k < |subs|
  {
    k == 0 || Cleaned(subs[k]) != Cleaned(subs[k - 1])
  }

  /** The entries `create_ass_dialogues` writes, in order. */
  function Kept(subs: seq<Entry>): (kept: seq<Entry>)
    ensures |kept| <= |subs|
  {
    if subs == [] then []
    else
      var init := Kept(subs[..|subs| - 1]);
      if Fresh(subs, |subs| - 1) then init + [subs[|subs| - 1]] else init
  }

  /** The event line for one entry. */
  function DialogueLine(e: Entry, styleName: string): string {
    "Dialogue: 1," + e.startTime + "," + e.endTime + "," + styleName + ",,0,0,0,," + Cleaned(e)
  }

  function DialogueLines(kept: seq<Entry>, styleName: string): (lines: seq<string>)
    ensures |lines| == |kept|
  {
    seq(|kept|, i requires 0 <= i < |kept| => DialogueLine(kept[i], styleName))
  }

  /** What `create_ass_dialogues` returns. */
  function Dialogues(subs: seq<Entry>, styleName: string): seq<string> {
    DialogueLines(Kept(subs), styleName)
  }

  /** `create_ass_dialogues` */
  method CreateAssDialogues(subtitles: seq<Entry>, styleName: string) returns (dialogues: seq<string>)
    ensures dialogues == Dialogues(subtitles, styleName)
  {
    dialogues := [];
    var prevText: Option<string> := None;
    var counter := 0;
    for k := 0 to |subtitles|
      invariant dialogues == Dialogues(subtitles[..k], styleName)
      invariant prevText == if k == 0 then None else Some(Cleaned(subtitles[k - 1]))
      invariant counter == |dialogues|
    {
      var text := StripTags(subtitles[k].text);
      DialoguesNext(subtitles, k, styleName);
      if prevText != Some(text) {
        prevText := Some(text);
        counter := counter + 1;
        var subtitle := subtitles[k];
        var dialogue := "Dialogue: 1," + subtitle.startTime + "," + subtitle.endTime + "," + styleName + ",,0,0,0,," + text;
        dialogues := dialogues + [dialogue];
      }
    }
    WholePrefix(subtitles);
  }

  /** Every written entry is one of the parsed entries. */
  lemma {:induction false} KeptFrom(subs: seq<Entry>)
    ensures forall i :: 0 <= i < |Kept(subs)| ==> Kept(subs)[i] in subs
  {
    if subs != [] {
      var n := |subs|;
      var init := subs[..n - 1];
      KeptFrom(init);
      var before := Kept(init);
      forall i | 0 <= i < |before| ensures before[i] in subs {
        var k :| 0 <= k < |init| && init[k] == before[i];
        assert subs[k] == init[k];
      }
      if Fresh(subs, n - 1) {
        var kept := before + [subs[n - 1]];
        forall i | 0 <= i < |kept| ensures kept[i] in subs {
          if i < |before| {
            assert kept[i] == before[i];
          }
        }
      }
    }
  }

  /** The entries kept from the first `k + 1`: those kept from the first `k`, then entry `k` if it is fresh. */
  lemma KeptNext(subs: seq<Entry>, k: nat)
    requires k < |subs|
    ensures Kept(subs[..k + 1]) == Kept(subs[..k]) + if Fresh(subs, k) then [subs[k]] else []
  {
    assert subs[..k + 1][..k] == subs[..k];
  }

  /** The lines for the first `k + 1` entries: those for the first `k`, then entry `k`'s if it is fresh. */
  lemma DialoguesNext(subs: seq<Entry>, k: nat, styleName: string)
    requires k < |subs|
    ensures Dialogues(subs[..k + 1], styleName)
            == Dialogues(subs[..k], styleName) + if Fresh(subs, k) then [DialogueLine(subs[k], styleName)] else []
  {
    KeptNext(subs, k);
  }

  /** The first entry is always written, and the last one written carries the last entry's cleaned text. */
  lemma {:induction false} KeptEnds(subs: seq<Entry>)
    requires |subs| > 0
    ensures |Kept(subs)| > 0 && Kept(subs)[0] == subs[0]
    ensures Cleaned(Kept(subs)[|Kept(subs)| - 1]) == Cleaned(subs[|subs| - 1])
  {
    var n := |subs|;
    if n > 1 {
      var init := subs[..n - 1];
      KeptEnds(init);
      assert init[n - 2] == subs[n - 2];
      KeptNext(subs, n - 1);
      WholePrefix(subs);
      var before := Kept(init);
      if Fresh(subs, n - 1) {
        var kept := before + [subs[n - 1]];
        assert kept[0] == before[0] && kept[|kept| - 1] == subs[n - 1];
      } else {
        assert Cleaned(subs[n - 1]) == Cleaned(subs[n - 2]);
      }
    } else {
      assert Kept(subs) == [subs[0]];
    }
  }

  /** Two consecutive written lines never carry the same cleaned text. */
  lemma {:induction false} KeptNoRepeat(subs: seq<Entry>)
    ensures NoRepeat(Kept(subs))
  {
    var n := |subs|;
    if n > 1 {
      var init := subs[..n - 1];
      KeptNoRepeat(init);
      KeptEnds(init);
      assert init[n - 2] == subs[n - 2];
      var before := Kept(init);
      KeptNext(subs, n - 1);
      WholePrefix(subs);
      if Fresh(subs, n - 1) {
        assert Cleaned(before[|before| - 1]) == Cleaned(subs[n - 2]) != Cleaned(subs[n - 1]);
        SnocNoRepeat(before, subs[n - 1]);
      }
    }
  }

  /** Appending an entry whose cleaned text differs from the last one keeps consecutive texts distinct. */
  lemma SnocNoRepeat(before: seq<Entry>, x: Entry)
    requires NoRepeat(before)
    requires before != [] ==> Cleaned(x) != Cleaned(before[|before| - 1])
    ensures NoRepeat(before + [x])
  {
    var kept := before + [x];
    forall i | 0 < i < |kept| ensures Cleaned(kept[i]) != Cleaned(kept[i - 1]) {
      if i < |before| {
        assert kept[i] == before[i] && kept[i - 1] == before[i - 1];
      } else {
        assert kept[i - 1] == before[|before| - 1];
      }
    }
  }

  /** Only repetitions are dropped: every entry's cleaned text is written by some line. */
  lemma {:induction false} KeptCovers(subs: seq<Entry>)
    ensures forall k :: 0 <= k < |subs| ==> exists i :: 0 <= i < |Kept(subs)| && Cleaned(Kept(subs)[i]) == Cleaned(subs[k])
  {
    var n := |subs|;
    if n > 0 {
      var init := subs[..n - 1];
      KeptCovers(init);
      var before, kept := Kept(init), Kept(subs);
      KeptNext(subs, n - 1);
      WholePrefix(subs);
      assert before <= kept;
      forall k | 0 <= k < n ensures exists i :: 0 <= i < |kept| && Cleaned(kept[i]) == Cleaned(subs[k]) {
        if k < n - 1 {
          assert init[k] == subs[k];
          WrittenInPrefix(before, kept, Cleaned(subs[k]));
        } else {
          KeptEnds(subs);
        }
      }
    }
  }

  /** A text written among the first lines is written among all of them. */
  lemma WrittenInPrefix(before: seq<Entry>, kept: seq<Entry>, t: string)
    requires before <= kept
    requires exists i :: 0 <= i < |before| && Cleaned(before[i]) == t
    ensures exists i :: 0 <= i < |kept| && Cleaned(kept[i]) == t
  {
    var i :| 0 <= i < |before| && Cleaned(before[i]) == t;
    assert kept[i] == before[i];
  }

  /** No entry repeats the cleaned text of the one before it. */
  predicate NoRepeat(subs: seq<Entry>) {
    forall k :: 0 < k < |subs| ==> Cleaned(subs[k]) != Cleaned(subs[k - 1])
  }

  /** Nothing is dropped exactly when no entry repeats the cleaned text of the one before it. */
  lemma KeptAll(subs: seq<Entry>)
    ensures Kept(subs) == subs <==> NoRepeat(subs)
  {
    if NoRepeat(subs) {
      NothingDropped(subs);
    }
    KeptNoRepeat(subs);
  }

  lemma {:induction false} NothingDropped(subs: seq<Entry>)
    requires NoRepeat(subs)
    ensures Kept(subs) == subs
  {
    var n := |subs|;
    if n > 0 {
      var init := subs[..n - 1];
      NoRepeatInit(subs);
      NothingDropped(init);
      assert Fresh(subs, n - 1);
      Snoc(subs);
    }
  }

  lemma NoRepeatInit(subs: seq<Entry>)
    requires |subs| > 0 && NoRepeat(subs)
    ensures NoRepeat(subs[..|subs| - 1])
  {
    var init := subs[..|subs| - 1];
    forall k | 0 < k < |init| ensures Cleaned(init[k]) != Cleaned(init[k - 1]) {
      assert init[k] == subs[k] && init[k - 1] == subs[k - 1];
    }
  }

  /** The nine fields in front of the text of an event line. */
  function EventFields(e: Entry, styleName: string): seq<string> {
    ["Dialogue: 1", e.startTime, e.endTime, styleName, "", "0", "0", "0", ""]
  }

  /**
   * The fields of an event line, cut at its commas: the layer marker, start,
   * end, style, an empty name, three zero margins, an empty effect, then the
   * text, which may hold commas of its own.
   */
  lemma DialogueFields(e: Entry, styleName: string)
    requires CommaFreeTimes(e) && ',' !in styleName
    ensures var fields := Split(DialogueLine(e, styleName), ",");
            && |fields| >= 10
            && fields[..9] == EventFields(e, styleName)
            && Join(fields[9..], ",") == Cleaned(e)
  {
    var text := Cleaned(e);
    var fixed := EventFields(e, styleName);
    DialogueLineJoined(e.startTime, e.endTime, styleName, text);
    assert fixed + [text] == ["Dialogue: 1", e.startTime, e.endTime, styleName, "", "0", "0", "0", "", text];
    SplitJoinFront(fixed, text, ',');
    FrontRest(fixed, Split(text, ","));
    JoinSplit(text, ",");
  }

  /** An event line is its ten fields joined by commas. */
  lemma DialogueLineJoined(start: string, end: string, style: string, text: string)
    ensures "Dialogue: 1," + start + "," + end + "," + style + ",,0,0,0,," + text
            == Join(["Dialogue: 1", start, end, style, "", "0", "0", "0", "", text], ",")
  {
    var f := ["Dialogue: 1", start, end, style, "", "0", "0", "0", "", text];
    var j4 := Join(f[4..], ",");
    assert f[4..] == ["", "0", "0", "0", "", text];
    MarginsJoined(text);
    var j3 := Join(f[3..], ",");
    assert j3 == style + "," + j4;
    var j2 := Join(f[2..], ",");
    assert j2 == end + "," + j3;
    var j1 := Join(f[1..], ",");
    assert j1 == start + "," + j2;
    assert Join(f, ",") == "Dialogue: 1" + "," + j1;
  }

  /** The empty name, the three margins and the empty effect, joined in front of the text. */
  lemma MarginsJoined(text: string)
    ensures Join(["", "0", "0", "0", "", text], ",") == ",0,0,0,," + text
  {
    var f := ["", "0", "0", "0", "", text];
    assert f[4..] == ["", text] && f[4..][1..] == [text];
    assert Join([text], ",") == text;
    var j4 := Join(f[4..], ",");
    assert j4 == "" + "," + text;
    var j3 := Join(f[3..], ",");
    assert j3 == "0" + "," + j4;
    var j2 := Join(f[2..], ",");
    assert j2 == "0" + "," + j3;
    var j1 := Join(f[1..], ",");
    assert j1 == "0" + "," + j2;
    assert Join(f, ",") == "" + "," + j1;
  }

  /** Every line the script writes for a parsed file has the ten event fields, for a style without commas. */
  lemma ParsedDialogueFields(content: string, styleName: string)
    requires ',' !in styleName
    ensures forall i :: 0 <= i < |Dialogues(Parsed(content), styleName)| ==>
              var fields := Split(Dialogues(Parsed(content), styleName)[i], ",");
              |fields| >= 10 && fields[..9] == EventFields(Kept(Parsed(content))[i], styleName)
              && Join(fields[9..], ",") == Cleaned(Kept(Parsed(content))[i])
  {
    var kept := Kept(Parsed(content));
    KeptFrom(Parsed(content));
    forall i | 0 <= i < |kept|
      ensures var fields := Split(DialogueLine(kept[i], styleName), ",");
              |fields| >= 10 && fields[..9] == EventFields(kept[i], styleName)
              && Join(fields[9..], ",") == Cleaned(kept[i])
    {
      assert kept[i] in Parsed(content);
      DialogueFields(kept[i], styleName);
    }
  }
}
