/**
 * The wire format between a batch and the translation service.  Each entry
 * of a batch travels as `[START_SEG{p}]\n{text}\n[END_SEG{p}]`, where `p`
 * is its 1-based position within the batch; units are separated by a blank
 * line.  The reply is scanned for `\[START_SEG(\d+)\](.*?)\[END_SEG\1\]`
 * (with `.` matching line breaks) and the matches become a map from
 * position to stripped text.
 */
module Markers {
  import opened Text

  const StartTag := "[START_SEG"
  const EndTag := "[END_SEG"

  /** The close marker that a start marker with digits `d` waits for. */
  function Closer(d: string): string {
    EndTag + d + "]"
  }

  /** The unit that carries `text` at position `p`: `[START_SEG{p}]\n{text}\n[END_SEG{p}]`. */
  function Unit(p: nat, text: string): string {
    StartTag + NatToString(p) + "]" + Inner(text) + Closer(NatToString(p))
  }

  /** A text as it stands between the two markers of its unit. */
  function Inner(text: string): string {
    "\n" + text + "\n"
  }

  /** The units of a batch, numbered from `first`. */
  function Units(texts: seq<string>, first: nat): (us: seq<string>)
    ensures |us| == |texts|
  {
    seq(|texts|, i requires 0 <= i < |texts| => Unit(first + i, texts[i]))
  }

  /** The user message for a batch: its units numbered from 1, one blank line apart; every entry's unit is in it. */
  function Payload(texts: seq<string>): (r: string)
    ensures forall i :: 0 <= i < |texts| ==> Contains(r, Units(texts, 1)[i])
  {
    var us := Units(texts, 1);
    assert forall i :: 0 <= i < |us| ==> Contains(Join(us, "\n\n"), us[i]) by {
      forall i | 0 <= i < |us| ensures Contains(Join(us, "\n\n"), us[i]) {
        JoinContains(us, "\n\n", i);
      }
    }
    Join(us, "\n\n")
  }

  /** One match of the marker pattern: the digits, the text between the markers, and the length matched. */
  datatype SegMatch = SegMatch(number: string, inner: string, length: nat)

  /**
   * The match of the marker pattern at the start of `s`, if there is one.
   * `\d+` takes every digit (a `]` must follow, and no digit is a `]`), and
   * the lazy `.*?` stops at the first close marker carrying the same digits.
   */
  function MatchAt(s: string): (r: Option<SegMatch>)
    ensures r.Some? ==> 0 < r.value.length <= |s| && IsDigits(r.value.number)
  {
    if !(StartTag <= s) then None else MatchTagged(s[|StartTag|..])
  }

  /** The rest of the pattern after the open tag: `\d+` and the `]` that closes the tag. */
  function MatchTagged(rest: string): (r: Option<SegMatch>)
    ensures r.Some? ==> 0 < r.value.length <= |StartTag| + |rest| && IsDigits(r.value.number)
  {
    var d := DigitPrefix(rest);
    if d == [] || |rest| == |d| || rest[|d|] != ']' then None
    else MatchBody(d, rest[|d| + 1..])
  }

  /** The lazy `.*?` up to the first close marker carrying the digits `d`. */
  function MatchBody(d: string, body: string): (r: Option<SegMatch>)
    requires IsDigits(d)
    ensures r.Some? ==> r.value.number == d && |StartTag| + |d| + 1 < r.value.length <= |StartTag| + |d| + 1 + |body|
  {
    match IndexOf(body, Closer(d))
    case None => None
    case Some(j) => Some(SegMatch(d, body[..j], |StartTag| + |d| + 1 + j + |Closer(d)|))
  }

  /** `re.findall`: every match, leftmost first, each search resuming where the last match ended. */
  function FindAll(s: string): (ms: seq<(string, string)>)
    ensures forall k :: 0 <= k < |ms| ==> IsDigits(ms[k].0)
    decreases |s|
  {
    if s == [] then []
    else match MatchAt(s)
      case Some(m) => [(m.number, m.inner)] + FindAll(s[m.length..])
      case None => FindAll(s[1..])
  }

  /** `int(num)` for the digits of a match. */
  function Key(m: (string, string)): nat
    requires IsDigits(m.0)
  {
    DigitsValue(m.0)
  }

  /** The dictionary comprehension `{int(num): text.strip() for num, text in matches}`. */
  function Translations(ms: seq<(string, string)>): (dict: map<nat, string>)
    requires forall k :: 0 <= k < |ms| ==> IsDigits(ms[k].0)
  {
    if ms == [] then map[]
    else
      var last := ms[|ms| - 1];
      assert IsDigits(last.0);
      Translations(ms[..|ms| - 1])[Key(last) := Strip(last.1)]
  }

  /** The decoder: the translations found in a reply; a reply without an open marker has none. */
  function Decode(reply: string): (dict: map<nat, string>)
    ensures !Contains(reply, StartTag) ==> dict == map[]
  {
    var ms := FindAll(reply);
    assert !Contains(reply, StartTag) ==> ms == [] by {
      if !Contains(reply, StartTag) {
        NoMarkerNoMatch(reply);
      }
    }
    Translations(ms)
  }

  /** Where no open marker occurs, the pattern matches nowhere. */
  lemma {:induction false} NoMarkerNoMatch(s: string)
    requires !Contains(s, StartTag)
    ensures FindAll(s) == []
    decreases |s|
  {
    if s != [] {
      assert !(StartTag <= s) by {
        if StartTag <= s {
          assert s[0..|StartTag|] == StartTag;
          assert OccursAt(s, StartTag, 0);
        }
      }
      forall j | 0 <= j <= |s[1..]| ensures !OccursAt(s[1..], StartTag, j) {
        if OccursAt(s[1..], StartTag, j) {
          assert s[1..][j..j + |StartTag|] == s[j + 1..j + 1 + |StartTag|];
          assert OccursAt(s, StartTag, j + 1);
        }
      }
      NoMarkerNoMatch(s[1..]);
    }
  }

  /** A number is a key of the dictionary exactly when some match carries it. */
  lemma TranslationsKeys(ms: seq<(string, string)>)
    requires forall k :: 0 <= k < |ms| ==> IsDigits(ms[k].0)
    ensures forall k :: 0 <= k < |ms| ==> Key(ms[k]) in Translations(ms)
    ensures forall key :: key in Translations(ms) ==> exists k :: 0 <= k < |ms| && Key(ms[k]) == key
  {
    KeysPresent(ms);
    KeysFound(ms);
  }

  lemma {:induction false} KeysPresent(ms: seq<(string, string)>)
    requires forall k :: 0 <= k < |ms| ==> IsDigits(ms[k].0)
    ensures forall k :: 0 <= k < |ms| ==> Key(ms[k]) in Translations(ms)
  {
    if ms != [] {
      var init := ms[..|ms| - 1];
      InitAt(ms);
      KeysPresent(init);
      TranslationsSnoc(ms);
    }
  }

  lemma {:induction false} KeysFound(ms: seq<(string, string)>)
    requires forall k :: 0 <= k < |ms| ==> IsDigits(ms[k].0)
    ensures forall key :: key in Translations(ms) ==> exists k :: 0 <= k < |ms| && Key(ms[k]) == key
  {
    if ms != [] {
      var init := ms[..|ms| - 1];
      InitAt(ms);
      KeysFound(init);
      var d := Translations(init);
      TranslationsSnoc(ms);
      forall key | key in Translations(ms) ensures exists k :: 0 <= k < |ms| && Key(ms[k]) == key {
        if key != Key(ms[|ms| - 1]) {
          assert key in d;
          var k :| 0 <= k < |init| && Key(init[k]) == key;
          assert Key(ms[k]) == key;
        }
      }
    }
  }

  /** One match more: the dictionary of the others, updated with the last one's number and stripped text. */
  lemma TranslationsSnoc(ms: seq<(string, string)>)
    requires ms != []
    requires forall k :: 0 <= k < |ms| ==> IsDigits(ms[k].0)
    ensures Translations(ms) == Translations(ms[..|ms| - 1])[Key(ms[|ms| - 1]) := Strip(ms[|ms| - 1].1)]
  { }

  /** Of several matches with the same number, the last one wins. */
  lemma {:induction false} TranslationsLastWins(ms: seq<(string, string)>, k: nat)
    requires forall i :: 0 <= i < |ms| ==> IsDigits(ms[i].0)
    requires k < |ms|
    requires forall i :: k < i < |ms| ==> Key(ms[i]) != Key(ms[k])
    ensures Key(ms[k]) in Translations(ms)
    ensures Translations(ms)[Key(ms[k])] == Strip(ms[k].1)
  {
    if k < |ms| - 1 {
      var init := ms[..|ms| - 1];
      assert init[k] == ms[k];
      assert forall i :: k < i < |init| ==> init[i] == ms[i];
      TranslationsLastWins(init, k);
    }
  }

  /** Matches numbered 1, 2, ... in order give the map from each number to its stripped text. */
  lemma TranslationsNumbered(ms: seq<(string, string)>)
    requires forall i :: 0 <= i < |ms| ==> IsDigits(ms[i].0) && Key(ms[i]) == i + 1
    ensures forall p :: p in Translations(ms) <==> 1 <= p <= |ms|
    ensures forall i :: 0 <= i < |ms| ==> Translations(ms)[i + 1] == Strip(ms[i].1)
  {
    NumberedKeys(ms);
    forall i | 0 <= i < |ms| {
      NumberedValue(ms, i);
    }
  }

  lemma {:induction false} NumberedKeys(ms: seq<(string, string)>)
    requires forall i :: 0 <= i < |ms| ==> IsDigits(ms[i].0) && Key(ms[i]) == i + 1
    ensures forall p :: p in Translations(ms) <==> 1 <= p <= |ms|
  {
    if ms != [] {
      var init := ms[..|ms| - 1];
      InitAt(ms);
      NumberedKeys(init);
      var d := Translations(init);
      TranslationsSnoc(ms);
      assert Key(ms[|ms| - 1]) == |ms|;
      forall p ensures p in Translations(ms) <==> 1 <= p <= |ms| {
        if p != |ms| {
          assert p in Translations(ms) <==> p in d;
        }
      }
    }
  }

  /** Match `i` of matches numbered 1, 2, ... is the one the dictionary keeps for `i + 1`. */
  lemma {:induction false} NumberedValue(ms: seq<(string, string)>, i: nat)
    requires forall i :: 0 <= i < |ms| ==> IsDigits(ms[i].0) && Key(ms[i]) == i + 1
    requires i < |ms|
    ensures i + 1 in Translations(ms) && Translations(ms)[i + 1] == Strip(ms[i].1)
  {
    // the numbers are distinct, so no later match overrides match i
    assert forall j :: i < j < |ms| ==> Key(ms[j]) == j + 1 != i + 1;
    TranslationsLastWins(ms, i);
  }

  /** Inside a unit whose text has no `[END_SEG`, the first close marker is the unit's own. */
  lemma NoEarlyCloser(t: string, d: string, tail: string)
    requires !Contains(t, EndTag)
    ensures forall j :: 0 <= j < |t| + 2 ==> !OccursAt(Inner(t) + Closer(d) + tail, Closer(d), j)
  {
    var c := Closer(d);
    var body := Inner(t) + c + tail;
    assert forall k :: 0 <= k < |EndTag| ==> c[k] == EndTag[k] && c[k] != '\n';
    forall j | 0 <= j < |t| + 2 ensures !OccursAt(body, c, j) {
      if j + |c| <= |body| {
        assert body[j..j + |c|][0] == body[j];
        if j == 0 || j == |t| + 1 {
          assert body[j] == '\n';
        } else if j - 1 + |EndTag| <= |t| {
          assert !OccursAt(t, EndTag, j - 1);
          var k :| 0 <= k < |EndTag| && t[j - 1 + k] != EndTag[k];
          assert body[j..j + |c|][k] == body[j + k] == t[j - 1 + k];
        } else {
          var k := |t| + 1 - j;
          assert body[j..j + |c|][k] == body[|t| + 1] == '\n';
        }
      }
    }
  }

  /** After a start marker with digits `d`, the match ends at the first close marker for `d`. */
  lemma {:induction false} MatchAtStart(d: string, body: string, j: nat, s: string, inner: string, n: nat)
    requires IsDigits(d)
    requires IndexOf(body, Closer(d)) == Some(j) && body[..j] == inner
    requires s == StartTag + (d + ("]" + body))
    requires n == |StartTag| + |d| + 1 + j + |Closer(d)|
    ensures MatchAt(s) == Some(SegMatch(d, inner, n))
  {
    TagStep(s, d + ("]" + body));
    DigitsStep(d, body);
    BodyStep(d, body, j, inner, n);
  }

  /** The body match ends at the first close marker. */
  lemma BodyStep(d: string, body: string, j: nat, inner: string, n: nat)
    requires IsDigits(d)
    requires IndexOf(body, Closer(d)) == Some(j) && body[..j] == inner
    requires n == |StartTag| + |d| + 1 + j + |Closer(d)|
    ensures MatchBody(d, body) == Some(SegMatch(d, inner, n))
  {
  }

  /** Past the open tag, the match is decided by the rest. */
  lemma TagStep(s: string, rest: string)
    requires s == StartTag + rest
    ensures MatchAt(s) == MatchTagged(rest)
  {
    FrontRest(StartTag, rest);
  }

  /** Past the digits and their `]`, the match is decided by the body. */
  lemma DigitsStep(d: string, body: string)
    requires IsDigits(d)
    ensures MatchTagged(d + ("]" + body)) == MatchBody(d, body)
  {
    var rest := d + ("]" + body);
    DigitPrefixOf(d, "]" + body);
    FrontRest(d, "]" + body);
    FrontRest("]", body);
    assert DigitPrefix(rest) == d && rest[|d|] == ']' && rest[|d| + 1..] == body;
  }

  /** A unit is matched whole: its own number, and its text with the line breaks around it. */
  lemma {:induction false} UnitMatch(p: nat, t: string, tail: string)
    requires !Contains(t, EndTag)
    ensures MatchAt(Unit(p, t) + tail) == Some(SegMatch(NatToString(p), Inner(t), |Unit(p, t)|))
  {
    var d := NatToString(p);
    DigitsUnitMatch(d, t, tail);
  }

  /** The same, for any digit string in the markers. */
  lemma {:induction false} DigitsUnitMatch(d: string, t: string, tail: string)
    requires IsDigits(d) && !Contains(t, EndTag)
    ensures var u := StartTag + d + "]" + Inner(t) + Closer(d);
            MatchAt(u + tail) == Some(SegMatch(d, Inner(t), |u|))
  {
    var u := StartTag + d + "]" + Inner(t) + Closer(d);
    var body := Inner(t) + Closer(d) + tail;
    Associate(StartTag, d, Inner(t), Closer(d), tail);
    CloserFound(t, d, tail);
    MatchAtStart(d, body, |Inner(t)|, u + tail, Inner(t), |u|);
  }

  /** Regrouping a marked-up unit and its tail around the text after the open marker. */
  lemma Associate(tag: string, d: string, inner: string, closer: string, tail: string)
    ensures tag + d + "]" + inner + closer + tail == tag + (d + ("]" + (inner + closer + tail)))
  {
  }

  /** In the body of a unit the first close marker for its digits follows the text directly. */
  lemma {:induction false} CloserFound(t: string, d: string, tail: string)
    requires !Contains(t, EndTag)
    ensures var body := Inner(t) + Closer(d) + tail;
            IndexOf(body, Closer(d)) == Some(|Inner(t)|) && body[..|Inner(t)|] == Inner(t)
  {
    var body := Inner(t) + Closer(d) + tail;
    NoEarlyCloser(t, d, tail);
    assert OccursAt(body, Closer(d), |t| + 2) by {
      assert body[|t| + 2..|t| + 2 + |Closer(d)|] == Closer(d);
    }
  }

  /** Scanning a unit and what follows yields the unit's match, then the matches of what follows. */
  lemma {:induction false} FindAllUnit(p: nat, t: string, tail: string)
    requires !Contains(t, EndTag)
    ensures FindAll(Unit(p, t) + tail) == [(NatToString(p), Inner(t))] + FindAll(tail)
  {
    UnitMatch(p, t, tail);
    assert (Unit(p, t) + tail)[|Unit(p, t)|..] == tail;
  }

  /** The blank line between two units yields no match. */
  lemma FindAllBlankLine(tail: string)
    ensures FindAll("\n\n" + tail) == FindAll(tail)
  {
    assert ("\n\n" + tail)[1..] == "\n" + tail;
    assert ("\n" + tail)[1..] == tail;
    assert StartTag[0] == '[';
    assert ("\n\n" + tail)[0] == '\n' && ("\n" + tail)[0] == '\n';
  }

  /** What scanning the units numbered from `first` should find: each number with its text. */
  function Expected(texts: seq<string>, first: nat): (ms: seq<(string, string)>)
    ensures |ms| == |texts|
  {
    seq(|texts|, i requires 0 <= i < |texts| => (NatToString(first + i), Inner(texts[i])))
  }

  lemma UnitsCons(texts: seq<string>, first: nat)
    requires |texts| >= 1
    ensures Units(texts, first) == [Unit(first, texts[0])] + Units(texts[1..], first + 1)
  {
    var us := Units(texts, first);
    var vs := [Unit(first, texts[0])] + Units(texts[1..], first + 1);
    forall i | 0 <= i < |us| ensures us[i] == vs[i] {
      if i > 0 {
        assert texts[1..][i - 1] == texts[i];
      }
    }
  }

  lemma ExpectedCons(texts: seq<string>, first: nat)
    requires |texts| >= 1
    ensures Expected(texts, first) == [(NatToString(first), Inner(texts[0]))] + Expected(texts[1..], first + 1)
  {
    var es := Expected(texts, first);
    var fs := [(NatToString(first), Inner(texts[0]))] + Expected(texts[1..], first + 1);
    forall i | 0 <= i < |es| ensures es[i] == fs[i] {
      if i > 0 {
        assert texts[1..][i - 1] == texts[i];
      }
    }
  }

  /** Scanning a run of units numbered from `first` finds each unit once, in order. */
  lemma {:induction false} FindAllUnits(texts: seq<string>, first: nat)
    requires forall i :: 0 <= i < |texts| ==> !Contains(texts[i], EndTag)
    ensures FindAll(Join(Units(texts, first), "\n\n")) == Expected(texts, first)
  {
    if |texts| >= 1 {
      UnitsCons(texts, first);
      ExpectedCons(texts, first);
    }
    if |texts| == 1 {
      FindAllUnit(first, texts[0], "");
      assert Unit(first, texts[0]) + "" == Unit(first, texts[0]);
    } else if |texts| > 1 {
      var u := Unit(first, texts[0]);
      var us := Units(texts, first);
      var rest := Join(Units(texts[1..], first + 1), "\n\n");
      FindAllUnits(texts[1..], first + 1);
      FindAllBlankLine(rest);
      FindAllUnit(first, texts[0], "\n\n" + rest);
      assert us[1..] == Units(texts[1..], first + 1);
      assert Join(us, "\n\n") == u + ("\n\n" + rest);
    }
  }

  /** The line breaks around a unit's text disappear when it is stripped. */
  lemma StripInner(t: string)
    ensures Strip(Inner(t)) == Strip(t)
  {
    StripPadded(t, "\n", "\n");
  }

  /** The expected matches carry the numbers 1, 2, ... */
  lemma ExpectedKeys(texts: seq<string>)
    ensures forall i :: 0 <= i < |texts| ==> IsDigits(Expected(texts, 1)[i].0)
    ensures forall i :: 0 <= i < |texts| ==> Key(Expected(texts, 1)[i]) == i + 1
    ensures forall i :: 0 <= i < |texts| ==> Strip(Expected(texts, 1)[i].1) == Strip(texts[i])
  {
    var es := Expected(texts, 1);
    forall i | 0 <= i < |texts|
      ensures IsDigits(es[i].0) && Key(es[i]) == i + 1 && Strip(es[i].1) == Strip(texts[i])
    {
      assert es[i] == (NatToString(i + 1), Inner(texts[i]));
      NumberKey(i + 1, Inner(texts[i]));
      StripInner(texts[i]);
    }
  }

  /** The digits written for a number read back as that number. */
  lemma NumberKey(n: nat, t: string)
    ensures IsDigits(NatToString(n)) && Key((NatToString(n), t)) == n
  {
    NatToStringValue(n);
  }

  /**
   * Echoing a payload back decodes to every position's stripped text,
   * provided no text contains the close-marker prefix `[END_SEG`.
   */
  lemma DecodePayload(texts: seq<string>)
    requires forall i :: 0 <= i < |texts| ==> !Contains(texts[i], EndTag)
    ensures forall p :: p in Decode(Payload(texts)) <==> 1 <= p <= |texts|
    ensures forall i :: 0 <= i < |texts| ==> Decode(Payload(texts))[i + 1] == Strip(texts[i])
  {
    FindAllUnits(texts, 1);
    ExpectedKeys(texts);
    TranslationsNumbered(Expected(texts, 1));
  }
}
