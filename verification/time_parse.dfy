/** `parseTime` of Player.js: a cue's `data-start`/`data-end` attribute to seconds.

    The code hands the whole array of `:`-separated parts to `parseInt` and `parseFloat`.
    JavaScript turns the array into its comma-joined string, so both calls read only the
    leading number of the FIRST part. `ParseTime` models that; `ParseTimeIntended` is the
    evident intent (hours, minutes, seconds read from their own parts). */
module TimeParse {
  import opened Wrappers
  import opened Text
  import opened Decimal

  /** The longest prefix of `s` made of decimal digits. */
  function DigitRun(s: string): (d: string)
    ensures |d| <= |s| && d == s[..|d|] && AllDigits(d)
    ensures |d| < |s| ==> !IsDigit(s[|d|])
  {
    if s != [] && IsDigit(s[0]) then [s[0]] + DigitRun(s[1..]) else []
  }

  /** `parseInt(s, 10)`, with `None` for NaN (no leading digit). */
  function ParseIntPrefix(s: string): Option<nat>
  {
    var d := DigitRun(s);
    if d == [] then None else Some(DigitsValue(d))
  }

  /** `parseInt` gives NaN exactly when the string does not start with a digit. */
  lemma ParseIntNaN(s: string)
    ensures ParseIntPrefix(s).None? <==> (s == [] || !IsDigit(s[0]))
  {
  }

  /** The digits after a leading `.` of `rest`, or nothing. */
  function FractionDigits(rest: string): (f: string)
    ensures AllDigits(f)
  {
    if rest != [] && rest[0] == '.' then DigitRun(rest[1..]) else []
  }

  /** The value of the digits after a decimal point: `0.d1d2...`. */
  function FractionValue(f: string): (v: real)
    requires AllDigits(f)
    ensures 0.0 <= v
  {
    if f == [] then 0.0 else ((f[0] as int - '0' as int) as real + FractionValue(f[1..])) / 10.0
  }

  /** `parseFloat(s)` on a leading `digits[.digits]` or `.digits`, with `None` for NaN. */
  function ParseFloatPrefix(s: string): (r: Option<real>)
    ensures r.Some? ==> r.value >= 0.0
  {
    var whole := DigitRun(s);
    var frac := FractionDigits(s[|whole|..]);
    if whole == [] && frac == [] then None
    else Some(DigitsValue(whole) as real + FractionValue(frac))
  }

  /** `parseTime(timeStr)` as written; `None` is an absent attribute (`undefined`). */
  function ParseTime(timeStr: Option<string>): (seconds: real)
    ensures seconds >= 0.0
    ensures timeStr.None? || timeStr.value == "" ==> seconds == 0.0
  {
    if timeStr.None? || timeStr.value == "" then 0.0
    else
      var parts := Split(timeStr.value, ':');
      var joined := Join(parts, ',');
      var whole := ParseIntPrefix(joined).GetOr(0);
      var decimal := ParseFloatPrefix(joined).GetOr(0.0);
      if |parts| == 3 then (whole * 3600 + whole * 60) as real + decimal
      else if |parts| == 2 then (whole * 60) as real + decimal
      else if |parts| == 1 then decimal
      else 0.0
  }

  /** A comma ends both number prefixes, so whatever follows it is never read. */
  lemma PrefixesStopAtComma(x: string, tail: string)
    requires tail == [] || tail[0] == ','
    ensures ParseIntPrefix(x + tail) == ParseIntPrefix(x)
    ensures ParseFloatPrefix(x + tail) == ParseFloatPrefix(x)
  {
    DigitRunStopsAtComma(x, tail);
    var whole := DigitRun(x);
    assert (x + tail)[|whole|..] == x[|whole|..] + tail;
    FractionStopsAtComma(x[|whole|..], tail);
  }

  lemma FractionStopsAtComma(rest: string, tail: string)
    requires tail == [] || tail[0] == ','
    ensures FractionDigits(rest + tail) == FractionDigits(rest)
  {
    if rest == [] {
      assert rest + tail == tail;
    } else if rest[0] == '.' {
      assert (rest + tail)[1..] == rest[1..] + tail;
      DigitRunStopsAtComma(rest[1..], tail);
    }
  }

  lemma {:induction false} DigitRunStopsAtComma(x: string, tail: string)
    requires tail == [] || tail[0] == ','
    ensures DigitRun(x + tail) == DigitRun(x)
  {
    if x == [] {
      assert x + tail == tail;
    } else {
      assert (x + tail)[0] == x[0] && (x + tail)[1..] == x[1..] + tail;
      DigitRunStopsAtComma(x[1..], tail);
    }
  }

  /** What `ParseTime` computes, stated on the first `:`-separated component alone: with
      `a` its leading integer and `f` its leading decimal (NaN read as 0), the result is
      `f`, `60a + f` or `3600a + 60a + f` for one, two or three parts, and 0 for more. */
  lemma ParseTimeReadsFirstComponent(s: string)
    requires s != ""
    ensures var parts := Split(s, ':');
            var a := ParseIntPrefix(parts[0]).GetOr(0);
            var f := ParseFloatPrefix(parts[0]).GetOr(0.0);
            ParseTime(Some(s)) == (if |parts| == 3 then (3600 * a + 60 * a) as real + f
                                   else if |parts| == 2 then (60 * a) as real + f
                                   else if |parts| == 1 then f
                                   else 0.0)
  {
    var parts := Split(s, ':');
    if |parts| == 1 {
      assert Join(parts, ',') == parts[0];
      PrefixesStopAtComma(parts[0], []);
      assert parts[0] + [] == parts[0];
    } else {
      assert Join(parts, ',') == parts[0] + ([','] + Join(parts[1..], ','));
      PrefixesStopAtComma(parts[0], [','] + Join(parts[1..], ','));
    }
  }

  /** A first component made only of zeros (the hour field `00` of a WebVTT timestamp such as
      `00:01:05.000`) makes the whole time 0, whatever the minutes and seconds say. */
  lemma ZeroFirstComponentReadsAsZero(s: string)
    requires s != ""
    requires var first := Split(s, ':')[0]; first != [] && forall i :: 0 <= i < |first| ==> first[i] == '0'
    ensures ParseTime(Some(s)) == 0.0
  {
    ParseTimeReadsFirstComponent(s);
    var first := Split(s, ':')[0];
    AllZerosRun(first);
    assert DigitRun(first) == first;
    ZerosValueOf(first);
  }

  lemma {:induction false} AllZerosRun(z: string)
    requires forall i :: 0 <= i < |z| ==> z[i] == '0'
    ensures DigitRun(z) == z
  {
    if z != [] {
      AllZerosRun(z[1..]);
      assert [z[0]] + z[1..] == z;
    }
  }

  lemma {:induction false} ZerosValueOf(z: string)
    requires forall i :: 0 <= i < |z| ==> z[i] == '0'
    ensures AllDigits(z) && DigitsValue(z) == 0
  {
    if z != [] {
      ZerosValueOf(z[..|z| - 1]);
    }
  }

  /** The evident intent of `parseTime`: each of hours, minutes and seconds read from its own part. */
  function ParseTimeIntended(timeStr: Option<string>): (seconds: real)
    ensures seconds >= 0.0
  {
    if timeStr.None? || timeStr.value == "" then 0.0
    else
      var parts := Split(timeStr.value, ':');
      if |parts| == 3 then
        (ParseIntPrefix(parts[0]).GetOr(0) * 3600 + ParseIntPrefix(parts[1]).GetOr(0) * 60) as real
        + ParseFloatPrefix(parts[2]).GetOr(0.0)
      else if |parts| == 2 then
        (ParseIntPrefix(parts[0]).GetOr(0) * 60) as real + ParseFloatPrefix(parts[1]).GetOr(0.0)
      else if |parts| == 1 then ParseFloatPrefix(parts[0]).GetOr(0.0)
      else 0.0
  }

  lemma {:induction false} DigitRunOfDigits(d: string, tail: string)
    requires AllDigits(d)
    requires tail == [] || !IsDigit(tail[0])
    ensures DigitRun(d + tail) == d
  {
    if d == [] {
      assert d + tail == tail;
    } else {
      assert (d + tail)[0] == d[0] && (d + tail)[1..] == d[1..] + tail;
      DigitRunOfDigits(d[1..], tail);
      assert [d[0]] + d[1..] == d;
    }
  }

  lemma IntPrefixOfDigits(d: string)
    requires d != [] && AllDigits(d)
    ensures ParseIntPrefix(d) == Some(DigitsValue(d))
  {
    DigitRunOfDigits(d, []);
    assert d + [] == d;
  }

  lemma FloatPrefixOfDecimal(w: string, f: string)
    requires w != [] && AllDigits(w) && AllDigits(f)
    ensures ParseFloatPrefix(w + ['.'] + f)
         == Some(DigitsValue(w) as real + FractionValue(f))
  {
    var s := w + ['.'] + f;
    var tail := ['.'] + f;
    assert s == w + tail;
    DigitRunOfDigits(w, tail);
    assert A: DigitRun(s) == w;
    assert s[|w|..] == tail;
    assert tail[1..] == f;
    DigitRunOfDigits(f, []);
    assert f + [] == f;
    assert B: FractionDigits(s[|w|..]) == f;
    FloatPrefixFromParts(s, w, f);
  }

  lemma FloatPrefixFromParts(s: string, w: string, f: string)
    requires DigitRun(s) == w && w != [] && AllDigits(f)
    requires FractionDigits(s[|w|..]) == f
    ensures ParseFloatPrefix(s) == Some(DigitsValue(w) as real + FractionValue(f))
  {
  }

  /** A `h:m:r` text with colon-free fields splits into exactly those three fields. */
  lemma SplitThree(h: string, m: string, r: string)
    requires ':' !in h && ':' !in m && ':' !in r
    ensures Split(h + ":" + m + ":" + r, ':') == [h, m, r]
  {
    assert [h, m, r][1..] == [m, r] && [m, r][1..] == [r];
    assert Join([r], ':') == r;
    assert Join([m, r], ':') == m + [':'] + r;
    assert Join([h, m, r], ':') == h + [':'] + (m + [':'] + r);
    assert h + ":" + m + ":" + r == Join([h, m, r], ':');
    SplitJoin([h, m, r], ':');
  }

  lemma DigitsHaveNoColon(d: string)
    requires AllDigits(d)
    ensures ':' !in d && '.' !in d
  {
  }

  lemma IntendedOnThreeParts(s: string, p0: string, p1: string, p2: string)
    requires s != "" && Split(s, ':') == [p0, p1, p2]
    ensures ParseTimeIntended(Some(s))
         == (ParseIntPrefix(p0).GetOr(0) * 3600 + ParseIntPrefix(p1).GetOr(0) * 60) as real
            + ParseFloatPrefix(p2).GetOr(0.0)
  {
  }

  /** The intended parser reads `h:m:s.f` as 3600h + 60m + s + 0.f. */
  lemma IntendedReadsEachComponent(h: string, m: string, sec: string, frac: string)
    requires h != [] && m != [] && sec != []
    requires AllDigits(h) && AllDigits(m) && AllDigits(sec) && AllDigits(frac)
    ensures ParseTimeIntended(Some(h + ":" + m + ":" + sec + "." + frac))
         == (DigitsValue(h) * 3600 + DigitsValue(m) * 60) as real
            + DigitsValue(sec) as real + FractionValue(frac)
  {
    var r := sec + "." + frac;
    var s := h + ":" + m + ":" + r;
    Regroup4(h + ":" + m + ":", sec, ".", frac);
    DigitsHaveNoColon(h);
    DigitsHaveNoColon(m);
    DigitsHaveNoColon(sec);
    DigitsHaveNoColon(frac);
    assert ':' !in r;
    SplitThree(h, m, r);
    IntendedOnThreeParts(s, h, m, r);
    IntPrefixOfDigits(h);
    IntPrefixOfDigits(m);
    FloatPrefixOfDecimal(sec, frac);
    assert r == sec + ['.'] + frac;
  }

  /** As written, the same `h:m:s.f` text reads as 3600h + 60h + h: minutes, seconds and
      fraction are never looked at. */
  lemma AsWrittenReadsHoursThrice(h: string, m: string, sec: string, frac: string)
    requires h != [] && m != [] && sec != []
    requires AllDigits(h) && AllDigits(m) && AllDigits(sec) && AllDigits(frac)
    ensures ParseTime(Some(h + ":" + m + ":" + sec + "." + frac)) == (DigitsValue(h) * 3661) as real
  {
    var r := sec + "." + frac;
    var s := h + ":" + m + ":" + r;
    Regroup4(h + ":" + m + ":", sec, ".", frac);
    DigitsHaveNoColon(h);
    DigitsHaveNoColon(m);
    DigitsHaveNoColon(sec);
    DigitsHaveNoColon(frac);
    assert ':' !in r;
    SplitThree(h, m, r);
    ParseTimeReadsFirstComponent(s);
    IntPrefixOfDigits(h);
    FloatPrefixOfDecimal(h, []);
    DigitRunOfDigits(h, []);
    assert h + [] == h;
    assert FractionDigits(h[|h|..]) == [];
  }

  /** The input that shows the discrepancy: the code reads `01:02:03.5` as 3661 seconds ... */
  lemma ParseTimeMisreadsExample(s: string)
    requires s == "01:02:03.5"
    ensures ParseTime(Some(s)) == 3661.0
  {
    var h, m, sec, frac := "01", "02", "03", "5";
    assert s == h + ":" + m + ":" + sec + "." + frac;
    TwoDigitValue('0', '1');
    AsWrittenReadsHoursThrice(h, m, sec, frac);
  }

  /** ... where one hour, two minutes and 3.5 seconds are 3723.5 seconds. */
  lemma IntendedExample(s: string)
    requires s == "01:02:03.5"
    ensures ParseTimeIntended(Some(s)) == 3723.5
  {
    var h, m, sec, frac := "01", "02", "03", "5";
    assert s == h + ":" + m + ":" + sec + "." + frac;
    TwoDigitValue('0', '1');
    TwoDigitValue('0', '2');
    TwoDigitValue('0', '3');
    assert FractionValue(frac) == 0.5 by {
      assert frac[1..] == [];
    }
    IntendedReadsEachComponent(h, m, sec, frac);
  }

  lemma TwoDigitValue(a: char, b: char)
    requires IsDigit(a) && IsDigit(b)
    ensures DigitsValue([a, b]) == (a as int - '0' as int) * 10 + (b as int - '0' as int)
  {
    assert [a, b][..1] == [a];
    assert [a][..0] == [];
    assert DigitsValue([a]) == DigitsValue([]) * 10 + (a as int - '0' as int);
  }
}
