/** Character-level string operations shared by the player and the generators. */
module Text {

  /** `s.replace(c, r)` for a one-character pattern, in Python and in JavaScript (global form). */
  function ReplaceChar(s: string, c: char, r: string): (t: string)
    ensures c !in r ==> c !in t
  {
    if s == [] then [] else (if s[0] == c then r else [s[0]]) + ReplaceChar(s[1..], c, r)
  }

  /** Every character of the result comes from the input or from the replacement. */
  lemma {:induction false} ReplaceCharFrom(s: string, c: char, r: string)
    ensures forall x :: x in ReplaceChar(s, c, r) ==> x in s || x in r
  {
    if s != [] {
      ReplaceCharFrom(s[1..], c, r);
      var head := if s[0] == c then r else [s[0]];
      assert ReplaceChar(s, c, r) == head + ReplaceChar(s[1..], c, r);
      assert forall x :: x in s[1..] ==> x in s;
    }
  }

  lemma {:induction false} ReplaceCharAppend(a: string, b: string, c: char, r: string)
    ensures ReplaceChar(a + b, c, r) == ReplaceChar(a, c, r) + ReplaceChar(b, c, r)
  {
    if a == [] {
      assert a + b == b;
    } else {
      assert (a + b)[0] == a[0] && (a + b)[1..] == a[1..] + b;
      ReplaceCharAppend(a[1..], b, c, r);
    }
  }

  lemma {:induction false} ReplaceCharAbsent(s: string, c: char, r: string)
    requires c !in s
    ensures ReplaceChar(s, c, r) == s
  {
    if s != [] {
      ReplaceCharAbsent(s[1..], c, r);
    }
  }

  /** Number of occurrences of `c` in `s`. */
  function CountChar(s: string, c: char): (n: nat)
    ensures n <= |s|
  {
    if s == [] then 0 else (if s[0] == c then 1 else 0) + CountChar(s[1..], c)
  }

  /** A character count is zero exactly when the character is absent. */
  lemma {:induction false} CountCharZero(s: string, c: char)
    ensures CountChar(s, c) == 0 <==> c !in s
  {
    if s != [] {
      CountCharZero(s[1..], c);
      assert s == [s[0]] + s[1..];
    }
  }

  lemma {:induction false} CountCharAppend(a: string, b: string, c: char)
    ensures CountChar(a + b, c) == CountChar(a, c) + CountChar(b, c)
  {
    if a == [] {
      assert a + b == b;
    } else {
      assert (a + b)[0] == a[0] && (a + b)[1..] == a[1..] + b;
      CountCharAppend(a[1..], b, c);
    }
  }

  predicate HasPrefix(s: string, p: string) {
    |p| <= |s| && s[..|p|] == p
  }

  /** `s.endswith(suffix)` */
  predicate EndsWith(s: string, suffix: string) {
    |suffix| <= |s| && s[|s| - |suffix|..] == suffix
  }

  /** JavaScript's `s.split(sep)` for a one-character separator: one more part than there
      are separators, and no part contains the separator. */
  function Split(s: string, sep: char): (parts: seq<string>)
    ensures |parts| == CountChar(s, sep) + 1
  {
    if s == [] then [""]
    else
      var rest := Split(s[1..], sep);
      if s[0] == sep then [""] + rest else [[s[0]] + rest[0]] + rest[1..]
  }

  /** No part of a split holds the separator. */
  lemma {:induction false} SplitPartsExcludeSeparator(s: string, sep: char)
    ensures forall i :: 0 <= i < |Split(s, sep)| ==> sep !in Split(s, sep)[i]
  {
    if s != [] {
      SplitPartsExcludeSeparator(s[1..], sep);
      var rest := Split(s[1..], sep);
      if s[0] != sep {
        assert sep !in [s[0]] + rest[0];
      }
    }
  }

  /** `parts.join(d)`, which is also what `String(parts)` gives with `d == ','`. */
  function Join(parts: seq<string>, d: char): string
  {
    if |parts| == 0 then ""
    else if |parts| == 1 then parts[0]
    else parts[0] + [d] + Join(parts[1..], d)
  }

  /** Splitting the joined parts gives the parts back, as long as no part holds the separator. */
  lemma {:induction false} SplitJoin(parts: seq<string>, sep: char)
    requires |parts| >= 1
    requires forall i :: 0 <= i < |parts| ==> sep !in parts[i]
    ensures Split(Join(parts, sep), sep) == parts
  {
    if |parts| == 1 {
      SplitNoSeparator(parts[0], sep);
    } else {
      SplitJoin(parts[1..], sep);
      SplitAfterSeparator(parts[0], Join(parts[1..], sep), sep);
    }
  }

  lemma {:induction false} SplitNoSeparator(s: string, sep: char)
    requires sep !in s
    ensures Split(s, sep) == [s]
  {
    if s != [] {
      SplitNoSeparator(s[1..], sep);
      assert [s[0]] + s[1..] == s;
    }
  }

  lemma {:induction false} SplitAfterSeparator(a: string, b: string, sep: char)
    requires sep !in a
    ensures Split(a + [sep] + b, sep) == [a] + Split(b, sep)
  {
    if a == [] {
      assert a + [sep] + b == [sep] + b;
      assert ([sep] + b)[1..] == b;
    } else {
      assert a[0] in a;
      assert sep !in a[1..] by {
        assert forall x :: x in a[1..] ==> x in a;
      }
      SplitAfterSeparator(a[1..], b, sep);
      assert a + [sep] + b == [a[0]] + (a[1..] + [sep] + b);
      SplitCons(a[0], a[1..] + [sep] + b, sep);
      assert [a[0]] + a[1..] == a;
    }
  }

  /** Splitting after a character that is not the separator extends the first part. */
  lemma SplitCons(c: char, rest: string, sep: char)
    requires c != sep
    ensures Split([c] + rest, sep) == [[c] + Split(rest, sep)[0]] + Split(rest, sep)[1..]
  {
    assert ([c] + rest)[1..] == rest;
  }

  /** `s` with leading characters satisfying `ws` removed. */
  function TrimStart(s: string, ws: char -> bool): (t: string)
    ensures |t| <= |s|
  {
    if s != [] && ws(s[0]) then TrimStart(s[1..], ws) else s
  }

  /** `s` with trailing characters satisfying `ws` removed. */
  function TrimEnd(s: string, ws: char -> bool): (t: string)
    ensures |t| <= |s|
  {
    if s != [] && ws(s[|s| - 1]) then TrimEnd(s[..|s| - 1], ws) else s
  }

  /** Both ends trimmed: Python's `str.strip()` and JavaScript's `String.prototype.trim()`,
      each with its own whitespace predicate. */
  function Trim(s: string, ws: char -> bool): string
  {
    TrimEnd(TrimStart(s, ws), ws)
  }

  /** The characters Python's `str.isspace()` (and so `str.strip()` and the regular-expression
      class `\s` on `str` patterns) treat as whitespace. */
  predicate IsPyWhitespace(c: char) {
    ('\t' <= c <= '\r') || ('\U{1C}' <= c <= '\U{1F}') || c == ' ' || c == '\U{85}' || c == '\U{A0}'
    || c == '\U{1680}' || ('\U{2000}' <= c <= '\U{200A}') || c == '\U{2028}' || c == '\U{2029}'
    || c == '\U{202F}' || c == '\U{205F}' || c == '\U{3000}'
  }

  /** The characters JavaScript's `trim()` removes: WhiteSpace and LineTerminator. */
  predicate IsJsWhitespace(c: char) {
    ('\t' <= c <= '\r') || c == ' ' || c == '\U{A0}' || c == '\U{FEFF}'
    || c == '\U{1680}' || ('\U{2000}' <= c <= '\U{200A}') || c == '\U{2028}' || c == '\U{2029}'
    || c == '\U{202F}' || c == '\U{205F}' || c == '\U{3000}'
  }

  function PyStrip(s: string): string { Trim(s, IsPyWhitespace) }

  function JsTrim(s: string): string { Trim(s, IsJsWhitespace) }

  /** `TrimEnd` keeps a prefix, whose last character is not whitespace, and drops only whitespace. */
  lemma {:induction false} TrimEndIsPrefix(s: string, ws: char -> bool)
    ensures var t := TrimEnd(s, ws);
            t == s[..|t|] && (t != [] ==> !ws(t[|t| - 1])) && forall i :: |t| <= i < |s| ==> ws(s[i])
  {
    if s != [] && ws(s[|s| - 1]) {
      TrimEndIsPrefix(s[..|s| - 1], ws);
    }
  }

  /** `TrimStart` keeps a suffix, whose first character is not whitespace, and drops only
      whitespace. */
  lemma {:induction false} TrimStartIsSuffix(s: string, ws: char -> bool)
    ensures var t := TrimStart(s, ws);
            t == s[|s| - |t|..] && (t != [] ==> !ws(t[0])) && forall i :: 0 <= i < |s| - |t| ==> ws(s[i])
  {
    if s != [] && ws(s[0]) {
      TrimStartIsSuffix(s[1..], ws);
    }
  }

  /** Trimming keeps a slice of the text that begins and ends with a character that is not
      whitespace, and drops only whitespace before and after it. */
  lemma TrimmedEnds(s: string, ws: char -> bool)
    ensures var t := Trim(s, ws);
            && (t != [] ==> !ws(t[0]) && !ws(t[|t| - 1]))
            && var k := |s| - |TrimStart(s, ws)|;
               && k + |t| <= |s| && t == s[k..k + |t|]
               && (forall i :: 0 <= i < k ==> ws(s[i]))
               && (forall i :: k + |t| <= i < |s| ==> ws(s[i]))
  {
    TrimStartIsSuffix(s, ws);
    TrimEndIsPrefix(TrimStart(s, ws), ws);
    SliceOfSuffix(s, TrimStart(s, ws), Trim(s, ws), ws);
  }

  /** A prefix `t` of a suffix `u` of `s` is a slice of `s`; what `u` has after `t` is what `s`
      has there. */
  lemma SliceOfSuffix(s: string, u: string, t: string, ws: char -> bool)
    requires |u| <= |s| && u == s[|s| - |u|..] && |t| <= |u| && t == u[..|t|]
    requires forall i :: |t| <= i < |u| ==> ws(u[i])
    ensures var k := |s| - |u|; k + |t| <= |s| && t == s[k..k + |t|]
    ensures forall i :: |s| - |u| + |t| <= i < |s| ==> ws(s[i])
  {
    var k := |s| - |u|;
    forall i | k + |t| <= i < |s|
      ensures ws(s[i])
    {
      assert s[i] == u[i - k];
    }
  }

  /** Python's `str.lower()` restricted to ASCII letters. */
  function LowerAscii(s: string): (t: string)
    ensures |t| == |s|
    ensures forall i :: 0 <= i < |s| ==> t[i] == (if 'A' <= s[i] <= 'Z' then (s[i] as int + 32) as char else s[i])
  {
    if s == [] then [] else [if 'A' <= s[0] <= 'Z' then (s[0] as int + 32) as char else s[0]] + LowerAscii(s[1..])
  }

  /** Regrouping a text made of four pieces. */
  lemma Regroup4(a: string, b: string, c: string, d: string)
    ensures a + b + c + d == a + (b + c + d)
  {
  }

  /** The elements of `xs` that satisfy `p`, in order: a list comprehension with a condition,
      or a selector query over a list of elements. */
  function Filter<T>(xs: seq<T>, p: T -> bool): (r: seq<T>)
    ensures |r| <= |xs|
  {
    if xs == [] then []
    else (if p(xs[0]) then [xs[0]] else []) + Filter(xs[1..], p)
  }

  /** A filter keeps only elements of the input that satisfy the condition, and all of them. */
  lemma {:induction false} FilterMembers<T>(xs: seq<T>, p: T -> bool)
    ensures forall i :: 0 <= i < |Filter(xs, p)| ==> p(Filter(xs, p)[i]) && Filter(xs, p)[i] in xs
    ensures forall x :: x in xs && p(x) ==> x in Filter(xs, p)
  {
    if xs != [] {
      FilterMembers(xs[1..], p);
      assert xs == [xs[0]] + xs[1..];
    }
  }

  /** A filter keeps order and repetitions: filtering a concatenation filters each part. */
  lemma {:induction false} FilterAppend<T>(a: seq<T>, b: seq<T>, p: T -> bool)
    ensures Filter(a + b, p) == Filter(a, p) + Filter(b, p)
  {
    if a == [] {
      assert a + b == b;
    } else {
      var head := if p(a[0]) then [a[0]] else [];
      assert (a + b)[0] == a[0];
      assert (a + b)[1..] == a[1..] + b;
      FilterAppend(a[1..], b, p);
      calc {
        Filter(a + b, p);
        head + Filter(a[1..] + b, p);
        head + (Filter(a[1..], p) + Filter(b, p));
        (head + Filter(a[1..], p)) + Filter(b, p);
        Filter(a, p) + Filter(b, p);
      }
    }
  }

  /** A single element is kept exactly when it satisfies the condition. */
  lemma FilterSingleton<T>(x: T, p: T -> bool)
    ensures Filter([x], p) == if p(x) then [x] else []
  {
    assert [x][1..] == [];
  }
}
