/** Python's `html.escape(s)` (with `quote=True`) and the `.replace('\n', '<br>')` the generators
    apply after it, with the entity decoding an HTML parser applies when it reads them back. */
module HtmlEscape {
  import opened Text

  /** `html.escape(s)` as the standard library writes it: five replacements, `&` first so that
      the ampersands of the later references are not escaped again. The result holds none of
      the characters that would open a tag or close an attribute value. */
  function Escape(s: string): string
  {
    var amp := ReplaceChar(s, '&', "&amp;");
    var lt := ReplaceChar(amp, '<', "&lt;");
    var gt := ReplaceChar(lt, '>', "&gt;");
    var quot := ReplaceChar(gt, '"', "&quot;");
    ReplaceChar(quot, '\'', "&#x27;")
  }

  /** Escaped text holds none of the characters that open a tag or close an attribute value. */
  lemma EscapeHasNoMarkup(s: string)
    ensures var e := Escape(s);
            '<' !in e && '>' !in e && '"' !in e && '\'' !in e
  {
    ReferencesFree();
    var amp := ReplaceChar(s, '&', "&amp;");
    var lt := ReplaceChar(amp, '<', "&lt;");
    var gt := ReplaceChar(lt, '>', "&gt;");
    var quot := ReplaceChar(gt, '"', "&quot;");
    ReplaceCharFrom(gt, '"', "&quot;");
    ReplaceCharFrom(quot, '\'', "&#x27;");
    ReplaceCharFrom(lt, '>', "&gt;");
  }

  /** The reference for one character. */
  function EscapeChar(c: char): string {
    match c
    case '&' => "&amp;"
    case '<' => "&lt;"
    case '>' => "&gt;"
    case '"' => "&quot;"
    case '\'' => "&#x27;"
    case _ => [c]
  }

  /** Escaping character by character: an independent definition of the same mapping. */
  function EscapeEach(s: string): string {
    if s == [] then [] else EscapeChar(s[0]) + EscapeEach(s[1..])
  }

  lemma {:induction false} EscapeAppend(a: string, b: string)
    ensures Escape(a + b) == Escape(a) + Escape(b)
  {
    ReplaceCharAppend(a, b, '&', "&amp;");
    var a1, b1 := ReplaceChar(a, '&', "&amp;"), ReplaceChar(b, '&', "&amp;");
    ReplaceCharAppend(a1, b1, '<', "&lt;");
    var a2, b2 := ReplaceChar(a1, '<', "&lt;"), ReplaceChar(b1, '<', "&lt;");
    ReplaceCharAppend(a2, b2, '>', "&gt;");
    var a3, b3 := ReplaceChar(a2, '>', "&gt;"), ReplaceChar(b2, '>', "&gt;");
    ReplaceCharAppend(a3, b3, '"', "&quot;");
    var a4, b4 := ReplaceChar(a3, '"', "&quot;"), ReplaceChar(b3, '"', "&quot;");
    ReplaceCharAppend(a4, b4, '\'', "&#x27;");
  }

  lemma ReplaceOne(c: char, d: char, r: string)
    ensures ReplaceChar([c], d, r) == if c == d then r else [c]
  {
    assert [c][1..] == [];
  }

  /** No reference holds a character that opens a tag or closes an attribute value. */
  lemma ReferencesFree()
    ensures '<' !in "&amp;" && '>' !in "&amp;" && '"' !in "&amp;" && '\'' !in "&amp;"
    ensures '<' !in "&lt;" && '>' !in "&lt;" && '"' !in "&lt;" && '\'' !in "&lt;"
    ensures '<' !in "&gt;" && '>' !in "&gt;" && '"' !in "&gt;" && '\'' !in "&gt;"
    ensures '<' !in "&quot;" && '>' !in "&quot;" && '"' !in "&quot;" && '\'' !in "&quot;"
    ensures '<' !in "&#x27;" && '>' !in "&#x27;" && '"' !in "&#x27;" && '\'' !in "&#x27;"
  {
  }

  /** The replacements after the one for a reference's own character find nothing in it. */
  lemma AfterAmp(c: char)
    requires c == '&'
    ensures Escape([c]) == "&amp;"
  {
    ReferencesFree();
    var x := "&amp;";
    var amp := ReplaceChar([c], '&', x);
    assert amp == x by { ReplaceOne(c, '&', x); }
    var lt := ReplaceChar(amp, '<', "&lt;");
    assert lt == x by { ReplaceCharAbsent(amp, '<', "&lt;"); }
    var gt := ReplaceChar(lt, '>', "&gt;");
    assert gt == x by { ReplaceCharAbsent(lt, '>', "&gt;"); }
    var quot := ReplaceChar(gt, '"', "&quot;");
    assert quot == x by { ReplaceCharAbsent(gt, '"', "&quot;"); }
    assert ReplaceChar(quot, '\'', "&#x27;") == x by { ReplaceCharAbsent(quot, '\'', "&#x27;"); }
  }

  lemma AfterLt(c: char)
    requires c == '<'
    ensures Escape([c]) == "&lt;"
  {
    ReferencesFree();
    var x := "&lt;";
    var amp := ReplaceChar([c], '&', "&amp;");
    assert amp == [c] by { ReplaceOne(c, '&', "&amp;"); }
    var lt := ReplaceChar(amp, '<', x);
    assert lt == x by { ReplaceOne(c, '<', x); }
    var gt := ReplaceChar(lt, '>', "&gt;");
    assert gt == x by { ReplaceCharAbsent(lt, '>', "&gt;"); }
    var quot := ReplaceChar(gt, '"', "&quot;");
    assert quot == x by { ReplaceCharAbsent(gt, '"', "&quot;"); }
    assert ReplaceChar(quot, '\'', "&#x27;") == x by { ReplaceCharAbsent(quot, '\'', "&#x27;"); }
  }

  lemma AfterGt(c: char)
    requires c == '>'
    ensures Escape([c]) == "&gt;"
  {
    ReferencesFree();
    var x := "&gt;";
    var amp := ReplaceChar([c], '&', "&amp;");
    assert amp == [c] by { ReplaceOne(c, '&', "&amp;"); }
    var lt := ReplaceChar(amp, '<', "&lt;");
    assert lt == [c] by { ReplaceOne(c, '<', "&lt;"); }
    var gt := ReplaceChar(lt, '>', x);
    assert gt == x by { ReplaceOne(c, '>', x); }
    var quot := ReplaceChar(gt, '"', "&quot;");
    assert quot == x by { ReplaceCharAbsent(gt, '"', "&quot;"); }
    assert ReplaceChar(quot, '\'', "&#x27;") == x by { ReplaceCharAbsent(quot, '\'', "&#x27;"); }
  }

  lemma AfterQuot(c: char)
    requires c == '"'
    ensures Escape([c]) == "&quot;"
  {
    ReferencesFree();
    var x := "&quot;";
    var amp := ReplaceChar([c], '&', "&amp;");
    assert amp == [c] by { ReplaceOne(c, '&', "&amp;"); }
    var lt := ReplaceChar(amp, '<', "&lt;");
    assert lt == [c] by { ReplaceOne(c, '<', "&lt;"); }
    var gt := ReplaceChar(lt, '>', "&gt;");
    assert gt == [c] by { ReplaceOne(c, '>', "&gt;"); }
    var quot := ReplaceChar(gt, '"', x);
    assert quot == x by { ReplaceOne(c, '"', x); }
    assert ReplaceChar(quot, '\'', "&#x27;") == x by { ReplaceCharAbsent(quot, '\'', "&#x27;"); }
  }

  /** A character that is none of the five, or the apostrophe, which is replaced last. */
  lemma OnlyLastApplies(c: char)
    requires c != '&' && c != '<' && c != '>' && c != '"'
    ensures Escape([c]) == if c == '\'' then "&#x27;" else [c]
  {
    var amp := ReplaceChar([c], '&', "&amp;");
    assert amp == [c] by { ReplaceOne(c, '&', "&amp;"); }
    var lt := ReplaceChar(amp, '<', "&lt;");
    assert lt == [c] by { ReplaceOne(c, '<', "&lt;"); }
    var gt := ReplaceChar(lt, '>', "&gt;");
    assert gt == [c] by { ReplaceOne(c, '>', "&gt;"); }
    var quot := ReplaceChar(gt, '"', "&quot;");
    assert quot == [c] by { ReplaceOne(c, '"', "&quot;"); }
    ReplaceOne(c, '\'', "&#x27;");
  }

  /** One character goes through the five replacements as the per-character mapping says. */
  lemma EscapeSingle(c: char)
    ensures Escape([c]) == EscapeChar(c)
  {
    if c == '&' {
      AfterAmp(c);
    } else if c == '<' {
      AfterLt(c);
    } else if c == '>' {
      AfterGt(c);
    } else if c == '"' {
      AfterQuot(c);
    } else {
      OnlyLastApplies(c);
    }
  }

  /** The sequence of five replacements is the per-character mapping. */
  lemma {:induction false} EscapeIsCharwise(s: string)
    ensures Escape(s) == EscapeEach(s)
  {
    if s != [] {
      assert s == [s[0]] + s[1..];
      EscapeAppend([s[0]], s[1..]);
      EscapeSingle(s[0]);
      EscapeIsCharwise(s[1..]);
    }
  }

  /** An HTML parser's decoding of the five character references `Escape` produces. */
  function Unescape(e: string): string
    decreases |e|
  {
    if e == [] then []
    else if HasPrefix(e, "&amp;") then "&" + Unescape(e[5..])
    else if HasPrefix(e, "&lt;") then "<" + Unescape(e[4..])
    else if HasPrefix(e, "&gt;") then ">" + Unescape(e[4..])
    else if HasPrefix(e, "&quot;") then "\"" + Unescape(e[6..])
    else if HasPrefix(e, "&#x27;") then "'" + Unescape(e[6..])
    else [e[0]] + Unescape(e[1..])
  }

  lemma PrefixOfConcat(p: string, rest: string)
    ensures HasPrefix(p + rest, p) && (p + rest)[|p|..] == rest
  {
    assert (p + rest)[..|p|] == p;
  }

  lemma NotPrefixAt(e: string, p: string, k: nat)
    requires k < |p| && k < |e| && e[k] != p[k]
    ensures !HasPrefix(e, p)
  {
    if |p| <= |e| {
      assert e[..|p|][k] == e[k];
    }
  }

  lemma UnescapeStep(c: char, rest: string)
    ensures Unescape(EscapeChar(c) + rest) == [c] + Unescape(rest)
  {
    var e := EscapeChar(c) + rest;
    PrefixOfConcat(EscapeChar(c), rest);
    assert e[0] == EscapeChar(c)[0];
    if c == '&' {
    } else if c == '<' {
      NotPrefixAt(e, "&amp;", 1);
    } else if c == '>' {
      NotPrefixAt(e, "&amp;", 1);
      NotPrefixAt(e, "&lt;", 1);
    } else if c == '"' {
      NotPrefixAt(e, "&amp;", 1);
      NotPrefixAt(e, "&lt;", 1);
      NotPrefixAt(e, "&gt;", 1);
    } else if c == '\'' {
      NotPrefixAt(e, "&amp;", 1);
      NotPrefixAt(e, "&lt;", 1);
      NotPrefixAt(e, "&gt;", 1);
      NotPrefixAt(e, "&quot;", 1);
    } else {
      NotPrefixAt(e, "&amp;", 0);
      NotPrefixAt(e, "&lt;", 0);
      NotPrefixAt(e, "&gt;", 0);
      NotPrefixAt(e, "&quot;", 0);
      NotPrefixAt(e, "&#x27;", 0);
    }
  }

  /** Decoding undoes escaping: a reader of the page gets back the text that was escaped. */
  lemma {:induction false} UnescapeEscape(s: string)
    ensures Unescape(Escape(s)) == s
  {
    EscapeIsCharwise(s);
    UnescapeEach(s);
  }

  lemma {:induction false} UnescapeEach(s: string)
    ensures Unescape(EscapeEach(s)) == s
  {
    if s != [] {
      UnescapeStep(s[0], EscapeEach(s[1..]));
      UnescapeEach(s[1..]);
    }
  }

  /** `html.escape(raw_text).replace('\n', '<br>')`: the escaped text with each newline turned
      into a line break; no newline and no quote is left. */
  function EscapeBreaks(s: string): string
  {
    ReplaceChar(Escape(s), '\n', "<br>")
  }

  /** The emitted caption text has no newline and no quote, and its only `<` and `>` are
      those of the `<br>` tags. */
  lemma EscapeBreaksHasNoMarkup(s: string)
    ensures var e := EscapeBreaks(s);
            '\n' !in e && '"' !in e && '\'' !in e && OnlyBreakTags(e)
  {
    EscapeHasNoMarkup(s);
    ReplaceCharFrom(Escape(s), '\n', "<br>");
    BreakTagsOnly(Escape(s));
  }

  /** Each `<` of `e` starts a `<br>`. */
  predicate OnlyBreakTags(e: string) {
    forall i :: 0 <= i < |e| && e[i] == '<' ==> i + 4 <= |e| && e[i..i + 4] == "<br>"
  }

  /** In `t` with every newline replaced by `<br>`, each `<` starts one of those tags. */
  lemma {:induction false} BreakTagsOnly(t: string)
    requires '<' !in t
    ensures OnlyBreakTags(ReplaceChar(t, '\n', "<br>"))
  {
    if t != [] {
      assert t[0] in t;
      assert '<' !in t[1..] by {
        assert forall x :: x in t[1..] ==> x in t;
      }
      BreakTagsOnly(t[1..]);
      var tail := ReplaceChar(t[1..], '\n', "<br>");
      if t[0] == '\n' {
        BreakThenTags(tail);
      } else {
        CharThenTags(t[0], tail);
      }
    }
  }

  lemma CharThenTags(c: char, tail: string)
    requires c != '<' && OnlyBreakTags(tail)
    ensures OnlyBreakTags([c] + tail)
  {
    var e := [c] + tail;
    forall i | 0 <= i < |e| && e[i] == '<'
      ensures i + 4 <= |e| && e[i..i + 4] == "<br>"
    {
      assert e[i] == tail[i - 1];
      assert e[i..i + 4] == tail[i - 1..i + 3];
    }
  }

  lemma BreakThenTags(tail: string)
    requires OnlyBreakTags(tail)
    ensures OnlyBreakTags("<br>" + tail)
  {
    var e := "<br>" + tail;
    assert e[..4] == "<br>";
    forall i | 0 <= i < |e| && e[i] == '<'
      ensures i + 4 <= |e| && e[i..i + 4] == "<br>"
    {
      if 4 <= i {
        assert e[i] == tail[i - 4];
        assert e[i..i + 4] == tail[i - 4..i];
      }
    }
  }

  /** Reading a `<br>` back as a newline. */
  function Unbreak(e: string): string
    decreases |e|
  {
    if e == [] then []
    else if HasPrefix(e, "<br>") then "\n" + Unbreak(e[4..])
    else [e[0]] + Unbreak(e[1..])
  }

  lemma {:induction false} UnbreakReplace(t: string)
    requires '<' !in t
    ensures Unbreak(ReplaceChar(t, '\n', "<br>")) == t
  {
    if t != [] {
      var head := if t[0] == '\n' then "<br>" else [t[0]];
      var e := head + ReplaceChar(t[1..], '\n', "<br>");
      assert e[..|head|] == head && e[|head|..] == ReplaceChar(t[1..], '\n', "<br>");
      if t[0] != '\n' {
        assert t[0] in t;
        assert e[0] == t[0];
      }
      UnbreakReplace(t[1..]);
    }
  }

  /** The emitted caption text determines the stripped caption text: turning each `<br>` back
      into a newline and decoding the references gives it back. */
  lemma EscapeBreaksRoundTrip(s: string)
    ensures Unescape(Unbreak(EscapeBreaks(s))) == s
  {
    EscapeHasNoMarkup(s);
    UnbreakReplace(Escape(s));
    UnescapeEscape(s);
  }

  /** Replacing `c` by `r` adds, for another character `x`, `x`'s count in `r` once per
      occurrence of `c`: nothing when `r` has no `x`, one per `c` when it has one. */
  lemma {:induction false} CountAfterReplace(t: string, c: char, r: string, x: char)
    requires x != c && CountChar(r, x) <= 1
    ensures CountChar(ReplaceChar(t, c, r), x)
         == CountChar(t, x) + (if CountChar(r, x) == 1 then CountChar(t, c) else 0)
  {
    if t != [] {
      var head := if t[0] == c then r else [t[0]];
      var tail := ReplaceChar(t[1..], c, r);
      assert ReplaceChar(t, c, r) == head + tail;
      CountCharAppend(head, tail, x);
      CountAfterReplace(t[1..], c, r, x);
      if t[0] != c {
        assert [t[0]][1..] == [];
      }
    }
  }

  /** No reference holds a newline. */
  lemma ReferencesHaveNoNewline()
    ensures CountChar("&amp;", '\n') == 0 && CountChar("&lt;", '\n') == 0 && CountChar("&gt;", '\n') == 0
    ensures CountChar("&quot;", '\n') == 0 && CountChar("&#x27;", '\n') == 0
  {
    CountCharZero("&amp;", '\n');
    CountCharZero("&lt;", '\n');
    CountCharZero("&gt;", '\n');
    CountCharZero("&quot;", '\n');
    CountCharZero("&#x27;", '\n');
  }

  /** Escaping leaves newlines as they are. */
  lemma EscapeKeepsNewlines(s: string)
    ensures CountChar(Escape(s), '\n') == CountChar(s, '\n')
  {
    ReferencesHaveNoNewline();
    var amp := ReplaceChar(s, '&', "&amp;");
    var lt := ReplaceChar(amp, '<', "&lt;");
    var gt := ReplaceChar(lt, '>', "&gt;");
    var quot := ReplaceChar(gt, '"', "&quot;");
    CountAfterReplace(s, '&', "&amp;", '\n');
    CountAfterReplace(amp, '<', "&lt;", '\n');
    CountAfterReplace(lt, '>', "&gt;", '\n');
    CountAfterReplace(gt, '"', "&quot;", '\n');
    CountAfterReplace(quot, '\'', "&#x27;", '\n');
  }

  /** Every `<` of the emitted text opens a `<br>`, and there is one per newline of the input. */
  lemma BreaksMatchNewlines(s: string)
    ensures CountChar(EscapeBreaks(s), '<') == CountChar(s, '\n')
  {
    var e := Escape(s);
    EscapeHasNoMarkup(s);
    EscapeKeepsNewlines(s);
    CountAfterReplace(e, '\n', "<br>", '<');
    CountCharZero(e, '<');
    assert CountChar("<br>", '<') == 1 by {
      assert "<br>"[1..] == "br>";
      assert '<' !in "br>";
    }
  }
}
