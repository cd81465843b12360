/** `convert_vtt_to_html` of src/generate_html.py: each caption's stripped text is escaped, its
    newlines become `<br>`, and it is wrapped in a `cue-text` span when it ends in a verse marker. */
module GenerateHtml {
  import opened Wrappers
  import opened Text
  import opened Sorting
  import opened HtmlEscape
  import opened ShlokaMarker
  import opened VttHtml

  const SpanOpen: string := "<span class='cue-text'>"
  const SpanClose: string := "</span>"

  /** The `<p>` body this script writes for a caption's text. */
  function TextBody(text: string): string
  {
    var rawText := PyStrip(text);
    var escapedText := EscapeBreaks(rawText);
    if EndsWithShlokaMarker(rawText) then SpanOpen + escapedText + SpanClose else escapedText
  }

  /** The span's content when there is one, else the whole body. */
  function SpanContent(body: string): string
  {
    if HasPrefix(body, SpanOpen) && |body| >= |SpanOpen| + |SpanClose|
    then body[|SpanOpen|..|body| - |SpanClose|]
    else body
  }

  /** The first character of escaped text is that of the text, or the `&` of a reference. */
  lemma EscapeFirst(s: string)
    requires s != []
    ensures Escape(s) != [] && (Escape(s)[0] == s[0] || Escape(s)[0] == '&')
  {
    EscapeIsCharwise(s);
    assert EscapeEach(s) == EscapeChar(s[0]) + EscapeEach(s[1..]);
  }

  /** Without the span, the body never begins with `<`: the stripped text does not begin with a
      newline, so no `<br>` comes first, and escaping removes every other `<`. */
  lemma EscapedBodyStartsPlain(rawText: string)
    requires rawText != [] ==> !IsPyWhitespace(rawText[0])
    ensures !HasPrefix(EscapeBreaks(rawText), "<")
  {
    if rawText != [] {
      var e := Escape(rawText);
      EscapeFirst(rawText);
      EscapeHasNoMarkup(rawText);
      assert e[0] != '\n' && e[0] != '<';
      assert EscapeBreaks(rawText)[0] == e[0];
    }
  }

  /** The body opens with a tag exactly when the stripped caption text ends in a verse marker
      (the tag is then the `cue-text` span), and what the span holds, read back through the
      browser's `<br>` and reference decoding, is the stripped caption text. */
  lemma TextBodyWrappedIffMarker(text: string)
    ensures HasPrefix(TextBody(text), "<") <==> EndsWithShlokaMarker(PyStrip(text))
    ensures EndsWithShlokaMarker(PyStrip(text)) ==> HasPrefix(TextBody(text), SpanOpen)
    ensures Unescape(Unbreak(SpanContent(TextBody(text)))) == PyStrip(text)
  {
    var rawText := PyStrip(text);
    var escapedText := EscapeBreaks(rawText);
    TrimmedEnds(text, IsPyWhitespace);
    EscapedBodyStartsPlain(rawText);
    EscapeBreaksRoundTrip(rawText);
    if EndsWithShlokaMarker(rawText) {
      Wrapped(escapedText);
    } else {
      Unwrapped(escapedText);
    }
  }

  /** A span-wrapped body opens with the span tag, and the span holds what was wrapped. */
  lemma Wrapped(e: string)
    ensures HasPrefix(SpanOpen + e + SpanClose, "<") && HasPrefix(SpanOpen + e + SpanClose, SpanOpen)
    ensures SpanContent(SpanOpen + e + SpanClose) == e
  {
    var body := SpanOpen + e + SpanClose;
    assert body[..|SpanOpen|] == SpanOpen;
    assert body[|SpanOpen|..|body| - |SpanClose|] == e;
  }

  /** A body that does not open with `<` is not wrapped, and is its own content. */
  lemma Unwrapped(e: string)
    requires !HasPrefix(e, "<")
    ensures SpanContent(e) == e
  {
    if |SpanOpen| <= |e| {
      assert e[..1] == e[..|SpanOpen|][..1];
      assert SpanOpen[..1] == "<";
    }
  }

  /** One pass of the outer loop: what the file `vttFilename` adds to the list. */
  method ConvertFile(vttFilename: string, read: string -> VttRead) returns (fileContent: seq<Fragment>)
    ensures fileContent == FileFragments(vttFilename, read, TextBody)
  {
    match read(vttFilename) {
      case Captions(captions) =>
        var chapterIdRoot := Stem(vttFilename);
        var chapterId := ChapterId(chapterIdRoot);
        var chapterTitle := ChapterTitle(chapterIdRoot);
        fileContent := [SectionOpen(chapterId), Heading(chapterTitle)];
        for i := 0 to |captions|
          invariant fileContent == [SectionOpen(chapterId), Heading(chapterTitle)]
                                   + CueFragments(chapterId, captions[..i], TextBody)
        {
          var caption := captions[i];
          var rawText := PyStrip(caption.text);
          var escapedText := EscapeBreaks(rawText);
          var textContent := if EndsWithShlokaMarker(rawText) then SpanOpen + escapedText + SpanClose else escapedText;
          var cueId := CueId(chapterId, i);
          assert textContent == TextBody(caption.text);
          AppendCueStep(fileContent, chapterId, chapterTitle, captions, i, TextBody);
          fileContent := fileContent + [Cue(cueId, caption.start, caption.end, textContent)];
        }
        assert captions[..|captions|] == captions;
        fileContent := fileContent + [SectionClose];
      case Malformed(message) =>
        fileContent := [ErrorSectionOpen, ErrorHeading(vttFilename), ErrorText(message), SectionClose];
    }
  }

  /** The whole script: `None` when it returns early, otherwise the list it joins into the page. */
  method ConvertVttToHtml(listing: seq<string>, read: string -> VttRead) returns (written: Option<seq<Fragment>>)
    ensures written == Document(listing, read, TextBody)
  {
    var vttFiles := SortStrings(VttFileNames(listing));
    if |vttFiles| == 0 {
      return None;
    }
    var allTextContent := [MainOpen];
    for f := 0 to |vttFiles|
      invariant allTextContent == [MainOpen] + FilesFragments(vttFiles[..f], read, TextBody)
    {
      var fileContent := ConvertFile(vttFiles[f], read);
      AppendFileStep(allTextContent, vttFiles, f, read, TextBody);
      allTextContent := allTextContent + fileContent;
    }
    assert vttFiles[..|vttFiles|] == vttFiles;
    return Some(allTextContent + [MainClose]);
  }
}
