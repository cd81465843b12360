/** `convert_vtt_to_transliterated_html` of src/generate_transliterated_html.py: the same pages
    as the other script, with each caption's stripped text transliterated (Devanagari to IAST)
    before it is escaped, and no span around it. */
module GenerateTransliteratedHtml {
  import opened Wrappers
  import opened Text
  import opened Sorting
  import opened HtmlEscape
  import opened VttHtml

  /** The `<p>` body this script writes for a caption's text, given the transliteration. */
  function TranslitBody(transliterate: string -> string): string -> string
  {
    text => EscapeBreaks(transliterate(PyStrip(text)))
  }

  /** The body is never wrapped in a tag: its only tags are `<br>`, one per newline of the
      transliterated text, and it reads back as that text. */
  lemma TranslitBodyIsBareText(transliterate: string -> string, text: string)
    ensures var body := TranslitBody(transliterate)(text);
            var transliterated := transliterate(PyStrip(text));
            && OnlyBreakTags(body)
            && CountChar(body, '<') == CountChar(transliterated, '\n')
            && Unescape(Unbreak(body)) == transliterated
  {
    var transliterated := transliterate(PyStrip(text));
    EscapeBreaksHasNoMarkup(transliterated);
    BreaksMatchNewlines(transliterated);
    EscapeBreaksRoundTrip(transliterated);
  }

  /** For the same files, both scripts write the same sections, headings, cue ids and
      timestamps in the same order; only the `<p>` bodies differ. */
  lemma SameStructureAsTextPage(listing: seq<string>, read: string -> VttRead, transliterate: string -> string, textBody: string -> string)
    ensures Document(listing, read, TranslitBody(transliterate)).Some? == Document(listing, read, textBody).Some?
    ensures Document(listing, read, textBody).Some? ==>
              && Skeletons(Document(listing, read, TranslitBody(transliterate)).value)
                 == Skeletons(Document(listing, read, textBody).value)
              && DataChapters(Document(listing, read, TranslitBody(transliterate)).value)
                 == DataChapters(Document(listing, read, textBody).value)
  {
    SameSkeleton(listing, read, TranslitBody(transliterate), textBody);
    DocumentHeadings(listing, read, TranslitBody(transliterate));
    DocumentHeadings(listing, read, textBody);
  }

  /** One pass of the outer loop: what the file `vttFilename` adds to the list. */
  method ConvertFile(vttFilename: string, read: string -> VttRead, transliterate: string -> string) returns (fileContent: seq<Fragment>)
    ensures fileContent == FileFragments(vttFilename, read, TranslitBody(transliterate))
  {
    match read(vttFilename) {
      case Captions(captions) =>
        var chapterIdRoot := Stem(vttFilename);
        var chapterId := ChapterId(chapterIdRoot);
        var chapterTitle := ChapterTitle(chapterIdRoot);
        fileContent := [SectionOpen(chapterId), Heading(chapterTitle)];
        for i := 0 to |captions|
          invariant fileContent == [SectionOpen(chapterId), Heading(chapterTitle)]
                                   + CueFragments(chapterId, captions[..i], TranslitBody(transliterate))
        {
          var caption := captions[i];
          var rawText := PyStrip(caption.text);
          var transliteratedText := transliterate(rawText);
          var escapedText := EscapeBreaks(transliteratedText);
          var cueId := CueId(chapterId, i);
          assert escapedText == TranslitBody(transliterate)(caption.text);
          AppendCueStep(fileContent, chapterId, chapterTitle, captions, i, TranslitBody(transliterate));
          fileContent := fileContent + [Cue(cueId, caption.start, caption.end, escapedText)];
        }
        assert captions[..|captions|] == captions;
        fileContent := fileContent + [SectionClose];
      case Malformed(message) =>
        fileContent := [ErrorSectionOpen, ErrorHeading(vttFilename), ErrorText(message), SectionClose];
    }
  }

  /** The whole script: `None` when it returns early, otherwise the list it joins into the page. */
  method ConvertVttToTransliteratedHtml(listing: seq<string>, read: string -> VttRead, transliterate: string -> string)
    returns (written: Option<seq<Fragment>>)
    ensures written == Document(listing, read, TranslitBody(transliterate))
  {
    var vttFiles := SortStrings(VttFileNames(listing));
    if |vttFiles| == 0 {
      return None;
    }
    var allTextContent := [MainOpen];
    for f := 0 to |vttFiles|
      invariant allTextContent == [MainOpen] + FilesFragments(vttFiles[..f], read, TranslitBody(transliterate))
    {
      var fileContent := ConvertFile(vttFiles[f], read, transliterate);
      AppendFileStep(allTextContent, vttFiles, f, read, TranslitBody(transliterate));
      allTextContent := allTextContent + fileContent;
    }
    assert vttFiles[..|vttFiles|] == vttFiles;
    return Some(allTextContent + [MainClose]);
  }
}
