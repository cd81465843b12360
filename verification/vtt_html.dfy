/** What both generator scripts compute from a directory of WebVTT files: the list of HTML
    fragments (`all_text_content`) that is joined into the page body. The two scripts differ only
    in the text placed inside each `<p>`, which is a parameter here. */
module VttHtml {
  import opened Wrappers
  import opened Text
  import opened Decimal
  import opened Sorting
  import opened HtmlEscape
  import Chapters
  import ChapterContent

  /** One caption as `webvtt.read` returns it: its timestamps as text, and its text. */
  datatype Caption = Caption(start: string, end: string, text: string)

  /** The outcome of `webvtt.read` on a file: its captions, or `MalformedFileError` with its message. */
  datatype VttRead = Captions(captions: seq<Caption>) | Malformed(message: string)

  /** One entry of `all_text_content`. */
  datatype Fragment =
    | MainOpen
    | MainClose
    | SectionOpen(id: string)
    | Heading(title: string)
    | Cue(id: string, start: string, end: string, body: string)
    | SectionClose
    | ErrorSectionOpen
    | ErrorHeading(fileName: string)
    | ErrorText(message: string)
  {
    /** The text the f-string produces. */
    function Render(): string {
      match this
      case MainOpen => "<main>"
      case MainClose => "</main>"
      case SectionOpen(id) => "<section id=\"" + id + "\">"
      case Heading(title) => "<h2 data-chapter=\"" + Escape(title) + "\">" + Escape(title) + "</h2>"
      case Cue(id, start, end, body) =>
        "<p id=\"" + id + "\" data-start=\"" + start + "\" data-end=\"" + end + "\">" + body + "</p>"
      case SectionClose => "</section>"
      case ErrorSectionOpen => "<section>"
      case ErrorHeading(fileName) => "<h2>Error processing " + Escape(fileName) + "</h2>"
      case ErrorText(message) => "<p>There was an error reading this VTT file: " + Escape(message) + "</p>"
    }

    /** The `data-chapter` attribute as written, on the one kind of fragment that has it. */
    function DataChapter(): Option<string> {
      if Heading? then Some(Escape(title)) else None
    }
  }

  /** The text of a chapter heading up to its `data-chapter` value. */
  const DataChapterOpen: string := "<h2 data-chapter=\""

  /** Text made of an opening, a value and a rest opens with the opening, and after it
      come the value and the rest. */
  lemma OpensWith(opening: string, value: string, rest: string)
    ensures HasPrefix(opening + value + rest, opening)
    ensures (opening + value + rest)[|opening|..] == value + rest
    ensures HasPrefix(value + rest, value)
  {
    assert (opening + value + rest)[..|opening|] == opening;
    assert (value + rest)[..|value|] == value;
  }

  /** Regrouping a text made of five pieces. */
  lemma Regroup(a: string, b: string, c: string, d: string, e: string)
    ensures a + b + c + d + e == a + (b + c) + (d + e)
  {
  }

  /** The chapter heading's text is `<h2 data-chapter="`, the escaped title, then `">`. */
  lemma HeadingText(title: string)
    ensures var v := Escape(title);
            && HasPrefix(Heading(title).Render(), DataChapterOpen)
            && HasPrefix(Heading(title).Render()[|DataChapterOpen|..], v + "\">")
  {
    var v := Escape(title);
    var close, end := "\">", "</h2>";
    Regroup(DataChapterOpen, v, close, v, end);
    OpensWith(DataChapterOpen, v + close, v + end);
  }

  /** The error heading's text starts `<h2>`, so it has no attribute. */
  lemma ErrorHeadingText(fileName: string)
    ensures !HasPrefix(ErrorHeading(fileName).Render(), DataChapterOpen)
  {
    var opening := "<h2>Error processing ";
    var r := ErrorHeading(fileName).Render();
    assert r == opening + (Escape(fileName) + "</h2>");
    assert r[3] == opening[3] == '>';
    assert DataChapterOpen[3] == ' ';
  }

  /** Of the two `<h2>` fragments, the text opens with `<h2 data-chapter="` exactly when the
      fragment carries a `data-chapter`, and the attribute's value, closed by `">`, is the
      value `DataChapter` gives; escaping leaves no quote in it, so it ends at that `"`. */
  lemma DataChapterIsRendered(f: Fragment)
    requires f.Heading? || f.ErrorHeading?
    ensures f.DataChapter().Some? <==> HasPrefix(f.Render(), DataChapterOpen)
    ensures f.DataChapter().Some? ==>
              var v := f.DataChapter().value;
              && '"' !in v
              && HasPrefix(f.Render()[|DataChapterOpen|..], v + "\">")
  {
    if f.Heading? {
      HeadingText(f.title);
      EscapeHasNoMarkup(f.title);
    } else {
      ErrorHeadingText(f.fileName);
    }
  }

  /** The condition of the comprehension. */
  predicate IsVttName(name: string) {
    EndsWith(name, ".vtt")
  }

  /** `[f for f in os.listdir(vtt_dir) if f.endswith('.vtt')]` */
  function VttFileNames(listing: seq<string>): (names: seq<string>)
    ensures |names| <= |listing|
  {
    Filter(listing, IsVttName)
  }

  /** The kept names are exactly the listed names that end in `.vtt`. */
  lemma VttFileNamesMembers(listing: seq<string>)
    ensures forall n :: n in VttFileNames(listing) <==> n in listing && EndsWith(n, ".vtt")
  {
    FilterMembers(listing, IsVttName);
  }

  /** The comprehension keeps the listing's order and repetitions: the names kept from a
      concatenation are those kept from each part, in order. */
  lemma VttFileNamesAppend(a: seq<string>, b: seq<string>)
    ensures VttFileNames(a + b) == VttFileNames(a) + VttFileNames(b)
  {
    FilterAppend(a, b, IsVttName);
  }

  /** One name is kept exactly when it ends in `.vtt`. */
  lemma VttFileNamesSingleton(name: string)
    ensures VttFileNames([name]) == if EndsWith(name, ".vtt") then [name] else []
  {
    FilterSingleton(name, IsVttName);
  }

  /** Index of the last `c` in `s`, or -1. */
  function LastIndexOf(s: string, c: char): (k: int)
    ensures -1 <= k < |s|
    ensures k >= 0 ==> s[k] == c
    ensures forall i :: k < i < |s| ==> s[i] != c
  {
    if s == [] then -1
    else if s[|s| - 1] == c then |s| - 1
    else LastIndexOf(s[..|s| - 1], c)
  }

  predicate AllDots(s: string) {
    forall i :: 0 <= i < |s| ==> s[i] == '.'
  }

  /** `os.path.splitext(name)[0]` for a directory entry, which holds no path separator: the text
      before the last `.`, unless only dots come before it (then nothing is split off). */
  function Stem(name: string): string {
    var dot := LastIndexOf(name, '.');
    if dot >= 0 && !AllDots(name[..dot]) then name[..dot] else name
  }

  /** `chapter_id_root.replace(' ', '-').lower()`, with the lowering restricted to ASCII. */
  function ChapterId(stem: string): (id: string)
    ensures |id| == |stem| && ' ' !in id
  {
    var dashed := ReplaceChar(stem, ' ', "-");
    var id := LowerAscii(dashed);
    assert forall i :: 0 <= i < |id| ==> id[i] != ' ' by {
      forall i | 0 <= i < |id|
        ensures id[i] != ' '
      {
        assert dashed[i] in dashed;
      }
    }
    ReplaceCharLength(stem);
    id
  }

  lemma {:induction false} ReplaceCharLength(s: string)
    ensures |ReplaceChar(s, ' ', "-")| == |s|
  {
    if s != [] {
      ReplaceCharLength(s[1..]);
    }
  }

  /** `chapter_id_root.replace('_', ' ')` */
  function ChapterTitle(stem: string): (title: string)
    ensures '_' !in title
  {
    ReplaceChar(stem, '_', " ")
  }

  /** `f"cue_{chapter_id}_{i}"` */
  function CueId(chapterId: string, i: nat): string {
    "cue_" + chapterId + "_" + NatToString(i)
  }

  /** Within one chapter, different captions get different ids. */
  lemma CueIdsDistinct(chapterId: string, i: nat, j: nat)
    requires i != j
    ensures CueId(chapterId, i) != CueId(chapterId, j)
  {
    var prefix := "cue_" + chapterId + "_";
    assert CueId(chapterId, i)[|prefix|..] == NatToString(i);
    assert CueId(chapterId, j)[|prefix|..] == NatToString(j);
  }

  /** One `<p>` per caption. */
  function CueFragments(chapterId: string, captions: seq<Caption>, body: string -> string): (fs: seq<Fragment>)
    ensures |fs| == |captions| && forall k :: 0 <= k < |fs| ==> fs[k].Cue?
  {
    if captions == [] then []
    else
      var n := |captions| - 1;
      CueFragments(chapterId, captions[..n], body)
      + [Cue(CueId(chapterId, n), captions[n].start, captions[n].end, body(captions[n].text))]
  }

  predicate NotMain(f: Fragment) {
    !f.MainOpen? && !f.MainClose?
  }

  /** The `<p>` of each caption, in caption order: the `k`-th gets id `cue_<chapter_id>_<k>`,
      the caption's own timestamps, and its body. */
  lemma {:induction false} CueFragmentsAt(chapterId: string, captions: seq<Caption>, body: string -> string)
    ensures forall k :: 0 <= k < |captions| ==>
              CueFragments(chapterId, captions, body)[k]
              == Cue(CueId(chapterId, k), captions[k].start, captions[k].end, body(captions[k].text))
  {
    if captions != [] {
      CueFragmentsAt(chapterId, captions[..|captions| - 1], body);
    }
  }

  /** What one file adds: its section with heading and cues when it parses, and the error
      section when `webvtt.read` raises `MalformedFileError`. */
  function FileFragments(name: string, read: string -> VttRead, body: string -> string): (fs: seq<Fragment>)
    ensures forall k :: 0 <= k < |fs| ==> NotMain(fs[k])
  {
    match read(name)
    case Captions(captions) =>
      var stem := Stem(name);
      var chapterId := ChapterId(stem);
      [SectionOpen(chapterId), Heading(ChapterTitle(stem))] + CueFragments(chapterId, captions, body) + [SectionClose]
    case Malformed(message) =>
      [ErrorSectionOpen, ErrorHeading(name), ErrorText(message), SectionClose]
  }

  /** The files' fragments in the given order; none of them is `<main>` or `</main>`. */
  function FilesFragments(names: seq<string>, read: string -> VttRead, body: string -> string): (fs: seq<Fragment>)
    ensures forall k :: 0 <= k < |fs| ==> NotMain(fs[k])
  {
    if names == [] then []
    else
      var n := |names| - 1;
      FilesFragments(names[..n], read, body) + FileFragments(names[n], read, body)
  }

  /** One more file appends that file's fragments. */
  lemma FilesFragmentsStep(names: seq<string>, f: nat, read: string -> VttRead, body: string -> string)
    requires f < |names|
    ensures FilesFragments(names[..f + 1], read, body)
         == FilesFragments(names[..f], read, body) + FileFragments(names[f], read, body)
  {
    assert names[..f + 1][..f] == names[..f];
  }

  /** The outer loop's step: appending the next file's fragments to the list opened by `<main>`
      gives the list for one more file. */
  lemma AppendFileStep(content: seq<Fragment>, names: seq<string>, f: nat, read: string -> VttRead, body: string -> string)
    requires f < |names|
    requires content == [MainOpen] + FilesFragments(names[..f], read, body)
    ensures content + FileFragments(names[f], read, body) == [MainOpen] + FilesFragments(names[..f + 1], read, body)
  {
    FilesFragmentsStep(names, f, read, body);
    AppendAssoc([MainOpen], FilesFragments(names[..f], read, body), FileFragments(names[f], read, body));
  }

  /** The inner loop's step: appending caption `i`'s `<p>` to a section holding the first `i`
      gives the section holding the first `i + 1`. */
  lemma AppendCueStep(content: seq<Fragment>, chapterId: string, title: string, captions: seq<Caption>,
                      i: nat, body: string -> string)
    requires i < |captions|
    requires content == [SectionOpen(chapterId), Heading(title)] + CueFragments(chapterId, captions[..i], body)
    ensures content + [Cue(CueId(chapterId, i), captions[i].start, captions[i].end, body(captions[i].text))]
            == [SectionOpen(chapterId), Heading(title)] + CueFragments(chapterId, captions[..i + 1], body)
  {
    assert captions[..i + 1][..i] == captions[..i];
    AppendAssoc([SectionOpen(chapterId), Heading(title)], CueFragments(chapterId, captions[..i], body),
                [Cue(CueId(chapterId, i), captions[i].start, captions[i].end, body(captions[i].text))]);
  }

  lemma AppendAssoc<T>(a: seq<T>, b: seq<T>, c: seq<T>)
    ensures a + b + c == a + (b + c)
  {
  }

  /** The whole list, or `None` when there is no `.vtt` file and the function returns early
      without writing anything. */
  function Document(listing: seq<string>, read: string -> VttRead, body: string -> string): Option<seq<Fragment>>
  {
    var vttFiles := SortStrings(VttFileNames(listing));
    if |vttFiles| == 0 then None
    else Some([MainOpen] + FilesFragments(vttFiles, read, body) + [MainClose])
  }

  /** The `data-chapter` values of a fragment list, in order. */
  function DataChapters(fs: seq<Fragment>): seq<string> {
    if fs == [] then []
    else
      var n := |fs| - 1;
      DataChapters(fs[..n]) + (if fs[n].DataChapter().Some? then [fs[n].DataChapter().value] else [])
  }

  lemma {:induction false} DataChaptersAppend(a: seq<Fragment>, b: seq<Fragment>)
    ensures DataChapters(a + b) == DataChapters(a) + DataChapters(b)
    decreases |b|
  {
    if b == [] {
      assert a + b == a;
    } else {
      var n := |b| - 1;
      assert (a + b)[..|a + b| - 1] == a + b[..n];
      DataChaptersAppend(a, b[..n]);
    }
  }

  lemma {:induction false} NoDataChapters(fs: seq<Fragment>)
    requires forall k :: 0 <= k < |fs| ==> !fs[k].Heading?
    ensures DataChapters(fs) == []
  {
    if fs != [] {
      NoDataChapters(fs[..|fs| - 1]);
    }
  }

  /** The escaped titles of the files that parse, in the given order. */
  function ParsedTitles(names: seq<string>, read: string -> VttRead): seq<string> {
    if names == [] then []
    else
      var n := |names| - 1;
      ParsedTitles(names[..n], read)
      + (if read(names[n]).Captions? then [Escape(ChapterTitle(Stem(names[n])))] else [])
  }

  /** A file that parses adds `<section id>`, one `<h2>` carrying the title, one `<p>` per
      caption, and `</section>`. */
  lemma ParsedFileShape(name: string, read: string -> VttRead, body: string -> string)
    requires read(name).Captions?
    ensures var fs := FileFragments(name, read, body);
            var captions := read(name).captions;
            var chapterId := ChapterId(Stem(name));
            && |fs| == |captions| + 3
            && fs[0] == SectionOpen(chapterId)
            && fs[1] == Heading(ChapterTitle(Stem(name)))
            && (forall k :: 0 <= k < |captions| ==>
                  fs[k + 2] == Cue(CueId(chapterId, k), captions[k].start, captions[k].end, body(captions[k].text)))
            && fs[|fs| - 1] == SectionClose
  {
    SectionShape(ChapterId(Stem(name)), ChapterTitle(Stem(name)), read(name).captions, body);
  }

  /** The section of a file that parses, for any id and title. */
  lemma SectionShape(chapterId: string, title: string, captions: seq<Caption>, body: string -> string)
    ensures var fs := [SectionOpen(chapterId), Heading(title)] + CueFragments(chapterId, captions, body) + [SectionClose];
            && |fs| == |captions| + 3
            && fs[0] == SectionOpen(chapterId)
            && fs[1] == Heading(title)
            && (forall k :: 0 <= k < |captions| ==>
                  fs[k + 2] == Cue(CueId(chapterId, k), captions[k].start, captions[k].end, body(captions[k].text)))
            && fs[|fs| - 1] == SectionClose
  {
    CueFragmentsAt(chapterId, captions, body);
  }

  /** A file that parses carries exactly one `data-chapter`, the escaped title. */
  lemma ParsedFileDataChapter(name: string, read: string -> VttRead, body: string -> string)
    requires read(name).Captions?
    ensures DataChapters(FileFragments(name, read, body)) == [Escape(ChapterTitle(Stem(name)))]
  {
    SectionDataChapter(ChapterId(Stem(name)), ChapterTitle(Stem(name)), read(name).captions, body);
  }

  lemma SectionDataChapter(chapterId: string, title: string, captions: seq<Caption>, body: string -> string)
    ensures DataChapters([SectionOpen(chapterId), Heading(title)] + CueFragments(chapterId, captions, body) + [SectionClose])
         == [Escape(title)]
  {
    var opening := [SectionOpen(chapterId)];
    var heading := [Heading(title)];
    var cues := CueFragments(chapterId, captions, body);
    assert [SectionOpen(chapterId), Heading(title)] == opening + heading;
    DataChaptersAppend(opening + heading + cues, [SectionClose]);
    DataChaptersAppend(opening + heading, cues);
    DataChaptersAppend(opening, heading);
    NoDataChapters(cues);
    NoDataChapters([SectionClose]);
    NoDataChapters(opening);
    assert DataChapters(heading) == [Escape(title)] by {
      assert heading[..0] == [];
    }
  }

  /** A malformed file adds a section whose `<h2>` has no `data-chapter`, so the player can
      never select it. */
  lemma MalformedFileShape(name: string, read: string -> VttRead, body: string -> string)
    requires read(name).Malformed?
    ensures FileFragments(name, read, body)
         == [ErrorSectionOpen, ErrorHeading(name), ErrorText(read(name).message), SectionClose]
    ensures DataChapters(FileFragments(name, read, body)) == []
  {
    NoDataChapters(FileFragments(name, read, body));
  }

  lemma {:induction false} FilesDataChapters(names: seq<string>, read: string -> VttRead, body: string -> string)
    ensures DataChapters(FilesFragments(names, read, body)) == ParsedTitles(names, read)
  {
    if names != [] {
      var n := |names| - 1;
      FilesDataChapters(names[..n], read, body);
      DataChaptersAppend(FilesFragments(names[..n], read, body), FileFragments(names[n], read, body));
      if read(names[n]).Captions? {
        ParsedFileDataChapter(names[n], read, body);
      } else {
        MalformedFileShape(names[n], read, body);
      }
    }
  }

  /** The list is absent exactly when the listing has no `.vtt` file; otherwise it is framed
      by `<main>` and `</main>`, and neither appears inside. */
  lemma DocumentFraming(listing: seq<string>, read: string -> VttRead, body: string -> string)
    ensures Document(listing, read, body).None? <==> VttFileNames(listing) == []
    ensures Document(listing, read, body).Some? ==>
              var d := Document(listing, read, body).value;
              && |d| >= 2 && d[0] == MainOpen && d[|d| - 1] == MainClose
              && (forall k :: 0 < k < |d| - 1 ==> NotMain(d[k]))
  {
    var names := VttFileNames(listing);
    var vttFiles := SortStrings(names);
    if names != [] {
      assert names[0] in multiset(names);
      var files := FilesFragments(vttFiles, read, body);
      var d := [MainOpen] + files + [MainClose];
      assert forall k :: 0 < k < |d| - 1 ==> d[k] == files[k - 1];
    } else {
      assert |vttFiles| == 0;
    }
  }

  /** Framing a list of files' fragments with `<main>` and `</main>` adds no `data-chapter`. */
  lemma FramedHeadings(vttFiles: seq<string>, read: string -> VttRead, body: string -> string)
    ensures DataChapters([MainOpen] + FilesFragments(vttFiles, read, body) + [MainClose]) == ParsedTitles(vttFiles, read)
  {
    var files := FilesFragments(vttFiles, read, body);
    FilesDataChapters(vttFiles, read, body);
    DataChaptersAppend([MainOpen] + files, [MainClose]);
    DataChaptersAppend([MainOpen], files);
    assert DataChapters([MainOpen]) == [] && DataChapters([MainClose]) == [] by {
      assert [MainOpen][..0] == [] && [MainClose][..0] == [];
    }
  }

  /** The `data-chapter` values of the list are the titles of the files that parse, in sorted
      file-name order. */
  lemma DocumentHeadings(listing: seq<string>, read: string -> VttRead, body: string -> string)
    ensures Document(listing, read, body).Some? ==>
              DataChapters(Document(listing, read, body).value) == ParsedTitles(SortStrings(VttFileNames(listing)), read)
  {
    var vttFiles := SortStrings(VttFileNames(listing));
    if |vttFiles| > 0 {
      FramedHeadings(vttFiles, read, body);
    }
  }

  /** A fragment with its `<p>` body blanked out: what does not depend on the body. */
  function Skeleton(f: Fragment): Fragment {
    if f.Cue? then f.(body := "") else f
  }

  function Skeletons(fs: seq<Fragment>): (r: seq<Fragment>)
    ensures |r| == |fs| && forall k :: 0 <= k < |fs| ==> r[k] == Skeleton(fs[k])
  {
    if fs == [] then [] else Skeletons(fs[..|fs| - 1]) + [Skeleton(fs[|fs| - 1])]
  }

  /** Whatever goes inside the `<p>` elements, the rest of the list is the same: the same
      sections, headings, cue ids and timestamps, in the same order. */
  lemma SameSkeleton(listing: seq<string>, read: string -> VttRead, body1: string -> string, body2: string -> string)
    ensures Document(listing, read, body1).Some? == Document(listing, read, body2).Some?
    ensures Document(listing, read, body1).Some? ==>
              Skeletons(Document(listing, read, body1).value) == Skeletons(Document(listing, read, body2).value)
  {
    var vttFiles := SortStrings(VttFileNames(listing));
    if |vttFiles| > 0 {
      FilesSkeleton(vttFiles, read, body1, body2);
      var d1 := [MainOpen] + FilesFragments(vttFiles, read, body1) + [MainClose];
      var d2 := [MainOpen] + FilesFragments(vttFiles, read, body2) + [MainClose];
      assert |d1| == |d2|;
      assert forall k :: 0 <= k < |d1| ==> Skeleton(d1[k]) == Skeleton(d2[k]);
    }
  }

  lemma FileSkeleton(name: string, read: string -> VttRead, body1: string -> string, body2: string -> string)
    ensures var f1, f2 := FileFragments(name, read, body1), FileFragments(name, read, body2);
            |f1| == |f2| && forall k :: 0 <= k < |f1| ==> Skeleton(f1[k]) == Skeleton(f2[k])
  {
    if read(name).Captions? {
      ParsedFileShape(name, read, body1);
      ParsedFileShape(name, read, body2);
      var f1, f2 := FileFragments(name, read, body1), FileFragments(name, read, body2);
      forall k | 0 <= k < |f1|
        ensures Skeleton(f1[k]) == Skeleton(f2[k])
      {
        if 2 <= k < |f1| - 1 {
          var j := k - 2;
          var caption := read(name).captions[j];
          var cueId := CueId(ChapterId(Stem(name)), j);
          assert f1[j + 2] == Cue(cueId, caption.start, caption.end, body1(caption.text));
          assert f2[j + 2] == Cue(cueId, caption.start, caption.end, body2(caption.text));
        }
      }
    }
  }

  lemma {:induction false} FilesSkeleton(names: seq<string>, read: string -> VttRead, body1: string -> string, body2: string -> string)
    ensures |FilesFragments(names, read, body1)| == |FilesFragments(names, read, body2)|
    ensures forall k :: 0 <= k < |FilesFragments(names, read, body1)| ==>
              Skeleton(FilesFragments(names, read, body1)[k]) == Skeleton(FilesFragments(names, read, body2)[k])
  {
    if names != [] {
      var n := |names| - 1;
      FilesSkeleton(names[..n], read, body1, body2);
      var a1, a2 := FilesFragments(names[..n], read, body1), FilesFragments(names[..n], read, body2);
      var f1, f2 := FileFragments(names[n], read, body1), FileFragments(names[n], read, body2);
      FileSkeleton(names[n], read, body1, body2);
      assert FilesFragments(names, read, body1) == a1 + f1;
      assert FilesFragments(names, read, body2) == a2 + f2;
    }
  }

  /** A `.vtt` name whose stem has no dot loses exactly its extension. */
  lemma StemOfVttName(stem: string)
    requires stem != [] && '.' !in stem
    ensures Stem(stem + ".vtt") == stem
  {
    var name := stem + ".vtt";
    var dot := LastIndexOf(name, '.');
    assert name[|stem|] == '.';
    assert dot == |stem| by {
      assert forall i :: 0 <= i < |stem| ==> name[i] == stem[i];
      assert forall i :: |stem| < i < |name| ==> name[i] != '.';
    }
    assert name[..dot] == stem;
    assert stem[0] != '.';
  }

  /** The underscore of the file-name prefix becomes the space of the player's title. */
  lemma TitleOfChapterStem(digits: string)
    requires '_' !in digits
    ensures ChapterTitle("Narayaneeyam_D" + digits) == "Narayaneeyam D" + digits
  {
    var name: string := "Narayaneeyam";
    assert "Narayaneeyam_D" + digits == name + "_" + ("D" + digits);
    assert "Narayaneeyam D" + digits == name + " " + ("D" + digits);
    assert '_' !in name;
    assert '_' !in "D" + digits;
    UnderscoreBecomesSpace(name, "D" + digits);
  }

  lemma UnderscoreBecomesSpace(before: string, after: string)
    requires '_' !in before && '_' !in after
    ensures ChapterTitle(before + "_" + after) == before + " " + after
  {
    ReplaceCharAppend(before + "_", after, '_', " ");
    ReplaceCharAppend(before, "_", '_', " ");
    ReplaceCharAbsent(before, '_', " ");
    ReplaceCharAbsent(after, '_', " ");
    ReplaceOne('_', '_', " ");
  }

  /** For the selector's chapter `n`, the file `Narayaneeyam_D<nnn>.vtt` yields a heading whose
      `data-chapter`, once the browser decodes its references, is exactly the title the player
      searches for, so the player's lookup of that chapter finds it. */
  lemma HeadingMatchesPlayerSearch(n: nat)
    requires 1 <= n <= Chapters.ChapterCount
    ensures var digits := Chapters.OptionFor(n).value;
            var stem := Stem("Narayaneeyam_D" + digits + ".vtt");
            var attribute := Heading(ChapterTitle(stem)).DataChapter().value;
            && stem == "Narayaneeyam_D" + digits
            && Unescape(attribute) == Chapters.SearchTitle(digits)
            && ChapterContent.TitleMatches(
                 ChapterContent.Node("H2", Some(Unescape(attribute)), None, None), Chapters.SearchTitle(digits))
  {
    var digits := Chapters.OptionFor(n).value;
    Chapters.OptionValueIsPaddedNumber(n);
    assert '.' !in digits && '_' !in digits by {
      assert forall i :: 0 <= i < |digits| ==> IsDigit(digits[i]);
    }
    var stem := "Narayaneeyam_D" + digits;
    assert '.' !in stem by {
      assert forall i :: 0 <= i < |stem| ==> stem[i] != '.';
    }
    StemOfVttName(stem);
    TitleOfChapterStem(digits);
    UnescapeEscape(ChapterTitle(stem));
  }
}
