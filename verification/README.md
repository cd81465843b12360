# Narayaneeyam player and page generators, modelled in Dafny

The Narayaneeyam player is a web page that plays the recitation of one chapter (a *dashakam*)
and highlights each verse line as it is sung. Two Python scripts build the pages it reads:
`src/generate_html.py` turns a directory of WebVTT caption files into one HTML document of
Devanagari text, and `src/generate_transliterated_html.py` builds the same document with the
text transliterated to IAST. `Player.js` fills the chapter selector, fetches both documents,
cuts out the selected chapter, and keeps a highlight in step with the audio as its time moves.

The model has one Dafny module per concern:

- `Chapters`: the 100 selector options, the zero-padded chapter string, the audio path and the
  heading title searched for.
- `ChapterContent`: `extractChapterContent` over a document abstracted as sibling lists of
  elements.
- `TimeParse`: `parseTime`, as the code computes it and as it was evidently meant.
- `CueSync`: the `timeupdate` and `ended` handlers as functions on the synchroniser's state,
  and the invariant they keep.
- `PlayerPage`: the page script as a class. Its module-level variables are fields and each
  handler is a method, tied to those functions.
- `HtmlEscape`: `html.escape` and the `\n` to `<br>` replacement, with the decoding a browser
  applies.
- `ShlokaMarker`: the verse-marker regular expression.
- `Sorting`: Python's `sorted` on file names.
- `VttHtml`: the fragment list both scripts build. It is parameterised by the `<p>` body, the
  one thing in which they differ.
- `GenerateHtml` and `GenerateTransliteratedHtml`: the two scripts' loops and their bodies.
- `Text`, `Decimal` and `Wrappers`: shared string, number and option helpers.

`parseTime` is modelled as the code is written. Its local variables are named `hours`,
`minutes` and `seconds` (Player.js:225), and its branches for three, two and one `:`-separated
parts (Player.js:227-236) weight them by 3600, 60 and 1, so it is evidently meant to read
hours:minutes:seconds, and `"01:02:03.5"` should give 3723.5. The code passes the whole
array of parts to `parseInt` and `parseFloat`, and JavaScript joins that array with commas. So
only the first component is ever read, and that string gives 3661 (see "Findings"). The
synchroniser is modelled on the parser as written, because that is what the page does. One
consequence is proved: a cue whose timestamps start with `00:`, the hour field of every WebVTT
timestamp under an hour, reads as the empty interval [0, 0), so it is never highlighted
(`CueSync.UnderAnHourCueNeverActive`). Another is `CueSync.RewindOnlyWithoutActiveCue`: the
segment repeat rewinds only at a time when no cue is active.

## Model

| member | source | states |
|---|---|---|
| Chapters.BuildChapterOptions | Player.js:25-31 | exactly 100 options; option k (from 0) is chapter k+1, with value `String(k+1)` padded to three digits and label `Dashakam k+1` |
| Chapters.OptionFor | Player.js:26-29 | the option the loop creates for `i`: value `String(i).padStart(3, '0')`, text `Dashakam ${i}`; what it holds is stated by `BuildChapterOptions` and `OptionValueIsPaddedNumber` |
| Chapters.OptionValueIsPaddedNumber | Player.js:27-28 | every option value is three decimal digits whose value is its chapter number |
| Chapters.OptionValuesDistinct | Player.js:25-31 | different chapters get different option values |
| Chapters.ChapterPathAndTitle | Player.js:35-36 | for chapter n, the audio path is `Audio_Sync_S_Verses_Only/Narayaneeyam_D` + the three digits + `.mp3` and the search title is `Narayaneeyam D` + the three digits; padding the already padded selector value changes neither |
| Chapters.ChapterPadded | Player.js:35 | `String(chapterNumber).padStart(3, '0')`; `Decimal.Pad3`, `Pad3Value` and `Pad3Idempotent` state what padding gives |
| Chapters.AudioPath | Player.js:35-36 | the template `Audio_Sync_S_Verses_Only/Narayaneeyam_D${chapterPadded}.mp3`; its value is stated by `ChapterPathAndTitle` |
| Chapters.SearchTitle | Player.js:61 | the template `Narayaneeyam D${chapterPadded}`; its value is stated by `ChapterPathAndTitle` and matched against the generated headings by `VttHtml.HeadingMatchesPlayerSearch` |
| Decimal.NatToString | Player.js:27 | `String(i)`: a non-empty digit string, with no leading zero, whose value is i |
| Decimal.NatToStringInjective | Player.js:27 | different numbers have different decimal forms |
| Decimal.Pad3 | Player.js:35 | `padStart(3, '0')`: length max(3, len), the input as suffix, zeros before it |
| Decimal.Pad3Value | Player.js:35 | padding a digit string keeps its value |
| Decimal.Pad3Idempotent | Player.js:35 | padding an already padded value leaves it as it is |
| ChapterContent.Headings | Player.js:67 | `querySelectorAll('h2[data-chapter]')`: every chapter heading of the document, each once, in document order |
| ChapterContent.IsChapterHeading | Player.js:67 | the selector `h2[data-chapter]`: an `H2` element with a `data-chapter` attribute; `Headings` finds exactly these |
| ChapterContent.TitleMatches | Player.js:69 | the test `h2.dataset.chapter.trim() === chapterTitleToSearch.trim()`; `Text.TrimmedEnds` states what each `trim()` keeps |
| ChapterContent.FirstHeadingMatch | Player.js:67-69 | the heading the `for … of` loop stops at with its `break`, as a position in the document; specified by `FirstHeadingMatchIsFirst` |
| ChapterContent.FirstHeadingMatchIsFirst | Player.js:67-69 | the heading found is one whose trimmed value equals the trimmed title, no earlier heading in document order matches, and none is found only when no heading matches |
| ChapterContent.NextH2 | Player.js:71-75 | the first `H2` at or after a position, or the end of the sibling list, with no `H2` in between |
| ChapterContent.ChapterContent | Player.js:66-79 | what `extractChapterContent` leaves in its array; `ChapterContentIsFirstRun` characterises it and `ExtractChapterContent` computes it with the source's loops |
| ChapterContent.ChapterContentIsFirstRun | Player.js:66-79 | the content is empty exactly when no heading carries the title; otherwise it is the first matching heading and its later siblings up to the next `H2` or the end of the parent; later matches are ignored |
| ChapterContent.CollectRun | Player.js:71-75 | the sibling walk collects the heading and its later siblings up to the next `H2` or the end of the parent |
| ChapterContent.ExtractChapterContent | Player.js:66-79 | the loop with its inner sibling walk leaves exactly that content in the array |
| TimeParse.ParseTime | Player.js:221-239 | the time as written; never negative, and 0 for an absent or empty attribute (the falsy test of Player.js:222) |
| TimeParse.ParseIntPrefix | Player.js:228-232 | `parseInt(…, 10)`: the value of the leading decimal digits, or none (NaN); `ParseIntNaN` and `PrefixesStopAtComma` state what it reads |
| TimeParse.ParseFloatPrefix | Player.js:230-235 | `parseFloat`: the leading digits with an optional `.digits` fraction, never negative, or none (NaN); `FloatPrefixOfDecimal` gives its value |
| TimeParse.FloatPrefixOfDecimal | Player.js:230-235 | `parseFloat` of `w.f`, with w a non-empty digit string and f digits, is the value of w plus the fraction 0.f |
| TimeParse.IntPrefixOfDigits | Player.js:228-232 | `parseInt(…, 10)` of a non-empty digit string is its decimal value |
| TimeParse.ParseIntNaN | Player.js:228 | `parseInt` yields NaN (then `|| 0`) exactly when the text does not start with a digit |
| TimeParse.PrefixesStopAtComma | Player.js:228-235 | the comma of the joined array ends both number prefixes, so the later parts are never read |
| TimeParse.ParseTimeReadsFirstComponent | Player.js:221-239 | with a and f the leading integer and decimal of the first `:`-component (NaN read as 0), the result is f, 60a+f, or 3600a+60a+f for one, two or three parts, and 0 for four or more |
| TimeParse.ZeroFirstComponentReadsAsZero | Player.js:227-230 | a first component made only of zeros, such as the `00` of `00:01:05.000`, makes the time 0 |
| TimeParse.AsWrittenReadsHoursThrice | Player.js:227-230 | `h:m:s.f` made of digits reads as 3661·h, whatever m, s and f are |
| TimeParse.ParseTimeMisreadsExample | Player.js:227-230 | `01:02:03.5` reads as 3661 |
| TimeParse.ParseTimeIntended | Player.js:220-239 | the corrected parser, each of hours, minutes and seconds read from its own part; never negative |
| TimeParse.IntendedReadsEachComponent | Player.js:220-239 | the corrected parser reads `h:m:s.f` as 3600h + 60m + s + 0.f |
| TimeParse.IntendedExample | Player.js:220-239 | the corrected parser reads `01:02:03.5` as 3723.5 |
| TimeParse.SplitThree | Player.js:224 | `split(':')` of `h:m:r` with colon-free fields gives exactly those fields |
| Text.Split | Player.js:224 | `split(':')`: one more part than there are separators |
| Text.SplitPartsExcludeSeparator | Player.js:224 | no part of `split(':')` contains a colon |
| Text.SplitJoin | Player.js:224-228 | splitting what was joined gives the parts back |
| Text.Join | Player.js:228 | the comma-joined text JavaScript makes of the `parts` array passed to `parseInt` and `parseFloat`; `SplitJoin` proves it undoes `split` |
| CueSync.Active | Player.js:160-163 | the test `currentTime >= startTime && currentTime < endTime`, with both bounds read by `parseTime`; `UnderAnHourCueNeverActive` shows what that parser makes of it |
| CueSync.ActiveAt | Player.js:160-163 | the same test at a fixed time, as the predicate the scan applies to each cue |
| CueSync.FirstMatch | Player.js:158-176 | the index the `for` loop stops at with its `break`, always within the list; specified by `FirstMatchCharacterised` and `NoMatchCharacterised`, and computed by `PlayerPage.FindActiveCue` |
| CueSync.FirstMatchCharacterised | Player.js:159-174 | the loop stops at i exactly when cue i is active and no earlier cue is |
| CueSync.NoMatchCharacterised | Player.js:177 | the loop finds nothing exactly when no cue is active |
| CueSync.Scan | Player.js:158-180 | the cue loop and the clear after it as a function of the synchroniser's state; specified by `ScanSelectsFirstActive` and `ScanIdempotent` |
| CueSync.ScanSelectsFirstActive | Player.js:158-180 | the cue scan alone: the first active cue becomes current cue and subsection cue and the only highlighted element, or with none active the highlight and current cue are cleared and the subsection cue kept; time, cue list and flags stay |
| CueSync.ScanIdempotent | Player.js:158-180 | a second scan at the same time and over the same cues changes nothing |
| CueSync.TimeUpdate | Player.js:151-188 | the whole `timeupdate` handler as a function of the state; specified by `TimeUpdateSelectsFirstActive`, `RewindOnlyWithoutActiveCue` and `TimeUpdateIdempotent` |
| CueSync.TimeUpdateSelectsFirstActive | Player.js:151-188 | from a coherent state: with no cues nothing changes; otherwise the first active cue becomes current cue and subsection cue and is the only highlighted element; with none active the highlight and current cue are cleared and the subsection cue is kept; the cue list, flags and play state never change; the state stays coherent |
| CueSync.SameCueChangesNothing | Player.js:164-175 | when the first active cue is already current, the handler changes nothing |
| CueSync.RewindOnlyWithoutActiveCue | Player.js:182-187 | the handler changes the time only when the repeat flag is on, a subsection cue is kept, no cue is active and the time is at or past that cue's end; the time then becomes its start |
| CueSync.SegmentRepeatRewinds | Player.js:177-187 | in exactly that situation the time is sent back to the subsection cue's start |
| CueSync.TimeUpdateIdempotent | Player.js:151-188 | a step that did not rewind leaves a state the next step at the same time does not change |
| CueSync.Ended | Player.js:201-213 | the `ended` handler as a function of the state; specified by `EndedEffect` |
| CueSync.EndedEffect | Player.js:201-213 | with repeat-chapter the time goes to 0 and nothing else changes; without it playback stops, there is no highlight and no current cue, and nothing else changes (time, cue list, subsection cue and both repeat flags stay); both keep coherence |
| CueSync.UnderAnHourCueNeverActive | Player.js:160-163 | a cue whose start and end both have an all-zero first component is never active |
| PlayerPage.IsCueNode | Player.js:114 | the selector `p[data-start]`: a `P` element with a `data-start` attribute; `CueNodesMembers` and `CueNodesSingleton` show the filter keeps exactly these |
| PlayerPage.CueNodes | Player.js:114 | `querySelectorAll('p[data-start]')` on the rendered content: no more nodes than the content has; `CueNodesMembers`, `CueNodesAppend` and `CueNodesSingleton` give its members and order |
| PlayerPage.CueNodesMembers | Player.js:114 | `querySelectorAll('p[data-start]')`: only cue paragraphs of the content, and every one of them |
| PlayerPage.CueNodesAppend | Player.js:114 | the cue nodes of a concatenation are those of each part, in order, so the result keeps the content's order |
| PlayerPage.CueNodesSingleton | Player.js:114 | a single node is found exactly when it is a `p` with `data-start` |
| PlayerPage.RenderCues | Player.js:108-114 | rendering makes one new, distinct element per cue paragraph, carrying its `data-start` and `data-end` |
| PlayerPage.Player.constructor | Player.js:12-31 | every flag off, both content lists `null`, no cue, nothing highlighted, and the selector holds the 100 options |
| PlayerPage.Player.OnTimeUpdate | Player.js:151-188 | the handler's new state is `TimeUpdate` of the old; the page is untouched; coherence is kept |
| PlayerPage.FindActiveCue | Player.js:158-176 | the `for` loop with its `break` stops at the first cue, in list order, with start ≤ t < end, or at none when no cue is active |
| PlayerPage.Player.ScanCues | Player.js:158-180 | the cue loop with its `break` and the clear after it compute `Scan` of the old state |
| PlayerPage.Player.OnEnded | Player.js:201-213 | the new state is `Ended` of the old; coherence is kept |
| PlayerPage.Player.TogglePlayPause | Player.js:126-135 | flips `isPlaying` and nothing else |
| PlayerPage.Player.ToggleRepeatChapter | Player.js:196-199 | flips `isRepeatingChapter` and nothing else |
| PlayerPage.Player.ToggleRepeatSubsection | Player.js:215-218 | flips `isRepeatingSubsection` and nothing else |
| PlayerPage.Player.UpdateTextDisplay | Player.js:106-119 | while the selected list is still `null`, the `join` throws and nothing changes; otherwise the panel shows the list the toggle selects, the cue list is re-derived from its new elements, and the `timeupdate` step runs on it |
| PlayerPage.Player.ToggleTransliteration | Player.js:137-140 | flips the toggle; before any successful load only the flag changes (the redisplay throws), otherwise the other list is redisplayed |
| PlayerPage.Player.LoadChapter | Player.js:34-98 | the audio path is set first; assigning it resets the playback position to 0; on success both content lists become the chapter's runs in the two documents and the display is updated at time 0 with newly rendered cue elements; on failure the panel shows an error, the cue list becomes empty, and the content lists and the rest of the synchroniser stay |
| PlayerPage.Player.ShowChapter | Player.js:81-92 | stores both runs and redisplays |
| PlayerPage.Player.ShowLoadError | Player.js:94-98 | error panel, empty cue list, all else unchanged |
| PlayerPage.Player.InitialLoad | Player.js:242 | the first load is `loadChapterContent` of the selector's first option: its audio path and the position reset to 0, and on success both content lists and the display, on failure the error panel and an empty cue list |
| ShlokaMarker.ShlokaMarkerIsPatternSearch | src/generate_html.py:10-33 | `ends_with_shloka_marker` is false for empty text, and otherwise true exactly when the unanchored regular expression finds a match, that is, when the text without trailing whitespace ends in `।` or `॥` |
| ShlokaMarker.EndsWithShlokaMarker | src/generate_html.py:10-33 | `ends_with_shloka_marker`: false for empty text, else whether the trimmed text ends in a danda; `ShlokaMarkerIsPatternSearch` proves this is the regular-expression search |
| ShlokaMarker.MarkerGivesMatch | src/generate_html.py:27-33 | when the trimmed text ends in a danda, the pattern matches at that danda |
| ShlokaMarker.MatchGivesMarker | src/generate_html.py:27-33 | any match forces the trimmed text to end in a danda |
| ShlokaMarker.GroupEndsInDanda | src/generate_html.py:27 | every text the marker group matches ends in a danda or double danda |
| Text.TrimEndIsPrefix | src/generate_html.py:27 | trimming trailing whitespace keeps a prefix and drops only whitespace |
| Text.TrimStartIsSuffix | src/generate_html.py:64 | trimming leading whitespace keeps a suffix, which does not start with whitespace, and drops only whitespace |
| Text.TrimmedEnds | src/generate_html.py:64 | `strip()` gives a slice of the input with no whitespace at either end, and everything dropped before and after it is whitespace |
| Text.PyStrip | src/generate_html.py:64 | Python's `str.strip()` with its whitespace set; `TrimmedEnds` states what it keeps and drops |
| Text.JsTrim | Player.js:69 | JavaScript's `trim()` with its whitespace set; `TrimmedEnds` states what it keeps and drops |
| Text.ReplaceChar | src/generate_html.py:57-58 | after `replace(c, r)` with c not in r, c no longer occurs |
| Text.ReplaceCharFrom | src/generate_html.py:65 | every character of a replacement's result comes from the input or the replacement text |
| Text.LowerAscii | src/generate_html.py:57 | `lower()` changes each ASCII capital to its small letter and nothing else |
| Text.CountCharZero | src/generate_html.py:65 | a character count is zero exactly when the character is absent |
| HtmlEscape.Escape | src/generate_html.py:61 | `html.escape` with `quote=True`; specified by `EscapeHasNoMarkup`, `EscapeIsCharwise` and `UnescapeEscape` |
| HtmlEscape.EscapeBreaks | src/generate_html.py:65 | `html.escape(raw_text).replace('\n', '<br>')`; specified by `EscapeBreaksHasNoMarkup` and `EscapeBreaksRoundTrip` |
| HtmlEscape.EscapeHasNoMarkup | src/generate_html.py:61 | `html.escape` output has no `<`, `>`, `"` or `'` |
| HtmlEscape.EscapeIsCharwise | src/generate_html.py:61 | the five ordered replacements equal escaping each character on its own (`&` first, so no reference is escaped twice) |
| HtmlEscape.EscapeAppend | src/generate_html.py:61 | escaping distributes over concatenation |
| HtmlEscape.UnescapeEscape | src/generate_html.py:61 | decoding the references of escaped text gives the text back |
| HtmlEscape.EscapeBreaksHasNoMarkup | src/generate_html.py:65 | the written caption text has no newline and no quote, and each of its `<` starts a `<br>` |
| HtmlEscape.EscapeBreaksRoundTrip | src/generate_html.py:65 | turning each `<br>` back into a newline and decoding the references gives the stripped text back |
| HtmlEscape.BreaksMatchNewlines | src/generate_html.py:65 | the number of `<br>` tags equals the number of newlines in the stripped text |
| HtmlEscape.EscapeKeepsNewlines | src/generate_html.py:65 | escaping keeps every newline |
| Sorting.LexLeq | src/generate_html.py:41 | Python's `<=` on strings, which `sorted` uses: code point by code point, a prefix first; `LexLeqTotal` proves it total and `SortStrings` sorts by it |
| Sorting.LexLeqTotal | src/generate_html.py:41 | any two file names are ordered one way or the other |
| Sorting.Insert | src/generate_html.py:41 | inserting into a sorted list keeps it sorted and adds exactly the element |
| Sorting.SortStrings | src/generate_html.py:41 | `sorted`: the result is ordered and a permutation of the input |
| VttHtml.IsVttName | src/generate_html.py:41 | the comprehension's condition `f.endswith('.vtt')` |
| VttHtml.VttFileNames | src/generate_html.py:41 | the comprehension `[f for f in os.listdir(vtt_dir) if f.endswith('.vtt')]`: no longer than the listing; `VttFileNamesMembers`, `VttFileNamesAppend` and `VttFileNamesSingleton` give its members and order |
| VttHtml.VttFileNamesMembers | src/generate_html.py:41 | the kept names are exactly the listed names ending in `.vtt` |
| VttHtml.VttFileNamesAppend | src/generate_html.py:41 | the names kept from a concatenation are those kept from each part, in order, so the listing's order and repetitions are kept |
| VttHtml.VttFileNamesSingleton | src/generate_html.py:41 | a single name is kept exactly when it ends in `.vtt` |
| VttHtml.LastIndexOf | src/generate_html.py:56 | the index of the last occurrence of a character, or -1 when there is none |
| VttHtml.Stem | src/generate_html.py:56 | the first half of `os.path.splitext`; `StemOfVttName` states it on `.vtt` names |
| VttHtml.StemOfVttName | src/generate_html.py:56 | `splitext` of a `.vtt` name with a dot-free stem gives that stem |
| VttHtml.ChapterId | src/generate_html.py:57 | the chapter id has the stem's length and contains no space |
| VttHtml.ChapterTitle | src/generate_html.py:58 | the chapter title contains no underscore |
| VttHtml.CueId | src/generate_html.py:72 | `f"cue_{chapter_id}_{i}"`; `CueIdsDistinct` proves different indices give different ids |
| VttHtml.CueIdsDistinct | src/generate_html.py:72 | within a chapter, `cue_<id>_<i>` differs for different i |
| VttHtml.CueFragments | src/generate_html.py:63-77 | the caption loop's `<p>` fragments: exactly one per caption, each a cue paragraph; `CueFragmentsAt` gives the k-th |
| VttHtml.CueFragmentsAt | src/generate_html.py:63-77 | the k-th `<p>` has id `cue_<id>_<k>`, copies caption k's start and end, and holds caption k's body |
| VttHtml.SectionShape | src/generate_html.py:60-79 | whatever the `<p>` body, a section is its opening, one heading, the caption `<p>`s in order with their ids and timestamps, then the close |
| VttHtml.FileFragments | src/generate_html.py:53-86 | the `try`/`except` body for one file: no fragment is `<main>` or `</main>`; `ParsedFileShape` and `MalformedFileShape` give the two cases |
| VttHtml.ParsedFileShape | src/generate_html.py:53-79 | a file that parses adds its section opening, one heading with its title, one `<p>` per caption in order, then the section close |
| VttHtml.Fragment.Render | src/generate_html.py:60-86 | the text of each appended f-string or literal; `HeadingText`, `ErrorHeadingText` and `DataChapterIsRendered` state what the two `<h2>` forms write |
| VttHtml.HeadingText | src/generate_html.py:61 | the chapter heading's text opens with `<h2 data-chapter="`, followed by the escaped title and `">` |
| VttHtml.ErrorHeadingText | src/generate_html.py:84 | the error heading's text does not open with `<h2 data-chapter="` |
| VttHtml.DataChapterIsRendered | src/generate_html.py:61-84 | of the two `<h2>` fragments, the written text opens with `<h2 data-chapter="` exactly for the chapter heading, and the attribute value written there, closed by `">`, is the escaped title, which holds no quote |
| VttHtml.ParsedFileDataChapter | src/generate_html.py:60-79 | such a file carries exactly one `data-chapter`, the escaped title |
| VttHtml.MalformedFileShape | src/generate_html.py:81-86 | a malformed file adds the error section, whose heading has no `data-chapter` |
| VttHtml.FilesFragments | src/generate_html.py:49-86 | what the outer `for` over the sorted files appends, file after file, with no `<main>` or `</main>` among them; `FilesFragmentsStep` gives one more file, `FilesDataChapters` the headings |
| VttHtml.FilesDataChapters | src/generate_html.py:49-86 | the files' `data-chapter` values are the titles of the files that parse, in the given order |
| VttHtml.FilesFragmentsStep | src/generate_html.py:49-86 | one more pass of the file loop appends exactly that file's fragments |
| VttHtml.DocumentFraming | src/generate_html.py:41-47 | nothing is written exactly when there is no `.vtt` file; otherwise the list starts with `<main>`, ends with `</main>`, and has neither inside |
| VttHtml.Document | src/generate_html.py:41-88 | the `all_text_content` list, or none on the early `return`; specified by `DocumentFraming` and `DocumentHeadings` |
| VttHtml.DocumentHeadings | src/generate_html.py:41-88 | the document's `data-chapter` values follow the sorted file names |
| VttHtml.SameSkeleton | src/generate_transliterated_html.py:27-44 | whatever the `<p>` bodies are, the two documents agree on everything else: sections, headings, cue ids and timestamps, in order |
| VttHtml.TitleOfChapterStem | src/generate_html.py:58 | the stem `Narayaneeyam_D<digits>` gives the title `Narayaneeyam D<digits>` |
| VttHtml.HeadingMatchesPlayerSearch | src/generate_html.py:56-61 | for selector chapter n, the file `Narayaneeyam_D<nnn>.vtt` yields a heading whose decoded `data-chapter` equals the player's search title, so `extractChapterContent` matches it (see Player.js:61, 69) |
| GenerateHtml.TextBodyWrappedIffMarker | src/generate_html.py:64-70 | a `<p>` body opens with a tag exactly when the stripped text ends in a verse marker, and that tag is the `cue-text` span; the span's content decodes back to the stripped text |
| GenerateHtml.TextBody | src/generate_html.py:64-70 | `text_content`: the escaped stripped text, in the `cue-text` span when it ends in a verse marker; specified by `TextBodyWrappedIffMarker` |
| GenerateHtml.EscapedBodyStartsPlain | src/generate_html.py:64-65 | escaped stripped text never begins with `<` |
| GenerateHtml.ConvertFile | src/generate_html.py:53-86 | one pass of the file loop, with its caption loop, adds exactly that file's fragments |
| GenerateHtml.ConvertVttToHtml | src/generate_html.py:35-88 | the script's list is the document built from the sorted `.vtt` names with the span-wrapped escaped bodies, or nothing when there is no `.vtt` file |
| GenerateTransliteratedHtml.TranslitBodyIsBareText | src/generate_transliterated_html.py:35-44 | a `<p>` body is never wrapped: its only tags are `<br>`, one per newline of the transliterated text, and it decodes back to that text |
| GenerateTransliteratedHtml.TranslitBody | src/generate_transliterated_html.py:35-37 | `escaped_text`: the stripped text, transliterated, escaped, newlines made `<br>`; specified by `TranslitBodyIsBareText` |
| GenerateTransliteratedHtml.SameStructureAsTextPage | src/generate_transliterated_html.py:27-44 | both scripts write nothing for the same inputs; otherwise their documents have the same skeleton and the same `data-chapter` values |
| GenerateTransliteratedHtml.ConvertFile | src/generate_transliterated_html.py:25-53 | one pass of the file loop adds exactly that file's fragments |
| GenerateTransliteratedHtml.ConvertVttToTransliteratedHtml | src/generate_transliterated_html.py:11-55 | the script's list is the document built from the sorted `.vtt` names with the transliterated, escaped bodies, or nothing when there is no `.vtt` file |

## Left out

- The DOM is abstracted. Parsing fetched HTML into elements, serialising with `outerHTML`, the `innerHTML` round trip, `classList` and button labels are not modelled. A document is sibling lists of elements with a tag and optional `data-chapter`, `data-start` and `data-end`. The highlight is a set of elements.
- `fetch`, `Promise.all` and the `await` points are not modelled. A load's result is an input: both documents, or a failure. Two overlapping loads racing each other are not modelled.
- Apart from the playback position going back to 0 when a new source is assigned, the audio element's `load`, `play`, `pause`, `playbackRate` and `volume` are left out as media side effects. So are the speed and volume listeners, whose values come from `parseFloat`.
- The `seeked` listener and the synthetic `timeupdate` dispatch are modelled as direct calls of the `timeupdate` method.
- The console messages, and the text of the error paragraph and of the buttons, are left out.
- `parseInt` and `parseFloat` are modelled only on unsigned digits with an optional `.digits`. Signs, exponents, `Infinity` and leading whitespace are left out. Times are Dafny reals, not IEEE doubles.
- `currentChapterText` starts as `null` in the page and as the empty list here. The `timeupdate` handler returns early on both, so nothing observable differs.
- `currentChapterContent` and `currentTransliteratedContent` start as `null`, modelled as `None`. The TypeError that `updateTextDisplay` then throws is modelled as the handler ending with nothing changed. The console report of the uncaught error is left out.
- `webvtt.read` is an input function from file name to captions or a malformed-file message. Its timestamp formatting and other exceptions are not modelled.
- `indic_transliteration.transliterate` is an uninterpreted input function.
- `os.listdir` is an input list of names; `os.path.join` and file writing are left out.
- The HTML template, CSS and the final `" ".join` are left out. The model stops at the fragment list.
- VttHtml.ChapterId: lowers ASCII capitals only, where Python's `lower()` also lowers other alphabets.
- VttHtml.Stem: follows `splitext` for names without a path separator, which is what a directory listing gives.
- Sorting.SortStrings: Python's sort is stable and the model's insertion sort is too, but stability is not stated, since equal names cannot occur in one directory.

## Findings

| source | as written | input that shows it | evidently intended | confidence | as-written member | corrected member |
|---|---|---|---|---|---|---|
| Player.js:227-235 | `parseInt(parts, 10)` and `parseFloat(parts)` receive the whole array, which becomes the comma-joined text, so hours, minutes and seconds are all read from the first component | `"01:02:03.5"` gives 3661 | 3600·h + 60·m + s, so 3723.5 | high (not executed) | TimeParse.ParseTimeMisreadsExample | TimeParse.IntendedExample |
