/** The page script of Player.js as an object: its module-level variables are fields, each
    event handler is a method, and each method is tied to the functions of `CueSync`,
    `ChapterContent` and `Chapters` that say what it does. */
module PlayerPage {
  import opened Wrappers
  import opened Text
  import opened Chapters
  import opened ChapterContent
  import opened CueSync
  import opened TimeParse

  /** What the text panel (`textContainer`) shows. */
  datatype Panel = Blank | Showing(content: seq<Node>) | LoadError

  /** How the two fetches of a chapter load end: both documents parsed, or a failure (a
      rejected fetch or a response whose status is not ok). */
  datatype LoadOutcome = Fetched(text: Document, transliteration: Document) | FetchFailed

  /** Matches the selector `p[data-start]`. */
  predicate IsCueNode(n: Node) {
    n.tag == "P" && n.start.Some?
  }

  /** The nodes of a content list that the selector `p[data-start]` finds, in order. */
  function CueNodes(content: seq<Node>): (r: seq<Node>)
    ensures |r| <= |content|
  {
    Filter(content, IsCueNode)
  }

  /** The selector finds only cue paragraphs of the content, and every one of them. */
  lemma CueNodesMembers(content: seq<Node>)
    ensures forall i :: 0 <= i < |CueNodes(content)| ==> IsCueNode(CueNodes(content)[i]) && CueNodes(content)[i] in content
    ensures forall n :: n in content && IsCueNode(n) ==> n in CueNodes(content)
  {
    FilterMembers(content, IsCueNode);
  }

  /** The selector keeps document order: the cue nodes of a concatenation are those of each
      part, in order. */
  lemma CueNodesAppend(a: seq<Node>, b: seq<Node>)
    ensures CueNodes(a + b) == CueNodes(a) + CueNodes(b)
  {
    FilterAppend(a, b, IsCueNode);
  }

  /** One node is found exactly when it is a cue paragraph. */
  lemma CueNodesSingleton(n: Node)
    ensures CueNodes([n]) == if IsCueNode(n) then [n] else []
  {
    FilterSingleton(n, IsCueNode);
  }

  /** The rendered cue elements correspond one for one, in order, to the cue nodes. */
  predicate RenderedFrom(cues: seq<CueElement>, content: seq<Node>) {
    var nodes := CueNodes(content);
    && |cues| == |nodes|
    && forall i :: 0 <= i < |cues| ==> cues[i].start == nodes[i].start && cues[i].end == nodes[i].end
  }

  /** Rendering content into the panel: one new element per cue node. */
  method RenderCues(content: seq<Node>) returns (cues: seq<CueElement>)
    ensures RenderedFrom(cues, content)
    ensures forall i :: 0 <= i < |cues| ==> fresh(cues[i])
    ensures forall i, j :: 0 <= i < j < |cues| ==> cues[i] != cues[j]
  {
    var nodes := CueNodes(content);
    cues := [];
    for i := 0 to |nodes|
      invariant |cues| == i
      invariant forall k :: 0 <= k < i ==> cues[k].start == nodes[k].start && cues[k].end == nodes[k].end
      invariant forall k :: 0 <= k < i ==> fresh(cues[k])
      invariant forall k, l :: 0 <= k < l < i ==> cues[k] != cues[l]
    {
      var element := new CueElement(nodes[i].start, nodes[i].end);
      cues := cues + [element];
    }
  }

  /** The page state that is not the synchroniser's. */
  datatype PageState = PageState(
    content: Option<seq<Node>>,
    transliteratedContent: Option<seq<Node>>,
    showTransliteration: bool,
    audioSrc: string,
    panel: Panel,
    options: seq<ChapterOption>)

  /** The loop of the `timeupdate` handler: it stops at the first cue whose parsed start and end
      enclose `t`. */
  method FindActiveCue(cues: seq<CueElement>, t: real) returns (found: Option<nat>)
    ensures found == FirstMatch(cues, t)
  {
    found := None;
    var i := 0;
    while i < |cues|
      invariant 0 <= i <= |cues|
      invariant FirstMatch(cues, t) == FirstFrom(cues, i, ActiveAt(t))
    {
      var p := cues[i];
      var startTime := ParseTime(p.start);
      var endTime := ParseTime(p.end);
      if t >= startTime && t < endTime {
        found := Some(i);
        return;
      }
      i := i + 1;
    }
  }

  class Player {
    var currentTime: real
    var isPlaying: bool
    var isRepeatingChapter: bool
    var isRepeatingSubsection: bool
    var currentChapterText: seq<CueElement>
    var currentSubsectionCue: CueElement?
    var currentCueElement: CueElement?
    var highlighted: set<CueElement>
    var currentChapterContent: Option<seq<Node>>
    var currentTransliteratedContent: Option<seq<Node>>
    var isDisplayingTransliteration: bool
    var audioSrc: string
    var panel: Panel
    var chapterOptions: seq<ChapterOption>

    ghost function Sync(): SyncState
      reads this
    {
      SyncState(currentTime, currentChapterText, currentCueElement, currentSubsectionCue, highlighted,
                isRepeatingSubsection, isRepeatingChapter, isPlaying)
    }

    ghost function Page(): PageState
      reads this
    {
      PageState(currentChapterContent, currentTransliteratedContent, isDisplayingTransliteration,
                audioSrc, panel, chapterOptions)
    }

    /** The content list the panel is meant to show: `isDisplayingTransliteration` picks it.
        Both lists are `null` (here `None`) until a load succeeds. */
    function Shown(): Option<seq<Node>>
      reads this
    {
      if isDisplayingTransliteration then currentTransliteratedContent else currentChapterContent
    }

    /** The synchroniser's invariant, the selector's 100 options, and the two content lists,
        which are only ever set together. */
    ghost predicate Valid()
      reads this
    {
      && Coherent(Sync()) && |chapterOptions| == ChapterCount
      && (currentChapterContent.Some? <==> currentTransliteratedContent.Some?)
    }

    /** The `DOMContentLoaded` setup: every flag off, no content, no cue, and the selector filled. */
    constructor ()
      ensures Valid()
      ensures Sync() == SyncState(0.0, [], null, null, {}, false, false, false)
      ensures currentChapterContent.None? && currentTransliteratedContent.None?
      ensures !isDisplayingTransliteration && panel == Blank
      ensures forall k :: 0 <= k < |chapterOptions| ==> chapterOptions[k] == OptionFor(k + 1)
    {
      currentTime := 0.0;
      isPlaying := false;
      isRepeatingChapter := false;
      isRepeatingSubsection := false;
      currentChapterText := [];
      currentSubsectionCue := null;
      currentCueElement := null;
      highlighted := {};
      currentChapterContent := None;
      currentTransliteratedContent := None;
      isDisplayingTransliteration := false;
      audioSrc := "";
      panel := Blank;
      new;
      chapterOptions := BuildChapterOptions();
    }

    /** The `timeupdate` handler. */
    method OnTimeUpdate()
      requires Valid()
      modifies this
      ensures Valid()
      ensures Sync() == TimeUpdate(old(Sync()))
      ensures Page() == old(Page())
    {
      var t := currentTime;
      if |currentChapterText| == 0 {
        return;
      }
      ScanCues();
      if isRepeatingSubsection && currentSubsectionCue != null {
        var endTime := ParseTime(currentSubsectionCue.end);
        if t >= endTime {
          currentTime := ParseTime(currentSubsectionCue.start);
        }
      }
      TimeUpdateSelectsFirstActive(old(Sync()));
    }

    /** The cue loop of the `timeupdate` handler: highlight the first active cue and make it
        current and subsection cue, or clear the highlight when none is active. */
    method ScanCues()
      modifies this
      ensures Sync() == Scan(old(Sync()))
      ensures Page() == old(Page())
    {
      var found := FindActiveCue(currentChapterText, currentTime);
      match found
      case Some(k) =>
        var p := currentChapterText[k];
        if currentCueElement != p {
          if currentCueElement != null {
            highlighted := highlighted - {currentCueElement};
          }
          highlighted := highlighted + {p};
          currentCueElement := p;
          currentSubsectionCue := p;
        }
      case None =>
        if currentCueElement != null {
          highlighted := highlighted - {currentCueElement};
          currentCueElement := null;
        }
    }

    /** The `ended` handler (the `play()` call and the button text are left out). */
    method OnEnded()
      requires Valid()
      modifies this
      ensures Valid()
      ensures Sync() == Ended(old(Sync()))
      ensures Page() == old(Page())
    {
      if isRepeatingChapter {
        currentTime := 0.0;
      } else {
        isPlaying := false;
        if currentCueElement != null {
          highlighted := highlighted - {currentCueElement};
          currentCueElement := null;
        }
      }
      EndedEffect(old(Sync()));
    }

    /** The play/pause button: only the flag is modelled. */
    method TogglePlayPause()
      requires Valid()
      modifies this
      ensures Valid()
      ensures Sync() == old(Sync()).(playing := !old(isPlaying))
      ensures Page() == old(Page())
    {
      isPlaying := !isPlaying;
    }

    method ToggleRepeatChapter()
      requires Valid()
      modifies this
      ensures Valid()
      ensures Sync() == old(Sync()).(repeatChapter := !old(isRepeatingChapter))
      ensures Page() == old(Page())
    {
      isRepeatingChapter := !isRepeatingChapter;
    }

    method ToggleRepeatSubsection()
      requires Valid()
      modifies this
      ensures Valid()
      ensures Sync() == old(Sync()).(repeatSubsection := !old(isRepeatingSubsection))
      ensures Page() == old(Page())
    {
      isRepeatingSubsection := !isRepeatingSubsection;
    }

    /** `updateTextDisplay`: show the selected content list, re-derive the cue list from the
        new elements, then run the `timeupdate` step on it. While the selected list is still
        `null`, its `join('')` throws a TypeError that ends the handler before it changes
        anything: the panel keeps what it showed and the cue list stays. */
    method UpdateTextDisplay()
      requires Valid()
      modifies this
      ensures Valid()
      ensures Shown() == old(Shown())
      ensures Shown().None? ==> Sync() == old(Sync()) && Page() == old(Page())
      ensures Shown().Some? ==>
                && panel == Showing(Shown().value) && RenderedFrom(currentChapterText, Shown().value)
                && (forall i :: 0 <= i < |currentChapterText| ==> fresh(currentChapterText[i]))
                && Sync() == TimeUpdate(old(Sync()).(cues := currentChapterText))
                && Page() == old(Page()).(panel := panel)
    {
      match Shown()
      case None =>
        return;
      case Some(shown) =>
        panel := Showing(shown);
        var cues := RenderCues(shown);
        currentChapterText := cues;
        assert Sync() == old(Sync()).(cues := cues);
        OnTimeUpdate();
        assert currentChapterText == cues && Shown() == Some(shown);
    }

    /** The transliteration toggle: flip the flag and redisplay. Before any load has succeeded
        the redisplay throws, so only the flag changes. */
    method ToggleTransliteration()
      requires Valid()
      modifies this
      ensures Valid()
      ensures isDisplayingTransliteration == !old(isDisplayingTransliteration)
      ensures Shown().None? <==> old(currentChapterContent).None?
      ensures Shown().None? ==>
                && Sync() == old(Sync())
                && Page() == old(Page()).(showTransliteration := isDisplayingTransliteration)
      ensures Shown().Some? ==>
                && panel == Showing(Shown().value) && RenderedFrom(currentChapterText, Shown().value)
                && (forall i :: 0 <= i < |currentChapterText| ==> fresh(currentChapterText[i]))
                && Sync() == TimeUpdate(old(Sync()).(cues := currentChapterText))
                && Page() == old(Page()).(panel := panel, showTransliteration := isDisplayingTransliteration)
    {
      isDisplayingTransliteration := !isDisplayingTransliteration;
      UpdateTextDisplay();
    }

    /** `loadChapterContent(chapterNumber)`, with the two fetches' result given as `outcome`.
        The audio source is set first, whatever happens next; assigning it runs the media
        element's load algorithm, which sets the playback position back to 0, so the scan
        that follows runs at time 0. On success both content lists
        are replaced by the chapter's runs and the display is updated; on failure the panel
        shows an error and the cue list becomes empty, while the content lists stay. */
    method LoadChapter(chapterNumber: string, outcome: LoadOutcome)
      requires Valid()
      modifies this
      ensures Valid()
      ensures audioSrc == AudioPath(chapterNumber)
      ensures chapterOptions == old(chapterOptions)
      ensures isDisplayingTransliteration == old(isDisplayingTransliteration)
      ensures outcome.FetchFailed? ==>
                && panel == LoadError
                && Sync() == old(Sync()).(cues := [], time := 0.0)
                && currentChapterContent == old(currentChapterContent)
                && currentTransliteratedContent == old(currentTransliteratedContent)
      ensures outcome.Fetched? ==>
                && currentChapterContent == Some(ChapterContent.ChapterContent(outcome.text, SearchTitle(chapterNumber)))
                && currentTransliteratedContent == Some(ChapterContent.ChapterContent(outcome.transliteration, SearchTitle(chapterNumber)))
      ensures outcome.Fetched? ==>
                && panel == Showing(Shown().value) && RenderedFrom(currentChapterText, Shown().value)
                && (forall i :: 0 <= i < |currentChapterText| ==> fresh(currentChapterText[i]))
                && Sync() == TimeUpdate(old(Sync()).(cues := currentChapterText, time := 0.0))
    {
      var chapterPadded := ChapterPadded(chapterNumber);
      audioSrc := "Audio_Sync_S_Verses_Only/Narayaneeyam_D" + chapterPadded + ".mp3";
      currentTime := 0.0;
      assert Sync() == old(Sync()).(time := 0.0);
      if outcome.Fetched? {
        var chapterTitleToSearch := SearchTitle(chapterNumber);
        var original := ExtractChapterContent(outcome.text, chapterTitleToSearch);
        var transliterated := ExtractChapterContent(outcome.transliteration, chapterTitleToSearch);
        ShowChapter(original, transliterated);
      } else {
        ShowLoadError();
      }
    }

    /** The success path of `loadChapterContent`: keep both extracted runs and redisplay. */
    method ShowChapter(original: seq<Node>, transliterated: seq<Node>)
      modifies this
      requires Valid()
      ensures Valid()
      ensures currentChapterContent == Some(original) && currentTransliteratedContent == Some(transliterated)
      ensures panel == Showing(Shown().value) && RenderedFrom(currentChapterText, Shown().value)
      ensures forall i :: 0 <= i < |currentChapterText| ==> fresh(currentChapterText[i])
      ensures Sync() == TimeUpdate(old(Sync()).(cues := currentChapterText))
      ensures isDisplayingTransliteration == old(isDisplayingTransliteration)
      ensures audioSrc == old(audioSrc) && chapterOptions == old(chapterOptions)
    {
      currentChapterContent := Some(original);
      currentTransliteratedContent := Some(transliterated);
      assert Sync() == old(Sync());
      UpdateTextDisplay();
    }

    /** The `catch` of `loadChapterContent`: an error message in the panel and no cues. */
    method ShowLoadError()
      modifies this
      requires Valid()
      ensures Valid()
      ensures panel == LoadError
      ensures Sync() == old(Sync()).(cues := [])
      ensures Page() == old(Page()).(panel := LoadError)
    {
      panel := LoadError;
      currentChapterText := [];
    }

    /** The first load after setup, of the selector's initial value (its first option): the
        same effect as `LoadChapter` on that value. */
    method InitialLoad(outcome: LoadOutcome)
      requires Valid()
      modifies this
      ensures Valid()
      ensures audioSrc == AudioPath(old(chapterOptions)[0].value)
      ensures chapterOptions == old(chapterOptions)
      ensures isDisplayingTransliteration == old(isDisplayingTransliteration)
      ensures outcome.FetchFailed? ==>
                && panel == LoadError
                && Sync() == old(Sync()).(cues := [], time := 0.0)
                && currentChapterContent == old(currentChapterContent)
                && currentTransliteratedContent == old(currentTransliteratedContent)
      ensures outcome.Fetched? ==>
                var title := SearchTitle(old(chapterOptions)[0].value);
                && currentChapterContent == Some(ChapterContent.ChapterContent(outcome.text, title))
                && currentTransliteratedContent == Some(ChapterContent.ChapterContent(outcome.transliteration, title))
      ensures outcome.Fetched? ==>
                && panel == Showing(Shown().value) && RenderedFrom(currentChapterText, Shown().value)
                && (forall i :: 0 <= i < |currentChapterText| ==> fresh(currentChapterText[i]))
                && Sync() == TimeUpdate(old(Sync()).(cues := currentChapterText, time := 0.0))
    {
      LoadChapter(chapterOptions[0].value, outcome);
    }
  }
}
