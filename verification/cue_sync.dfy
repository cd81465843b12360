/** The cue synchroniser of Player.js: the `timeupdate` and `ended` handlers over the
    player's state, as functions from the state before to the state after. */
module CueSync {
  import opened Wrappers
  import opened TimeParse

  /** A rendered `<p data-start data-end>` element. Elements are compared by identity, as
      `currentCueElement !== p` does: a re-render creates new ones even for the same text. */
  class CueElement {
    const start: Option<string>
    const end: Option<string>

    constructor (start: Option<string>, end: Option<string>)
      ensures this.start == start && this.end == end
    {
      this.start := start;
      this.end := end;
    }
  }

  /** The module-level variables the handlers read and write, plus the element highlight
      (`classList` holding `highlight`) as a set, and the audio's `currentTime`. */
  datatype SyncState = SyncState(
    time: real,
    cues: seq<CueElement>,
    current: CueElement?,
    subsection: CueElement?,
    highlighted: set<CueElement>,
    repeatSubsection: bool,
    repeatChapter: bool,
    playing: bool)

  /** `currentTime >= startTime && currentTime < endTime` */
  predicate Active(c: CueElement, t: real) {
    ParseTime(c.start) <= t && t < ParseTime(c.end)
  }

  /** The cue test as a function value. */
  function ActiveAt(t: real): CueElement -> bool
  {
    (c: CueElement) => Active(c, t)
  }

  /** The index the scan stops at: the first active cue in list order, if any. */
  function FirstMatch(cues: seq<CueElement>, t: real): (r: Option<nat>)
    ensures r.Some? ==> r.value < |cues|
  {
    FirstFrom(cues, 0, ActiveAt(t))
  }

  /** The first index at or after `from` whose element satisfies `p`, if any. */
  function FirstFrom<T>(xs: seq<T>, from: nat, p: T -> bool): (r: Option<nat>)
    ensures r.Some? ==> from <= r.value < |xs|
    decreases |xs| - from
  {
    if from >= |xs| then None
    else if p(xs[from]) then Some(from)
    else FirstFrom(xs, from + 1, p)
  }

  lemma {:induction false} FirstFromCharacterised<T>(xs: seq<T>, from: nat, p: T -> bool, i: nat)
    requires from <= i < |xs|
    ensures FirstFrom(xs, from, p) == Some(i) <==> (p(xs[i]) && forall j :: from <= j < i ==> !p(xs[j]))
    decreases |xs| - from
  {
    if from < i && !p(xs[from]) {
      FirstFromCharacterised(xs, from + 1, p, i);
    }
  }

  lemma {:induction false} NoneFromCharacterised<T>(xs: seq<T>, from: nat, p: T -> bool)
    ensures FirstFrom(xs, from, p).None? <==> forall j :: from <= j < |xs| ==> !p(xs[j])
    decreases |xs| - from
  {
    if from < |xs| && !p(xs[from]) {
      NoneFromCharacterised(xs, from + 1, p);
    }
  }

  /** The scan stops at `i` exactly when cue `i` is active and no earlier cue is. */
  lemma FirstMatchCharacterised(cues: seq<CueElement>, t: real, i: nat)
    requires i < |cues|
    ensures FirstMatch(cues, t) == Some(i) <==> (Active(cues[i], t) && forall j :: 0 <= j < i ==> !Active(cues[j], t))
  {
    FirstFromCharacterised(cues, 0, ActiveAt(t), i);
  }

  /** The scan finds nothing exactly when no cue is active. */
  lemma NoMatchCharacterised(cues: seq<CueElement>, t: real)
    ensures FirstMatch(cues, t).None? <==> forall j :: 0 <= j < |cues| ==> !Active(cues[j], t)
  {
    NoneFromCharacterised(cues, 0, ActiveAt(t));
  }

  /** `el.classList.remove('highlight')` when `el` is not null. */
  function Unhighlight(highlighted: set<CueElement>, el: CueElement?): set<CueElement>
  {
    if el != null then highlighted - {el} else highlighted
  }

  /** The cue scan of the `timeupdate` handler, before the repeat check. */
  function Scan(s: SyncState): SyncState
  {
    match FirstMatch(s.cues, s.time)
    case Some(i) =>
      var p := s.cues[i];
      if s.current != p then
        s.(highlighted := Unhighlight(s.highlighted, s.current) + {p}, current := p, subsection := p)
      else s
    case None =>
      if s.current != null then s.(highlighted := Unhighlight(s.highlighted, s.current), current := null)
      else s
  }

  /** The whole `timeupdate` handler: nothing at all with no cues; otherwise the scan, then the
      segment-repeat rewind, which compares the time read at the start with the end of the
      (possibly just updated) subsection cue. */
  function TimeUpdate(s: SyncState): SyncState
  {
    if |s.cues| == 0 then s
    else
      var s1 := Scan(s);
      if s1.repeatSubsection && s1.subsection != null && s.time >= ParseTime(s1.subsection.end)
      then s1.(time := ParseTime(s1.subsection.start))
      else s1
  }

  /** The `ended` handler: rewind to 0 (and play on) when repeating the chapter; otherwise
      stop, drop the highlight and forget the current cue. */
  function Ended(s: SyncState): SyncState
  {
    if s.repeatChapter then s.(time := 0.0)
    else s.(playing := false, highlighted := Unhighlight(s.highlighted, s.current), current := null)
  }

  /** The invariant the handlers keep: at most one element is highlighted, and it is the
      current cue; and the current cue, when there is one, is also the subsection cue. */
  ghost predicate Coherent(s: SyncState) {
    && s.highlighted == (if s.current == null then {} else {s.current})
    && (s.current != null ==> s.subsection == s.current)
  }

  /** What one `timeupdate` does to a coherent state: with no cues, nothing; otherwise the
      first active cue becomes current and subsection cue and is the only highlight, or, when
      none is active, the highlight and current cue are cleared while the subsection cue stays.
      The list, the flags and the play state never change. */
  lemma TimeUpdateSelectsFirstActive(s: SyncState)
    requires Coherent(s)
    ensures var s' := TimeUpdate(s);
            && Coherent(s')
            && s'.cues == s.cues && s'.repeatSubsection == s.repeatSubsection
            && s'.repeatChapter == s.repeatChapter && s'.playing == s.playing
            && (|s.cues| == 0 ==> s' == s)
            && (|s.cues| > 0 ==>
                  match FirstMatch(s.cues, s.time)
                  case Some(i) => s'.current == s.cues[i] && s'.subsection == s.cues[i] && s'.highlighted == {s.cues[i]}
                  case None => s'.current == null && s'.subsection == s.subsection && s'.highlighted == {})
  {
    if |s.cues| > 0 {
      ScanSelectsFirstActive(s);
      assert TimeUpdate(s) == Scan(s).(time := TimeUpdate(s).time);
    }
  }

  /** The scan alone: what `TimeUpdateSelectsFirstActive` says, before any rewind. */
  lemma ScanSelectsFirstActive(s: SyncState)
    requires Coherent(s)
    ensures var s' := Scan(s);
            && Coherent(s')
            && s'.cues == s.cues && s'.time == s.time && s'.repeatSubsection == s.repeatSubsection
            && s'.repeatChapter == s.repeatChapter && s'.playing == s.playing
            && match FirstMatch(s.cues, s.time)
               case Some(i) => s'.current == s.cues[i] && s'.subsection == s.cues[i] && s'.highlighted == {s.cues[i]}
               case None => s'.current == null && s'.subsection == s.subsection && s'.highlighted == {}
  {
    match FirstMatch(s.cues, s.time)
    case Some(i) =>
      if s.current != s.cues[i] {
        assert Unhighlight(s.highlighted, s.current) == {};
      }
    case None =>
  }

  /** When the first active cue is already the current one, the handler changes nothing:
      not the highlight, not the references, and not the time. */
  lemma SameCueChangesNothing(s: SyncState)
    requires Coherent(s)
    requires FirstMatch(s.cues, s.time).Some? && s.cues[FirstMatch(s.cues, s.time).value] == s.current
    ensures TimeUpdate(s) == s
  {
    FirstMatchCharacterised(s.cues, s.time, FirstMatch(s.cues, s.time).value);
  }

  /** The handler moves the time only to rewind a segment: the flag is on, no cue is active
      at the time read, the kept subsection cue has ended, and the time goes back to its start. */
  lemma RewindOnlyWithoutActiveCue(s: SyncState)
    requires Coherent(s)
    requires TimeUpdate(s).time != s.time
    ensures |s.cues| > 0 && FirstMatch(s.cues, s.time).None?
    ensures s.repeatSubsection && s.subsection != null
    ensures s.time >= ParseTime(s.subsection.end)
    ensures TimeUpdate(s).time == ParseTime(s.subsection.start)
    ensures TimeUpdate(s).subsection == s.subsection
  {
    match FirstMatch(s.cues, s.time)
    case Some(i) =>
      FirstMatchCharacterised(s.cues, s.time, i);
    case None =>
  }

  /** With the repeat flag on, a subsection cue kept and no cue active, a time at or past the
      subsection cue's end is sent back to its start. */
  lemma SegmentRepeatRewinds(s: SyncState)
    requires |s.cues| > 0 && s.repeatSubsection && s.subsection != null
    requires FirstMatch(s.cues, s.time).None?
    requires s.time >= ParseTime(s.subsection.end)
    ensures TimeUpdate(s).time == ParseTime(s.subsection.start)
    ensures TimeUpdate(s).subsection == s.subsection && TimeUpdate(s).current == null
  {
  }

  /** A tick that did not rewind leaves a state the next tick at the same time keeps as it is. */
  lemma TimeUpdateIdempotent(s: SyncState)
    requires TimeUpdate(s).time == s.time
    ensures TimeUpdate(TimeUpdate(s)) == TimeUpdate(s)
  {
    if |s.cues| > 0 {
      ScanIdempotent(s);
      assert TimeUpdate(s) == Scan(s);
    }
  }

  /** A second scan at the same time finds the same cue and changes nothing more. */
  lemma ScanIdempotent(s: SyncState)
    ensures Scan(Scan(s)) == Scan(s)
    ensures Scan(s).cues == s.cues && Scan(s).time == s.time
  {
  }

  /** `ended` with repeat on: time back to 0, nothing else touched. Without: playback stops,
      no element stays highlighted, there is no current cue, and nothing else changes. Both keep
      the invariant. */
  lemma EndedEffect(s: SyncState)
    requires Coherent(s)
    ensures Coherent(Ended(s))
    ensures Ended(s).subsection == s.subsection && Ended(s).cues == s.cues
    ensures s.repeatChapter ==> Ended(s) == s.(time := 0.0)
    ensures !s.repeatChapter ==> Ended(s) == s.(playing := false, current := null, highlighted := {})
  {
  }

  /** A cue whose `data-start` and `data-end` both have a first component of zeros (every WebVTT
      timestamp under one hour, such as `00:01:05.000`) reads as [0, 0) and is never active. */
  lemma UnderAnHourCueNeverActive(c: CueElement, t: real)
    requires c.start.Some? && c.start.value != "" && c.end.Some? && c.end.value != ""
    requires var first := Text.Split(c.start.value, ':')[0];
             first != [] && forall i :: 0 <= i < |first| ==> first[i] == '0'
    requires var first := Text.Split(c.end.value, ':')[0];
             first != [] && forall i :: 0 <= i < |first| ==> first[i] == '0'
    ensures !Active(c, t)
  {
    ZeroFirstComponentReadsAsZero(c.start.value);
    ZeroFirstComponentReadsAsZero(c.end.value);
  }
}
