/** `extractChapterContent` of Player.js over an abstract parsed document: find the first
    `h2[data-chapter]` whose trimmed value is the chapter title, and collect it with its later
    siblings up to the next `H2`. */
module ChapterContent {
  import opened Wrappers
  import opened Text

  /** An element as the player sees it: its `tagName` (upper case) and its `data-chapter`,
      `data-start` and `data-end` attributes (`None` when absent). */
  datatype Node = Node(tag: string, chapter: Option<string>, start: Option<string>, end: Option<string>)

  /** A parsed document: its lists of sibling elements, in document order. */
  type Document = seq<seq<Node>>

  /** Where an element sits: which sibling list, and where in it. */
  datatype Pos = Pos(list: nat, index: nat)

  /** Matches the selector `h2[data-chapter]`. */
  predicate IsChapterHeading(n: Node) {
    n.tag == "H2" && n.chapter.Some?
  }

  predicate ValidPos(doc: Document, p: Pos) {
    p.list < |doc| && p.index < |doc[p.list]|
  }

  function At(doc: Document, p: Pos): Node
    requires ValidPos(doc, p)
  {
    doc[p.list][p.index]
  }

  /** Document order. */
  predicate Before(p: Pos, q: Pos) {
    p.list < q.list || (p.list == q.list && p.index < q.index)
  }

  predicate IsHeadingAt(doc: Document, p: Pos) {
    ValidPos(doc, p) && IsChapterHeading(At(doc, p))
  }

  /** The chapter headings of one sibling list (the list numbered `l`), in order. */
  function ListHeadings(nodes: seq<Node>, l: nat): (hs: seq<Pos>)
    ensures forall i :: 0 <= i < |hs| ==> hs[i].list == l && hs[i].index < |nodes| && IsChapterHeading(nodes[hs[i].index])
    ensures forall k :: 0 <= k < |nodes| && IsChapterHeading(nodes[k]) ==> Pos(l, k) in hs
    ensures forall i, j :: 0 <= i < j < |hs| ==> hs[i].index < hs[j].index
  {
    if nodes == [] then []
    else
      var init := nodes[..|nodes| - 1];
      var rest := ListHeadings(init, l);
      assert forall k :: 0 <= k < |init| ==> init[k] == nodes[k];
      if IsChapterHeading(nodes[|nodes| - 1]) then rest + [Pos(l, |nodes| - 1)] else rest
  }

  /** `querySelectorAll('h2[data-chapter]')`: every chapter heading, each once, in document order. */
  function Headings(doc: Document): (hs: seq<Pos>)
    ensures forall i :: 0 <= i < |hs| ==> IsHeadingAt(doc, hs[i])
    ensures forall p :: IsHeadingAt(doc, p) ==> p in hs
    ensures forall i, j :: 0 <= i < j < |hs| ==> Before(hs[i], hs[j])
  {
    if doc == [] then []
    else
      var init := doc[..|doc| - 1];
      var last := |doc| - 1;
      var front := Headings(init);
      var back := ListHeadings(doc[last], last);
      assert forall p :: IsHeadingAt(init, p) ==> IsHeadingAt(doc, p) && At(init, p) == At(doc, p);
      assert forall p :: IsHeadingAt(doc, p) && p.list < last ==> IsHeadingAt(init, p);
      front + back
  }

  /** The heading's value, trimmed, equals the trimmed title. */
  predicate TitleMatches(n: Node, title: string) {
    n.chapter.Some? && JsTrim(n.chapter.value) == JsTrim(title)
  }

  /** A chapter heading at `p` whose value matches the title. */
  predicate MatchesAt(doc: Document, p: Pos, title: string) {
    IsHeadingAt(doc, p) && TitleMatches(At(doc, p), title)
  }

  /** The first matching heading in document order, if any. */
  function FirstHeadingMatch(doc: Document, title: string): (r: Option<Pos>)
    ensures r.Some? ==> ValidPos(doc, r.value)
  {
    var hs := Headings(doc);
    match FirstTitled(doc, hs, title)
    case None => None
    case Some(k) => Some(hs[k])
  }

  /** The heading found matches the title and no matching heading comes before it; none is
      found only when no heading matches. */
  lemma FirstHeadingMatchIsFirst(doc: Document, title: string)
    ensures var r := FirstHeadingMatch(doc, title);
            && (r.Some? ==> MatchesAt(doc, r.value, title))
            && (r.Some? ==> forall q :: MatchesAt(doc, q, title) ==> !Before(q, r.value))
            && (r.None? ==> forall q :: !MatchesAt(doc, q, title))
  {
    var hs := Headings(doc);
    var r := FirstTitled(doc, hs, title);
    if r.Some? {
      var k := r.value;
      forall q | MatchesAt(doc, q, title)
        ensures !Before(q, hs[k])
      {
        assert q in hs;
        var j :| 0 <= j < |hs| && hs[j] == q;
        assert j >= k;
      }
    }
  }

  /** Index of the first position of `hs` whose heading matches the title. */
  function FirstTitled(doc: Document, hs: seq<Pos>, title: string): (r: Option<nat>)
    ensures r.Some? ==> r.value < |hs| && MatchesAt(doc, hs[r.value], title)
    ensures r.Some? ==> forall j :: 0 <= j < r.value ==> !MatchesAt(doc, hs[j], title)
    ensures r.None? ==> forall j :: 0 <= j < |hs| ==> !MatchesAt(doc, hs[j], title)
  {
    if hs == [] then None
    else if MatchesAt(doc, hs[0], title) then Some(0)
    else match FirstTitled(doc, hs[1..], title)
      case None => None
      case Some(k) => Some(k + 1)
  }

  /** The index of the first `H2` at or after `i`, or the end of the list. */
  function NextH2(nodes: seq<Node>, i: nat): (e: nat)
    requires i <= |nodes|
    ensures i <= e <= |nodes|
    ensures forall k :: i <= k < e ==> nodes[k].tag != "H2"
    ensures e == |nodes| || nodes[e].tag == "H2"
    decreases |nodes| - i
  {
    if i == |nodes| || nodes[i].tag == "H2" then i else NextH2(nodes, i + 1)
  }

  /** What `extractChapterContent` leaves in its array. */
  function ChapterContent(doc: Document, title: string): seq<Node>
  {
    match FirstHeadingMatch(doc, title)
    case None => []
    case Some(p) => doc[p.list][p.index..NextH2(doc[p.list], p.index + 1)]
  }

  /** `content` is the heading at `p`, the first in document order whose value matches the
      title, followed by its later siblings up to (not including) the next `H2` or the end of
      the parent. */
  ghost predicate IsFirstRun(doc: Document, title: string, p: Pos, content: seq<Node>) {
    && MatchesAt(doc, p, title)
    && (forall q :: MatchesAt(doc, q, title) ==> !Before(q, p))
    && p.index + |content| <= |doc[p.list]|
    && content == doc[p.list][p.index..p.index + |content|]
    && (forall k :: 1 <= k < |content| ==> content[k].tag != "H2")
    && (p.index + |content| == |doc[p.list]| || doc[p.list][p.index + |content|].tag == "H2")
  }

  /** The content is empty exactly when no heading carries the title; otherwise it is the
      first such heading's run. Later headings with the same title are ignored. */
  lemma ChapterContentIsFirstRun(doc: Document, title: string)
    ensures ChapterContent(doc, title) == [] <==> forall q :: !MatchesAt(doc, q, title)
    ensures ChapterContent(doc, title) != [] ==> exists p :: IsFirstRun(doc, title, p, ChapterContent(doc, title))
  {
    var content := ChapterContent(doc, title);
    var r := FirstHeadingMatch(doc, title);
    FirstHeadingMatchIsFirst(doc, title);
    if r.Some? {
      var p := r.value;
      var e := NextH2(doc[p.list], p.index + 1);
      assert content == doc[p.list][p.index..e];
      assert |content| == e - p.index;
      assert IsFirstRun(doc, title, p, content);
    }
  }

  /** The loop of `extractChapterContent`: scan the headings, and at the first whose trimmed
      value equals the title push it and each next sibling until an `H2`, then stop. */
  method ExtractChapterContent(doc: Document, title: string) returns (contentArray: seq<Node>)
    ensures contentArray == ChapterContent(doc, title)
  {
    contentArray := [];
    var h2Elements := Headings(doc);
    var i := 0;
    while i < |h2Elements|
      invariant 0 <= i <= |h2Elements|
      invariant contentArray == []
      invariant forall j :: 0 <= j < i ==> !MatchesAt(doc, h2Elements[j], title)
    {
      var h2 := h2Elements[i];
      var siblings := doc[h2.list];
      if JsTrim(siblings[h2.index].chapter.value) == JsTrim(title) {
        contentArray := CollectRun(siblings, h2.index);
        assert FirstTitled(doc, h2Elements, title) == Some(i);
        return;
      }
      i := i + 1;
    }
    assert FirstTitled(doc, h2Elements, title) == None;
  }

  /** The inner loop: push the heading, then each next sibling until an `H2` or the end. */
  method CollectRun(siblings: seq<Node>, start: nat) returns (run: seq<Node>)
    requires start < |siblings|
    ensures run == siblings[start..NextH2(siblings, start + 1)]
  {
    run := [siblings[start]];
    var next := start + 1;
    while next < |siblings| && siblings[next].tag != "H2"
      invariant start + 1 <= next <= |siblings|
      invariant run == siblings[start..next]
      invariant forall k :: start + 1 <= k < next ==> siblings[k].tag != "H2"
    {
      run := run + [siblings[next]];
      next := next + 1;
    }
    assert next == NextH2(siblings, start + 1);
  }
}
