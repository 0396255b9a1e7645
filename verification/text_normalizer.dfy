/** `parse_html` and `convert_custom_oppia_tags_to_generic_tags`: rich-text
    content becomes speech-ready plain text. The document arrives already
    parsed into an element tree whose custom tags carry their decoded
    attribute value; the LaTeX-to-text converter is a parameter. */
module TextNormalizer {

  import opened Strings

  /** The separator `get_text` places between leaf texts. */
  const Delimiter: string := "; "

  /** The custom rich-text tag kinds, in the order of
      `ALLOWED_CUSTOM_OPPIA_RTE_TAGS`. */
  datatype RteKind = Collapsible | Image | Link | Math | Video | SkillReview | Tabs

  const AllowedCustomTags: seq<RteKind> :=
    [Collapsible, Image, Link, Math, Video, SkillReview, Tabs]

  /** The HTML element name of each custom tag kind. */
  function TagName(kind: RteKind): string {
    match kind
    case Collapsible => "oppia-noninteractive-collapsible"
    case Image => "oppia-noninteractive-image"
    case Link => "oppia-noninteractive-link"
    case Math => "oppia-noninteractive-math"
    case Video => "oppia-noninteractive-video"
    case SkillReview => "oppia-noninteractive-skillreview"
    case Tabs => "oppia-noninteractive-tabs"
  }

  /** A parsed document node. For a `Custom` node, `value` is the decoded
      `text-with-value` attribute of a link or skill-review tag, or the
      `raw_latex` field of the decoded `math_content-with-value` attribute
      of a math tag; other kinds do not use it. */
  datatype Node =
    | Text(content: string)
    | Element(name: string, children: seq<Node>)
    | Custom(kind: RteKind, value: string, children: seq<Node>)

  /** The rewrite applied to one custom tag: a link or skill review becomes
      a paragraph holding its decoded text, a math tag a paragraph holding
      the spoken rendering of its formula, and every other kind a paragraph
      with its children kept. */
  function ConvertCustomTag(kind: RteKind, value: string, children: seq<Node>,
                            latexToText: string -> string): Node
  {
    match kind
    case Link => Element("p", [Text(value)])
    case SkillReview => Element("p", [Text(value)])
    case Math => Element("p", [Text(latexToText(value))])
    case _ => Element("p", children)
  }

  /** A tree with no custom tag left in it. */
  predicate Generic(n: Node)
    decreases n
  {
    match n
    case Text(_) => true
    case Element(_, ch) => AllGeneric(ch)
    case Custom(_, _, _) => false
  }

  predicate AllGeneric(ns: seq<Node>)
    decreases ns
  {
    |ns| == 0 || (Generic(ns[0]) && AllGeneric(ns[1..]))
  }

  /** Every custom tag of the tree rewritten by `ConvertCustomTag`. A tag
      nested inside a link, skill review or math tag disappears with the
      children that tag's rewrite discards, whichever tag `parse_html`
      visits first. */
  function ConvertTree(n: Node, latexToText: string -> string): (r: Node)
    ensures Generic(r)
    decreases n
  {
    match n
    case Text(_) => n
    case Element(name, ch) => Element(name, ConvertForest(ch, latexToText))
    case Custom(kind, value, ch) =>
      if kind in {Link, SkillReview, Math} then ConvertCustomTag(kind, value, ch, latexToText)
      else ConvertCustomTag(kind, value, ConvertForest(ch, latexToText), latexToText)
  }

  function ConvertForest(ns: seq<Node>, latexToText: string -> string): (r: seq<Node>)
    ensures |r| == |ns| && AllGeneric(r)
    decreases ns
  {
    if |ns| == 0 then []
    else [ConvertTree(ns[0], latexToText)] + ConvertForest(ns[1..], latexToText)
  }

  /** The text nodes of a tree in document order (bs4's `_all_strings`). */
  function Leaves(n: Node): seq<string>
    decreases n
  {
    match n
    case Text(s) => [s]
    case Element(_, ch) => ForestLeaves(ch)
    case Custom(_, _, ch) => ForestLeaves(ch)
  }

  function ForestLeaves(ns: seq<Node>): seq<string>
    decreases ns
  {
    if |ns| == 0 then [] else Leaves(ns[0]) + ForestLeaves(ns[1..])
  }

  /** An independent description of what a tree voices, read straight off
      the custom tags: a link or skill review voices its decoded text, a
      math tag the rendering of its formula, and everything else the text
      of its children. */
  function Voiced(n: Node, latexToText: string -> string): seq<string>
    decreases n
  {
    match n
    case Text(s) => [s]
    case Element(_, ch) => ForestVoiced(ch, latexToText)
    case Custom(kind, value, ch) =>
      if kind in {Link, SkillReview} then [value]
      else if kind == Math then [latexToText(value)]
      else ForestVoiced(ch, latexToText)
  }

  function ForestVoiced(ns: seq<Node>, latexToText: string -> string): seq<string>
    decreases ns
  {
    if |ns| == 0 then [] else Voiced(ns[0], latexToText) + ForestVoiced(ns[1..], latexToText)
  }

  /** Rewriting the custom tags and then collecting the text nodes yields
      exactly what the tree voices. */
  lemma {:induction false} ConvertedLeavesAreVoiced(n: Node, latexToText: string -> string)
    ensures Leaves(ConvertTree(n, latexToText)) == Voiced(n, latexToText)
    decreases n
  {
    match n
    case Text(_) =>
    case Element(name, ch) =>
      ConvertedForestLeavesAreVoiced(ch, latexToText);
    case Custom(kind, value, ch) =>
      if kind in {Link, SkillReview, Math} {
        assert ForestLeaves([Text(if kind == Math then latexToText(value) else value)])
            == [if kind == Math then latexToText(value) else value];
      } else {
        ConvertedForestLeavesAreVoiced(ch, latexToText);
      }
  }

  lemma {:induction false} ConvertedForestLeavesAreVoiced(ns: seq<Node>, latexToText: string -> string)
    ensures ForestLeaves(ConvertForest(ns, latexToText)) == ForestVoiced(ns, latexToText)
    decreases ns
  {
    if |ns| > 0 {
      var c := ConvertForest(ns, latexToText);
      assert c[0] == ConvertTree(ns[0], latexToText);
      assert c[1..] == ConvertForest(ns[1..], latexToText);
      ConvertedLeavesAreVoiced(ns[0], latexToText);
      ConvertedForestLeavesAreVoiced(ns[1..], latexToText);
    }
  }

  /** `get_text(strip=True)`'s treatment of the leaf texts: each is stripped
      and the ones left empty are dropped. */
  function Segments(leaves: seq<string>): (r: seq<string>)
    ensures |r| <= |leaves|
  {
    if |leaves| == 0 then []
    else
      var s := Strip(leaves[0]);
      if |s| == 0 then Segments(leaves[1..]) else [s] + Segments(leaves[1..])
  }

  /** Every segment is non-empty and has no surrounding whitespace. */
  lemma {:induction false} SegmentsStripped(leaves: seq<string>)
    ensures forall i :: 0 <= i < |Segments(leaves)| ==>
              |Segments(leaves)[i]| > 0 && IsStripped(Segments(leaves)[i])
  {
    if |leaves| > 0 {
      SegmentsStripped(leaves[1..]);
      var rest := Segments(leaves[1..]);
      var s := Strip(leaves[0]);
      if |s| > 0 {
        assert Segments(leaves) == [s] + rest;
        forall i | 0 <= i < |Segments(leaves)|
          ensures |Segments(leaves)[i]| > 0 && IsStripped(Segments(leaves)[i])
        {
          if i > 0 {
            assert Segments(leaves)[i] == rest[i - 1];
          }
        }
      }
    }
  }

  /** The texts `parse_html` joins: the stripped, non-blank text nodes of
      the document after its custom tags are rewritten. */
  function DocSegments(doc: seq<Node>, latexToText: string -> string): seq<string>
  {
    Segments(ForestLeaves(ConvertForest(doc, latexToText)))
  }

  /** `parse_html`: custom tags rewritten, then the stripped non-empty leaf
      texts joined by the delimiter in document order. */
  function ParseHtml(doc: seq<Node>, latexToText: string -> string): string
  {
    Join(DocSegments(doc, latexToText), Delimiter)
  }

  /** The segments `parse_html` joins are the stripped, non-blank texts the
      document voices. */
  lemma ParseHtmlVoices(doc: seq<Node>, latexToText: string -> string)
    ensures ParseHtml(doc, latexToText) == Join(Segments(ForestVoiced(doc, latexToText)), Delimiter)
  {
    ConvertedForestLeavesAreVoiced(doc, latexToText);
  }

  lemma {:induction false} JoinEnds(parts: seq<string>, sep: string)
    requires |parts| > 0 && |sep| > 0
    requires forall i :: 0 <= i < |parts| ==> |parts[i]| > 0
    ensures var j := Join(parts, sep);
            |j| > 0 && j[0] == parts[0][0] && j[|j| - 1] == parts[|parts| - 1][|parts[|parts| - 1]| - 1]
  {
    if |parts| > 1 {
      JoinEnds(parts[1..], sep);
    }
  }

  /** A paragraph holding one text node voices exactly that text. */
  lemma {:induction false} ParagraphLeaves(t: string, latexToText: string -> string)
    ensures ForestLeaves(ConvertForest([Element("p", [Text(t)])], latexToText)) == [t]
  {
    var inner := [Text(t)];
    assert ConvertForest(inner, latexToText) == [Text(t)] + ConvertForest(inner[1..], latexToText);
    assert ConvertForest(inner, latexToText) == inner;
    var wrapped := [Element("p", inner)];
    assert ConvertForest(wrapped, latexToText) == [ConvertTree(wrapped[0], latexToText)] + ConvertForest(wrapped[1..], latexToText);
    assert ConvertForest(wrapped, latexToText) == wrapped;
    assert ForestLeaves(inner) == [t] + ForestLeaves(inner[1..]);
    assert ForestLeaves(wrapped) == Leaves(wrapped[0]) + ForestLeaves(wrapped[1..]);
  }

  /** The joined segments of any leaf list form a stripped string. */
  lemma {:induction false} JoinedSegmentsStripped(leaves: seq<string>)
    ensures IsStripped(Join(Segments(leaves), Delimiter))
  {
    var segs := Segments(leaves);
    SegmentsStripped(leaves);
    if |segs| > 0 {
      JoinEnds(segs, Delimiter);
    }
  }

  /** Re-normalising normalised text wrapped in a paragraph changes nothing:
      the output of `parse_html` is a fixpoint of it. */
  lemma {:induction false} ParseHtmlIdempotent(doc: seq<Node>, latexToText: string -> string)
    ensures ParseHtml([Element("p", [Text(ParseHtml(doc, latexToText))])], latexToText)
            == ParseHtml(doc, latexToText)
  {
    var t := ParseHtml(doc, latexToText);
    ParagraphLeaves(t, latexToText);
    JoinedSegmentsStripped(ForestLeaves(ConvertForest(doc, latexToText)));
    if |t| == 0 {
      SegmentsDrop(t, []);
    } else {
      SegmentsKeep(t, []);
    }
    assert [t] + [] == [t];
  }

  /** A text in which the delimiter never occurs. */
  predicate DelimiterFree(s: string) {
    !Contains(s, Delimiter)
  }

  lemma DelimiterUnbordered()
    ensures Unbordered(Delimiter)
  {
    forall k | 0 < k < |Delimiter|
      ensures Delimiter[k..] != Delimiter[..|Delimiter| - k]
    {
      assert Delimiter[k..][0] == ' ' != ';' == Delimiter[..|Delimiter| - k][0];
    }
  }

  /** When no segment contains the delimiter, splitting the normalised text
      on it recovers the segments, so a consumer that splits (the SSML
      builder) sees one piece per voiced text. An empty result splits into a
      single empty piece. */
  lemma ParseHtmlSplits(doc: seq<Node>, latexToText: string -> string)
    requires forall i :: 0 <= i < |DocSegments(doc, latexToText)| ==>
               DelimiterFree(DocSegments(doc, latexToText)[i])
    ensures Split(ParseHtml(doc, latexToText), Delimiter)
            == (if |DocSegments(doc, latexToText)| == 0 then [""] else DocSegments(doc, latexToText))
  {
    var segs := DocSegments(doc, latexToText);
    DelimiterUnbordered();
    if |segs| > 0 {
      SplitJoin(segs, Delimiter);
    }
  }

  /** A link inside a paragraph is voiced as its decoded text. */
  lemma LinkExample(latexToText: string -> string)
    ensures ParseHtml([Element("p", [Custom(Link, "Oppia official website URL", [])])], latexToText)
            == "Oppia official website URL"
  {
    var t := "Oppia official website URL";
    var doc := [Element("p", [Custom(Link, t, [])])];
    ConvertedForestLeavesAreVoiced(doc, latexToText);
    assert ForestVoiced([Custom(Link, t, [])], latexToText) == [t];
    assert ForestVoiced(doc, latexToText) == [t];
    StripFixpoint(t);
    assert Segments([t]) == [t] + Segments([]);
  }

  /** An image tag contributes no text at all. */
  lemma ImageExample(alt: string, latexToText: string -> string)
    ensures ParseHtml([Custom(Image, alt, [])], latexToText) == ""
  {
    var doc := [Custom(Image, alt, [])];
    ConvertedForestLeavesAreVoiced(doc, latexToText);
    assert ForestVoiced(doc, latexToText) == [];
  }

  /** Two paragraphs separated by blank text: the blank text node is
      dropped and the two paragraph texts are joined by the delimiter. */
  lemma {:induction false} TwoParagraphs(a: string, nl: string, b: string, latexToText: string -> string)
    requires IsStripped(a) && |a| > 0 && AllWhitespace(nl) && IsStripped(b) && |b| > 0
    ensures ParseHtml([Element("p", [Text(a)]), Text(nl), Element("p", [Element("em", [Text(b)])])],
                      latexToText)
            == a + Delimiter + b
  {
    var doc := [Element("p", [Text(a)]), Text(nl), Element("p", [Element("em", [Text(b)])])];
    TwoParagraphsVoiced(a, nl, b, latexToText);
    ConvertedForestLeavesAreVoiced(doc, latexToText);
    TwoParagraphsSegments(a, nl, b);
    assert DocSegments(doc, latexToText) == [a, b];
    assert Join([b], Delimiter) == b;
    assert Join([a, b], Delimiter) == a + Delimiter + Join([a, b][1..], Delimiter);
    assert [a, b][1..] == [b];
  }

  lemma {:induction false} TwoParagraphsVoiced(a: string, nl: string, b: string, latexToText: string -> string)
    ensures ForestVoiced([Element("p", [Text(a)]), Text(nl), Element("p", [Element("em", [Text(b)])])],
                         latexToText) == [a, nl, b]
  {
    var doc := [Element("p", [Text(a)]), Text(nl), Element("p", [Element("em", [Text(b)])])];
    assert ForestVoiced([Text(a)], latexToText) == [a];
    assert ForestVoiced([Text(b)], latexToText) == [b];
    assert ForestVoiced([Element("em", [Text(b)])], latexToText) == [b];
    assert ForestVoiced(doc[2..], latexToText) == [b];
    assert ForestVoiced(doc[1..], latexToText) == [nl, b];
  }

  lemma {:induction false} TwoParagraphsSegments(a: string, nl: string, b: string)
    requires IsStripped(a) && |a| > 0 && AllWhitespace(nl) && IsStripped(b) && |b| > 0
    ensures Segments([a, nl, b]) == [a, b]
  {
    BlankThenText(nl, b);
    TextThenRest(a, [nl, b], [b]);
  }

  lemma {:induction false} BlankThenText(nl: string, b: string)
    requires AllWhitespace(nl) && IsStripped(b) && |b| > 0
    ensures Segments([nl, b]) == [b]
  {
    SegmentsKeep(b, []);
    assert [b] + [] == [b];
    SegmentsDrop(nl, [b]);
    assert [nl] + [b] == [nl, b];
  }

  lemma {:induction false} TextThenRest(a: string, rest: seq<string>, segs: seq<string>)
    requires IsStripped(a) && |a| > 0
    requires Segments(rest) == segs
    ensures Segments([a] + rest) == [a] + segs
  {
    SegmentsKeep(a, rest);
  }

  /** A stripped non-empty leaf is kept as it is. */
  lemma {:induction false} SegmentsKeep(t: string, rest: seq<string>)
    requires IsStripped(t) && |t| > 0
    ensures Segments([t] + rest) == [t] + Segments(rest)
  {
    StripFixpoint(t);
    assert ([t] + rest)[1..] == rest;
  }

  /** A blank leaf is dropped. */
  lemma {:induction false} SegmentsDrop(t: string, rest: seq<string>)
    requires AllWhitespace(t)
    ensures Segments([t] + rest) == Segments(rest)
  {
    StripBlank(t);
    assert ([t] + rest)[1..] == rest;
  }
}
