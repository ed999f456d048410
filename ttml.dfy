/**
 * The parsed timed-text tree both extractors work on, with the XML parse
 * itself left out: a document's bodies hold divs, a div holds paragraphs
 * (`<p>`), a paragraph has an optional `begin` attribute and its `<span>`
 * children, and a span has optional text and nested spans.
 */
module Ttml {
  import opened Wrappers
  import opened Text

  /**
   * A `<span>`: `text` is ElementTree's `span.text` (the text before the
   * first child) and, for a span without child spans, xml2js's `span._`.
   */
  datatype Span = Span(text: Option<string>, children: seq<Span>)

  datatype Paragraph = Paragraph(begin: Option<string>, spans: seq<Span>)

  datatype Div = Div(paragraphs: seq<Paragraph>)

  datatype Body = Body(divs: seq<Div>)

  datatype Document = Document(bodies: seq<Body>)

  /** The span's text is truthy: present and not the empty string. */
  predicate HasText(s: Span) {
    s.text.Some? && s.text.value != ""
  }

  function TextOf(s: Span): string {
    if s.text.Some? then s.text.value else ""
  }

  predicate IsLeaf(s: Span) {
    |s.children| == 0
  }

  /**
   * Every span of the forest in document order, each before its own
   * descendants: what ElementTree's findall(".//span") returns.
   */
  function Descendants(spans: seq<Span>): seq<Span> {
    if spans == [] then []
    else [spans[0]] + Descendants(spans[0].children) + Descendants(spans[1..])
  }

  /** The descendants of two forests side by side are those of the first followed by those of the second. */
  lemma {:induction false} DescendantsAppend(a: seq<Span>, b: seq<Span>)
    ensures Descendants(a + b) == Descendants(a) + Descendants(b)
  {
    if a == [] {
      assert a + b == b;
    } else {
      assert (a + b)[0] == a[0];
      assert (a + b)[1..] == a[1..] + b;
      DescendantsAppend(a[1..], b);
    }
  }

  /** The descendants of a forest end with its last root and then that root's descendants. */
  lemma DescendantsLast(spans: seq<Span>)
    requires spans != []
    ensures var last := spans[|spans| - 1];
      Descendants(spans) == Descendants(spans[..|spans| - 1]) + [last] + Descendants(last.children)
  {
    var front, last := spans[..|spans| - 1], spans[|spans| - 1];
    DescendantsAppend(front, [last]);
    assert [last][1..] == [];
    assert spans == front + [last];
  }

  /** A forest of leaf spans is its own list of descendants. */
  lemma {:induction false} DescendantsOfLeaves(spans: seq<Span>)
    requires forall i :: 0 <= i < |spans| ==> IsLeaf(spans[i])
    ensures Descendants(spans) == spans
  {
    if spans != [] {
      assert spans[0].children == [];
      DescendantsOfLeaves(spans[1..]);
    }
  }

  function DivParagraphs(divs: seq<Div>): seq<Paragraph> {
    if divs == [] then [] else DivParagraphs(divs[..|divs| - 1]) + divs[|divs| - 1].paragraphs
  }

  function BodyParagraphs(bodies: seq<Body>): seq<Paragraph> {
    if bodies == [] then [] else BodyParagraphs(bodies[..|bodies| - 1]) + DivParagraphs(bodies[|bodies| - 1].divs)
  }

  /** Every paragraph of the document in document order: what findall(".//p") returns. */
  function Paragraphs(d: Document): seq<Paragraph> {
    BodyParagraphs(d.bodies)
  }

  /** The span texts of a forest, in order. */
  function Words(xs: seq<Span>): seq<string> {
    if xs == [] then [] else Words(xs[..|xs| - 1]) + [TextOf(xs[|xs| - 1])]
  }

  /** Every span is a leaf and carries a non-empty text with no whitespace of class ws at either end. */
  predicate WordSpans(xs: seq<Span>, ws: char -> bool) {
    forall i :: 0 <= i < |xs| ==> IsLeaf(xs[i]) && HasText(xs[i]) && Bare(TextOf(xs[i]), ws)
  }

  /** The words of word spans are as many as the spans, each non-empty and bare. */
  lemma {:induction false} WordsBare(xs: seq<Span>, ws: char -> bool)
    requires WordSpans(xs, ws)
    ensures |Words(xs)| == |xs|
    ensures forall i :: 0 <= i < |xs| ==> Words(xs)[i] != "" && Bare(Words(xs)[i], ws)
  {
    if xs != [] {
      var front := xs[..|xs| - 1];
      assert WordSpans(front, ws) by {
        forall i | 0 <= i < |front| ensures front[i] == xs[i] { }
      }
      WordsBare(front, ws);
    }
  }

  /** A document with one body holding one div has exactly that div's paragraphs. */
  lemma ParagraphsOfSingleDiv(d: Document)
    requires |d.bodies| == 1 && |d.bodies[0].divs| == 1
    ensures Paragraphs(d) == d.bodies[0].divs[0].paragraphs
  {
    var divs := d.bodies[0].divs;
    assert d.bodies[..0] == [] && divs[..0] == [];
    assert DivParagraphs(divs) == DivParagraphs(divs[..0]) + divs[0].paragraphs;
    assert BodyParagraphs(d.bodies) == BodyParagraphs(d.bodies[..0]) + DivParagraphs(divs);
  }
}
