/**
 * The two extractors side by side: where extractTranscript.py (and app.py)
 * and extractTranscript.js produce the same transcript, and inputs on which
 * they part ways.
 */
module Compare {
  import opened Wrappers
  import opened Text
  import opened Timestamp
  import opened Ttml
  import opened Assembly
  import Py = PyExtract
  import Js = JsExtract

  /** A paragraph of plain words has the same text in both extractors: the words separated by single spaces. */
  lemma WordParagraphsAgree(p: Paragraph)
    requires WordSpans(p.spans, IsPySpace) && WordSpans(p.spans, IsJsSpace)
    ensures Py.ParagraphText(p) == Js.ParagraphText(p) == Join(Words(p.spans), " ")
  {
    Py.ParagraphTextOfWords(p);
    Js.ParagraphTextOfWords(p);
  }

  /**
   * A span with text that also has a child span: the Python extractor reads
   * both texts, the JavaScript one only the child's.
   */
  lemma NestedSpanDivergence()
    ensures var p := Paragraph(None, [Span(Some("a"), [Span(Some("b"), [])])]);
      Py.ParagraphText(p) == "a b" && Js.ParagraphText(p) == "b"
  {
    var inner := Span(Some("b"), []);
    var outer := Span(Some("a"), [inner]);
    NestedPy(outer, inner);
    NestedJs(outer, inner);
  }

  lemma NestedPy(outer: Span, inner: Span)
    requires inner == Span(Some("b"), []) && outer == Span(Some("a"), [inner])
    ensures Py.ParagraphText(Paragraph(None, [outer])) == "a b"
  {
    assert Descendants([outer]) == [outer, inner] by {
      assert Descendants([inner]) == [inner] by { DescendantsOfLeaves([inner]); }
      assert [outer][1..] == [];
    }
    AccumulateNested(outer, inner);
    StripWords();
  }

  /** The Python span loop over the outer span and then its child. */
  lemma AccumulateNested(outer: Span, inner: Span)
    requires inner == Span(Some("b"), []) && outer == Span(Some("a"), [inner])
    ensures Py.Accumulate([outer, inner]) == "a b "
  {
    TrimBare("a", IsPySpace);
    TrimBare("b", IsPySpace);
    assert Py.Piece(outer) == "a " && Py.Piece(inner) == "b ";
    assert Py.Accumulate([outer]) == "a " by {
      assert [outer][..0] == [];
    }
    assert [outer, inner][..1] == [outer];
  }

  /** The final strip removes the trailing space only. */
  lemma StripWords()
    ensures Strip("a b ") == "a b"
  {
    assert !IsPySpace('a') && !IsPySpace('b') && IsPySpace(' ');
    assert TrimStart("a b ", IsPySpace) == "a b ";
    assert "a b "[..3] == "a b";
    assert TrimEnd("a b", IsPySpace) == "a b";
    assert TrimEnd("a b ", IsPySpace) == "a b";
  }

  lemma NestedJs(outer: Span, inner: Span)
    requires inner == Span(Some("b"), []) && outer == Span(Some("a"), [inner])
    ensures Js.ParagraphText(Paragraph(None, [outer])) == "b"
  {
    assert Js.SpanText([outer]) == "b " by {
      assert Js.SpanText([inner]) == "b " by { assert [inner][..0] == []; }
      assert [outer][..0] == [];
    }
    assert !IsJsSpace('b') && IsJsSpace(' ');
    assert TrimStart("b ", IsJsSpace) == "b ";
    assert "b "[..1] == "b";
    assert TrimEnd("b", IsJsSpace) == "b";
    assert TrimEnd("b ", IsJsSpace) == "b";
  }

  /** One paragraph of plain words yields the same segment in both extractors, under the same conditions on `begin`. */
  lemma SegmentsAgree(p: Paragraph, includeTimestamps: bool, toSeconds: string -> Option<nat>, parse: string -> Option<nat>)
    requires WordSpans(p.spans, IsPySpace) && WordSpans(p.spans, IsJsSpace)
    requires includeTimestamps && p.begin.Some? ==>
      p.begin.value != "" && toSeconds(RemoveS(p.begin.value)).Some? && toSeconds(RemoveS(p.begin.value)) == parse(p.begin.value)
    ensures Py.SegmentOf(p, includeTimestamps, toSeconds) == Ok(Js.SegmentOf(p, includeTimestamps, parse))
  {
    WordParagraphsAgree(p);
    var text := Js.ParagraphText(p);
    if p.spans == [] {
      assert Words(p.spans) == [];
    }
    if text != "" && includeTimestamps && p.begin.Some? {
      var n := toSeconds(RemoveS(p.begin.value)).value;
      assert Py.SegmentOf(p, includeTimestamps, toSeconds) == Ok(Some("[" + Format(n) + "] " + text));
      assert Js.Stamp(parse(p.begin.value)) == Format(n);
    }
  }

  /**
   * A document with one body holding one div whose paragraphs are plain
   * words gives the same transcript in both extractors, provided, when
   * timestamps are wanted, every `begin` present is non-empty and converts
   * to the same whole seconds in both.
   */
  lemma TranscriptsAgree(d: Document, includeTimestamps: bool, toSeconds: string -> Option<nat>, parse: string -> Option<nat>)
    requires |d.bodies| == 1 && |d.bodies[0].divs| == 1 && d.bodies[0].divs[0].paragraphs != []
    requires forall p :: p in d.bodies[0].divs[0].paragraphs ==> WordSpans(p.spans, IsPySpace) && WordSpans(p.spans, IsJsSpace)
    requires includeTimestamps ==> forall p :: p in d.bodies[0].divs[0].paragraphs && p.begin.Some? ==>
      p.begin.value != "" && toSeconds(RemoveS(p.begin.value)).Some? && toSeconds(RemoveS(p.begin.value)) == parse(p.begin.value)
    ensures Py.TranscriptOf(Paragraphs(d), includeTimestamps, toSeconds).Ok? && Js.TranscriptOf(Ok(d), includeTimestamps, parse).Ok?
    ensures Py.TranscriptOf(Paragraphs(d), includeTimestamps, toSeconds).value == Js.TranscriptOf(Ok(d), includeTimestamps, parse).value
  {
    var ps := d.bodies[0].divs[0].paragraphs;
    ParagraphsOfSingleDiv(d);
    var s, t := Py.Step(includeTimestamps, toSeconds), Js.Step(includeTimestamps, parse);
    forall k | 0 <= k < |ps| ensures s(ps[k]).Ok? && t(ps[k]).Ok? && s(ps[k]).value == t(ps[k]).value {
      assert ps[k] in ps;
      SegmentsAgree(ps[k], includeTimestamps, toSeconds, parse);
    }
    CollectAgree(ps, s, t);
  }
}
