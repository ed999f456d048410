/**
 * Transcript assembly of extractTranscript.js (`extractTranscript`) over the
 * tree xml2js produces: only the paragraphs of the first `div` of the first
 * `body` are read; a span with child spans contributes only its children's
 * text (recursively), a leaf span its own text and one space; the paragraph
 * text is trimmed once; a `[HH:MM:SS] ` prefix is added when timestamps are
 * asked for and `begin` is truthy; the segments are joined with a blank line.
 */
module JsExtract {
  import opened Wrappers
  import opened Text
  import opened Timestamp
  import opened Ttml
  import opened Assembly

  /** What escapes from the parser callback: the parser's error (rethrown), or the TypeError of a missing element. */
  datatype JsError = ParseError(message: string) | TypeError

  /** What a leaf span contributes: its text and one space, or nothing when `span._` is falsy. */
  function LeafPiece(s: Span): string {
    if HasText(s) then TextOf(s) + " " else ""
  }

  /** extractTextFromSpans: the text of a list of sibling spans. */
  function SpanText(spans: seq<Span>): string
    decreases spans
  {
    if spans == [] then ""
    else
      var last := spans[|spans| - 1];
      SpanText(spans[..|spans| - 1]) + (if last.children != [] then SpanText(last.children) else LeafPiece(last))
  }

  /** The recursive extractTextFromSpans with its forEach loop. */
  method ExtractTextFromSpans(spans: seq<Span>) returns (text: string)
    ensures text == SpanText(spans)
    decreases spans
  {
    text := "";
    for i := 0 to |spans|
      invariant text == SpanText(spans[..i])
    {
      SpanTextStep(spans, i);
      var span := spans[i];
      if span.children != [] {
        var inner := ExtractTextFromSpans(span.children);
        text := text + inner;
      } else if span.text.Some? && span.text.value != "" {
        text := text + (span.text.value + " ");
      }
    }
    assert spans[..|spans|] == spans;
  }

  lemma SpanTextStep(spans: seq<Span>, i: nat)
    requires i < |spans|
    ensures SpanText(spans[..i + 1]) ==
      SpanText(spans[..i]) + (if spans[i].children != [] then SpanText(spans[i].children) else LeafPiece(spans[i]))
  {
    assert spans[..i + 1][..i] == spans[..i];
  }

  /** The pieces of a list of spans, each span taken on its own: only leaves contribute. */
  function LeafPieces(xs: seq<Span>): string {
    if xs == [] then "" else LeafPieces(xs[..|xs| - 1]) + (if IsLeaf(xs[|xs| - 1]) then LeafPiece(xs[|xs| - 1]) else "")
  }

  lemma {:induction false} LeafPiecesAppend(a: seq<Span>, b: seq<Span>)
    ensures LeafPieces(a + b) == LeafPieces(a) + LeafPieces(b)
  {
    if b == [] {
      assert a + b == a;
    } else {
      assert (a + b)[..|a + b| - 1] == a + b[..|b| - 1];
      LeafPiecesAppend(a, b[..|b| - 1]);
    }
  }

  /**
   * extractTextFromSpans reads the leaves of the span tree in document
   * order, each leaf's text untrimmed and followed by one space; the own
   * text of a span with children is never read.
   */
  lemma {:induction false} SpanTextLeaves(spans: seq<Span>)
    ensures SpanText(spans) == LeafPieces(Descendants(spans))
    decreases spans
  {
    if spans != [] {
      var front, last := spans[..|spans| - 1], spans[|spans| - 1];
      var ds, dc := Descendants(front), Descendants(last.children);
      var own := if IsLeaf(last) then LeafPiece(last) else "";
      var piece := if last.children != [] then SpanText(last.children) else LeafPiece(last);
      assert SpanText(spans) == SpanText(front) + piece;
      assert Descendants(spans) == ds + [last] + dc by {
        DescendantsLast(spans);
      }
      assert LeafPieces(ds + [last] + dc) == LeafPieces(ds) + (own + LeafPieces(dc)) by {
        LeafPiecesAppend(ds + [last], dc);
        LeafPiecesAppend(ds, [last]);
        assert [last][..0] == [];
        AppendAssoc(LeafPieces(ds), own, LeafPieces(dc));
      }
      assert piece == own + LeafPieces(dc) by {
        SpanTextLeaves(last.children);
        if IsLeaf(last) {
          assert dc == [];
        }
      }
      SpanTextLeaves(front);
    }
  }

  lemma {:induction false} LeafPiecesBlank(xs: seq<Span>)
    ensures AllIn(LeafPieces(xs), IsJsSpace) <==> forall x :: x in xs && IsLeaf(x) ==> AllIn(TextOf(x), IsJsSpace)
  {
    if xs != [] {
      var front, last := xs[..|xs| - 1], xs[|xs| - 1];
      assert xs == front + [last];
      LeafPiecesBlank(front);
      var piece := if IsLeaf(last) then LeafPiece(last) else "";
      AllInAppend(LeafPieces(front), piece, IsJsSpace);
      if IsLeaf(last) && HasText(last) {
        AllInAppend(TextOf(last), " ", IsJsSpace);
      }
      assert (forall x :: x in xs && IsLeaf(x) ==> AllIn(TextOf(x), IsJsSpace))
        <==> (forall x :: x in front && IsLeaf(x) ==> AllIn(TextOf(x), IsJsSpace)) && (IsLeaf(last) ==> AllIn(TextOf(last), IsJsSpace));
    }
  }

  /** The trimmed paragraph text, `extractTextFromSpans(paragraph.span).trim()`. */
  function ParagraphText(p: Paragraph): string {
    Trim(SpanText(p.spans))
  }

  /**
   * A paragraph's text is empty exactly when every leaf span below it has no
   * text or only whitespace; text on spans that have children never counts.
   */
  lemma ParagraphTextEmptyIff(p: Paragraph)
    ensures ParagraphText(p) == "" <==> forall x :: x in Descendants(p.spans) && IsLeaf(x) ==> AllIn(TextOf(x), IsJsSpace)
  {
    TrimEmptyIff(SpanText(p.spans), IsJsSpace);
    SpanTextLeaves(p.spans);
    LeafPiecesBlank(Descendants(p.spans));
  }

  lemma {:induction false} SpanTextWords(xs: seq<Span>)
    requires |xs| > 0 && WordSpans(xs, IsJsSpace)
    ensures SpanText(xs) == Join(Words(xs), " ") + " "
  {
    var front, last := xs[..|xs| - 1], xs[|xs| - 1];
    if |front| > 0 {
      assert WordSpans(front, IsJsSpace) by {
        forall i | 0 <= i < |front| ensures front[i] == xs[i] { }
      }
      SpanTextWords(front);
      JoinSnoc(Words(front), TextOf(last), " ");
    }
  }

  /** A paragraph of plain word spans has as text those words separated by single spaces. */
  lemma ParagraphTextOfWords(p: Paragraph)
    requires WordSpans(p.spans, IsJsSpace)
    ensures ParagraphText(p) == Join(Words(p.spans), " ")
  {
    if |p.spans| > 0 {
      SpanTextWords(p.spans);
      var j := Join(Words(p.spans), " ");
      WordsBare(p.spans, IsJsSpace);
      JoinBare(Words(p.spans), " ", IsJsSpace);
      TrimAppendSpace(j, ' ', IsJsSpace);
      TrimBare(j, IsJsSpace);
    }
  }

  /** formatTimestamp of parseFloat(begin): NaN formats as "NaN" in every field. */
  function Stamp(seconds: Option<nat>): string {
    match seconds
    case Some(n) => Format(n)
    case None => "NaN:NaN:NaN"
  }

  /** The prefix is wanted: timestamps asked for and `paragraph.$.begin` truthy (present and non-empty). */
  predicate Prefixed(p: Paragraph, includeTimestamps: bool) {
    includeTimestamps && p.begin.Some? && p.begin.value != ""
  }

  /**
   * The segment a paragraph contributes, or None.  `parse` stands for
   * parseFloat followed by the flooring in formatTimestamp; None is NaN.
   */
  function SegmentOf(p: Paragraph, includeTimestamps: bool, parse: string -> Option<nat>): Option<string> {
    if p.spans == [] then None
    else
      var text := ParagraphText(p);
      if text == "" then None
      else if Prefixed(p, includeTimestamps) then Some("[" + Stamp(parse(p.begin.value)) + "] " + text)
      else Some(text)
  }

  /** The per-paragraph step of the forEach; it never throws. */
  function Step(includeTimestamps: bool, parse: string -> Option<nat>): Paragraph -> Result<Option<string>, JsError> {
    p => Ok(SegmentOf(p, includeTimestamps, parse))
  }

  /**
   * A paragraph contributes exactly when its text is non-empty (the test
   * for a missing `span` array decides nothing more).  A segment is the text
   * itself unless the prefix is wanted; then it is "[", a timestamp that
   * reads back as the parsed seconds (or "NaN:NaN:NaN"), "] " and the text.
   * Either way it is non-empty with no whitespace at its ends.
   */
  lemma SegmentShape(p: Paragraph, includeTimestamps: bool, parse: string -> Option<nat>)
    ensures SegmentOf(p, includeTimestamps, parse).Some? <==> ParagraphText(p) != ""
    ensures SegmentOf(p, includeTimestamps, parse).Some? ==> var seg := SegmentOf(p, includeTimestamps, parse).value;
      (seg == ParagraphText(p) <==> !Prefixed(p, includeTimestamps)) &&
      (Prefixed(p, includeTimestamps) ==>
         exists ts :: (seg == "[" + ts + "] " + ParagraphText(p) &&
           (parse(p.begin.value).Some? ==> Parse(ts) == parse(p.begin.value)) &&
           (parse(p.begin.value).None? ==> ts == "NaN:NaN:NaN"))) &&
      seg != "" && Bare(seg, IsJsSpace)
  {
    if p.spans == [] {
      assert SpanText(p.spans) == "";
      TrimBare("", IsJsSpace);
    }
    var text := ParagraphText(p);
    if text != "" && Prefixed(p, includeTimestamps) {
      var seconds := parse(p.begin.value);
      var ts := Stamp(seconds);
      var pre := "[" + ts + "] ";
      assert pre[0] == '[';
      PrefixedBare(pre, text, IsJsSpace);
      if seconds.Some? {
        FormatRoundTrip(seconds.value);
      }
      assert SegmentOf(p, includeTimestamps, parse).value == pre + text;
    }
  }

  /** The paragraph list `result.tt.body[0].div[0].p`, or the TypeError of reading through a missing element. */
  function FirstDivParagraphs(d: Document): Result<seq<Paragraph>, JsError> {
    if d.bodies == [] || d.bodies[0].divs == [] || d.bodies[0].divs[0].paragraphs == [] then Err(TypeError)
    else Ok(d.bodies[0].divs[0].paragraphs)
  }

  /** extractTranscript's output text, or what escapes from it. */
  function TranscriptOf(parsed: Result<Document, string>, includeTimestamps: bool, parse: string -> Option<nat>): Result<string, JsError> {
    match parsed
    case Err(m) => Err(ParseError(m))
    case Ok(d) =>
      match FirstDivParagraphs(d)
      case Err(e) => Err(e)
      case Ok(ps) =>
        match Collect(ps, Step(includeTimestamps, parse))
        case Err(e) => Err(e)
        case Ok(segs) => Ok(Join(segs, "\n\n"))
  }

  /** The paragraph forEach and the join, over the paragraphs of the first div. */
  method BuildTranscript(ps: seq<Paragraph>, includeTimestamps: bool, parse: string -> Option<nat>) returns (out: string)
    ensures Collect(ps, Step(includeTimestamps, parse)).Ok?
    ensures out == Join(Collect(ps, Step(includeTimestamps, parse)).value, "\n\n")
  {
    var transcript: seq<string> := [];
    for i := 0 to |ps|
      invariant Collect(ps[..i], Step(includeTimestamps, parse)) == Ok(transcript)
    {
      CollectStep(ps, i, Step(includeTimestamps, parse), transcript);
      var paragraph := ps[i];
      if paragraph.spans != [] {
        var raw := ExtractTextFromSpans(paragraph.spans);
        var paragraphText := Trim(raw);
        if paragraphText != "" {
          if includeTimestamps && paragraph.begin.Some? && paragraph.begin.value != "" {
            var timestamp := Stamp(parse(paragraph.begin.value));
            transcript := transcript + ["[" + timestamp + "] " + paragraphText];
          } else {
            transcript := transcript + [paragraphText];
          }
        }
      }
    }
    assert ps[..|ps|] == ps;
    out := Join(transcript, "\n\n");
  }

  /**
   * extractTranscript: the parser's error is rethrown, a missing body, div
   * or paragraph list throws TypeError, and otherwise the output text is
   * what is written to the output file.
   */
  method ExtractTranscript(parsed: Result<Document, string>, includeTimestamps: bool, parse: string -> Option<nat>) returns (out: Result<string, JsError>)
    ensures out == TranscriptOf(parsed, includeTimestamps, parse)
  {
    if parsed.Err? {
      return Err(ParseError(parsed.error));
    }
    var d := parsed.value;
    if d.bodies == [] || d.bodies[0].divs == [] || d.bodies[0].divs[0].paragraphs == [] {
      return Err(TypeError);
    }
    var text := BuildTranscript(d.bodies[0].divs[0].paragraphs, includeTimestamps, parse);
    out := Ok(text);
  }

  /**
   * The paragraph loop never throws; the paragraphs that contribute are
   * exactly those with non-empty text, and the k-th segment is the k-th
   * contributing paragraph's, so segments keep paragraph order.
   */
  lemma SegmentsKept(ps: seq<Paragraph>, includeTimestamps: bool, parse: string -> Option<nat>)
    ensures Collect(ps, Step(includeTimestamps, parse)).Ok?
    ensures |Contributing(ps, Step(includeTimestamps, parse))| <= |ps|
    ensures forall p :: p in Contributing(ps, Step(includeTimestamps, parse)) <==> p in ps && ParagraphText(p) != ""
    ensures var segs := Collect(ps, Step(includeTimestamps, parse)).value;
      var kept := Contributing(ps, Step(includeTimestamps, parse));
      |segs| == |kept| && forall k :: 0 <= k < |segs| ==> SegmentOf(kept[k], includeTimestamps, parse) == Some(segs[k])
  {
    var step := Step(includeTimestamps, parse);
    CollectErrIff(ps, step);
    ContributingSpec(ps, step);
    forall p | p in ps ensures step(p).value.Some? <==> ParagraphText(p) != "" {
      SegmentShape(p, includeTimestamps, parse);
    }
    CollectContributing(ps, step);
  }

  /**
   * The output text has no JavaScript whitespace at either end and is empty
   * exactly when no paragraph of the first div has text.
   */
  lemma TranscriptBare(d: Document, includeTimestamps: bool, parse: string -> Option<nat>)
    requires FirstDivParagraphs(d).Ok?
    ensures TranscriptOf(Ok(d), includeTimestamps, parse).Ok?
    ensures Bare(TranscriptOf(Ok(d), includeTimestamps, parse).value, IsJsSpace)
    ensures TranscriptOf(Ok(d), includeTimestamps, parse).value == "" <==>
      forall p :: p in FirstDivParagraphs(d).value ==> ParagraphText(p) == ""
  {
    var ps := FirstDivParagraphs(d).value;
    SegmentsKept(ps, includeTimestamps, parse);
    var step := Step(includeTimestamps, parse);
    var segs := Collect(ps, step).value;
    var kept := Contributing(ps, step);
    forall k | 0 <= k < |segs| ensures segs[k] != "" && Bare(segs[k], IsJsSpace) {
      SegmentShape(kept[k], includeTimestamps, parse);
    }
    JoinBare(segs, "\n\n", IsJsSpace);
    if kept != [] {
      assert kept[0] in kept;
    }
  }
}
