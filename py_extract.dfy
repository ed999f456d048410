/**
 * Transcript assembly of extractTranscript.py (`extract_transcript`), over
 * the parsed tree: each paragraph's descendant span texts are stripped and
 * joined with spaces, empty paragraphs are dropped, a `[HH:MM:SS] ` prefix
 * is added when timestamps are asked for and the paragraph has `begin`, and
 * the segments are joined with a blank line. app.py runs the same loop.
 */
module PyExtract {
  import opened Wrappers
  import opened Text
  import opened Timestamp
  import opened Ttml
  import opened Assembly

  /** The exception `float()` raises on a `begin` value that is not a number; nothing catches it. */
  datatype Exception = ValueError

  /** What a span adds to `paragraph_text`: its stripped text and one space, or nothing when its text is falsy. */
  function Piece(s: Span): string {
    if HasText(s) then Strip(TextOf(s)) + " " else ""
  }

  /** A span whose text is only whitespace still adds one space. */
  lemma BlankSpanAddsSpace(s: Span)
    requires HasText(s) && AllIn(TextOf(s), IsPySpace)
    ensures Piece(s) == " "
  {
    TrimEmptyIff(TextOf(s), IsPySpace);
  }

  /** `paragraph_text` after the span loop over the spans xs, in order. */
  function Accumulate(xs: seq<Span>): string {
    if xs == [] then "" else Accumulate(xs[..|xs| - 1]) + Piece(xs[|xs| - 1])
  }

  /** The paragraph's text: the accumulated span texts of all its descendant spans, stripped once more. */
  function ParagraphText(p: Paragraph): string {
    Strip(Accumulate(Descendants(p.spans)))
  }

  /** The inner loop of extract_transcript: builds the paragraph text span by span. */
  method ParagraphTextOf(p: Paragraph) returns (text: string)
    ensures text == ParagraphText(p)
  {
    var spans := Descendants(p.spans);
    var acc := "";
    for i := 0 to |spans|
      invariant acc == Accumulate(spans[..i])
    {
      AccumulateStep(spans, i);
      if spans[i].text.Some? && spans[i].text.value != "" {
        acc := acc + (Strip(spans[i].text.value) + " ");
      }
    }
    assert spans[..|spans|] == spans;
    text := Strip(acc);
  }

  lemma AccumulateStep(xs: seq<Span>, i: nat)
    requires i < |xs|
    ensures Accumulate(xs[..i + 1]) == Accumulate(xs[..i]) + Piece(xs[i])
  {
    assert xs[..i + 1][..i] == xs[..i];
  }

  lemma {:induction false} AccumulateBlank(xs: seq<Span>)
    ensures AllIn(Accumulate(xs), IsPySpace) <==> forall x :: x in xs ==> AllIn(TextOf(x), IsPySpace)
  {
    if xs != [] {
      var front, last := xs[..|xs| - 1], xs[|xs| - 1];
      assert xs == front + [last];
      AccumulateBlank(front);
      AllInAppend(Accumulate(front), Piece(last), IsPySpace);
      if HasText(last) {
        var t := Strip(TextOf(last));
        AllInAppend(t, " ", IsPySpace);
        TrimEmptyIff(TextOf(last), IsPySpace);
      }
      assert (forall x :: x in xs ==> AllIn(TextOf(x), IsPySpace))
        <==> (forall x :: x in front ==> AllIn(TextOf(x), IsPySpace)) && AllIn(TextOf(last), IsPySpace);
    }
  }

  /**
   * A paragraph's text is empty exactly when every one of its descendant
   * spans has no text or whitespace-only text.
   */
  lemma ParagraphTextEmptyIff(p: Paragraph)
    ensures ParagraphText(p) == "" <==> forall x :: x in Descendants(p.spans) ==> AllIn(TextOf(x), IsPySpace)
  {
    TrimEmptyIff(Accumulate(Descendants(p.spans)), IsPySpace);
    AccumulateBlank(Descendants(p.spans));
  }

  lemma PieceOfWord(x: Span)
    requires HasText(x) && Bare(TextOf(x), IsPySpace)
    ensures Piece(x) == TextOf(x) + " "
  {
    TrimBare(TextOf(x), IsPySpace);
  }

  lemma {:induction false} AccumulateWords(xs: seq<Span>)
    requires |xs| > 0 && WordSpans(xs, IsPySpace)
    ensures Accumulate(xs) == Join(Words(xs), " ") + " "
  {
    var front, last := xs[..|xs| - 1], xs[|xs| - 1];
    PieceOfWord(last);
    if |front| > 0 {
      assert WordSpans(front, IsPySpace) by {
        forall i | 0 <= i < |front| ensures front[i] == xs[i] { }
      }
      AccumulateWords(front);
      JoinSnoc(Words(front), TextOf(last), " ");
    }
  }

  /**
   * A paragraph whose spans are plain words (leaves with non-empty text and
   * no surrounding whitespace) has as text those words separated by single
   * spaces.
   */
  lemma ParagraphTextOfWords(p: Paragraph)
    requires WordSpans(p.spans, IsPySpace)
    ensures ParagraphText(p) == Join(Words(p.spans), " ")
  {
    DescendantsOfLeaves(p.spans);
    if |p.spans| > 0 {
      AccumulateWords(p.spans);
      WordsBare(p.spans, IsPySpace);
      StripJoinSpace(Words(p.spans));
    }
  }

  /** Stripping a join of bare words followed by one space gives back the join. */
  lemma StripJoinSpace(words: seq<string>)
    requires forall i :: 0 <= i < |words| ==> words[i] != "" && Bare(words[i], IsPySpace)
    ensures Strip(Join(words, " ") + " ") == Join(words, " ")
  {
    var j := Join(words, " ");
    TrimAppendSpace(j, ' ', IsPySpace);
    JoinBare(words, " ", IsPySpace);
    TrimBare(j, IsPySpace);
  }

  /** The paragraph would raise: timestamps wanted, `begin` present, and its value without 's' is not a number. */
  predicate Raises(p: Paragraph, includeTimestamps: bool, toSeconds: string -> Option<nat>) {
    includeTimestamps && p.begin.Some? && toSeconds(RemoveS(p.begin.value)).None?
  }

  /**
   * The segment a paragraph contributes (None when its text is empty).
   * `toSeconds` stands for `float()` followed by the truncation in
   * format_timestamp: None when float() raises ValueError.
   */
  function SegmentOf(p: Paragraph, includeTimestamps: bool, toSeconds: string -> Option<nat>): Result<Option<string>, Exception> {
    var text := ParagraphText(p);
    if text == "" then Ok(None)
    else if includeTimestamps && p.begin.Some? then
      match toSeconds(RemoveS(p.begin.value))
      case None => Err(ValueError)
      case Some(n) => Ok(Some("[" + Format(n) + "] " + text))
    else Ok(Some(text))
  }

  /** A paragraph raises exactly when it has text and the `begin` conversion fails, and produces nothing exactly when its text is empty. */
  lemma SegmentErrIff(p: Paragraph, includeTimestamps: bool, toSeconds: string -> Option<nat>)
    ensures SegmentOf(p, includeTimestamps, toSeconds).Err? <==> ParagraphText(p) != "" && Raises(p, includeTimestamps, toSeconds)
    ensures SegmentOf(p, includeTimestamps, toSeconds) == Ok(None) <==> ParagraphText(p) == ""
  {
  }

  /**
   * A segment is the paragraph text itself unless timestamps are wanted and
   * `begin` is present; then it is "[", a timestamp that reads back as the
   * converted `begin` seconds, "] " and the paragraph text.  Either way it is
   * non-empty and has no whitespace at its ends.
   */
  lemma SegmentShape(p: Paragraph, includeTimestamps: bool, toSeconds: string -> Option<nat>, seg: string)
    requires SegmentOf(p, includeTimestamps, toSeconds) == Ok(Some(seg))
    ensures seg == ParagraphText(p) <==> !(includeTimestamps && p.begin.Some?)
    ensures includeTimestamps && p.begin.Some? ==>
      exists ts :: seg == "[" + ts + "] " + ParagraphText(p) && Parse(ts) == toSeconds(RemoveS(p.begin.value))
    ensures seg != "" && Bare(seg, IsPySpace)
  {
    var text := ParagraphText(p);
    if includeTimestamps && p.begin.Some? {
      var n := toSeconds(RemoveS(p.begin.value)).value;
      var pre := "[" + Format(n) + "] ";
      assert pre[0] == '[';
      PrefixedBare(pre, text, IsPySpace);
      FormatRoundTrip(n);
      assert seg == pre + text;
    }
  }

  /** The per-paragraph step of the loop, for the given flag and conversion. */
  function Step(includeTimestamps: bool, toSeconds: string -> Option<nat>): Paragraph -> Result<Option<string>, Exception> {
    p => SegmentOf(p, includeTimestamps, toSeconds)
  }

  /** The segment list `transcript` after the paragraph loop, or the exception that ended it. */
  function Segments(ps: seq<Paragraph>, includeTimestamps: bool, toSeconds: string -> Option<nat>): Result<seq<string>, Exception> {
    Collect(ps, Step(includeTimestamps, toSeconds))
  }

  /** The paragraphs that contribute a segment, in their original order. */
  function Kept(ps: seq<Paragraph>, includeTimestamps: bool, toSeconds: string -> Option<nat>): seq<Paragraph> {
    Contributing(ps, Step(includeTimestamps, toSeconds))
  }

  /** The paragraph raises during the loop: it has text, and its `begin` cannot be converted although it is needed. */
  predicate Fails(p: Paragraph, includeTimestamps: bool, toSeconds: string -> Option<nat>) {
    ParagraphText(p) != "" && Raises(p, includeTimestamps, toSeconds)
  }

  /** The paragraph loop raises exactly when some paragraph fails. */
  lemma SegmentsRaiseIff(ps: seq<Paragraph>, includeTimestamps: bool, toSeconds: string -> Option<nat>)
    ensures Segments(ps, includeTimestamps, toSeconds).Err? <==>
      exists k :: 0 <= k < |ps| && Fails(ps[k], includeTimestamps, toSeconds)
  {
    var step := Step(includeTimestamps, toSeconds);
    CollectErrIff(ps, step);
    forall k | 0 <= k < |ps| ensures step(ps[k]).Err? <==> Fails(ps[k], includeTimestamps, toSeconds) {
      SegmentErrIff(ps[k], includeTimestamps, toSeconds);
    }
  }

  /**
   * The paragraphs that contribute are those with non-empty text that do not
   * raise; when the loop does not raise, it yields one segment per
   * contributing paragraph, in paragraph order, the k-th being that
   * paragraph's segment.
   */
  lemma SegmentsKept(ps: seq<Paragraph>, includeTimestamps: bool, toSeconds: string -> Option<nat>)
    ensures |Kept(ps, includeTimestamps, toSeconds)| <= |ps|
    ensures forall p :: p in Kept(ps, includeTimestamps, toSeconds) <==>
      p in ps && ParagraphText(p) != "" && !Raises(p, includeTimestamps, toSeconds)
    ensures Segments(ps, includeTimestamps, toSeconds).Ok? ==>
      var segs := Segments(ps, includeTimestamps, toSeconds).value;
      |segs| == |Kept(ps, includeTimestamps, toSeconds)| &&
      forall k :: 0 <= k < |segs| ==> SegmentOf(Kept(ps, includeTimestamps, toSeconds)[k], includeTimestamps, toSeconds) == Ok(Some(segs[k]))
  {
    var step := Step(includeTimestamps, toSeconds);
    ContributingSpec(ps, step);
    forall p | p in ps ensures (step(p).Ok? && step(p).value.Some?) <==> ParagraphText(p) != "" && !Raises(p, includeTimestamps, toSeconds) {
      SegmentErrIff(p, includeTimestamps, toSeconds);
    }
    if Collect(ps, step).Ok? {
      CollectContributing(ps, step);
    }
  }

  /** extract_transcript's result before the file write: the segments joined with a blank line. */
  function TranscriptOf(ps: seq<Paragraph>, includeTimestamps: bool, toSeconds: string -> Option<nat>): Result<string, Exception> {
    match Segments(ps, includeTimestamps, toSeconds)
    case Ok(segs) => Ok(Join(segs, "\n\n"))
    case Err(e) => Err(e)
  }

  /**
   * The transcript has no whitespace at either end (no leading or trailing
   * separator) and is empty exactly when no paragraph has text.
   */
  lemma TranscriptBare(ps: seq<Paragraph>, includeTimestamps: bool, toSeconds: string -> Option<nat>)
    requires TranscriptOf(ps, includeTimestamps, toSeconds).Ok?
    ensures Bare(TranscriptOf(ps, includeTimestamps, toSeconds).value, IsPySpace)
    ensures TranscriptOf(ps, includeTimestamps, toSeconds).value == "" <==> Kept(ps, includeTimestamps, toSeconds) == []
  {
    SegmentsKept(ps, includeTimestamps, toSeconds);
    var segs := Segments(ps, includeTimestamps, toSeconds).value;
    forall k | 0 <= k < |segs| ensures segs[k] != "" && Bare(segs[k], IsPySpace) {
      SegmentShape(Kept(ps, includeTimestamps, toSeconds)[k], includeTimestamps, toSeconds, segs[k]);
    }
    JoinBare(segs, "\n\n", IsPySpace);
  }

  /** The paragraph loop of extract_transcript and the final "\n\n".join. */
  method BuildTranscript(ps: seq<Paragraph>, includeTimestamps: bool, toSeconds: string -> Option<nat>) returns (r: Result<string, Exception>)
    ensures r == TranscriptOf(ps, includeTimestamps, toSeconds)
  {
    var transcript: seq<string> := [];
    for i := 0 to |ps|
      invariant Segments(ps[..i], includeTimestamps, toSeconds) == Ok(transcript)
    {
      assert ps[..i + 1][..i] == ps[..i];
      var text := ParagraphTextOf(ps[i]);
      if text != "" {
        if includeTimestamps && ps[i].begin.Some? {
          var seconds := toSeconds(RemoveS(ps[i].begin.value));
          if seconds.None? {
            CollectErrPrefix(ps, i + 1, Step(includeTimestamps, toSeconds));
            assert Segments(ps, includeTimestamps, toSeconds).error.ValueError?;
            return Err(ValueError);
          }
          transcript := transcript + ["[" + Format(seconds.value) + "] " + text];
        } else {
          transcript := transcript + [text];
        }
      }
    }
    assert ps[..|ps|] == ps;
    assert Segments(ps, includeTimestamps, toSeconds) == Ok(transcript);
    r := Ok(Join(transcript, "\n\n"));
  }

  /** The diagnostic both Python files build from a parse error's message. */
  function ParseErrorText(message: string): string {
    "Error parsing TTML file: " + message
  }

  /**
   * What one call of extractTranscript.py's extract_transcript does: writes
   * the transcript to the output file, prints the parse-error diagnostic and
   * writes nothing, or lets ValueError escape before anything is written.
   */
  datatype FileOutcome = Saved(content: string) | ParseErrorPrinted(line: string) | Raised(e: Exception)

  /**
   * extract_transcript of extractTranscript.py over the parser's outcome:
   * `parsed` is the document, or the message of the ET.ParseError.
   */
  method ExtractTranscript(parsed: Result<Document, string>, includeTimestamps: bool, toSeconds: string -> Option<nat>) returns (out: FileOutcome)
    ensures parsed.Err? ==> out == ParseErrorPrinted(ParseErrorText(parsed.error))
    ensures parsed.Ok? ==> match TranscriptOf(Paragraphs(parsed.value), includeTimestamps, toSeconds)
                           case Ok(t) => out == Saved(t)
                           case Err(e) => out == Raised(e)
  {
    if parsed.Err? {
      return ParseErrorPrinted(ParseErrorText(parsed.error));
    }
    var r := BuildTranscript(Paragraphs(parsed.value), includeTimestamps, toSeconds);
    if r.Ok? {
      out := Saved(r.value);
    } else {
      out := Raised(r.error);
    }
  }
}
