/**
 * The web front end app.py: the upload filter `allowed_file` and its
 * `extract_transcript`, which runs the same paragraph loop as
 * extractTranscript.py but returns the transcript instead of writing it,
 * and returns the parse-error diagnostic as an ordinary string.
 */
module AppUpload {
  import opened Wrappers
  import opened Text
  import opened Ttml
  import opened Assembly
  import opened PyExtract

  /** The only extension in ALLOWED_EXTENSIONS. */
  const ALLOWED_EXTENSION := "ttml"

  /**
   * allowed_file: f has a '.', and what follows its last '.' lower-cases to
   * "ttml".  (str.lower() is Unicode-aware; only the ASCII letters T, M, L
   * lower-case to t, m, l, so ASCII lower-casing decides the same way.)
   */
  function AllowedFile(f: string): (ok: bool)
    ensures ok <==> exists i :: 0 <= i < |f| && f[i] == '.' && '.' !in f[i + 1..] && Lower(f[i + 1..]) == ALLOWED_EXTENSION
  {
    var d := LastIndex(f, '.');
    if d.Some? then
      Lower(f[d.value + 1..]) == ALLOWED_EXTENSION
    else false
  }

  /** Any case of the last extension, any stem (empty or with dots of its own) is accepted. */
  lemma AllowedAnyCase(stem: string, ext: string)
    requires CaseOfTtml(ext)
    ensures AllowedFile(stem + "." + ext)
  {
    LowerTtml(ext);
    AllowedWithExtension(stem, ext);
  }

  /** ext spells "ttml" in upper, lower or mixed case. */
  predicate CaseOfTtml(ext: string) {
    |ext| == 4 && ext[0] in "Tt" && ext[1] in "Tt" && ext[2] in "Mm" && ext[3] in "Ll"
  }

  /** Whatever comes before the last dot, an extension that lower-cases to "ttml" is accepted. */
  lemma AllowedWithExtension(stem: string, ext: string)
    requires '.' !in ext && Lower(ext) == ALLOWED_EXTENSION
    ensures AllowedFile(stem + "." + ext)
  {
    var f := stem + "." + ext;
    assert f[|stem|] == '.';
    assert f[|stem| + 1..] == ext;
  }

  lemma LowerTtml(s: string)
    requires CaseOfTtml(s)
    ensures Lower(s) == ALLOWED_EXTENSION && '.' !in s
  {
    var r := Lower(s);
    assert r[0] == 't' && r[1] == 't' && r[2] == 'm' && r[3] == 'l';
  }

  /** No dot, a later extension, a near miss and the empty name are refused. */
  lemma AllowedFileRejects()
    ensures !AllowedFile("ttml") && !AllowedFile("a.ttml.txt") && !AllowedFile("a.ttm") && !AllowedFile("")
  {
    assert LastIndex("a.ttml.txt", '.') == Some(6);
    assert "a.ttml.txt"[7..] == "txt";
    assert LastIndex("a.ttm", '.') == Some(1);
    assert "a.ttm"[2..] == "ttm";
  }

  /** Every name the batch extractor would pick up (ending in ".ttml") passes the upload filter. */
  lemma EndsWithTtmlAllowed(f: string)
    requires EndsWith(f, ".ttml")
    ensures AllowedFile(f)
  {
    var i := |f| - 5;
    assert f[i] == '.';
    assert f[i + 1..] == "ttml";
  }

  /** The filter is wider than the batch extractor's: it also takes upper- and mixed-case extensions. */
  lemma AllowedNotEndsWith(stem: string, ext: string)
    requires CaseOfTtml(ext) && ext != ALLOWED_EXTENSION
    ensures AllowedFile(stem + "." + ext) && !EndsWith(stem + "." + ext, ".ttml")
  {
    AllowedAnyCase(stem, ext);
    var f := stem + "." + ext;
    assert f[|f| - 4..] == ext;
  }

  /**
   * extract_transcript of app.py as written: the transcript, the
   * parse-error diagnostic as an ordinary result string, or the ValueError
   * that escapes from a `begin` value that is not a number.
   */
  method ExtractTranscript(parsed: Result<Document, string>, includeTimestamps: bool, toSeconds: string -> Option<nat>) returns (r: Result<string, Exception>)
    ensures parsed.Err? ==> r == Ok(ParseErrorText(parsed.error))
    ensures parsed.Ok? ==> r == TranscriptOf(Paragraphs(parsed.value), includeTimestamps, toSeconds)
  {
    if parsed.Err? {
      return Ok(ParseErrorText(parsed.error));
    }
    r := BuildTranscript(Paragraphs(parsed.value), includeTimestamps, toSeconds);
  }

  /**
   * A document whose one paragraph reads "Error parsing TTML file: x" gives
   * the very result ExtractTranscript gives for a parse failure with
   * message "x" (Ok of the diagnostic): a caller (the
   * upload route, which summarises whatever comes back) cannot tell the two
   * apart.
   */
  lemma ParseErrorIndistinguishable(toSeconds: string -> Option<nat>)
    ensures var text := ParseErrorText("x");
      var doc := Document([Body([Div([Paragraph(None, [Span(Some(text), [])])])])]);
      TranscriptOf(Paragraphs(doc), false, toSeconds) == Ok(ParseErrorText("x"))
  {
    var text := ParseErrorText("x");
    var p := Paragraph(None, [Span(Some(text), [])]);
    var doc := Document([Body([Div([p])])]);
    assert Paragraphs(doc) == [p] by {
      assert DivParagraphs([Div([p])]) == [p];
    }
    assert Bare(text, IsPySpace);
    assert WordSpans(p.spans, IsPySpace);
    ParagraphTextOfWords(p);
    assert Words(p.spans) == [text];
    assert ParagraphText(p) == text;
    var step := Step(false, toSeconds);
    assert step(p) == Ok(Some(text));
    assert [p][..0] == [];
    assert Collect([], step) == Ok([]);
    assert Collect([p], step) == Ok([text]);
  }

  /** What extract_transcript evidently means to return: a transcript, or a parse failure marked as such. */
  datatype Extracted = Transcript(text: string) | ParseFailed(message: string)

  /** The corrected extract_transcript: a parse failure is reported as itself. */
  method ExtractTranscriptChecked(parsed: Result<Document, string>, includeTimestamps: bool, toSeconds: string -> Option<nat>) returns (r: Result<Extracted, Exception>)
    ensures parsed.Err? <==> r.Ok? && r.value.ParseFailed?
    ensures parsed.Err? ==> r == Ok(ParseFailed(ParseErrorText(parsed.error)))
    ensures parsed.Ok? ==> match TranscriptOf(Paragraphs(parsed.value), includeTimestamps, toSeconds)
                           case Ok(t) => r == Ok(Transcript(t))
                           case Err(e) => r == Err(e)
  {
    if parsed.Err? {
      return Ok(ParseFailed(ParseErrorText(parsed.error)));
    }
    var t := BuildTranscript(Paragraphs(parsed.value), includeTimestamps, toSeconds);
    if t.Ok? {
      r := Ok(Transcript(t.value));
    } else {
      r := Err(t.error);
    }
  }
}
