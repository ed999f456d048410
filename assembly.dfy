/**
 * The paragraph loop that all three extractors share: every paragraph, in
 * document order, either contributes one segment, contributes nothing, or
 * stops the loop with an exception; the segments that were produced are
 * kept in paragraph order.  `seg` is the per-paragraph step of one
 * implementation.
 */
module Assembly {
  import opened Wrappers
  import opened Ttml

  /** The segment list after the loop over ps, or the first exception it raised. */
  function Collect<E>(ps: seq<Paragraph>, seg: Paragraph -> Result<Option<string>, E>): Result<seq<string>, E> {
    if ps == [] then Ok([])
    else
      match Collect(ps[..|ps| - 1], seg)
      case Err(e) => Err(e)
      case Ok(front) =>
        match seg(ps[|ps| - 1])
        case Err(e) => Err(e)
        case Ok(None) => Ok(front)
        case Ok(Some(s)) => Ok(front + [s])
  }

  /** The paragraphs that contribute a segment, in their original order. */
  function Contributing<E>(ps: seq<Paragraph>, seg: Paragraph -> Result<Option<string>, E>): seq<Paragraph> {
    if ps == [] then []
    else Contributing(ps[..|ps| - 1], seg) + (if seg(ps[|ps| - 1]).Ok? && seg(ps[|ps| - 1]).value.Some? then [ps[|ps| - 1]] else [])
  }

  /** One more turn of the loop, from the segments of the first i paragraphs. */
  lemma CollectStep<E>(ps: seq<Paragraph>, i: nat, seg: Paragraph -> Result<Option<string>, E>, acc: seq<string>)
    requires i < |ps| && Collect(ps[..i], seg) == Ok(acc)
    ensures Collect(ps[..i + 1], seg) == match seg(ps[i])
      case Err(e) => Err(e)
      case Ok(None) => Ok(acc)
      case Ok(Some(s)) => Ok(acc + [s])
  {
    assert ps[..i + 1][..i] == ps[..i];
  }

  /** Once the loop has raised on a prefix, it raises on the whole list. */
  lemma {:induction false} CollectErrPrefix<E>(ps: seq<Paragraph>, k: nat, seg: Paragraph -> Result<Option<string>, E>)
    requires k <= |ps| && Collect(ps[..k], seg).Err?
    ensures Collect(ps, seg).Err?
  {
    if k == |ps| {
      assert ps[..k] == ps;
    } else {
      var front := ps[..|ps| - 1];
      assert front[..k] == ps[..k];
      CollectErrPrefix(front, k, seg);
    }
  }

  /** The loop raises exactly when the step raises on some paragraph. */
  lemma {:induction false} CollectErrIff<E>(ps: seq<Paragraph>, seg: Paragraph -> Result<Option<string>, E>)
    ensures Collect(ps, seg).Err? <==> exists k :: 0 <= k < |ps| && seg(ps[k]).Err?
  {
    if ps != [] {
      var front := ps[..|ps| - 1];
      CollectErrIff(front, seg);
      if exists k :: 0 <= k < |front| && seg(front[k]).Err? {
        var k :| 0 <= k < |front| && seg(front[k]).Err?;
        assert ps[k] == front[k];
      }
      if exists k :: 0 <= k < |ps| && seg(ps[k]).Err? {
        var k :| 0 <= k < |ps| && seg(ps[k]).Err?;
        if k < |front| { assert ps[k] == front[k]; }
      }
    }
  }

  /**
   * When the loop does not raise it yields exactly one segment per
   * contributing paragraph, in paragraph order: the k-th segment is the k-th
   * contributing paragraph's.
   */
  lemma {:induction false} CollectContributing<E>(ps: seq<Paragraph>, seg: Paragraph -> Result<Option<string>, E>)
    requires Collect(ps, seg).Ok?
    ensures var segs := Collect(ps, seg).value;
      |segs| == |Contributing(ps, seg)| &&
      forall k :: 0 <= k < |segs| ==> seg(Contributing(ps, seg)[k]) == Ok(Some(segs[k]))
  {
    if ps != [] {
      var front := ps[..|ps| - 1];
      CollectContributing(front, seg);
      var cf := Contributing(front, seg);
      var sf := Collect(front, seg).value;
      var segs := Collect(ps, seg).value;
      forall k | 0 <= k < |sf| ensures Contributing(ps, seg)[k] == cf[k] && segs[k] == sf[k] { }
    }
  }

  /** At most one segment per paragraph, and a paragraph contributes exactly when its step yields a segment. */
  lemma {:induction false} ContributingSpec<E>(ps: seq<Paragraph>, seg: Paragraph -> Result<Option<string>, E>)
    ensures |Contributing(ps, seg)| <= |ps|
    ensures forall p :: p in Contributing(ps, seg) <==> p in ps && seg(p).Ok? && seg(p).value.Some?
  {
    if ps != [] {
      var front, last := ps[..|ps| - 1], ps[|ps| - 1];
      assert ps == front + [last];
      ContributingSpec(front, seg);
    }
  }

  /** Filtering keeps order: what contributes of two runs is what contributes of the first, then of the second. */
  lemma {:induction false} ContributingAppend<E>(a: seq<Paragraph>, b: seq<Paragraph>, seg: Paragraph -> Result<Option<string>, E>)
    ensures Contributing(a + b, seg) == Contributing(a, seg) + Contributing(b, seg)
  {
    if b == [] {
      assert a + b == a;
    } else {
      assert (a + b)[..|a + b| - 1] == a + b[..|b| - 1];
      ContributingAppend(a, b[..|b| - 1], seg);
    }
  }

  /** Two steps that yield the same segment on every paragraph drive the loop to the same segments. */
  lemma {:induction false} CollectAgree<E, F>(ps: seq<Paragraph>, s: Paragraph -> Result<Option<string>, E>, t: Paragraph -> Result<Option<string>, F>)
    requires forall k :: 0 <= k < |ps| ==> s(ps[k]).Ok? && t(ps[k]).Ok? && s(ps[k]).value == t(ps[k]).value
    ensures Collect(ps, s).Ok? && Collect(ps, t).Ok? && Collect(ps, s).value == Collect(ps, t).value
  {
    if ps != [] {
      var front := ps[..|ps| - 1];
      assert forall k :: 0 <= k < |front| ==> front[k] == ps[k];
      CollectAgree(front, s, t);
    }
  }
}
