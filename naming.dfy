/**
 * Output naming of the batch modes (the `filename_counts` loop of
 * extractTranscript.py's main and the `filenameCounts` loop of
 * extractTranscript.js): the k-th earlier file with the same podcast id
 * gives suffix "-k", the first none, and the per-id counter grows by one per
 * file.
 */
module Naming {
  import opened Timestamp
  import opened Text

  /** os.path.join("./transcripts", name) for a name without '/'. */
  const PY_OUTPUT_DIR := "./transcripts/"

  /** path.join("./transcripts", name), which drops the leading "./", for a name without '/'. */
  const JS_OUTPUT_DIR := "transcripts/"

  /** The suffix of a file whose id was seen `count` times before. */
  function Suffix(count: nat): string {
    if count == 0 then "" else "-" + Digits(count)
  }

  function OutputName(id: string, count: nat): string {
    id + Suffix(count) + ".txt"
  }

  /** How often id occurs in ids. */
  function Occurrences(ids: seq<string>, id: string): nat {
    if ids == [] then 0 else Occurrences(ids[..|ids| - 1], id) + (if ids[|ids| - 1] == id then 1 else 0)
  }

  lemma OccurrencesStep(ids: seq<string>, k: nat, id: string)
    requires k < |ids|
    ensures Occurrences(ids[..k + 1], id) == Occurrences(ids[..k], id) + (if ids[k] == id then 1 else 0)
  {
    assert ids[..k + 1][..k] == ids[..k];
  }

  /** An id occurs at all exactly when it is one of the ids. */
  lemma {:induction false} OccurrencesPositive(ids: seq<string>, id: string)
    ensures Occurrences(ids, id) > 0 <==> id in ids
  {
    if ids != [] {
      var front := ids[..|ids| - 1];
      OccurrencesPositive(front, id);
      assert ids == front + [ids[|ids| - 1]];
    }
  }

  /** The counter map after the loop over ids: each id mapped to its count, as `get(id, 0) + 1` builds it. */
  function Counts(ids: seq<string>): map<string, nat> {
    if ids == [] then map[]
    else
      var c, id := Counts(ids[..|ids| - 1]), ids[|ids| - 1];
      c[id := (if id in c then c[id] else 0) + 1]
  }

  /** The counter map holds exactly the ids seen, each with its number of occurrences. */
  lemma {:induction false} CountsSpec(ids: seq<string>)
    ensures forall id :: id in Counts(ids) <==> id in ids
    ensures forall id :: Occurrences(ids, id) == (if id in Counts(ids) then Counts(ids)[id] else 0)
  {
    if ids != [] {
      var front, last := ids[..|ids| - 1], ids[|ids| - 1];
      CountsSpec(front);
      assert ids == front + [last];
    }
  }

  /** The output paths the loop builds, one per id in order. */
  function Paths(dir: string, ids: seq<string>): (r: seq<string>)
    ensures |r| == |ids|
  {
    if ids == [] then []
    else
      var front, id := ids[..|ids| - 1], ids[|ids| - 1];
      Paths(dir, front) + [dir + OutputName(id, Occurrences(front, id))]
  }

  /** The k-th path carries the k-th id and, as suffix, how often that id came before it. */
  lemma {:induction false} PathsSpec(dir: string, ids: seq<string>)
    ensures |Paths(dir, ids)| == |ids|
    ensures forall k :: 0 <= k < |ids| ==> Paths(dir, ids)[k] == dir + OutputName(ids[k], Occurrences(ids[..k], ids[k]))
  {
    if ids != [] {
      var front, last := ids[..|ids| - 1], ids[|ids| - 1];
      PathsSpec(dir, front);
      var ps, pf := Paths(dir, ids), Paths(dir, front);
      assert ps == pf + [dir + OutputName(last, Occurrences(front, last))];
      forall k | 0 <= k < |ids| ensures ps[k] == dir + OutputName(ids[k], Occurrences(ids[..k], ids[k])) {
        if k < |front| {
          assert front[..k] == ids[..k] && front[k] == ids[k];
          assert ps[k] == pf[k];
        } else {
          assert ids[..k] == front;
        }
      }
    }
  }

  /**
   * The batch loop over the ids of the files found, in order: the output
   * path of each file, and the counter map after the loop.
   */
  method OutputPaths(dir: string, ids: seq<string>) returns (paths: seq<string>, counts: map<string, nat>)
    ensures paths == Paths(dir, ids)
    ensures counts == Counts(ids)
  {
    paths := [];
    counts := map[];
    for k := 0 to |ids|
      invariant paths == Paths(dir, ids[..k])
      invariant counts == Counts(ids[..k])
    {
      LoopStep(dir, ids, k);
      var baseFilename := ids[k];
      var count := if baseFilename in counts then counts[baseFilename] else 0;
      CountsOccurrences(ids[..k], baseFilename);
      var suffix := if count > 0 then "-" + Digits(count) else "";
      var name := baseFilename + suffix + ".txt";
      paths := paths + [dir + name];
      counts := counts[baseFilename := count + 1];
    }
    assert ids[..|ids|] == ids;
  }

  /** One turn of the batch loop: one more path, one more count. */
  lemma LoopStep(dir: string, ids: seq<string>, k: nat)
    requires k < |ids|
    ensures var front, id := ids[..k], ids[k];
      Paths(dir, ids[..k + 1]) == Paths(dir, front) + [dir + OutputName(id, Occurrences(front, id))] &&
      Counts(ids[..k + 1]) == Counts(front)[id := (if id in Counts(front) then Counts(front)[id] else 0) + 1]
  {
    assert ids[..k + 1][..k] == ids[..k];
  }

  /**
   * After the loop the counter of an id is its number of occurrences, and
   * only ids that occurred have a counter.
   */
  lemma CountsOccurrences(ids: seq<string>, id: string)
    ensures id in Counts(ids) <==> id in ids
    ensures Occurrences(ids, id) == (if id in Counts(ids) then Counts(ids)[id] else 0)
  {
    CountsSpec(ids);
  }

  /** Putting pre in front of the output directory puts it in front of every path. */
  lemma {:induction false} PathsUnderPrefix(pre: string, dir: string, ids: seq<string>)
    ensures Paths(pre + dir, ids) == seq(|ids|, k requires 0 <= k < |ids| => pre + Paths(dir, ids)[k])
  {
    PathsSpec(pre + dir, ids);
    PathsSpec(dir, ids);
    forall k | 0 <= k < |ids| ensures Paths(pre + dir, ids)[k] == pre + Paths(dir, ids)[k] {
      AppendAssoc(pre, dir, OutputName(ids[k], Occurrences(ids[..k], ids[k])));
    }
  }

  /**
   * Both batch modes write the same file names: os.path.join keeps the
   * leading "./" of "./transcripts" and path.join drops it, so each
   * Python path is "./" followed by the JavaScript path at that position.
   */
  lemma OutputDirsAgree(ids: seq<string>)
    ensures |Paths(PY_OUTPUT_DIR, ids)| == |Paths(JS_OUTPUT_DIR, ids)| == |ids|
    ensures forall k :: 0 <= k < |ids| ==> Paths(PY_OUTPUT_DIR, ids)[k] == "./" + Paths(JS_OUTPUT_DIR, ids)[k]
  {
    assert PY_OUTPUT_DIR == "./" + JS_OUTPUT_DIR;
    PathsUnderPrefix("./", JS_OUTPUT_DIR, ids);
    PathsSpec(JS_OUTPUT_DIR, ids);
  }

  /** Distinct counts give distinct suffixes. */
  lemma SuffixInjective(a: nat, b: nat)
    requires Suffix(a) == Suffix(b)
    ensures a == b
  {
    if a != 0 && b != 0 {
      assert Digits(a) == Suffix(a)[1..];
      assert Digits(b) == Suffix(b)[1..];
      DigitsInjective(a, b);
    }
  }

  /** Two files with the same id get different output names. */
  lemma NamesDistinctPerId(ids: seq<string>, j: nat, k: nat)
    requires j < k < |ids| && ids[j] == ids[k]
    ensures OutputName(ids[j], Occurrences(ids[..j], ids[j])) != OutputName(ids[k], Occurrences(ids[..k], ids[k]))
  {
    var id := ids[j];
    OccurrencesMonotone(ids, j, k, id);
    var a, b := Occurrences(ids[..j], id), Occurrences(ids[..k], id);
    if OutputName(id, a) == OutputName(id, b) {
      assert Suffix(a) == OutputName(id, a)[|id|..|OutputName(id, a)| - 4];
      assert Suffix(b) == OutputName(id, b)[|id|..|OutputName(id, b)| - 4];
      SuffixInjective(a, b);
    }
  }

  /** With id at position j, a later prefix counts it strictly more often. */
  lemma {:induction false} OccurrencesMonotone(ids: seq<string>, j: nat, k: nat, id: string)
    requires j < k <= |ids| && ids[j] == id
    ensures Occurrences(ids[..j], id) < Occurrences(ids[..k], id)
    decreases k
  {
    OccurrencesStep(ids, k - 1, id);
    if j < k - 1 {
      OccurrencesMonotone(ids, j, k - 1, id);
    }
  }

  /**
   * Names are unique per id only: an id that already ends in "-1" can take
   * the name the second file of another id gets.
   */
  lemma CrossIdCollision()
    ensures var ids := ["a-1", "a", "a"];
      OutputName(ids[0], Occurrences(ids[..0], ids[0])) == OutputName(ids[2], Occurrences(ids[..2], ids[2]))
  {
    var ids := ["a-1", "a", "a"];
    assert "a-1" != "a";
    assert ids[..2][..1] == ["a-1"] && ["a-1"][..0] == [];
    assert Occurrences(["a-1"], "a") == 0;
    assert Occurrences(ids[..2], "a") == 1;
    assert Digits(1) == "1";
  }
}
