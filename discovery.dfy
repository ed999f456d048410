/**
 * TTML file discovery: find_ttml_files of extractTranscript.py over the
 * entries os.walk yields, and the recursive findTTMLFiles of
 * extractTranscript.js over a directory tree.  Both keep a file only when
 * its name has the .ttml extension and its full path matches the regular
 * expression `PodcastContent([^/]+)`, whose group is the podcast id.
 */
module Discovery {
  import opened Wrappers
  import opened Text

  /** The literal that opens the regular expression. */
  const MARKER := "PodcastContent"

  /** A TTML file found: its full path and the id captured from it. */
  datatype Found = Found(path: string, id: string)

  /** `PodcastContent([^/]+)` matches at i: the literal, then at least one character other than '/'. */
  predicate MatchAt(s: string, i: int) {
    0 <= i && i + |MARKER| < |s| && s[i..i + |MARKER|] == MARKER && s[i + |MARKER|] != '/'
  }

  /** The end of the run of characters other than '/' that starts at j: the greedy `[^/]+`. */
  function RunEnd(s: string, j: nat): (k: nat)
    requires j <= |s|
    ensures j <= k <= |s| && (k == |s| || s[k] == '/')
    ensures forall m :: j <= m < k ==> s[m] != '/'
    decreases |s| - j
  {
    if j == |s| || s[j] == '/' then j else RunEnd(s, j + 1)
  }

  /** The leftmost match at or after i, as the regex search tries positions left to right. */
  function FirstMatch(s: string, i: nat): (r: Option<nat>)
    ensures r.Some? ==> i <= r.value && MatchAt(s, r.value) && forall j :: i <= j < r.value ==> !MatchAt(s, j)
    ensures r.None? ==> forall j :: i <= j ==> !MatchAt(s, j)
    decreases |s| - i
  {
    if i + |MARKER| >= |s| then None
    else if MatchAt(s, i) then Some(i)
    else FirstMatch(s, i + 1)
  }

  /** `re.search(r"PodcastContent([^/]+)", s).group(1)`, and `s.match(/PodcastContent([^\/]+)/)[1]`. */
  function PodcastId(s: string): Option<string> {
    match FirstMatch(s, 0)
    case None => None
    case Some(i) => Some(s[i + |MARKER| .. RunEnd(s, i + |MARKER|)])
  }

  /**
   * There is an id exactly when the expression matches somewhere; the id is
   * non-empty, has no '/', follows the leftmost match of the literal that
   * is followed by a character other than '/', and runs up to the next '/'
   * or the end of the path.
   */
  lemma PodcastIdSpec(s: string)
    ensures PodcastId(s).None? <==> forall i :: !MatchAt(s, i)
    ensures PodcastId(s).Some? ==> var id := PodcastId(s).value;
      id != [] && '/' !in id &&
      exists i :: MatchAt(s, i) && (forall j :: 0 <= j < i ==> !MatchAt(s, j)) &&
        s[i..i + |MARKER|] + id == s[i..i + |MARKER| + |id|] &&
        (i + |MARKER| + |id| == |s| || s[i + |MARKER| + |id|] == '/')
  {
    if PodcastId(s).Some? {
      var i := FirstMatch(s, 0).value;
      var start := i + |MARKER|;
      var id := PodcastId(s).value;
      assert id == s[start..RunEnd(s, start)];
      assert id[0] == s[start];
      assert '/' !in id by {
        forall k | 0 <= k < |id| ensures id[k] != '/' { assert id[k] == s[start + k]; }
      }
      assert s[i..start] + id == s[i..start + |id|];
    }
  }

  /** No match can start at a character other than the literal's first. */
  lemma NoMatchWithoutP(s: string, k: nat)
    requires k <= |s| && forall j :: 0 <= j < k ==> s[j] != 'P'
    ensures forall j :: 0 <= j < k ==> !MatchAt(s, j)
  {
    forall j | 0 <= j < k ensures !MatchAt(s, j) {
      if j + |MARKER| < |s| {
        assert s[j..j + |MARKER|][0] == s[j] != MARKER[0];
      }
    }
  }

  /** A match with no match before it is the one the search finds. */
  lemma FirstMatchIs(s: string, k: nat)
    requires MatchAt(s, k) && forall j :: 0 <= j < k ==> !MatchAt(s, j)
    ensures FirstMatch(s, 0) == Some(k)
  {
  }

  /** The id is the run after the literal, up to the next '/'. */
  lemma PodcastIdExample()
    ensures PodcastId("/TTML/" + MARKER + "123/T.ttml") == Some("123")
  {
    var s := "/TTML/" + MARKER + "123/T.ttml";
    assert s[6..20] == MARKER;
    NoMatchWithoutP(s, 6);
    FirstMatchIs(s, 6);
    assert RunEnd(s, 23) == 23;
    assert RunEnd(s, 20) == 23;
    assert s[20..23] == "123";
  }

  /** An occurrence of the literal directly followed by '/' is skipped for a later one. */
  lemma PodcastIdSkipsSlash()
    ensures PodcastId("/" + MARKER + "/" + MARKER + "9") == Some("9")
  {
    var t := "/" + MARKER + "/" + MARKER + "9";
    assert t[16..30] == MARKER;
    assert t[15] == '/';
    assert !MatchAt(t, 0) && !MatchAt(t, 1);
    assert forall j :: 2 <= j < 16 ==> t[j] != 'P';
    forall j | 2 <= j < 16 ensures !MatchAt(t, j) {
      assert t[j..j + |MARKER|][0] == t[j] != MARKER[0];
    }
    FirstMatchIs(t, 16);
    assert t[30..31] == "9";
  }

  /** A path without the literal has no id. */
  lemma PodcastIdAbsent()
    ensures PodcastId("/TTML/Other/T.ttml") == None
  {
    var u := "/TTML/Other/T.ttml";
    NoMatchWithoutP(u, 4);
    assert forall j :: 4 <= j ==> !MatchAt(u, j);
  }

  // ---------------------------------------------------------------- Python

  /** One triple of os.walk: a directory path and the names of the files directly in it. */
  datatype WalkEntry = WalkEntry(root: string, files: seq<string>)

  /** os.path.join of two components: an absolute second component replaces the first. */
  function PathJoin(a: string, b: string): (r: string)
    ensures EndsWith(r, b)
  {
    if StartsWith(b, "/") then b
    else if a == [] || EndsWith(a, "/") then a + b
    else a + "/" + b
  }

  /** What one file name contributes to ttml_files. */
  function FoundFile(root: string, file: string): seq<Found> {
    var path := PathJoin(root, file);
    if EndsWith(file, ".ttml") && PodcastId(path).Some? then [Found(path, PodcastId(path).value)] else []
  }

  /**
   * The results of a loop that appends step(x) for every x of xs, in order:
   * both loops of find_ttml_files have this shape.
   */
  function Concat<T>(xs: seq<T>, step: T -> seq<Found>): seq<Found> {
    if xs == [] then [] else Concat(xs[..|xs| - 1], step) + step(xs[|xs| - 1])
  }

  /** One turn of such a loop appends the current element's results. */
  lemma ConcatStep<T>(xs: seq<T>, k: nat, step: T -> seq<Found>)
    requires k < |xs|
    ensures Concat(xs[..k + 1], step) == Concat(xs[..k], step) + step(xs[k])
  {
    assert xs[..k + 1][..k] == xs[..k];
  }

  /** Splitting the input splits the results, in order. */
  lemma {:induction false} ConcatAppend<T>(a: seq<T>, b: seq<T>, step: T -> seq<Found>)
    ensures Concat(a + b, step) == Concat(a, step) + Concat(b, step)
  {
    if b != [] {
      var ab, front := a + b, b[..|b| - 1];
      assert ab[..|ab| - 1] == a + front;
      assert ab[|ab| - 1] == b[|b| - 1];
      ConcatAppend(a, front, step);
    } else {
      assert a + b == a;
    }
  }

  /** A result is produced exactly when some element's step produces it. */
  lemma {:induction false} ConcatMember<T>(xs: seq<T>, step: T -> seq<Found>, x: Found)
    ensures x in Concat(xs, step) <==> exists j :: 0 <= j < |xs| && x in step(xs[j])
  {
    if xs != [] {
      var front, last := xs[..|xs| - 1], xs[|xs| - 1];
      ConcatMember(front, step, x);
      if x in Concat(xs, step) {
        if x in Concat(front, step) {
          var j :| 0 <= j < |front| && x in step(front[j]);
          assert xs[j] == front[j];
        } else {
          assert x in step(xs[|xs| - 1]);
        }
      }
      if exists j :: 0 <= j < |xs| && x in step(xs[j]) {
        var j :| 0 <= j < |xs| && x in step(xs[j]);
        if j < |front| {
          assert front[j] == xs[j];
        }
      }
    }
  }

  /** The inner loop's step for the directory root. */
  function FileStep(root: string): string -> seq<Found> {
    file => FoundFile(root, file)
  }

  /** ttml_files gained over the files of one directory, in listing order. */
  function FoundInFiles(root: string, files: seq<string>): seq<Found> {
    Concat(files, FileStep(root))
  }

  /** What one triple of the walk contributes: the outer loop's step. */
  function FoundInEntry(e: WalkEntry): seq<Found> {
    FoundInFiles(e.root, e.files)
  }

  /** ttml_files after the walk, in walk order. */
  function FoundInWalk(walk: seq<WalkEntry>): seq<Found> {
    Concat(walk, FoundInEntry)
  }

  lemma FoundInFilesStep(root: string, files: seq<string>, f: nat)
    requires f < |files|
    ensures FoundInFiles(root, files[..f + 1]) == FoundInFiles(root, files[..f]) + FoundFile(root, files[f])
  {
    ConcatStep(files, f, FileStep(root));
  }

  lemma FoundInWalkStep(walk: seq<WalkEntry>, w: nat)
    requires w < |walk|
    ensures FoundInWalk(walk[..w + 1]) == FoundInWalk(walk[..w]) + FoundInFiles(walk[w].root, walk[w].files)
  {
    ConcatStep(walk, w, FoundInEntry);
  }

  /** find_ttml_files's outer loop, over the entries the walk yields. */
  method FindTtmlFiles(walk: seq<WalkEntry>) returns (ttmlFiles: seq<Found>)
    ensures ttmlFiles == FoundInWalk(walk)
  {
    ttmlFiles := [];
    for w := 0 to |walk|
      invariant ttmlFiles == FoundInWalk(walk[..w])
    {
      FoundInWalkStep(walk, w);
      ttmlFiles := ScanFiles(ttmlFiles, walk[w].root, walk[w].files);
    }
    assert walk[..|walk|] == walk;
  }

  /** find_ttml_files's inner loop: appends what the files of one directory contribute. */
  method ScanFiles(before: seq<Found>, root: string, files: seq<string>) returns (ttmlFiles: seq<Found>)
    ensures ttmlFiles == before + FoundInFiles(root, files)
  {
    ttmlFiles := before;
    for f := 0 to |files|
      invariant ttmlFiles == before + FoundInFiles(root, files[..f])
    {
      FoundInFilesStep(root, files, f);
      var file := files[f];
      ghost var found := FoundFile(root, file);
      if EndsWith(file, ".ttml") {
        var path := PathJoin(root, file);
        var m := PodcastId(path);
        if m.Some? {
          assert found == [Found(path, m.value)];
          ttmlFiles := ttmlFiles + [Found(path, m.value)];
        }
      }
      AppendAssoc(before, FoundInFiles(root, files[..f]), found);
    }
    assert files[..|files|] == files;
  }

  /** A result of find_ttml_files: its file name ends in ".ttml", so does its path, and its id is the path's. */
  predicate PyResult(f: Found) {
    EndsWith(f.path, ".ttml") && PodcastId(f.path) == Some(f.id)
  }

  lemma FoundInFilesSpec(root: string, files: seq<string>)
    ensures forall f :: f in FoundInFiles(root, files) ==> (PyResult(f) &&
      exists j :: 0 <= j < |files| && EndsWith(files[j], ".ttml") && f.path == PathJoin(root, files[j]))
  {
    forall f | f in FoundInFiles(root, files)
      ensures PyResult(f) && exists j :: 0 <= j < |files| && EndsWith(files[j], ".ttml") && f.path == PathJoin(root, files[j])
    {
      ConcatMember(files, FileStep(root), f);
      var j :| 0 <= j < |files| && f in FileStep(root)(files[j]);
      var file := files[j];
      assert f in FoundFile(root, file);
      var p := PathJoin(root, file);
      assert f == Found(p, PodcastId(p).value);
      assert p[|p| - 5..] == p[|p| - |file|..][|file| - 5..];
    }
  }

  /**
   * Every result of find_ttml_files comes from a file of the walk whose
   * name ends in ".ttml", has a path ending in ".ttml", and carries the id
   * the expression reads from that path (non-empty, without '/').
   */
  lemma FoundInWalkSpec(walk: seq<WalkEntry>)
    ensures forall f :: f in FoundInWalk(walk) ==> (PyResult(f) &&
      exists w, j :: 0 <= w < |walk| && 0 <= j < |walk[w].files| &&
        EndsWith(walk[w].files[j], ".ttml") && f.path == PathJoin(walk[w].root, walk[w].files[j]))
  {
    forall f | f in FoundInWalk(walk)
      ensures PyResult(f) && exists w, j :: (0 <= w < |walk| && 0 <= j < |walk[w].files| &&
        EndsWith(walk[w].files[j], ".ttml") && f.path == PathJoin(walk[w].root, walk[w].files[j]))
    {
      ConcatMember(walk, FoundInEntry, f);
      var w :| 0 <= w < |walk| && f in FoundInEntry(walk[w]);
      FoundInFilesSpec(walk[w].root, walk[w].files);
    }
  }

  /** Every file whose name ends in ".ttml" and whose path has an id is among the results. */
  lemma FoundInFilesComplete(root: string, files: seq<string>, j: nat)
    requires j < |files| && EndsWith(files[j], ".ttml") && PodcastId(PathJoin(root, files[j])).Some?
    ensures Found(PathJoin(root, files[j]), PodcastId(PathJoin(root, files[j])).value) in FoundInFiles(root, files)
  {
    var path := PathJoin(root, files[j]);
    var f := Found(path, PodcastId(path).value);
    assert FileStep(root)(files[j]) == [f];
    ConcatMember(files, FileStep(root), f);
  }

  /** Every qualifying file of every directory of the walk is among the results. */
  lemma FoundInWalkComplete(walk: seq<WalkEntry>, w: nat, j: nat)
    requires w < |walk| && j < |walk[w].files|
    requires EndsWith(walk[w].files[j], ".ttml") && PodcastId(PathJoin(walk[w].root, walk[w].files[j])).Some?
    ensures var path := PathJoin(walk[w].root, walk[w].files[j]);
      Found(path, PodcastId(path).value) in FoundInWalk(walk)
  {
    var path := PathJoin(walk[w].root, walk[w].files[j]);
    FoundInFilesComplete(walk[w].root, walk[w].files, j);
    ConcatMember(walk, FoundInEntry, Found(path, PodcastId(path).value));
  }

  /** Results keep walk order: the walk split in two finds the first part's files, then the second's. */
  lemma FoundInWalkAppend(a: seq<WalkEntry>, b: seq<WalkEntry>)
    ensures FoundInWalk(a + b) == FoundInWalk(a) + FoundInWalk(b)
  {
    ConcatAppend(a, b, FoundInEntry);
  }

  // ------------------------------------------------------------ JavaScript

  /** What fs.readdirSync and fs.statSync reveal of a directory: files and sub-directories, in listing order. */
  datatype Entry = File(name: string) | Dir(name: string, entries: seq<Entry>)

  predicate IsSlash(c: char) {
    c == '/'
  }

  /**
   * path.join of a directory path and an entry name.  For a normalised
   * directory path other than "/" and a name without '/', which is what
   * readdirSync lists, path.join's normalisation changes nothing.
   */
  function JsJoin(dir: string, name: string): string {
    dir + "/" + name
  }

  /** The last component of a path, trailing slashes ignored (as path.extname scans it). */
  function Basename(path: string): string {
    var t := TrimEnd(path, IsSlash);
    match LastIndex(t, '/')
    case None => t
    case Some(k) => t[k + 1..]
  }

  /**
   * The extension of one path component: from its last '.' to its end;
   * empty when it has no '.', when its last '.' is its first character, or
   * when it is "..".
   */
  function Ext(b: string): string {
    match LastIndex(b, '.')
    case None => ""
    case Some(d) => if d == 0 || b == ".." then "" else b[d..]
  }

  /** path.extname: the extension of the last component. */
  function Extname(path: string): string {
    Ext(Basename(path))
  }

  /** A component has the extension ".ttml" exactly when it ends in ".ttml" and has something before that dot. */
  lemma ExtTtml(name: string)
    ensures Ext(name) == ".ttml" <==> EndsWith(name, ".ttml") && |name| > 5
  {
    var d := LastIndex(name, '.');
    if EndsWith(name, ".ttml") && |name| > 5 {
      var e := |name| - 5;
      assert name[e] == '.';
      assert name[e + 1..] == "ttml";
      LastIndexIs(name, '.', e);
    }
    if Ext(name) == ".ttml" {
      assert name[d.value..] == ".ttml";
    }
  }

  /** The last component of a directory path joined with an entry name is the name. */
  lemma BasenameOfJoin(dir: string, name: string)
    requires name != [] && '/' !in name
    ensures Basename(JsJoin(dir, name)) == name
  {
    var path := JsJoin(dir, name);
    assert path[|path| - 1] == name[|name| - 1];
    assert TrimEnd(path, IsSlash) == path;
    assert path[|dir|] == '/';
    assert path[|dir| + 1..] == name;
    LastIndexIs(path, '/', |dir|);
  }

  /**
   * For an entry listed in a directory, extname is ".ttml" exactly when the
   * name ends in ".ttml" and has something before that dot.
   */
  lemma ExtnameTtml(dir: string, name: string)
    requires name != [] && '/' !in name
    ensures Extname(JsJoin(dir, name)) == ".ttml" <==> EndsWith(name, ".ttml") && |name| > 5
  {
    BasenameOfJoin(dir, name);
    ExtTtml(name);
  }

  /** What one directory entry contributes to ttmlFiles: a sub-directory's results, or the file if it qualifies. */
  function FoundInEntries(dir: string, entries: seq<Entry>): seq<Found>
    decreases entries
  {
    if entries == [] then []
    else
      var e := entries[|entries| - 1];
      var fullPath := JsJoin(dir, e.name);
      FoundInEntries(dir, entries[..|entries| - 1]) +
      (if e.Dir? then FoundInEntries(fullPath, e.entries)
       else if Extname(fullPath) == ".ttml" && PodcastId(fullPath).Some? then [Found(fullPath, PodcastId(fullPath).value)]
       else [])
  }

  /** findTTMLFiles: the forEach over the listing, recursing into sub-directories. */
  method FindTTMLFiles(dir: string, entries: seq<Entry>) returns (ttmlFiles: seq<Found>)
    ensures ttmlFiles == FoundInEntries(dir, entries)
    decreases entries
  {
    ttmlFiles := [];
    for i := 0 to |entries|
      invariant ttmlFiles == FoundInEntries(dir, entries[..i])
    {
      assert entries[..i + 1][..i] == entries[..i];
      var file := entries[i];
      var fullPath := JsJoin(dir, file.name);
      if file.Dir? {
        var sub := FindTTMLFiles(fullPath, file.entries);
        ttmlFiles := ttmlFiles + sub;
      } else if Extname(fullPath) == ".ttml" {
        var m := PodcastId(fullPath);
        if m.Some? {
          ttmlFiles := ttmlFiles + [Found(fullPath, m.value)];
        }
      }
    }
    assert entries[..|entries|] == entries;
  }

  /** A result of findTTMLFiles: its path has the .ttml extension and its id is the path's. */
  predicate JsResult(f: Found) {
    Extname(f.path) == ".ttml" && PodcastId(f.path) == Some(f.id)
  }

  /** Every result of findTTMLFiles has the .ttml extension and the id the expression reads from its path. */
  lemma {:induction false} FoundInEntriesSpec(dir: string, entries: seq<Entry>)
    ensures forall f :: f in FoundInEntries(dir, entries) ==> JsResult(f)
    decreases entries
  {
    if entries != [] {
      var e := entries[|entries| - 1];
      FoundInEntriesSpec(dir, entries[..|entries| - 1]);
      if e.Dir? {
        FoundInEntriesSpec(JsJoin(dir, e.name), e.entries);
      }
    }
  }

  /**
   * A file named just ".ttml" in a podcast directory is picked up by the
   * Python walk but not by the JavaScript one, for which ".ttml" has no
   * extension.
   */
  lemma DotTtmlDivergence(dir: string)
    requires PodcastId(PathJoin(dir, ".ttml")).Some?
    ensures |FoundFile(dir, ".ttml")| == 1
    ensures FoundInEntries(dir, [File(".ttml")]) == []
  {
    ExtnameTtml(dir, ".ttml");
    assert [File(".ttml")][..0] == [];
  }
}
