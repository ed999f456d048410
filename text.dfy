/**
 * String helpers shared by the three implementations: the two whitespace
 * classes (Python's str.isspace, used by str.strip, and the JavaScript
 * WhiteSpace/LineTerminator set, used by String.prototype.trim), trimming,
 * joining with a separator, suffix tests and ASCII lower-casing.
 */
module Text {
  import opened Wrappers

  /** Characters for which Python's str.isspace() holds: those str.strip() removes. */
  predicate IsPySpace(c: char) {
    var n := c as int;
    (9 <= n <= 13) || (0x1C <= n <= 0x20) || n == 0x85 || n == 0xA0 || n == 0x1680
    || (0x2000 <= n <= 0x200A) || n == 0x2028 || n == 0x2029 || n == 0x202F
    || n == 0x205F || n == 0x3000
  }

  /** Characters that String.prototype.trim removes in JavaScript (WhiteSpace and LineTerminator). */
  predicate IsJsSpace(c: char) {
    var n := c as int;
    (9 <= n <= 13) || n == 0x20 || n == 0xA0 || n == 0x1680
    || (0x2000 <= n <= 0x200A) || n == 0x2028 || n == 0x2029 || n == 0x202F
    || n == 0x205F || n == 0x3000 || n == 0xFEFF
  }

  /** True when every character of s belongs to the class ws. */
  predicate AllIn(s: string, ws: char -> bool) {
    forall i :: 0 <= i < |s| ==> ws(s[i])
  }

  /** s has no character of the class ws at either end. */
  predicate Bare(s: string, ws: char -> bool) {
    s == [] || (!ws(s[0]) && !ws(s[|s| - 1]))
  }

  /** A concatenation is all whitespace exactly when both halves are. */
  lemma AllInAppend(a: string, b: string, ws: char -> bool)
    ensures AllIn(a + b, ws) <==> AllIn(a, ws) && AllIn(b, ws)
  {
    if AllIn(a + b, ws) {
      forall i | 0 <= i < |a| ensures ws(a[i]) { assert (a + b)[i] == a[i]; }
      forall i | 0 <= i < |b| ensures ws(b[i]) { assert (a + b)[|a| + i] == b[i]; }
    }
  }

  /** Removes the leading characters of class ws. */
  function TrimStart(s: string, ws: char -> bool): (r: string)
    ensures |r| <= |s| && r == s[|s| - |r|..]
    ensures r == [] || !ws(r[0])
    ensures AllIn(s[..|s| - |r|], ws)
  {
    if s != [] && ws(s[0]) then
      var r := TrimStart(s[1..], ws);
      assert AllIn(s[..|s| - |r|], ws) by {
        var pre, rest := s[..|s| - |r|], s[1..][..|s| - 1 - |r|];
        forall j | 0 <= j < |pre| ensures ws(pre[j]) {
          if j > 0 { assert pre[j] == rest[j - 1]; }
        }
      }
      r
    else s
  }

  /** Removes the trailing characters of class ws. */
  function TrimEnd(s: string, ws: char -> bool): (r: string)
    ensures |r| <= |s| && r == s[..|r|]
    ensures r == [] || !ws(r[|r| - 1])
    ensures AllIn(s[|r|..], ws)
  {
    if s != [] && ws(s[|s| - 1]) then
      var r := TrimEnd(s[..|s| - 1], ws);
      assert AllIn(s[|r|..], ws) by {
        var post, rest := s[|r|..], s[..|s| - 1][|r|..];
        forall j | 0 <= j < |post| ensures ws(post[j]) {
          if j < |rest| { assert post[j] == rest[j]; }
        }
      }
      r
    else s
  }

  /** Removes whitespace of class ws from both ends. */
  function TrimBy(s: string, ws: char -> bool): (r: string)
    ensures Bare(r, ws)
  {
    TrimEnd(TrimStart(s, ws), ws)
  }

  /**
   * s is the whitespace trimming removed at its start, then the trimmed
   * string, then the whitespace removed at its end.
   */
  lemma TrimByInfix(s: string, ws: char -> bool)
    ensures var t, r := TrimStart(s, ws), TrimBy(s, ws);
      s == s[..|s| - |t|] + r + t[|r|..] && AllIn(s[..|s| - |t|], ws) && AllIn(t[|r|..], ws)
  {
    var t := TrimStart(s, ws);
    var r := TrimEnd(t, ws);
    SplitAt(s, |s| - |t|);
    SplitAt(t, |r|);
    AppendAssoc(s[..|s| - |t|], r, t[|r|..]);
  }

  /** A sequence is its prefix followed by the rest. */
  lemma SplitAt<T>(s: seq<T>, k: nat)
    requires k <= |s|
    ensures s == s[..k] + s[k..]
  {
  }

  lemma WholePrefix<T>(s: seq<T>)
    ensures s[..|s|] == s
  {
  }

  lemma FrontOfSnoc<T>(s: seq<T>, x: T)
    ensures (s + [x])[..|s|] == s
  {
  }

  lemma TailOfAppend<T>(s: seq<T>, u: seq<T>)
    requires s != []
    ensures (s + u)[0] == s[0] && (s + u)[1..] == s[1..] + u
  {
  }

  lemma AppendAssoc<T>(a: seq<T>, b: seq<T>, c: seq<T>)
    ensures a + (b + c) == a + b + c
  {
  }

  /** A non-whitespace prefix on a bare non-empty string keeps it bare and changes it. */
  lemma PrefixedBare(pre: string, text: string, ws: char -> bool)
    requires pre != [] && !ws(pre[0]) && text != [] && Bare(text, ws)
    ensures pre + text != text && pre + text != [] && Bare(pre + text, ws)
  {
    var seg := pre + text;
    assert |seg| > |text|;
    assert seg[0] == pre[0];
    assert seg[|seg| - 1] == text[|text| - 1];
  }

  /** Python's str.strip() with no argument. */
  function Strip(s: string): string {
    TrimBy(s, IsPySpace)
  }

  /** JavaScript's String.prototype.trim(). */
  function Trim(s: string): string {
    TrimBy(s, IsJsSpace)
  }

  /** A trimmed string is empty exactly when the whole input was whitespace. */
  lemma TrimEmptyIff(s: string, ws: char -> bool)
    ensures TrimBy(s, ws) == [] <==> AllIn(s, ws)
  {
    var t, r := TrimStart(s, ws), TrimBy(s, ws);
    var pre, post := s[..|s| - |t|], t[|r|..];
    TrimByInfix(s, ws);
    AllInAppend(pre + r, post, ws);
    AllInAppend(pre, r, ws);
    if r != [] {
      assert (pre + r)[|pre|] == r[0];
    }
  }

  /** Trimming a string that has no ws character at either end leaves it unchanged. */
  lemma TrimBare(s: string, ws: char -> bool)
    requires Bare(s, ws)
    ensures TrimBy(s, ws) == s
  {
    assert TrimStart(s, ws) == s;
    assert TrimEnd(s, ws) == s;
  }

  /** Trimming removes a trailing run of ws characters appended to s. */
  lemma TrimAppendSpace(s: string, c: char, ws: char -> bool)
    requires ws(c)
    ensures TrimBy(s + [c], ws) == TrimBy(s, ws)
  {
    var t := TrimStart(s, ws);
    if t == [] {
      WholePrefix(s);
      TrimEmptyIff(s + [c], ws);
      TrimEmptyIff(s, ws);
    } else {
      TrimStartAppend(s, [c], ws);
      FrontOfSnoc(t, c);
    }
  }

  /** Leading trimming does not reach past a non-whitespace character. */
  lemma TrimStartAppend(s: string, u: string, ws: char -> bool)
    requires TrimStart(s, ws) != []
    ensures TrimStart(s + u, ws) == TrimStart(s, ws) + u
  {
    if s != [] && ws(s[0]) {
      TailOfAppend(s, u);
      TrimStartAppend(s[1..], u, ws);
    }
  }

  /** A string bare under both whitespace classes is left unchanged by strip() and by trim(). */
  lemma TrimAgree(s: string)
    requires Bare(s, IsPySpace) && Bare(s, IsJsSpace)
    ensures Strip(s) == Trim(s) == s
  {
    TrimBare(s, IsPySpace);
    TrimBare(s, IsJsSpace);
  }

  /** parts joined with sep between consecutive parts, as Python's sep.join and JavaScript's Array.join do. */
  function Join(parts: seq<string>, sep: string): string {
    if |parts| == 0 then ""
    else if |parts| == 1 then parts[0]
    else Join(parts[..|parts| - 1], sep) + sep + parts[|parts| - 1]
  }

  /**
   * A join of no parts is empty; a join of some parts begins with the first
   * part and ends with the last, with no separator before or after them.
   */
  lemma {:induction false} JoinEnds(parts: seq<string>, sep: string)
    ensures |parts| == 0 ==> Join(parts, sep) == ""
    ensures |parts| > 0 ==> var r := Join(parts, sep);
      |parts[0]| <= |r| && r[..|parts[0]|] == parts[0] &&
      |parts[|parts| - 1]| <= |r| && r[|r| - |parts[|parts| - 1]|..] == parts[|parts| - 1]
  {
    if |parts| > 1 {
      var front := parts[..|parts| - 1];
      JoinEnds(front, sep);
      assert front[0] == parts[0];
      var r := Join(parts, sep);
      assert r == Join(front, sep) + sep + parts[|parts| - 1];
      assert r[..|parts[0]|] == Join(front, sep)[..|parts[0]|];
    }
  }

  /** Appending a part puts one separator between the old result and it. */
  lemma JoinSnoc(parts: seq<string>, x: string, sep: string)
    requires |parts| > 0
    ensures Join(parts + [x], sep) == Join(parts, sep) + sep + x
  {
    assert (parts + [x])[..|parts|] == parts;
  }

  /** Non-empty strings with no whitespace at their ends, joined by a separator, have no whitespace at the ends. */
  lemma JoinBare(parts: seq<string>, sep: string, ws: char -> bool)
    requires forall i :: 0 <= i < |parts| ==> parts[i] != "" && Bare(parts[i], ws)
    ensures Bare(Join(parts, sep), ws)
    ensures Join(parts, sep) == "" <==> |parts| == 0
  {
    JoinEnds(parts, sep);
    if |parts| > 0 {
      var r := Join(parts, sep);
      var first, last := parts[0], parts[|parts| - 1];
      assert r[..|first|][0] == r[0];
      assert r[|r| - |last|..][|last| - 1] == r[|r| - 1];
    }
  }

  /** The index of the last occurrence of c in s, if there is one. */
  function LastIndex(s: string, c: char): (r: Option<nat>)
    ensures r.None? <==> c !in s
    ensures r.Some? ==> r.value < |s| && s[r.value] == c && c !in s[r.value + 1..]
  {
    if s == [] then None
    else if s[|s| - 1] == c then Some(|s| - 1)
    else
      var r := LastIndex(s[..|s| - 1], c);
      assert s == s[..|s| - 1] + [s[|s| - 1]];
      if r.Some? then assert s[r.value + 1..] == s[..|s| - 1][r.value + 1..] + [s[|s| - 1]]; r
      else r
  }

  /** An occurrence of c with none after it is the one LastIndex finds. */
  lemma LastIndexIs(s: string, c: char, k: nat)
    requires k < |s| && s[k] == c && c !in s[k + 1..]
    ensures LastIndex(s, c) == Some(k)
  {
    assert s[k] in s;
  }

  predicate EndsWith(s: string, suffix: string) {
    |suffix| <= |s| && s[|s| - |suffix|..] == suffix
  }

  predicate StartsWith(s: string, prefix: string) {
    |prefix| <= |s| && s[..|prefix|] == prefix
  }

  /** ASCII lower-casing of one character. */
  function LowerChar(c: char): (r: char)
    ensures 'A' <= c <= 'Z' ==> r as int == c as int + 32
    ensures !('A' <= c <= 'Z') ==> r == c
  {
    if 'A' <= c <= 'Z' then (c as int + 32) as char else c
  }

  function Lower(s: string): (r: string)
    ensures |r| == |s| && forall i :: 0 <= i < |s| ==> r[i] == LowerChar(s[i])
  {
    if s == [] then [] else [LowerChar(s[0])] + Lower(s[1..])
  }
}
