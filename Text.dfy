/**
 * The string slicing the streamer relies on: `str::split(pattern)`,
 * `str::split_whitespace()`, `str::starts_with` and `str::lines().next()`.
 */
module Text {
  import opened Wrappers

  // ---------------------------------------------------------------------------
  // Searching for and splitting on a non-empty pattern
  // ---------------------------------------------------------------------------

  predicate MatchAt<T(==)>(s: seq<T>, pat: seq<T>, j: nat) {
    j + |pat| <= |s| && s[j..j + |pat|] == pat
  }

  predicate StartsWith<T(==)>(s: seq<T>, prefix: seq<T>) {
    MatchAt(s, prefix, 0)
  }

  /** The first position at or after `from` where `pat` occurs in `s`. */
  function FindFrom<T(==)>(s: seq<T>, pat: seq<T>, from: nat): (r: Option<nat>)
    requires |pat| > 0
    ensures r.Some? ==> from <= r.value && MatchAt(s, pat, r.value)
    ensures r.Some? ==> forall j :: from <= j < r.value ==> !MatchAt(s, pat, j)
    ensures r.None? ==> forall j :: from <= j ==> !MatchAt(s, pat, j)
    decreases |s| - from
  {
    if from + |pat| > |s| then None
    else if s[from..from + |pat|] == pat then Some(from)
    else FindFrom(s, pat, from + 1)
  }

  /** A match with none before it is the one `FindFrom` finds. */
  lemma FindFirst<T>(s: seq<T>, pat: seq<T>, from: nat, k: nat)
    requires |pat| > 0 && from <= k && MatchAt(s, pat, k)
    requires forall j :: from <= j < k ==> !MatchAt(s, pat, j)
    ensures FindFrom(s, pat, from) == Some(k)
  {
  }

  /** A pattern behind a prefix that lacks its first element is first found right after that prefix. */
  lemma FindAfterAvoiding<T>(e: seq<T>, pat: seq<T>, rest: seq<T>)
    requires |pat| > 0 && pat[0] !in e
    ensures FindFrom(e + pat + rest, pat, 0) == Some(|e|)
  {
    var s := e + pat + rest;
    assert s[|e|..|e| + |pat|] == pat;
    forall j | 0 <= j < |e| ensures !MatchAt(s, pat, j) {
      assert s[j] == e[j] && e[j] in e;
      if j + |pat| <= |s| {
        assert s[j..j + |pat|][0] == s[j];
      }
    }
    FindFirst(s, pat, 0, |e|);
  }

  /** The pieces of `s[from..]` between non-overlapping occurrences of `pat`, left to right. */
  function SplitFrom<T(==)>(s: seq<T>, pat: seq<T>, from: nat): (parts: seq<seq<T>>)
    requires |pat| > 0 && from <= |s|
    ensures |parts| >= 1
    decreases |s| - from
  {
    match FindFrom(s, pat, from)
    case None => [s[from..]]
    case Some(i) => [s[from..i]] + SplitFrom(s, pat, i + |pat|)
  }

  /** `s.split(pat).collect()` for a non-empty pattern. */
  function Split<T(==)>(s: seq<T>, pat: seq<T>): seq<seq<T>>
    requires |pat| > 0
  {
    SplitFrom(s, pat, 0)
  }

  /** `parts.join(sep)`. */
  function Join<T>(parts: seq<seq<T>>, sep: seq<T>): seq<T>
    requires |parts| >= 1
  {
    if |parts| == 1 then parts[0] else parts[0] + sep + Join(parts[1..], sep)
  }

  lemma {:induction false} JoinSplitFrom<T>(s: seq<T>, pat: seq<T>, from: nat)
    requires |pat| > 0 && from <= |s|
    ensures Join(SplitFrom(s, pat, from), pat) == s[from..]
    decreases |s| - from
  {
    match FindFrom(s, pat, from)
    case None =>
    case Some(i) =>
      var rest := SplitFrom(s, pat, i + |pat|);
      JoinSplitFrom(s, pat, i + |pat|);
      assert SplitFrom(s, pat, from)[1..] == rest;
      assert s[from..] == s[from..i] + pat + s[i + |pat|..];
  }

  /** Joining the pieces of a split with the pattern rebuilds the string. */
  lemma JoinSplit<T>(s: seq<T>, pat: seq<T>)
    requires |pat| > 0
    ensures Join(Split(s, pat), pat) == s
  {
    JoinSplitFrom(s, pat, 0);
  }

  /** No part holds the separator. */
  predicate NoneContains<T(==)>(parts: seq<seq<T>>, sep: T) {
    parts == [] || (sep !in parts[0] && NoneContains(parts[1..], sep))
  }

  lemma {:induction false} NoneContainsAll<T>(parts: seq<seq<T>>, sep: T)
    requires forall k :: 0 <= k < |parts| ==> sep !in parts[k]
    ensures NoneContains(parts, sep)
  {
    if parts != [] {
      assert forall k :: 0 <= k < |parts[1..]| ==> sep !in parts[1..][k] by {
        forall k | 0 <= k < |parts[1..]| ensures sep !in parts[1..][k] {
          assert parts[1..][k] == parts[k + 1];
        }
      }
      NoneContainsAll(parts[1..], sep);
    }
  }

  lemma {:induction false} SplitFromJoin<T>(parts: seq<seq<T>>, sep: T, s: seq<T>, p: nat)
    requires |parts| >= 1 && p <= |s| && s[p..] == Join(parts, [sep])
    requires NoneContains(parts, sep)
    ensures SplitFrom(s, [sep], p) == parts
    decreases |parts|
  {
    if |parts| == 1 {
      SplitWithoutSep(s, sep, p);
    } else {
      var q := p + |parts[0]|;
      JoinFirst(parts, sep, s, p);
      SplitFromJoin(parts[1..], sep, s, q + 1);
      SplitJoinStep(parts, sep, s, p);
    }
  }

  /** If the parts after the first are split off correctly, so is the first. */
  lemma SplitJoinStep<T>(parts: seq<seq<T>>, sep: T, s: seq<T>, p: nat)
    requires |parts| >= 2 && sep !in parts[0]
    requires var q := p + |parts[0]|; q < |s| && s[q] == sep && s[p..q] == parts[0]
    requires SplitFrom(s, [sep], p + |parts[0]| + 1) == parts[1..]
    ensures SplitFrom(s, [sep], p) == parts
  {
    var q := p + |parts[0]|;
    forall j | p <= j < q ensures s[j] != sep {
      assert s[j] == s[p..q][j - p] == parts[0][j - p];
    }
    SplitAtFirst(s, sep, p, q);
    assert [parts[0]] + parts[1..] == parts;
  }

  /** Where a join of several parts stands in `s`, its first part, the separator and the join of the others follow each other. */
  lemma JoinFirst<T>(parts: seq<seq<T>>, sep: T, s: seq<T>, p: nat)
    requires |parts| >= 2 && p <= |s| && s[p..] == Join(parts, [sep])
    ensures var q := p + |parts[0]|;
      && q < |s| && s[q] == sep && s[p..q] == parts[0] && s[q + 1..] == Join(parts[1..], [sep])
  {
    var q := p + |parts[0]|;
    var rest := Join(parts[1..], [sep]);
    assert Join(parts, [sep]) == parts[0] + [sep] + rest;
    assert s[p..][..|parts[0]|] == parts[0];
    assert s[p..q] == s[p..][..|parts[0]|];
    assert s[q] == s[p..][|parts[0]|];
    assert s[q + 1..] == s[p..][|parts[0]| + 1..];
  }

  /** Splitting a stretch without a separator gives that stretch alone. */
  lemma SplitWithoutSep<T>(s: seq<T>, sep: T, p: nat)
    requires p <= |s| && sep !in s[p..]
    ensures SplitFrom(s, [sep], p) == [s[p..]]
  {
    assert s[p..|s|] == s[p..];
    NoMatchInPiece(s, sep, p, |s|);
  }

  /** Splitting at a position before which no separator occurs takes off the piece up to it. */
  lemma SplitAtFirst<T>(s: seq<T>, sep: T, p: nat, q: nat)
    requires p <= q < |s| && s[q] == sep
    requires forall j :: p <= j < q ==> s[j] != sep
    ensures SplitFrom(s, [sep], p) == [s[p..q]] + SplitFrom(s, [sep], q + 1)
  {
    forall j | p <= j < q ensures !MatchAt(s, [sep], j) {
      assert s[j..j + 1][0] == s[j];
    }
    assert s[q..q + 1] == [sep];
    FindFirst(s, [sep], p, q);
  }

  lemma NoMatchInPiece<T>(s: seq<T>, sep: T, lo: nat, hi: nat)
    requires lo <= hi <= |s|
    requires sep !in s[lo..hi]
    ensures forall j :: lo <= j < hi ==> !MatchAt(s, [sep], j)
  {
    forall j | lo <= j < hi
      ensures !MatchAt(s, [sep], j)
    {
      assert s[lo..hi][j - lo] == s[j];
      assert s[j..j + 1][0] == s[j];
    }
  }

  /** A stretch of `s` in which no occurrence of `pat` starts holds no occurrence of `pat`. */
  lemma NoMatchWithin<T>(s: seq<T>, pat: seq<T>, a: nat, b: nat)
    requires |pat| > 0 && a <= b <= |s|
    requires forall j :: a <= j < b ==> !MatchAt(s, pat, j)
    ensures forall j :: !MatchAt(s[a..b], pat, j)
  {
    forall j: nat
      ensures !MatchAt(s[a..b], pat, j)
    {
      if j + |pat| <= b - a {
        var piece := s[a..b];
        var x, y := piece[j..j + |pat|], s[a + j..a + j + |pat|];
        forall k | 0 <= k < |pat| ensures x[k] == y[k] {
          assert x[k] == piece[j + k] == s[a + j + k];
        }
        assert x == y;
        assert !MatchAt(s, pat, a + j);
      }
    }
  }

  /**
   * Splitting the fields joined by a one-element separator that none of them
   * contains gives back exactly those fields.
   */
  lemma SplitJoin<T>(parts: seq<seq<T>>, sep: T)
    requires |parts| >= 1
    requires forall k :: 0 <= k < |parts| ==> sep !in parts[k]
    ensures Split(Join(parts, [sep]), [sep]) == parts
  {
    NoneContainsAll(parts, sep);
    SplitFromJoin(parts, sep, Join(parts, [sep]), 0);
  }

  /** An element in none of the parts and not in the separator is not in their join. */
  lemma {:induction false} JoinAvoids<T>(parts: seq<seq<T>>, sep: seq<T>, x: T)
    requires |parts| >= 1 && x !in sep
    requires forall k :: 0 <= k < |parts| ==> x !in parts[k]
    ensures x !in Join(parts, sep)
  {
    if |parts| > 1 {
      JoinAvoids(parts[1..], sep, x);
    }
  }

  /**
   * The second piece of a split: the text after the first occurrence of `pat`
   * up to the next occurrence or the end.
   */
  lemma SecondPiece<T>(s: seq<T>, pat: seq<T>)
    requires |pat| > 0
    ensures |Split(s, pat)| >= 2 <==> FindFrom(s, pat, 0).Some?
    ensures FindFrom(s, pat, 0).Some? ==>
      var i := FindFrom(s, pat, 0).value;
      var j := FindFrom(s, pat, i + |pat|);
      Split(s, pat)[1] == s[i + |pat|..if j.Some? then j.value else |s|]
  {
    match FindFrom(s, pat, 0)
    case None =>
    case Some(i) =>
      var rest := SplitFrom(s, pat, i + |pat|);
      assert Split(s, pat) == [s[..i]] + rest;
  }

  // ---------------------------------------------------------------------------
  // Whitespace
  // ---------------------------------------------------------------------------

  /** Rust's `char::is_whitespace`: the Unicode White_Space property. */
  predicate IsWhitespace(c: char) {
    var n := c as int;
    (0x09 <= n <= 0x0D) || n == 0x20 || n == 0x85 || n == 0xA0 || n == 0x1680
    || (0x2000 <= n <= 0x200A) || n == 0x2028 || n == 0x2029 || n == 0x202F
    || n == 0x205F || n == 0x3000
  }

  predicate NoWhitespace(s: string) {
    forall i :: 0 <= i < |s| ==> !IsWhitespace(s[i])
  }

  /** The length of the run of non-whitespace characters that starts `s`. */
  function TokenLength(s: string): (n: nat)
    ensures n <= |s| && NoWhitespace(s[..n])
    ensures n < |s| ==> IsWhitespace(s[n])
  {
    if s == [] || IsWhitespace(s[0]) then 0
    else
      var m := TokenLength(s[1..]);
      assert s[..m + 1] == [s[0]] + s[1..][..m];
      m + 1
  }

  /** `s.split_whitespace().collect()`: the maximal runs of non-whitespace characters. */
  function SplitWhitespace(s: string): (tokens: seq<string>)
    ensures forall k :: 0 <= k < |tokens| ==> |tokens[k]| > 0 && NoWhitespace(tokens[k])
    decreases |s|
  {
    if s == [] then []
    else if IsWhitespace(s[0]) then SplitWhitespace(s[1..])
    else
      var n := TokenLength(s);
      [s[..n]] + SplitWhitespace(s[n..])
  }

  /** The characters of `s` that are not whitespace, in order. */
  function DropWhitespace(s: string): string {
    if s == [] then []
    else if IsWhitespace(s[0]) then DropWhitespace(s[1..])
    else [s[0]] + DropWhitespace(s[1..])
  }

  /** The pieces one after another. */
  function Concat<T>(parts: seq<seq<T>>): seq<T> {
    if parts == [] then [] else parts[0] + Concat(parts[1..])
  }

  lemma ConcatCons<T>(x: seq<T>, xs: seq<seq<T>>)
    ensures Concat([x] + xs) == x + Concat(xs)
  {
    assert ([x] + xs)[1..] == xs;
  }

  /** A text without whitespace is one token, or none when it is empty. */
  lemma OneToken(s: string)
    requires NoWhitespace(s)
    ensures SplitWhitespace(s) == if s == [] then [] else [s]
  {
    if s != [] {
      var n := TokenLength(s);
      assert !IsWhitespace(s[0]);
      assert n == |s|;
      assert s[..n] == s && s[n..] == [];
    }
  }

  /** The tokens, read one after another, are the string with its whitespace removed. */
  lemma {:induction false} SplitWhitespaceKeepsText(s: string)
    ensures Concat(SplitWhitespace(s)) == DropWhitespace(s)
    decreases |s|
  {
    if s == [] {
    } else if IsWhitespace(s[0]) {
      SplitWhitespaceKeepsText(s[1..]);
    } else {
      var n := TokenLength(s);
      SplitWhitespaceKeepsText(s[n..]);
      DropNoWhitespace(s[..n]);
      DropAppend(s[..n], s[n..]);
      assert s == s[..n] + s[n..];
      assert SplitWhitespace(s)[1..] == SplitWhitespace(s[n..]);
    }
  }

  lemma {:induction false} DropNoWhitespace(s: string)
    requires NoWhitespace(s)
    ensures DropWhitespace(s) == s
  {
    if s != [] {
      DropNoWhitespace(s[1..]);
    }
  }

  lemma {:induction false} DropAppend(a: string, b: string)
    ensures DropWhitespace(a + b) == DropWhitespace(a) + DropWhitespace(b)
  {
    if a != [] {
      assert (a + b)[1..] == a[1..] + b;
      DropAppend(a[1..], b);
    } else {
      assert a + b == b;
    }
  }

  // ---------------------------------------------------------------------------
  // Lines
  // ---------------------------------------------------------------------------

  /**
   * `s.lines().next().unwrap_or("")`: the text before the first `\n`, without
   * the `\r` of a `\r\n` ending (a `\r` that ends a last line without `\n`
   * stays); the empty string when `s` is empty.
   */
  function FirstLine(s: string): (line: string)
    ensures '\n' !in line
    ensures |line| <= |s| && line == s[..|line|]
  {
    var end := match FindFrom(s, "\n", 0) case Some(i) => i case None => |s|;
    assert forall j :: 0 <= j < end ==> s[j] != '\n' by {
      forall j | 0 <= j < end ensures s[j] != '\n' {
        assert !MatchAt(s, "\n", j);
        assert s[j..j + 1] == [s[j]];
      }
    }
    var raw := s[..end];
    if end < |s| && |raw| > 0 && raw[|raw| - 1] == '\r' then raw[..|raw| - 1] else raw
  }

  /** A line without `\n`, not ending in `\r`, read back from in front of a `\n`. */
  lemma FirstLineOf(line: string, rest: string)
    requires '\n' !in line && (|line| == 0 || line[|line| - 1] != '\r')
    ensures FirstLine(line + "\n" + rest) == line
  {
    var s := line + "\n" + rest;
    assert s[|line|..|line| + 1] == "\n";
    forall j | 0 <= j < |line| ensures !MatchAt(s, "\n", j) {
      assert s[j..j + 1] == [line[j]];
    }
    FindFirst(s, "\n", 0, |line|);
    assert s[..|line|] == line;
  }
}
