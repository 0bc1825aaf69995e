/**
 * The few Python string operations the image helpers rely on, with Python's own semantics:
 * `str.find`, `str.split(sep)`, `sep.join`, `str.startswith`, `os.path.basename` and the
 * code-point ordering of `<` on strings.
 */
module PyStr {
  import opened Wrappers

  type String = seq<char>

  /** `sep` occurs in `s` at index `i`. */
  predicate OccursAt(s: String, sep: String, i: nat) {
    i + |sep| <= |s| && s[i..i + |sep|] == sep
  }

  predicate Contains(s: String, sep: String) {
    exists i: nat | i <= |s| :: OccursAt(s, sep, i)
  }

  /** `s.startswith(p)`. */
  predicate StartsWith(s: String, p: String) {
    p <= s
  }

  /** An occurrence in the tail of `s` is an occurrence in `s`, one place further on. */
  lemma OccursInTail(s: String, sep: String, j: nat)
    requires |s| > 0
    ensures OccursAt(s[1..], sep, j) <==> OccursAt(s, sep, j + 1)
  {
    if j + 1 + |sep| <= |s| {
      assert s[1..][j..j + |sep|] == s[j + 1..j + 1 + |sep|];
    }
  }

  /** `s.find(sep)`: the index of the first occurrence of `sep`, `None` where Python gives -1. */
  function Find(s: String, sep: String): (r: Option<nat>)
    ensures r.Some? ==> r.value + |sep| <= |s|
    decreases |s|
  {
    if |s| < |sep| then None
    else if s[..|sep|] == sep then Some(0)
    else
      match Find(s[1..], sep)
      case None => None
      case Some(i) => Some(i + 1)
  }

  /** Find gives the first occurrence, and `None` exactly when there is none. */
  lemma {:induction false} FindIsFirst(s: String, sep: String)
    ensures Find(s, sep).Some? ==> OccursAt(s, sep, Find(s, sep).value)
    ensures Find(s, sep).Some? ==> forall j: nat :: j < Find(s, sep).value ==> !OccursAt(s, sep, j)
    ensures Find(s, sep).None? <==> !Contains(s, sep)
    decreases |s|
  {
    if |s| >= |sep| && s[..|sep|] != sep {
      FindIsFirst(s[1..], sep);
      assert !OccursAt(s, sep, 0);
      assert Contains(s, sep) ==> Contains(s[1..], sep) by {
        if Contains(s, sep) {
          var i: nat :| i <= |s| && OccursAt(s, sep, i);
          OccursInTail(s, sep, i - 1);
        }
      }
      match Find(s[1..], sep)
      case None =>
      case Some(i) =>
        OccursInTail(s, sep, i);
        forall j: nat | 0 < j < i + 1 ensures !OccursAt(s, sep, j) {
          OccursInTail(s, sep, j - 1);
        }
    } else if |s| >= |sep| {
      assert OccursAt(s, sep, 0);
    }
  }

  /** An occurrence with none before it is the one Find gives. */
  lemma FindAt(s: String, sep: String, k: nat)
    requires OccursAt(s, sep, k) && forall j: nat :: j < k ==> !OccursAt(s, sep, j)
    ensures Find(s, sep) == Some(k)
  {
    FindIsFirst(s, sep);
    assert Contains(s, sep);
  }

  /** `s.split(sep)` for a non-empty separator (Python raises ValueError on an empty one). */
  function Split(s: String, sep: String): (parts: seq<String>)
    requires |sep| > 0
    ensures |parts| >= 1
    decreases |s|
  {
    match Find(s, sep)
    case None => [s]
    case Some(i) => [s[..i]] + Split(s[i + |sep|..], sep)
  }

  /** Where `sep` occurs, the split is the text before it followed by the split of the rest. */
  lemma SplitAtFirst(s: String, sep: String, i: nat)
    requires |sep| > 0 && Find(s, sep) == Some(i)
    ensures i + |sep| <= |s|
    ensures Split(s, sep) == [s[..i]] + Split(s[i + |sep|..], sep)
  {
  }

  /** `sep.join(parts)`. */
  function Join(parts: seq<String>, sep: String): String {
    if |parts| == 0 then []
    else if |parts| == 1 then parts[0]
    else parts[0] + sep + Join(parts[1..], sep)
  }

  /** `s.split(sep)[0]`. */
  function Head(s: String, sep: String): String
    requires |sep| > 0
  {
    Split(s, sep)[0]
  }

  /** `s.split(sep)[-1]`. */
  function Last(s: String, sep: String): String
    requires |sep| > 0
  {
    var parts := Split(s, sep);
    parts[|parts| - 1]
  }

  /** Splitting and joining again with the same separator gives back the string. */
  lemma {:induction false} JoinSplit(s: String, sep: String)
    requires |sep| > 0
    ensures Join(Split(s, sep), sep) == s
    decreases |s|
  {
    var found := Find(s, sep);
    FindIsFirst(s, sep);
    if found.Some? {
      var i := found.value;
      var tail := s[i + |sep|..];
      var rest := Split(tail, sep);
      JoinSplit(tail, sep);
      var parts := [s[..i]] + rest;
      assert Split(s, sep) == parts;
      assert parts[0] == s[..i] && parts[1..] == rest;
      assert Join(parts, sep) == s[..i] + sep + Join(rest, sep);
      assert s[i..i + |sep|] == sep;
      assert s == s[..i] + s[i..i + |sep|] + tail;
    }
  }

  /** An occurrence inside a prefix of `s` is an occurrence in `s`. */
  lemma OccursInPrefix(s: String, sep: String, n: nat, j: nat)
    requires n <= |s| && OccursAt(s[..n], sep, j)
    ensures OccursAt(s, sep, j) && j + |sep| <= n
  {
    assert s[..n][j..j + |sep|] == s[j..j + |sep|];
  }

  /** No part of `s.split(sep)` contains the separator. */
  lemma {:induction false} SplitPartsFree(s: String, sep: String)
    requires |sep| > 0
    ensures forall k :: 0 <= k < |Split(s, sep)| ==> !Contains(Split(s, sep)[k], sep)
    decreases |s|
  {
    FindIsFirst(s, sep);
    match Find(s, sep)
    case None =>
    case Some(i) =>
      var tail := s[i + |sep|..];
      SplitPartsFree(tail, sep);
      assert !Contains(s[..i], sep) by {
        if Contains(s[..i], sep) {
          var j: nat :| OccursAt(s[..i], sep, j);
          OccursInPrefix(s, sep, i, j);
        }
      }
      var parts := Split(s, sep);
      assert parts == [s[..i]] + Split(tail, sep);
      forall k | 0 <= k < |parts| ensures !Contains(parts[k], sep) {
        if k > 0 {
          assert parts[k] == Split(tail, sep)[k - 1];
        }
      }
  }

  /**
   * `s.split(sep)[0]` is the text before the first occurrence of `sep`, or the whole of `s`
   * when `sep` does not occur.
   */
  lemma HeadIsTextBeforeFirst(s: String, sep: String)
    requires |sep| > 0
    ensures Head(s, sep) <= s
    ensures !Contains(Head(s, sep), sep)
    ensures Head(s, sep) == s <==> !Contains(s, sep)
    ensures Contains(s, sep) ==> OccursAt(s, sep, |Head(s, sep)|)
    ensures forall j: nat :: j < |Head(s, sep)| ==> !OccursAt(s, sep, j)
  {
    FindIsFirst(s, sep);
    SplitPartsFree(s, sep);
    assert Split(s, sep)[0] == Head(s, sep);
  }

  /** With a one-character separator an occurrence is that character. */
  lemma CharOccursAt(s: String, c: char, j: nat)
    ensures OccursAt(s, [c], j) <==> j < |s| && s[j] == c
  {
    if j < |s| {
      assert s[j..j + 1] == [s[j]];
    }
  }

  lemma ContainsChar(s: String, c: char)
    ensures Contains(s, [c]) <==> c in s
  {
    if c in s {
      var j :| 0 <= j < |s| && s[j] == c;
      CharOccursAt(s, c, j);
    }
    if Contains(s, [c]) {
      var j: nat :| OccursAt(s, [c], j);
      CharOccursAt(s, c, j);
    }
  }

  /**
   * `b` is the basename of `p`: a suffix of `p` without `/` that is either all of `p` or
   * preceded by a `/`.
   */
  predicate IsBasename(p: String, b: String) {
    && |b| <= |p| && b == p[|p| - |b|..]
    && '/' !in b
    && (|b| < |p| ==> p[|p| - |b| - 1] == '/')
  }

  /**
   * `os.path.basename(p)`: the text after the last `/`, or the whole path when it has none.
   */
  function Basename(p: String): (b: String)
    ensures IsBasename(p, b)
  {
    if p == [] || p[|p| - 1] == '/' then []
    else
      var front := p[..|p| - 1];
      var b := Basename(front);
      assert front[|front| - |b|..] + [p[|p| - 1]] == p[|p| - |b| - 1..];
      b + [p[|p| - 1]]
  }

  /** A path has one basename: IsBasename pins it down. */
  lemma BasenameUnique(p: String, b: String, c: String)
    requires IsBasename(p, b) && IsBasename(p, c)
    ensures b == c
  {
  }

  /** A basename of the text after a `/` is a basename of the whole path. */
  lemma BasenameAfterSlash(p: String, i: nat, b: String)
    requires i < |p| && p[i] == '/' && IsBasename(p[i + 1..], b)
    ensures IsBasename(p, b)
  {
    var tail := p[i + 1..];
    assert p[|p| - |b|..] == tail[|tail| - |b|..];
    if |b| == |tail| {
      assert p[|p| - |b| - 1] == p[i];
    } else {
      assert p[|p| - |b| - 1] == tail[|tail| - |b| - 1];
    }
  }

  /** The last part of `p.split('/')` is a basename of `p`. */
  lemma {:induction false} LastPartIsBasename(p: String)
    ensures IsBasename(p, Last(p, "/"))
    decreases |p|
  {
    var found := Find(p, "/");
    FindIsFirst(p, "/");
    if found.None? {
      ContainsChar(p, '/');
      assert Split(p, "/") == [p];
      assert IsBasename(p, p);
    } else {
      var i := found.value;
      SplitAtFirst(p, "/", i);
      var tail := p[i + 1..];
      LastPartIsBasename(tail);
      var rest := Split(tail, "/");
      assert Last(p, "/") == Last(tail, "/") by {
        assert Split(p, "/") == [p[..i]] + rest;
      }
      CharOccursAt(p, '/', i);
      BasenameAfterSlash(p, i, Last(tail, "/"));
    }
  }

  /** `os.path.basename(p) == p.split('/')[-1]`. */
  lemma BasenameIsLastPart(p: String)
    ensures Basename(p) == Last(p, "/")
  {
    LastPartIsBasename(p);
    BasenameUnique(p, Last(p, "/"), Basename(p));
  }

  /** Python's `a <= b` on strings: lexicographic by code point. */
  predicate LessEq(a: String, b: String) {
    a == [] || (b != [] && (a[0] < b[0] || (a[0] == b[0] && LessEq(a[1..], b[1..]))))
  }

  lemma {:induction false} LessEqReflexive(a: String)
    ensures LessEq(a, a)
  {
    if a != [] {
      LessEqReflexive(a[1..]);
    }
  }

  lemma {:induction false} LessEqTotal(a: String, b: String)
    ensures LessEq(a, b) || LessEq(b, a)
  {
    if a != [] && b != [] && a[0] == b[0] {
      LessEqTotal(a[1..], b[1..]);
    }
  }

  lemma {:induction false} LessEqTransitive(a: String, b: String, c: String)
    requires LessEq(a, b) && LessEq(b, c)
    ensures LessEq(a, c)
  {
    if a != [] && a[0] == b[0] && b[0] == c[0] {
      LessEqTransitive(a[1..], b[1..], c[1..]);
    }
  }
}
