/**
 * The string operations the analysers apply to names, URLs and paths:
 * Python's `str.split(sep)`, `sep.join(parts)`, `str.lower()`, `str.rfind`
 * and `str.rstrip(ch)`, and POSIX `os.path.split` / `os.path.dirname`,
 * all on `seq<char>`.
 */
module Strings {

  /** Index of the first `c` in `s` (Python's `s.index(c)`). */
  function Find(s: string, c: char): (i: nat)
    requires c in s
    ensures i < |s| && s[i] == c && c !in s[..i]
  {
    if s[0] == c then 0 else 1 + Find(s[1..], c)
  }

  /** `sep.join(parts)`. */
  function Join(parts: seq<string>, sep: string): string {
    if |parts| == 0 then ""
    else if |parts| == 1 then parts[0]
    else parts[0] + sep + Join(parts[1..], sep)
  }

  /** `s.split(c)` for a one-character separator: never empty. */
  function Split(s: string, c: char): (parts: seq<string>)
    ensures |parts| >= 1
    decreases |s|
  {
    if c !in s then [s]
    else
      var i := Find(s, c);
      [s[..i]] + Split(s[i + 1..], c)
  }

  /** No piece of a split contains the separator. */
  lemma {:induction false} SplitSeparatorFree(s: string, c: char)
    ensures forall i :: 0 <= i < |Split(s, c)| ==> c !in Split(s, c)[i]
    decreases |s|
  {
    if c in s {
      var i := Find(s, c);
      SplitSeparatorFree(s[i + 1..], c);
    }
  }

  /** Joining the pieces of a split with the separator gives back the string. */
  lemma {:induction false} JoinSplit(s: string, c: char)
    ensures Join(Split(s, c), [c]) == s
    decreases |s|
  {
    if c in s {
      var i := Find(s, c);
      var rest := Split(s[i + 1..], c);
      JoinSplit(s[i + 1..], c);
      assert Split(s, c) == [s[..i]] + rest;
      assert ([s[..i]] + rest)[1..] == rest;
      calc {
        Join(Split(s, c), [c]);
        s[..i] + [c] + Join(rest, [c]);
        s[..i] + [c] + s[i + 1..];
        { assert s == s[..i] + [s[i]] + s[i + 1..]; }
        s;
      }
    }
  }

  /** The first `c` in `a + [c] + t` is the one after `a` when `a` has none. */
  lemma {:induction false} FindAfter(a: string, c: char, t: string)
    requires c !in a
    ensures c in a + [c] + t && Find(a + [c] + t, c) == |a|
  {
    assert (a + [c] + t)[|a|] == c;
    if a != [] {
      FindAfter(a[1..], c, t);
      assert (a + [c] + t)[1..] == a[1..] + [c] + t;
    }
  }

  /** Splitting `a + [c] + t` for a separator-free `a` yields `a` and then the pieces of `t`. */
  lemma SplitCons(a: string, c: char, t: string)
    requires c !in a
    ensures Split(a + [c] + t, c) == [a] + Split(t, c)
  {
    var s := a + [c] + t;
    FindAfter(a, c, t);
    assert s[..|a|] == a;
    assert s[|a| + 1..] == t;
  }

  /** Splitting a join of separator-free pieces gives back the pieces. */
  lemma {:induction false} SplitJoin(parts: seq<string>, c: char)
    requires |parts| >= 1
    requires forall i :: 0 <= i < |parts| ==> c !in parts[i]
    ensures Split(Join(parts, [c]), c) == parts
  {
    if |parts| > 1 {
      var tail := Join(parts[1..], [c]);
      assert Join(parts, [c]) == parts[0] + [c] + tail;
      SplitJoin(parts[1..], c);
      SplitCons(parts[0], c, tail);
      assert parts == [parts[0]] + parts[1..];
    }
  }

  /** A join splits at any piece boundary `k`. */
  lemma {:induction false} JoinPrefix(parts: seq<string>, sep: string, k: nat)
    requires 1 <= k < |parts|
    ensures Join(parts, sep) == Join(parts[..k], sep) + sep + Join(parts[k..], sep)
  {
    if k > 1 {
      JoinPrefix(parts[1..], sep, k - 1);
      assert parts[1..][..k - 1] == parts[..k][1..];
      assert parts[1..][k - 1..] == parts[k..];
    }
  }

  /** ASCII lower-casing of one character. */
  function LowerChar(c: char): char {
    if 'A' <= c <= 'Z' then (c as int + 32) as char else c
  }

  /** `s.lower()` on ASCII letters. */
  function Lower(s: string): (r: string)
    ensures |r| == |s|
  {
    if s == [] then [] else [LowerChar(s[0])] + Lower(s[1..])
  }

  /** Each character is lower-cased on its own. */
  lemma {:induction false} LowerAt(s: string)
    ensures forall i :: 0 <= i < |s| ==> Lower(s)[i] == LowerChar(s[i])
  {
    if s != [] {
      LowerAt(s[1..]);
    }
  }

  /** Lower-casing twice is lower-casing once. */
  lemma LowerIdempotent(s: string)
    ensures Lower(Lower(s)) == Lower(s)
  {
    LowerAt(s);
    LowerAt(Lower(s));
  }

  /** One past the index of the last `c` in `s`, or 0 (Python's `s.rfind(c) + 1`). */
  function RFindNext(s: string, c: char): (i: nat)
    ensures i <= |s|
    ensures c !in s[i..]
    ensures i > 0 ==> s[i - 1] == c
  {
    if s == [] then 0
    else if s[|s| - 1] == c then |s|
    else
      var i := RFindNext(s[..|s| - 1], c);
      assert s[i..] == s[..|s| - 1][i..] + [s[|s| - 1]];
      i
  }

  /** `s.rstrip(c)`. */
  function RStrip(s: string, c: char): (r: string)
    ensures r <= s
    ensures r == [] || r[|r| - 1] != c
    ensures forall i :: |r| <= i < |s| ==> s[i] == c
  {
    if s != [] && s[|s| - 1] == c then RStrip(s[..|s| - 1], c) else s
  }

  /** `RFindNext` is the only position just after a `c` (or the start) with no `c` after it. */
  lemma RFindNextUnique(s: string, c: char, k: nat)
    requires k <= |s| && (k == 0 || s[k - 1] == c) && c !in s[k..]
    ensures RFindNext(s, c) == k
  {
  }

  /** Every character of `s` is a `/`. */
  predicate AllSlashes(s: string) {
    forall k :: 0 <= k < |s| ==> s[k] == '/'
  }

  /**
   * POSIX `os.path.split(p)`: the part after the last '/' is the tail;
   * the head is everything up to it, without its trailing slashes unless
   * it consists of slashes only.
   */
  function PathSplit(p: string): (r: (string, string))
    ensures '/' !in r.1
  {
    var i := RFindNext(p, '/');
    var head := p[..i];
    (if head != [] && !AllSlashes(head) then RStrip(head, '/') else head, p[i..])
  }

  /** POSIX `os.path.dirname(p)`: the head of `os.path.split(p)`. */
  function Dirname(p: string): string {
    PathSplit(p).0
  }

  /** A path of at least two components ends in a slash followed by its last component. */
  lemma LastSlash(parts: seq<string>)
    requires |parts| >= 2
    requires forall i :: 0 <= i < |parts| ==> '/' !in parts[i]
    ensures var a := Join(parts[..|parts| - 1], "/");
      && Join(parts, "/") == a + "/" + parts[|parts| - 1]
      && RFindNext(Join(parts, "/"), '/') == |a| + 1
  {
    var n := |parts|;
    var a := Join(parts[..n - 1], "/");
    JoinPrefix(parts, "/", n - 1);
    assert parts[n - 1..] == [parts[n - 1]];
    var p := Join(parts, "/");
    assert p[|a| + 1..] == parts[n - 1];
    RFindNextUnique(p, '/', |a| + 1);
  }

  /** The tail of `os.path.split(p)` is the last '/'-separated field of `p`. */
  lemma TailIsLastField(p: string)
    ensures PathSplit(p).1 == Split(p, '/')[|Split(p, '/')| - 1]
  {
    LastFieldOf(p, Split(p, '/'));
  }

  /** The same fact, for the pieces of the split given by name. */
  lemma LastFieldOf(p: string, parts: seq<string>)
    requires parts == Split(p, '/')
    ensures |parts| >= 1 && PathSplit(p).1 == parts[|parts| - 1]
  {
    JoinSplit(p, '/');
    SplitSeparatorFree(p, '/');
    TailOfJoin(p, parts);
  }

  /** The tail of a path that is a join of separator-free components is its last component. */
  lemma TailOfJoin(p: string, parts: seq<string>)
    requires |parts| >= 1 && Join(parts, "/") == p
    requires forall i :: 0 <= i < |parts| ==> '/' !in parts[i]
    ensures PathSplit(p).1 == parts[|parts| - 1]
  {
    JoinedTail(parts);
  }

  /** Stripping the trailing slashes of `a + "/"` gives `a` when `a` ends in something else. */
  lemma RStripSlash(a: string)
    requires a != [] && a[|a| - 1] != '/'
    ensures RStrip(a + "/", '/') == a
  {
    assert (a + "/")[..|a|] == a;
  }

  /** A non-empty join of components ends with the last component. */
  lemma JoinEndsWithLast(parts: seq<string>)
    requires |parts| >= 1
    ensures var a := Join(parts, "/"); |parts[|parts| - 1]| <= |a| && a[|a| - |parts[|parts| - 1]|..] == parts[|parts| - 1]
  {
    var n := |parts|;
    if n > 1 {
      JoinPrefix(parts, "/", n - 1);
      assert parts[n - 1..] == [parts[n - 1]];
    }
  }

  /** The tail of a path joined from separator-free components is its last component. */
  lemma JoinedTail(parts: seq<string>)
    requires |parts| >= 1
    requires forall i :: 0 <= i < |parts| ==> '/' !in parts[i]
    ensures PathSplit(Join(parts, "/")).1 == parts[|parts| - 1]
  {
    var p := Join(parts, "/");
    if |parts| == 1 {
      RFindNextUnique(p, '/', 0);
    } else {
      LastSlash(parts);
      var a := Join(parts[..|parts| - 1], "/");
      assert p[|a| + 1..] == parts[|parts| - 1];
    }
  }

  /**
   * For a path joined from separator-free components whose second-to-last
   * component is not empty, `os.path.split` separates the last component
   * from the path of the others.
   */
  lemma SplitJoinedPath(parts: seq<string>)
    requires |parts| >= 2
    requires forall i :: 0 <= i < |parts| ==> '/' !in parts[i]
    requires parts[|parts| - 2] != ""
    ensures PathSplit(Join(parts, "/")) == (Join(parts[..|parts| - 1], "/"), parts[|parts| - 1])
  {
    var n := |parts|;
    var a := Join(parts[..n - 1], "/");
    var p := Join(parts, "/");
    LastSlash(parts);
    var last := parts[n - 2];
    JoinEndsWithLast(parts[..n - 1]);
    assert a[|a| - 1] == last[|last| - 1];
    assert last[|last| - 1] != '/' by { assert last[|last| - 1] in last; }
    var head := p[..|a| + 1];
    assert head == a + "/";
    assert !AllSlashes(head) by { assert head[|a| - 1] != '/'; }
    RStripSlash(a);
    assert p[|a| + 1..] == parts[n - 1];
  }

  /**
   * For a directory `.../<a>/<b>` joined from separator-free components,
   * with `a` not empty: its last component is `b` and the last component of
   * its parent is `a`.
   */
  lemma ParentComponents(parts: seq<string>)
    requires |parts| >= 2
    requires forall i :: 0 <= i < |parts| ==> '/' !in parts[i]
    requires parts[|parts| - 2] != ""
    ensures var dir := Join(parts, "/");
      && PathSplit(dir).1 == parts[|parts| - 1]
      && PathSplit(PathSplit(dir).0).1 == parts[|parts| - 2]
  {
    var n := |parts|;
    var q := parts[..n - 1];
    SplitJoinedPath(parts);
    assert forall i :: 0 <= i < |q| ==> '/' !in q[i] by {
      forall i | 0 <= i < |q| ensures '/' !in q[i] {
        assert q[i] == parts[i];
      }
    }
    JoinedTail(q);
    assert q[|q| - 1] == parts[n - 2];
  }

  /**
   * For a file path `.../<a>/<b>/<file>` joined from separator-free
   * components, with `a` and `b` not empty: the directory is the join of
   * all but the last component, its last component is `b` and the last
   * component of its parent is `a`.
   */
  lemma DirectoryComponents(parts: seq<string>)
    requires |parts| >= 3
    requires forall i :: 0 <= i < |parts| ==> '/' !in parts[i]
    requires parts[|parts| - 2] != "" && parts[|parts| - 3] != ""
    ensures var dir := Dirname(Join(parts, "/"));
      && dir == Join(parts[..|parts| - 1], "/")
      && PathSplit(dir).1 == parts[|parts| - 2]
      && PathSplit(PathSplit(dir).0).1 == parts[|parts| - 3]
  {
    var n := |parts|;
    var q := parts[..n - 1];
    SplitJoinedPath(parts);
    assert Dirname(Join(parts, "/")) == Join(q, "/");
    assert forall i :: 0 <= i < |q| ==> '/' !in q[i] by {
      forall i | 0 <= i < |q| ensures '/' !in q[i] {
        assert q[i] == parts[i];
      }
    }
    assert q[|q| - 2] == parts[n - 3];
    ParentComponents(q);
  }
}
