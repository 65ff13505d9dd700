/**
  String and path helpers with the meaning PHP gives them: `strpos` and
  `stripos` substring tests, `basename`, `dirname`, `pathinfo` extensions,
  and decimal rendering of counters. Paths are taken literally: '/' is the
  only separator and nothing is normalised.
 */
module Paths {
  import opened Wrappers

  predicate StartsWith(s: string, prefix: string) {
    |prefix| <= |s| && s[..|prefix|] == prefix
  }

  predicate EndsWith(s: string, suffix: string) {
    |suffix| <= |s| && s[|s| - |suffix|..] == suffix
  }

  /** `strpos($s, $sub) !== false`: does `sub` occur in `s`? */
  predicate Contains(s: string, sub: string)
    decreases |s|
  {
    if StartsWith(s, sub) then true
    else if s == [] then false
    else Contains(s[1..], sub)
  }

  /** `sub` occurs in `s` starting at position `i`. */
  ghost predicate OccursAt(s: string, sub: string, i: int) {
    0 <= i && i + |sub| <= |s| && s[i..i + |sub|] == sub
  }

  lemma {:induction false} ContainsIff(s: string, sub: string)
    ensures Contains(s, sub) <==> exists i :: OccursAt(s, sub, i)
    decreases |s|
  {
    if StartsWith(s, sub) {
      assert OccursAt(s, sub, 0);
    } else {
      forall i | OccursAt(s, sub, i) ensures i > 0 && OccursAt(s[1..], sub, i - 1) {
        assert s[0..|sub|] == s[..|sub|];
        assert s[1..][i - 1..i - 1 + |sub|] == s[i..i + |sub|];
      }
      if s != [] {
        ContainsIff(s[1..], sub);
        forall j | OccursAt(s[1..], sub, j) ensures OccursAt(s, sub, j + 1) {
          assert s[1..][j..j + |sub|] == s[j + 1..j + 1 + |sub|];
        }
      }
    }
  }


  /** A string that contains `big` contains every substring of `big`. */
  lemma ContainsThrough(s: string, big: string, small: string, k: nat)
    requires Contains(s, big)
    requires k + |small| <= |big| && big[k..k + |small|] == small
    ensures Contains(s, small)
  {
    ContainsIff(s, big);
    var i :| OccursAt(s, big, i);
    assert 0 <= i && i + |big| <= |s| && s[i..i + |big|] == big;
    forall m | 0 <= m < |small| ensures s[i + k + m] == small[m] {
      assert small[m] == big[k + m] == s[i..i + |big|][k + m];
    }
    assert s[i + k..i + k + |small|] == small;
    assert OccursAt(s, small, i + k);
    ContainsIff(s, small);
  }

  /** ASCII lower-casing, as `strtolower` and `stripos` do it since PHP 8.2 (earlier versions follow the locale). */
  function LowerChar(c: char): char {
    if 'A' <= c <= 'Z' then (c as int + 32) as char else c
  }

  function Lower(s: string): (r: string)
    ensures |r| == |s|
    ensures forall i :: 0 <= i < |s| ==> r[i] == LowerChar(s[i])
  {
    seq(|s|, i requires 0 <= i < |s| => LowerChar(s[i]))
  }

  /** `stripos($s, $sub) !== false`. */
  predicate ContainsIgnoreCase(s: string, sub: string) {
    Contains(Lower(s), Lower(sub))
  }

  /** Index of the last occurrence of `c` in `s`, if any. */
  function LastIndexOf(s: string, c: char): (r: Option<nat>)
    ensures r.None? ==> forall i :: 0 <= i < |s| ==> s[i] != c
    ensures r.Some? ==> r.value < |s| && s[r.value] == c
                        && forall i :: r.value < i < |s| ==> s[i] != c
    decreases |s|
  {
    if s == [] then None
    else if s[|s| - 1] == c then Some(|s| - 1)
    else LastIndexOf(s[..|s| - 1], c)
  }

  /** Index of the first occurrence of `c` in `s`, if any. */
  function FirstIndexOf(s: string, c: char): (r: Option<nat>)
    ensures r.None? ==> forall i :: 0 <= i < |s| ==> s[i] != c
    ensures r.Some? ==> r.value < |s| && s[r.value] == c
                        && forall i :: 0 <= i < r.value ==> s[i] != c
    decreases |s|
  {
    if s == [] then None
    else if s[0] == c then Some(0)
    else match FirstIndexOf(s[1..], c)
      case None => None
      case Some(i) => Some(i + 1)
  }

  /** `s` without its trailing '/' characters. */
  function StripTrailingSlashes(s: string): (r: string)
    ensures |r| <= |s| && r == s[..|r|]
    ensures r == [] || r[|r| - 1] != '/'
    ensures forall i :: |r| <= i < |s| ==> s[i] == '/'
    decreases |s|
  {
    if s != [] && s[|s| - 1] == '/' then StripTrailingSlashes(s[..|s| - 1]) else s
  }

  /** PHP `basename`: the last path component, trailing slashes ignored. */
  function BaseName(s: string): (r: string)
    ensures forall i :: 0 <= i < |r| ==> r[i] != '/'
  {
    var t := StripTrailingSlashes(s);
    match LastIndexOf(t, '/')
    case None => t
    case Some(i) => t[i + 1..]
  }

  /**
    PHP `dirname`: "" for "", otherwise drop trailing slashes, then the
    last component, then the slashes before it; "/" when nothing but the
    leading slash is left, "." when there was no slash at all.
   */
  function Dirname(p: string): string {
    if p == [] then ""
    else
      var s := StripTrailingSlashes(p);
      if s == [] then "/"
      else match LastIndexOf(s, '/')
        case None => "."
        case Some(i) =>
          var h := StripTrailingSlashes(s[..i]);
          if h == [] then "/" else h
  }

  /** A few values of `dirname` as PHP documents them. */
  lemma DirnameExamples()
    ensures Dirname("") == "" && Dirname("/") == "/" && Dirname("//") == "/"
    ensures Dirname("a") == "." && Dirname("/a") == "/" && Dirname("a/b") == "a"
    ensures Dirname("/x/") == "/" && Dirname("/x/a//b/") == "/x/a"
  {
    assert StripTrailingSlashes("a") == "a";
    assert StripTrailingSlashes("/x/") == "/x";
    assert StripTrailingSlashes("/x/a//b/") == "/x/a//b";
    assert StripTrailingSlashes("/x/a/") == "/x/a";
    assert StripTrailingSlashes("a/b") == "a/b";
  }

  /** Apart from its three fixed answers, `dirname` returns a proper ancestor of its argument. */
  lemma DirnameIsAncestor(t: string)
    ensures var d := Dirname(t); d == "" || d == "/" || d == "." || d in Ancestors(t)
  {
    if t != [] {
      var s := StripTrailingSlashes(t);
      if s != [] && LastIndexOf(s, '/').Some? {
        var i := LastIndexOf(s, '/').value;
        var h := StripTrailingSlashes(s[..i]);
        if h != [] {
          assert h == t[..|h|];
          if |h| < i {
            assert s[..i][|h|] == '/';
          }
          assert t[|h|] == '/';
          assert h in Ancestors(t);
        }
      }
    }
  }

  /**
    `dirname` of an absolute canonical path with a slash appended is the
    parent of that path, so it is shorter than the path and not below it.
   */
  lemma DirnameOfSlashed(root: string)
    requires |root| > 1 && root[0] == '/' && root[|root| - 1] != '/'
    ensures var d := Dirname(root + "/");
            |d| < |root| && !StartsWith(d, root) && (d == "/" || d in Ancestors(root))
  {
    var t := root + "/";
    var s := StripTrailingSlashes(t);
    assert t[|root| - 1] != '/' && t[|root|] == '/';
    assert s == root;
    assert s[0] == '/';
    var i := LastIndexOf(s, '/').value;
    var h := StripTrailingSlashes(s[..i]);
    if h != [] {
      if |h| < i {
        assert s[..i][|h|] == '/';
      }
      assert root[|h|] == '/' && h == root[..|h|];
      assert h in Ancestors(root);
    }
  }

  /** PHP `pathinfo($f, PATHINFO_EXTENSION)`: what follows the last '.' of the base name. */
  function Extension(filename: string): (r: string)
    ensures forall i :: 0 <= i < |r| ==> r[i] != '.' && r[i] != '/'
  {
    var b := BaseName(filename);
    match LastIndexOf(b, '.')
    case None => ""
    case Some(i) => b[i + 1..]
  }

  /** The proper ancestors of a path: each prefix that stops before a '/' other than a leading one. */
  function Ancestors(p: string): set<string> {
    set i | 0 < i < |p| && p[i] == '/' :: p[..i]
  }

  /** `q` is `p` itself or lies below `p`. */
  predicate InSubtree(q: string, p: string) {
    q == p || StartsWith(q, p + "/")
  }

  lemma AncestorsOfAncestor(a: string, p: string)
    requires a in Ancestors(p)
    ensures Ancestors(a) <= Ancestors(p)
  {
    var i :| 0 < i < |p| && p[i] == '/' && a == p[..i];
    forall b | b in Ancestors(a) ensures b in Ancestors(p) {
      var j :| 0 < j < |a| && a[j] == '/' && b == a[..j];
      assert p[j] == '/' && b == p[..j];
    }
  }

  /** Whoever has an ancestor in the subtree of `p` is in that subtree too. */
  lemma BelowSubtree(q: string, a: string, p: string)
    requires a in Ancestors(q) && InSubtree(a, p)
    ensures InSubtree(q, p)
  {
    var i :| 0 < i < |q| && q[i] == '/' && a == q[..i];
    if a == p {
      assert q[..|p + "/"|] == p + "/";
    } else {
      assert q[..|p + "/"|] == a[..|p + "/"|];
    }
  }

  /** A path strictly below a non-empty `p` has `p` as an ancestor. */
  lemma StrictlyBelowHasAncestor(q: string, p: string)
    requires |p| > 0 && StartsWith(q, p + "/")
    ensures p in Ancestors(q)
  {
    assert q[|p|] == (p + "/")[|p|];
    assert q[..|p|] == (p + "/")[..|p|] == p;
  }

  /** A proper ancestor stays in the subtree of `p` only if it is `p`, below `p`, or an ancestor of `p`. */
  lemma AncestorsBelowRoot(root: string, rel: string, a: string)
    requires a in Ancestors(root + "/" + rel) || a == root + "/" + rel
    ensures InSubtree(a, root) || a in Ancestors(root)
  {
    var p := root + "/" + rel;
    if a == p {
      assert p[..|root + "/"|] == root + "/";
    } else {
      var i :| 0 < i < |p| && p[i] == '/' && a == p[..i];
      if i < |root| {
        assert root[i] == p[i] && root[..i] == p[..i];
      } else if i == |root| {
        assert a == root;
      } else {
        assert a[..|root + "/"|] == root + "/";
      }
    }
  }

  /** Decimal rendering of a non-negative integer, as PHP concatenates it. */
  function NatToString(n: nat): (r: string)
    ensures |r| > 0
    decreases n
  {
    if n < 10 then [Digit(n)] else NatToString(n / 10) + [Digit(n % 10)]
  }

  function Digit(d: nat): char
    requires d < 10
  {
    "0123456789"[d]
  }

  lemma NatToStringSingleDigit(n: nat)
    ensures |NatToString(n)| == 1 <==> n < 10
  {
  }

  lemma {:induction false} NatToStringInjective(a: nat, b: nat)
    requires NatToString(a) == NatToString(b)
    ensures a == b
    decreases a
  {
    var s := NatToString(a);
    NatToStringSingleDigit(a);
    NatToStringSingleDigit(b);
    if |s| == 1 {
      assert Digit(a) == s[0] == Digit(b);
    } else {
      var ta, tb := NatToString(a / 10), NatToString(b / 10);
      assert s == ta + [Digit(a % 10)] == tb + [Digit(b % 10)];
      assert Digit(a % 10) == s[|s| - 1] == Digit(b % 10);
      assert ta == s[..|s| - 1] == tb;
      NatToStringInjective(a / 10, b / 10);
    }
  }

}
