/**
 * The String helpers ZIPReader uses on archive paths: the `lastPathComponent`
 * and `pathExtension` extension properties, Swift's `split(separator: "/")`,
 * `lowercased()` and `String(cString:)`. Paths are sequences of characters;
 * case mapping is modelled on ASCII.
 */
module Paths {

  predicate EndsWithSlash(s: string)
  {
    |s| > 0 && s[|s| - 1] == '/'
  }

  /** The index just after the last '/' of s, or 0 when s has none. */
  function AfterLastSlash(s: string): (k: nat)
    ensures k <= |s|
    ensures '/' !in s[k..]
    ensures k > 0 ==> s[k - 1] == '/'
  {
    if s == [] then 0
    else if s[|s| - 1] == '/' then |s|
    else
      var k := AfterLastSlash(s[..|s| - 1]);
      assert s[k..] == s[..|s| - 1][k..] + [s[|s| - 1]];
      k
  }

  /**
   * `lastPathComponent`: a path ending in '/' is returned whole; otherwise
   * the longest suffix without a '/', i.e. the text after the last '/'.
   */
  function LastPathComponent(s: string): (r: string)
    ensures EndsWithSlash(s) ==> r == s
    ensures !EndsWithSlash(s) ==>
              |r| <= |s| && r == s[|s| - |r|..] && '/' !in r
              && (|r| < |s| ==> s[|s| - |r| - 1] == '/')
  {
    if EndsWithSlash(s) then s else s[AfterLastSlash(s)..]
  }

  /** The index of the first c in s, or |s| when there is none. */
  function IndexOf(s: string, c: char): (k: nat)
    ensures k <= |s|
    ensures c !in s[..k]
    ensures k < |s| ==> s[k] == c
    ensures k == |s| <==> c !in s
  {
    if s == [] then 0
    else if s[0] == c then 0
    else
      var k := IndexOf(s[1..], c) + 1;
      assert s[..k] == [s[0]] + s[1..][..k - 1];
      k
  }

  /**
   * `pathExtension`: the text after the FIRST '.' of the last path component
   * ("a.tar.gz" gives "tar.gz"), or "" when that component has no '.'.
   */
  function PathExtension(s: string): (r: string)
    ensures var name := LastPathComponent(s);
            && ('.' !in name ==> r == [])
            && ('.' in name ==>
                  |r| < |name|
                  && name == name[..|name| - |r| - 1] + ['.'] + r
                  && '.' !in name[..|name| - |r| - 1])
  {
    var name := LastPathComponent(s);
    var k := IndexOf(name, '.');
    if k == |name| then []
    else
      SplitAround(name, k);
      name[k + 1..]
  }

  lemma SplitAround<T>(s: seq<T>, k: nat)
    requires k < |s|
    ensures |s| - |s[k + 1..]| - 1 == k
    ensures s == s[..k] + [s[k]] + s[k + 1..]
  {
  }

  /** `lastPathComponent.first == "."` */
  predicate IsHiddenName(s: string)
  {
    var name := LastPathComponent(s);
    |name| > 0 && name[0] == '.'
  }

  /** `String(cString:)`: the characters before the first NUL. */
  function CString(raw: string): (r: string)
    ensures |r| <= |raw| && r == raw[..|r|]
    ensures '\0' !in r
    ensures |r| < |raw| ==> raw[|r|] == '\0'
  {
    raw[..IndexOf(raw, '\0')]
  }

  /** ASCII `lowercased()` of one character. */
  function Lower(c: char): char
  {
    if 'A' <= c <= 'Z' then (c as int + 32) as char else c
  }

  /** `lowercased()`. */
  function Lowercased(s: string): (r: string)
    ensures |r| == |s|
    ensures forall i :: 0 <= i < |s| ==> r[i] == Lower(s[i])
  {
    if s == [] then [] else [Lower(s[0])] + Lowercased(s[1..])
  }

  /** Each string of a sequence lowercased. */
  function LowercasedAll(xs: seq<string>): (r: seq<string>)
    ensures |r| == |xs|
    ensures forall i :: 0 <= i < |xs| ==> r[i] == Lowercased(xs[i])
  {
    if xs == [] then [] else [Lowercased(xs[0])] + LowercasedAll(xs[1..])
  }

  /** The length of the leading run of s that holds no '/'. */
  function ComponentLength(s: string): (n: nat)
    ensures n <= |s|
    ensures '/' !in s[..n]
    ensures n < |s| ==> s[n] == '/'
  {
    IndexOf(s, '/')
  }

  /**
   * `split(separator: "/")` with Swift's default of omitting empty
   * subsequences: the maximal non-empty runs of s that hold no '/', in order.
   */
  function Split(s: string): (r: seq<string>)
    ensures forall k :: 0 <= k < |r| ==> r[k] != [] && '/' !in r[k]
    decreases |s|
  {
    if s == [] then []
    else if s[0] == '/' then Split(s[1..])
    else
      var n := ComponentLength(s);
      [s[..n]] + Split(s[n..])
  }

  /** Components joined with single separators: the inverse of Split on normalised paths. */
  function Join(cs: seq<string>): string
  {
    if cs == [] then []
    else if |cs| == 1 then cs[0]
    else cs[0] + "/" + Join(cs[1..])
  }

  lemma {:induction false} SplitComponentThen(c: string, rest: string)
    requires c != [] && '/' !in c
    ensures Split(c + "/" + rest) == [c] + Split(rest)
  {
    var s := c + "/" + rest;
    IndexOfNotIn(s, '/', |c|);
    assert s[..|c|] == c;
    assert s[|c|..] == "/" + rest;
    assert ("/" + rest)[1..] == rest;
  }

  /** The empty path has no components. */
  lemma SplitEmpty()
    ensures Split("") == []
  {
  }

  /** A non-empty, slash-free string is one component. */
  lemma SplitComponent(c: string)
    requires c != [] && '/' !in c
    ensures Split(c) == [c]
  {
    IndexOfNotIn(c + "/", '/', |c|);
    assert IndexOf(c, '/') == |c|;
    assert c[..|c|] == c && c[|c|..] == [];
  }

  /**
   * A '/' separates: the components of s + "/" + t are those of s followed
   * by those of t, whatever slashes s and t begin or end with. With
   * SplitEmpty and SplitComponent this fixes Split on every string: runs of
   * '/' and leading or trailing '/' give no empty components.
   */
  lemma {:induction false} SplitSlash(s: string, t: string)
    ensures Split(s + "/" + t) == Split(s) + Split(t)
    decreases |s|
  {
    var u := s + "/" + t;
    if s == [] {
      assert u == "/" + t && u[1..] == t;
    } else if s[0] == '/' {
      assert u[0] == '/' && u[1..] == s[1..] + "/" + t;
      SplitSlash(s[1..], t);
    } else {
      var n := ComponentLength(s);
      assert u[..|s|] == s && u[|s|] == '/';
      assert u[..n] == s[..n];
      IndexOfNotIn(u, '/', n);
      assert u[n..] == s[n..] + "/" + t;
      SplitSlash(s[n..], t);
      AppendAssociative([s[..n]], Split(s[n..]), Split(t));
    }
  }

  lemma AppendAssociative<T>(x: seq<T>, y: seq<T>, z: seq<T>)
    ensures (x + y) + z == x + (y + z)
  {
  }

  /** Empty runs are dropped: "a//b/" has the components "a" and "b". */
  lemma SplitDoubledAndTrailingSlash()
    ensures Split("a//b/") == ["a", "b"]
  {
    assert Split("b/") == ["b"] by {
      assert "b" + "/" + "" == "b/";
      SplitSlash("b", "");
      SplitComponent("b");
    }
    assert Split("/b/") == ["b"] by {
      assert "" + "/" + "b/" == "/b/";
      SplitSlash("", "b/");
    }
    assert "a" + "/" + "/b/" == "a//b/";
    SplitSlash("a", "/b/");
    SplitComponent("a");
  }

  lemma IndexOfNotIn(s: string, c: char, k: nat)
    requires k < |s| && s[k] == c && c !in s[..k]
    ensures IndexOf(s, c) == k
  {
  }

  /** Splitting a path made of non-empty, slash-free components separated by single slashes gives those components back. */
  lemma {:induction false} SplitJoin(cs: seq<string>)
    requires forall k :: 0 <= k < |cs| ==> cs[k] != [] && '/' !in cs[k]
    ensures Split(Join(cs)) == cs
    decreases |cs|
  {
    if cs == [] {
    } else if |cs| == 1 {
      var s := cs[0];
      assert IndexOf(s, '/') == |s|;
      assert s[..|s|] == s && s[|s|..] == [];
    } else {
      SplitJoin(cs[1..]);
      SplitComponentThen(cs[0], Join(cs[1..]));
      assert cs == [cs[0]] + cs[1..];
    }
  }

  lemma LowerIsSlash(c: char)
    ensures Lower(c) == '/' <==> c == '/'
  {
  }

  lemma {:induction false} LowercasedSlice(s: string, i: nat, j: nat)
    requires i <= j <= |s|
    ensures Lowercased(s)[i..j] == Lowercased(s[i..j])
  {
    var a, b := Lowercased(s)[i..j], Lowercased(s[i..j]);
    assert |a| == |b|;
    forall k | 0 <= k < |a| ensures a[k] == b[k] {
      assert a[k] == Lower(s[i + k]);
    }
  }

  lemma {:induction false} ComponentLengthLowercased(s: string)
    ensures ComponentLength(Lowercased(s)) == ComponentLength(s)
  {
    var n, m := ComponentLength(s), ComponentLength(Lowercased(s));
    var ls := Lowercased(s);
    if m < n {
      LowerIsSlash(s[m]);
    }
    if n < m {
      LowerIsSlash(s[n]);
    }
  }

  /** Lowercasing commutes with splitting, because only '/' lowercases to '/'. */
  lemma {:induction false} SplitLowercased(s: string)
    ensures Split(Lowercased(s)) == LowercasedAll(Split(s))
    decreases |s|
  {
    var ls := Lowercased(s);
    if s == [] {
    } else if s[0] == '/' {
      LowercasedSlice(s, 1, |s|);
      assert ls[1..] == Lowercased(s[1..]);
      SplitLowercased(s[1..]);
    } else {
      LowerIsSlash(s[0]);
      var n := ComponentLength(s);
      ComponentLengthLowercased(s);
      LowercasedSlice(s, 0, n);
      LowercasedSlice(s, n, |s|);
      assert s[0..n] == s[..n] && ls[0..n] == ls[..n];
      assert s[n..|s|] == s[n..] && ls[n..|s|] == ls[n..];
      SplitLowercased(s[n..]);
      assert Split(ls) == [Lowercased(s[..n])] + LowercasedAll(Split(s[n..]));
    }
  }
}
