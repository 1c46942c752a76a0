/**
 * The ordering `ZIPReader.File.<` puts on archive paths. The paths are split
 * on '/' (empty components dropped) and compared component by component
 * after lowercasing. The result is proved equal to a simple reference order:
 * paths with at most one component come before nested paths, and within each
 * group the order is lexicographic on the lowercased components, so a proper
 * prefix comes first. From that reference the order is shown to be
 * irreflexive, asymmetric and transitive. Two paths are left unordered
 * exactly when their lowercased components agree.
 */
module PathOrder {
  import opened Paths

  /** Swift's `String <`, modelled as the lexicographic order of characters. */
  predicate StrLess(a: string, b: string)
    decreases |a|
  {
    if a == [] then b != []
    else if b == [] then false
    else if a[0] < b[0] then true
    else if b[0] < a[0] then false
    else StrLess(a[1..], b[1..])
  }

  lemma {:induction false} StrLessIrreflexive(a: string)
    ensures !StrLess(a, a)
    decreases |a|
  {
    if a != [] { StrLessIrreflexive(a[1..]); }
  }

  lemma {:induction false} StrLessTransitive(a: string, b: string, c: string)
    requires StrLess(a, b) && StrLess(b, c)
    ensures StrLess(a, c)
    decreases |a|
  {
    if a != [] && a[0] == b[0] && b[0] == c[0] {
      StrLessTransitive(a[1..], b[1..], c[1..]);
    }
  }

  lemma {:induction false} StrLessTrichotomous(a: string, b: string)
    ensures a == b || StrLess(a, b) || StrLess(b, a)
    decreases |a|
  {
    if a != [] && b != [] && a[0] == b[0] {
      StrLessTrichotomous(a[1..], b[1..]);
      if a[1..] == b[1..] {
        assert a == [a[0]] + a[1..] && b == [b[0]] + b[1..];
      }
    }
  }

  lemma StrLessAsymmetric(a: string, b: string)
    ensures !(StrLess(a, b) && StrLess(b, a))
  {
    if StrLess(a, b) && StrLess(b, a) {
      StrLessTransitive(a, b, a);
      StrLessIrreflexive(a);
    }
  }

  function Max(x: nat, y: nat): nat
  {
    if x < y then y else x
  }

  /**
   * File.<, as written: the `for index in 0..<max(l.count, r.count)` loop
   * from `index == i` on, with its early returns, and what follows the loop.
   */
  predicate LessFrom(l: seq<string>, r: seq<string>, i: nat)
    decreases Max(|l|, |r|) - i
  {
    if i >= Max(|l|, |r|) then |l| < |r|
    else if i >= |l| then true
    else if i >= |r| then false
    else if StrLess(Lowercased(r[i]), Lowercased(l[i])) then |l| == 1 && |r| > 1
    else if StrLess(Lowercased(l[i]), Lowercased(r[i])) then !(|r| == 1 && |l| > 1)
    else LessFrom(l, r, i + 1)
  }

  /** `lhs < rhs` on the component lists of two paths. */
  predicate ComponentsLess(l: seq<string>, r: seq<string>)
  {
    LessFrom(l, r, 0)
  }

  /** `lhs < rhs` on two File paths. */
  predicate PathLess(lhs: string, rhs: string)
  {
    ComponentsLess(Split(lhs), Split(rhs))
  }

  // ---------------------------------------------------------------------
  // The reference order.

  /** 0 for a top-level path (at most one component), 1 for a nested one. */
  function Depth(n: nat): nat
  {
    if n <= 1 then 0 else 1
  }

  /** Lexicographic order on component lists; a proper prefix comes first. */
  predicate LexLess(x: seq<string>, y: seq<string>)
    decreases |x|
  {
    if x == [] then y != []
    else if y == [] then false
    else if StrLess(x[0], y[0]) then true
    else if StrLess(y[0], x[0]) then false
    else LexLess(x[1..], y[1..])
  }

  /** Top-level paths first; then lexicographic on lowercased components. */
  predicate KeyLess(l: seq<string>, r: seq<string>)
  {
    || Depth(|l|) < Depth(|r|)
    || (Depth(|l|) == Depth(|r|) && LexLess(LowercasedAll(l), LowercasedAll(r)))
  }

  lemma {:induction false} LexLessIrreflexive(x: seq<string>)
    ensures !LexLess(x, x)
    decreases |x|
  {
    if x != [] {
      StrLessIrreflexive(x[0]);
      LexLessIrreflexive(x[1..]);
    }
  }

  lemma {:induction false} LexLessTransitive(x: seq<string>, y: seq<string>, z: seq<string>)
    requires LexLess(x, y) && LexLess(y, z)
    ensures LexLess(x, z)
    decreases |x|
  {
    if x != [] {
      var a, b, c := x[0], y[0], z[0];
      StrLessTrichotomous(a, b);
      StrLessTrichotomous(b, c);
      if StrLess(a, b) && StrLess(b, c) {
        StrLessTransitive(a, b, c);
      } else if a == b && b == c {
        StrLessIrreflexive(a);
        LexLessTransitive(x[1..], y[1..], z[1..]);
      } else if a == b {
        StrLessIrreflexive(a);
      } else {
        StrLessIrreflexive(b);
      }
    }
  }

  lemma {:induction false} LexLessTotal(x: seq<string>, y: seq<string>)
    ensures x == y || LexLess(x, y) || LexLess(y, x)
    decreases |x|
  {
    if x != [] && y != [] {
      StrLessTrichotomous(x[0], y[0]);
      if x[0] == y[0] {
        LexLessTotal(x[1..], y[1..]);
        if x[1..] == y[1..] {
          assert x == [x[0]] + x[1..] && y == [y[0]] + y[1..];
        }
      }
    }
  }

  lemma LexLessAsymmetric(x: seq<string>, y: seq<string>)
    requires LexLess(x, y)
    ensures !LexLess(y, x)
  {
    if LexLess(y, x) {
      LexLessTransitive(x, y, x);
      LexLessIrreflexive(x);
    }
  }

  lemma {:induction false} LexLessProperPrefix(x: seq<string>, y: seq<string>)
    requires |x| < |y| && x == y[..|x|]
    ensures LexLess(x, y)
    decreases |x|
  {
    if x != [] {
      StrLessIrreflexive(x[0]);
      assert x[0] == y[0];
      assert x[1..] == y[1..][..|x| - 1];
      LexLessProperPrefix(x[1..], y[1..]);
    }
  }

  /** Within one depth group the loop of File.< is exactly lexicographic order of the lowercased components. */
  lemma {:induction false} LessFromIsLex(l: seq<string>, r: seq<string>, i: nat)
    requires i <= |l| && i <= |r|
    requires Depth(|l|) == Depth(|r|)
    ensures LessFrom(l, r, i) == LexLess(LowercasedAll(l)[i..], LowercasedAll(r)[i..])
    decreases |l| - i
  {
    var x, y := LowercasedAll(l)[i..], LowercasedAll(r)[i..];
    if i < |l| && i < |r| {
      assert x[0] == Lowercased(l[i]) && y[0] == Lowercased(r[i]);
      assert x[1..] == LowercasedAll(l)[i + 1..] && y[1..] == LowercasedAll(r)[i + 1..];
      assert i < Max(|l|, |r|);
      LessFromIsLex(l, r, i + 1);
      StrLessAsymmetric(x[0], y[0]);
    }
  }

  /** The loop of File.< computes the reference order. */
  lemma ComponentsLessIsKeyLess(l: seq<string>, r: seq<string>)
    ensures ComponentsLess(l, r) == KeyLess(l, r)
  {
    if Depth(|l|) == Depth(|r|) {
      LessFromIsLex(l, r, 0);
      assert LowercasedAll(l)[0..] == LowercasedAll(l);
      assert LowercasedAll(r)[0..] == LowercasedAll(r);
    } else if |l| <= 1 {
      if |l| == 1 {
        assert LessFrom(l, r, 1);
      }
    } else if |r| == 1 {
      assert !LessFrom(l, r, 1);
    }
  }

  // ---------------------------------------------------------------------
  // Properties of File.< on paths.

  lemma PathLessIrreflexive(a: string)
    ensures !PathLess(a, a)
  {
    ComponentsLessIsKeyLess(Split(a), Split(a));
    LexLessIrreflexive(LowercasedAll(Split(a)));
  }

  lemma PathLessAsymmetric(a: string, b: string)
    requires PathLess(a, b)
    ensures !PathLess(b, a)
  {
    ComponentsLessIsKeyLess(Split(a), Split(b));
    ComponentsLessIsKeyLess(Split(b), Split(a));
    if Depth(|Split(a)|) == Depth(|Split(b)|) {
      LexLessAsymmetric(LowercasedAll(Split(a)), LowercasedAll(Split(b)));
    }
  }

  lemma PathLessTransitive(a: string, b: string, c: string)
    requires PathLess(a, b) && PathLess(b, c)
    ensures PathLess(a, c)
  {
    var x, y, z := Split(a), Split(b), Split(c);
    ComponentsLessIsKeyLess(x, y);
    ComponentsLessIsKeyLess(y, z);
    ComponentsLessIsKeyLess(x, z);
    if Depth(|x|) == Depth(|y|) == Depth(|z|) {
      LexLessTransitive(LowercasedAll(x), LowercasedAll(y), LowercasedAll(z));
    }
  }

  /** Two paths are unordered either way exactly when their lowercased components are equal. */
  lemma PathLessIncomparable(a: string, b: string)
    ensures !PathLess(a, b) && !PathLess(b, a) <==> Split(Lowercased(a)) == Split(Lowercased(b))
  {
    var x, y := Split(a), Split(b);
    ComponentsLessIsKeyLess(x, y);
    ComponentsLessIsKeyLess(y, x);
    SplitLowercased(a);
    SplitLowercased(b);
    LexLessTotal(LowercasedAll(x), LowercasedAll(y));
    LexLessIrreflexive(LowercasedAll(x));
  }

  /** Two paths with the same components, ignoring case. */
  predicate SameKey(a: string, b: string)
  {
    Split(Lowercased(a)) == Split(Lowercased(b))
  }

  /** Exactly one of: a before b, the same key, b before a. */
  lemma PathTrichotomy(a: string, b: string)
    ensures PathLess(a, b) || SameKey(a, b) || PathLess(b, a)
    ensures !(PathLess(a, b) && SameKey(a, b))
    ensures !(PathLess(a, b) && PathLess(b, a))
    ensures !(SameKey(a, b) && PathLess(b, a))
  {
    PathLessIncomparable(a, b);
    if PathLess(a, b) {
      PathLessAsymmetric(a, b);
    }
  }

  /** Paths that differ only in letter case are not ordered either way. */
  lemma CaseVariantsUnordered(a: string, b: string)
    requires Lowercased(a) == Lowercased(b)
    ensures !PathLess(a, b) && !PathLess(b, a)
  {
    PathLessIncomparable(a, b);
  }

  /** A path with one component is less than every path with more, and never the other way round. */
  lemma FlatBeforeNested(a: string, b: string)
    requires |Split(a)| == 1 && |Split(b)| > 1
    ensures PathLess(a, b) && !PathLess(b, a)
  {
    ComponentsLessIsKeyLess(Split(a), Split(b));
    ComponentsLessIsKeyLess(Split(b), Split(a));
  }

  /** A path is less than every path of which it is a proper component prefix, up to letter case. */
  lemma PrefixIsLess(a: string, b: string)
    requires |Split(a)| < |Split(b)|
    requires LowercasedAll(Split(a)) == LowercasedAll(Split(b))[..|Split(a)|]
    ensures PathLess(a, b)
  {
    ComponentsLessIsKeyLess(Split(a), Split(b));
    LexLessProperPrefix(LowercasedAll(Split(a)), LowercasedAll(Split(b)));
  }

  /** Among nested paths the first differing component decides, case-insensitively. */
  lemma NestedFirstDifference(a: string, b: string, k: nat)
    requires |Split(a)| > 1 && |Split(b)| > 1
    requires k < |Split(a)| && k < |Split(b)|
    requires LowercasedAll(Split(a))[..k] == LowercasedAll(Split(b))[..k]
    requires StrLess(Lowercased(Split(a)[k]), Lowercased(Split(b)[k]))
    ensures PathLess(a, b)
  {
    var x, y := LowercasedAll(Split(a)), LowercasedAll(Split(b));
    ComponentsLessIsKeyLess(Split(a), Split(b));
    LexFirstDifference(x, y, k);
  }

  lemma {:induction false} LexFirstDifference(x: seq<string>, y: seq<string>, k: nat)
    requires k < |x| && k < |y| && x[..k] == y[..k] && StrLess(x[k], y[k])
    ensures LexLess(x, y)
    decreases k
  {
    if k > 0 {
      assert x[0] == x[..k][0] && y[0] == y[..k][0];
      StrLessIrreflexive(x[0]);
      assert x[1..][..k - 1] == x[..k][1..] && y[1..][..k - 1] == y[..k][1..];
      LexFirstDifference(x[1..], y[1..], k - 1);
    }
  }
}
