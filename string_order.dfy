/** Three-way lexicographic comparison of strings, the order Go's
    strings.Compare uses. Go compares the UTF-8 bytes of its strings; UTF-8
    preserves the order of code points, so comparing the characters of a
    Dafny string one by one gives the same answer. */
module StringOrder {

  /** -1 when a sorts before b, 0 when they are equal, 1 when a sorts after b. */
  function Compare(a: string, b: string): (r: int)
    ensures -1 <= r <= 1
    ensures r == 0 <==> a == b
    decreases |a|
  {
    if a == [] then (if b == [] then 0 else -1)
    else if b == [] then 1
    else if a[0] < b[0] then -1
    else if a[0] > b[0] then 1
    else
      assert a == [a[0]] + a[1..] && b == [b[0]] + b[1..];
      Compare(a[1..], b[1..])
  }

  /** strings.Compare(a, b) == 1: a sorts strictly after b. */
  predicate Greater(a: string, b: string) {
    Compare(a, b) == 1
  }

  /** a and b agree before position k, where a holds the smaller character. */
  ghost predicate FirstDifferenceBelow(a: string, b: string, k: int) {
    0 <= k < |a| && k < |b| && a[..k] == b[..k] && a[k] < b[k]
  }

  /** The textbook definition of "a sorts strictly before b": a is a proper
      prefix of b, or the two first differ at a position where a holds the
      smaller character. */
  ghost predicate LexLess(a: string, b: string) {
    (|a| < |b| && a == b[..|a|]) || exists k :: FirstDifferenceBelow(a, b, k)
  }

  lemma DifferenceTail(a: string, b: string, k: int)
    requires a != [] && b != [] && a[0] == b[0]
    requires FirstDifferenceBelow(a, b, k)
    ensures k > 0 && FirstDifferenceBelow(a[1..], b[1..], k - 1)
  {
    assert a[1..][..k - 1] == a[..k][1..] && b[1..][..k - 1] == b[..k][1..];
  }

  lemma DifferenceCons(a: string, b: string, k: int)
    requires a != [] && b != [] && a[0] == b[0]
    requires FirstDifferenceBelow(a[1..], b[1..], k)
    ensures FirstDifferenceBelow(a, b, k + 1)
  {
    assert a[..k + 1] == [a[0]] + a[1..][..k] && b[..k + 1] == [b[0]] + b[1..][..k];
  }

  lemma PrefixTail(a: string, b: string)
    requires a != [] && b != [] && a[0] == b[0]
    ensures (|a| < |b| && a == b[..|a|]) <==> (|a[1..]| < |b[1..]| && a[1..] == b[1..][..|a[1..]|])
  {
    if |a| < |b| && a == b[..|a|] {
      assert a[1..] == b[1..][..|a[1..]|];
    }
    if |a[1..]| < |b[1..]| && a[1..] == b[1..][..|a[1..]|] {
      assert a == [a[0]] + a[1..] && b[..|a|] == [b[0]] + b[1..][..|a[1..]|];
    }
  }

  lemma LexLessTail(a: string, b: string)
    requires a != [] && b != [] && a[0] == b[0]
    ensures LexLess(a, b) <==> LexLess(a[1..], b[1..])
  {
    PrefixTail(a, b);
    if exists k :: FirstDifferenceBelow(a, b, k) {
      var k :| FirstDifferenceBelow(a, b, k);
      DifferenceTail(a, b, k);
    }
    if exists k :: FirstDifferenceBelow(a[1..], b[1..], k) {
      var k :| FirstDifferenceBelow(a[1..], b[1..], k);
      DifferenceCons(a, b, k);
    }
  }

  lemma {:induction false} LexLessHead(a: string, b: string)
    requires a != [] && b != [] && a[0] < b[0]
    ensures LexLess(a, b) && !LexLess(b, a)
  {
    assert a[..0] == b[..0];
    assert FirstDifferenceBelow(a, b, 0);
    forall k | 0 < k <= |b| && k <= |a| ensures b[..k] != a[..k] {
      assert b[..k][0] == b[0] && a[..k][0] == a[0];
    }
  }

  /** Compare agrees with the textbook definition of lexicographic order. */
  lemma {:induction false} CompareIsLexicographic(a: string, b: string)
    ensures Compare(a, b) == -1 <==> LexLess(a, b)
    ensures Compare(a, b) == 1 <==> LexLess(b, a)
    decreases |a|
  {
    if a == [] {
      assert a == b[..0];
      if b != [] {
        assert LexLess(a, b);
      }
    } else if b == [] {
      assert b == a[..0];
      assert LexLess(b, a);
    } else if a[0] < b[0] {
      LexLessHead(a, b);
    } else if a[0] > b[0] {
      LexLessHead(b, a);
    } else {
      CompareIsLexicographic(a[1..], b[1..]);
      LexLessTail(a, b);
      LexLessTail(b, a);
    }
  }

  /** Swapping the arguments negates the comparison. */
  lemma {:induction false} CompareAntisymmetric(a: string, b: string)
    ensures Compare(b, a) == -Compare(a, b)
    decreases |a|
  {
    if a != [] && b != [] && a[0] == b[0] {
      CompareAntisymmetric(a[1..], b[1..]);
    }
  }

  /** "Sorts strictly after" is transitive. */
  lemma {:induction false} GreaterTransitive(a: string, b: string, c: string)
    requires Greater(a, b) && Greater(b, c)
    ensures Greater(a, c)
    decreases |a|
  {
    if c != [] && a[0] == b[0] && b[0] == c[0] {
      GreaterTransitive(a[1..], b[1..], c[1..]);
    }
  }

  /** If s is not below p and r is strictly above s, then r is strictly above
      p (and so p is not above r): the step a running maximum relies on. */
  lemma NotGreaterThenGreater(p: string, s: string, r: string)
    requires !Greater(p, s) && Greater(r, s)
    ensures Greater(r, p) && !Greater(p, r)
  {
    CompareAntisymmetric(p, s);
    CompareAntisymmetric(p, r);
    if p != s {
      GreaterTransitive(r, s, p);
    }
  }
}
