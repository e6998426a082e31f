/** Java's `String.compareTo`, modelled on `seq<char>`, and the ordering facts
    the sort and the binary search use. A `char` here is a Unicode scalar
    value; it coincides with Java's UTF-16 code unit inside the Basic
    Multilingual Plane, and text outside it is not modelled. */
module JavaString {

  /** Lexicographic comparison as `String.compareTo` performs it: the
      difference of the two characters at the first index where the strings
      differ, or, when one is a prefix of the other, the difference of the
      lengths. Only the sign is an ordering; the magnitude is what the
      lexical search measures distance with. */
  function CompareTo(a: string, b: string): (r: int)
    ensures r == 0 <==> a == b
  {
    if |a| == 0 || |b| == 0 then |a| - |b|
    else if a[0] != b[0] then a[0] as int - b[0] as int
    else
      assert a == [a[0]] + a[1..] && b == [b[0]] + b[1..];
      CompareTo(a[1..], b[1..])
  }

  /** `a` sorts no later than `b`. */
  predicate Le(a: string, b: string) {
    CompareTo(a, b) <= 0
  }

  /** At the first index where two strings differ, the result is the
      difference of the characters there. */
  lemma {:induction false} CompareAtFirstDifference(a: string, b: string, k: nat)
    requires k < |a| && k < |b|
    requires a[..k] == b[..k] && a[k] != b[k]
    ensures CompareTo(a, b) == a[k] as int - b[k] as int
  {
    if k > 0 {
      assert a[0] == a[..k][0] && b[0] == b[..k][0];
      assert a[1..][..k - 1] == a[..k][1..];
      assert b[1..][..k - 1] == b[..k][1..];
      CompareAtFirstDifference(a[1..], b[1..], k - 1);
    }
  }

  /** When `a` is a prefix of `b`, the result is the difference of the
      lengths (zero or negative). */
  lemma {:induction false} CompareOfPrefix(a: string, b: string)
    requires |a| <= |b| && a == b[..|a|]
    ensures CompareTo(a, b) == |a| - |b|
  {
    if |a| > 0 {
      assert a[0] == b[0];
      assert a[1..] == b[1..][..|a| - 1];
      CompareOfPrefix(a[1..], b[1..]);
    }
  }

  /** Swapping the arguments negates the result. */
  lemma {:induction false} CompareAntisymmetric(a: string, b: string)
    ensures CompareTo(b, a) == -CompareTo(a, b)
  {
    if |a| > 0 && |b| > 0 && a[0] == b[0] {
      CompareAntisymmetric(a[1..], b[1..]);
    }
  }

  /** Any two strings are ordered one way or the other. */
  lemma LeTotal(a: string, b: string)
    ensures Le(a, b) || Le(b, a)
  {
    CompareAntisymmetric(a, b);
  }

  /** The ordering is transitive. */
  lemma {:induction false} LeTransitive(a: string, b: string, c: string)
    requires Le(a, b) && Le(b, c)
    ensures Le(a, c)
  {
    if |a| > 0 && |b| > 0 && |c| > 0 && a[0] == b[0] && b[0] == c[0] {
      LeTransitive(a[1..], b[1..], c[1..]);
    }
  }

  /** A strict step followed by a non-strict one is strict. */
  lemma LtLeTransitive(a: string, b: string, c: string)
    requires CompareTo(a, b) < 0 && Le(b, c)
    ensures CompareTo(a, c) < 0
  {
    LeTransitive(a, b, c);
    CompareAntisymmetric(a, b);
  }

  /** A non-strict step followed by a strict one is strict. */
  lemma LeLtTransitive(a: string, b: string, c: string)
    requires Le(a, b) && CompareTo(b, c) < 0
    ensures CompareTo(a, c) < 0
  {
    LeTransitive(a, b, c);
    CompareAntisymmetric(b, c);
  }
}
