/** The string comparison the sort uses to order setting names. The host's
    locale-aware comparison is replaced by code-point lexicographic order,
    with the same sign convention: negative, zero or positive as the first
    string sorts before, together with or after the second. */
module LocaleOrder {

  /** Compares `a` and `b` character by character; a proper prefix sorts first. */
  function LocaleCompare(a: string, b: string): (r: int)
    ensures -1 <= r <= 1
    ensures r == 0 <==> a == b
    ensures a == [] && b != [] ==> r < 0
    ensures a != [] && b != [] && a[0] < b[0] ==> r < 0
    ensures |a| < |b| && a == b[..|a|] ==> r < 0
  {
    if a == [] && b == [] then 0
    else if a == [] then -1
    else if b == [] then 1
    else if a[0] < b[0] then -1
    else if a[0] > b[0] then 1
    else
      assert a == [a[0]] + a[1..] && b == [b[0]] + b[1..];
      assert |a| < |b| && a == b[..|a|] ==> a[1..] == b[1..][..|a| - 1];
      LocaleCompare(a[1..], b[1..])
  }

  /** Swapping the arguments flips the sign of the result. */
  lemma {:induction false} LocaleCompareAntisymmetric(a: string, b: string)
    ensures LocaleCompare(b, a) == -LocaleCompare(a, b)
  {
    if a != [] && b != [] && a[0] == b[0] {
      LocaleCompareAntisymmetric(a[1..], b[1..]);
    }
  }

  /** "Sorts no later than" is transitive, so the comparison is a total order. */
  lemma {:induction false} LocaleCompareTransitive(a: string, b: string, c: string)
    requires LocaleCompare(a, b) <= 0 && LocaleCompare(b, c) <= 0
    ensures LocaleCompare(a, c) <= 0
  {
    if a != [] && b != [] && c != [] && a[0] == b[0] == c[0] {
      LocaleCompareTransitive(a[1..], b[1..], c[1..]);
    }
  }
}
