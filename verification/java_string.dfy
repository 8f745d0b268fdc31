/** The ordering of strings that `String.compareTo` defines in Java, which the main
    window uses to keep its device menu in alphabetical order. The comparison is
    case-sensitive: it compares character codes, so every upper-case ASCII letter
    sorts before every lower-case one. */
module JavaString {

  /** The value of `a.compareTo(b)`: at the first position where the strings
      differ, the difference of the two character codes; when one string is a
      prefix of the other, the difference of the lengths. It answers zero exactly
      for equal strings. */
  function CompareTo(a: string, b: string): (r: int)
    ensures r == 0 <==> a == b
    decreases |a|
  {
    if |a| == 0 || |b| == 0 then |a| - |b|
    else if a[0] != b[0] then a[0] as int - b[0] as int
    else
      assert a == [a[0]] + a[1..] && b == [b[0]] + b[1..];
      CompareTo(a[1..], b[1..])
  }

  /** `a.compareTo(b) < 0`: `a` sorts strictly before `b`. */
  predicate Less(a: string, b: string)
  {
    CompareTo(a, b) < 0
  }

  lemma {:induction false} CompareToAntisymmetric(a: string, b: string)
    ensures CompareTo(a, b) == -CompareTo(b, a)
    decreases |a|
  {
    if |a| == 0 || |b| == 0 {
    } else if a[0] != b[0] {
    } else {
      CompareToAntisymmetric(a[1..], b[1..]);
    }
  }

  lemma LessIrreflexive(a: string)
    ensures !Less(a, a)
  {
  }

  lemma {:induction false} LessTransitive(a: string, b: string, c: string)
    requires Less(a, b) && Less(b, c)
    ensures Less(a, c)
    decreases |a|
  {
    if |a| == 0 || |b| == 0 || |c| == 0 {
    } else if a[0] == b[0] && b[0] == c[0] {
      LessTransitive(a[1..], b[1..], c[1..]);
    }
  }

  /** Two strings neither of which sorts before the other are equal: the order is total. */
  lemma LessTotal(a: string, b: string)
    ensures !Less(a, b) && !Less(b, a) ==> a == b
  {
    CompareToAntisymmetric(a, b);
  }

  /** A proper prefix sorts before the longer string. */
  lemma {:induction false} PrefixSortsFirst(a: string, b: string)
    requires |a| < |b| && a == b[..|a|]
    ensures Less(a, b)
    decreases |a|
  {
    if |a| > 0 {
      assert a[0] == b[0];
      assert a[1..] == b[1..][..|a| - 1];
      PrefixSortsFirst(a[1..], b[1..]);
    }
  }

  /** Upper case sorts before lower case, whatever follows. */
  lemma CaseSensitiveOrder()
    ensures Less("Zeta", "alpha")
    ensures Less("ABC", "abc")
  {
  }
}
