/**
 * The natural ordering of strings that a `TreeSet<String>` sorts by
 * (`String.compareTo`): compare character by character from the left; the
 * first differing character decides, and when one string is a prefix of the
 * other, the shorter one comes first. The comparison is exact: no case
 * folding, no trimming.
 */
module StringOrder {

  /**
   * The same order stated without recursion: `a` is a proper prefix of `b`,
   * or at the first position where they differ `a` has the smaller
   * character.
   */
  ghost predicate SortsBefore(a: string, b: string)
  {
    || (|a| < |b| && a == b[..|a|])
    || exists k | 0 <= k < |a| && k < |b| :: a[..k] == b[..k] && a[k] < b[k]
  }

  /** Two strings with the same first character compare as their tails do. */
  lemma SortsBeforeTails(a: string, b: string)
    requires |a| > 0 && |b| > 0 && a[0] == b[0]
    ensures SortsBefore(a, b) <==> SortsBefore(a[1..], b[1..])
  {
    var a', b' := a[1..], b[1..];
    if exists k | 0 <= k < |a| && k < |b| :: a[..k] == b[..k] && a[k] < b[k] {
      var k :| 0 <= k < |a| && k < |b| && a[..k] == b[..k] && a[k] < b[k];
      assert k > 0;
      assert a'[..k - 1] == a[1..k] == b[1..k] == b'[..k - 1];
      assert a'[k - 1] < b'[k - 1];
    }
    if exists k | 0 <= k < |a'| && k < |b'| :: a'[..k] == b'[..k] && a'[k] < b'[k] {
      var k :| 0 <= k < |a'| && k < |b'| && a'[..k] == b'[..k] && a'[k] < b'[k];
      assert a[..k + 1] == [a[0]] + a'[..k] && b[..k + 1] == [b[0]] + b'[..k];
      assert a[k + 1] < b[k + 1];
    }
    if |a'| < |b'| && a' == b'[..|a'|] {
      assert a == [a[0]] + a' && b[..|a|] == [b[0]] + b'[..|a'|];
    }
    if |a| < |b| && a == b[..|a|] {
      assert a' == b'[..|a'|];
    }
  }

  /**
   * `a` sorts strictly before `b`, as `String.compareTo` returns a negative
   * value: the first differing character decides, a proper prefix sorts
   * first, and characters are compared exactly, without case folding.
   */
  predicate Less(a: string, b: string): (r: bool)
    ensures r <==> SortsBefore(a, b)
  {
    if |a| == 0 then
      assert |b| > 0 ==> a == b[..0];
      |b| > 0
    else if |b| == 0 then false
    else if a[0] != b[0] then
      assert a[..0] == b[..0];
      a[0] < b[0]
    else
      SortsBeforeTails(a, b);
      Less(a[1..], b[1..])
  }

  /** No string sorts before itself. */
  lemma LessIrreflexive(a: string)
    ensures !Less(a, a)
  {
  }

  lemma {:induction false} LessTransitive(a: string, b: string, c: string)
    requires Less(a, b) && Less(b, c)
    ensures Less(a, c)
  {
    if |a| > 0 && |b| > 0 && |c| > 0 && a[0] == b[0] && b[0] == c[0] {
      LessTransitive(a[1..], b[1..], c[1..]);
    }
  }

  /** Two different strings are always ordered one way or the other. */
  lemma {:induction false} LessTotal(a: string, b: string)
    requires a != b
    ensures Less(a, b) || Less(b, a)
  {
    if |a| > 0 && |b| > 0 && a[0] == b[0] {
      assert a == [a[0]] + a[1..] && b == [b[0]] + b[1..];
      LessTotal(a[1..], b[1..]);
    }
  }

  /** Two strings are never each sorted before the other. */
  lemma LessAsymmetric(a: string, b: string)
    requires Less(a, b)
    ensures !Less(b, a)
  {
  }
}
