/**
 * A `TreeSet<String>` as the sequence of its elements in iteration order:
 * strictly ascending under `StringOrder.Less`, hence free of duplicates.
 * The operations are the ones the contributor check uses: building a set
 * from a list (`TreeSet(collection)`), membership (`contains`), and
 * Kotlin's `Set.minus(Iterable)`.
 */
module TreeSets {
  import opened StringOrder

  /** The elements of a sequence, forgetting order and multiplicity. */
  ghost function Elems(s: seq<string>): set<string>
  {
    set x | x in s
  }

  /** The shape every tree set has when iterated: strictly ascending. */
  ghost predicate StrictlySorted(s: seq<string>)
  {
    forall i, j | 0 <= i < j < |s| :: Less(s[i], s[j])
  }

  lemma SortedTail(s: seq<string>)
    requires StrictlySorted(s) && |s| > 0
    ensures StrictlySorted(s[1..])
    ensures s[0] !in s[1..]
    ensures forall y | y in s[1..] :: Less(s[0], y)
  {
  }

  /** Prepending an element below every element keeps a sequence strictly sorted. */
  lemma SortedCons(x: string, s: seq<string>)
    requires StrictlySorted(s)
    requires forall y | y in s :: Less(x, y)
    ensures StrictlySorted([x] + s)
  {
  }

  /** Everything in a sorted sequence is at least its head. */
  lemma BelowHead(x: string, s: seq<string>)
    requires StrictlySorted(s) && |s| > 0 && Less(x, s[0])
    ensures forall y | y in s :: Less(x, y)
  {
    forall y | y in s
      ensures Less(x, y)
    {
      if y != s[0] {
        LessTransitive(x, s[0], y);
      }
    }
  }

  /**
   * `TreeSet.add`: the element is placed at its position in the order; a
   * login already present leaves the set as it was.
   */
  function Insert(s: seq<string>, x: string): (r: seq<string>)
    requires StrictlySorted(s)
    ensures StrictlySorted(r)
    ensures Elems(r) == Elems(s) + {x}
    ensures x in s ==> r == s
  {
    if s == [] then [x]
    else if x == s[0] then s
    else if Less(x, s[0]) then
      BelowHead(x, s);
      LessIrreflexive(x);
      SortedCons(x, s);
      [x] + s
    else
      SortedTail(s);
      var rest := Insert(s[1..], x);
      assert Less(s[0], x) by { LessTotal(x, s[0]); }
      assert forall y | y in rest :: y in Elems(s[1..]) + {x} by {
        assert forall y | y in rest :: y in Elems(rest);
      }
      SortedCons(s[0], rest);
      assert s == [s[0]] + s[1..];
      [s[0]] + rest
  }

  /**
   * `TreeSet.contains`: walks the ascending elements and stops at the
   * first one that is not below `x`.
   */
  function Contains(s: seq<string>, x: string): (r: bool)
    requires StrictlySorted(s)
    ensures r <==> x in s
  {
    if s == [] then false
    else if x == s[0] then true
    else if Less(x, s[0]) then
      BelowHead(x, s);
      LessIrreflexive(x);
      false
    else
      SortedTail(s);
      assert s == [s[0]] + s[1..];
      Contains(s[1..], x)
  }

  /**
   * `TreeSet(collection)`: an empty tree set to which each element of the
   * list is added in list order.
   */
  function FromSeq(xs: seq<string>): (r: seq<string>)
    ensures StrictlySorted(r)
    ensures Elems(r) == Elems(xs)
  {
    if xs == [] then []
    else
      var init := xs[..|xs| - 1];
      assert xs == init + [xs[|xs| - 1]];
      Insert(FromSeq(init), xs[|xs| - 1])
  }

  /**
   * Kotlin's `Set.minus(Iterable)` with a set argument: the elements of `a`
   * that `b` does not contain, kept in `a`'s iteration order.
   */
  function Minus(a: seq<string>, b: seq<string>): (r: seq<string>)
    requires StrictlySorted(a) && StrictlySorted(b)
    ensures StrictlySorted(r)
    ensures Elems(r) == Elems(a) - Elems(b)
  {
    if a == [] then []
    else
      SortedTail(a);
      assert a == [a[0]] + a[1..];
      var rest := Minus(a[1..], b);
      if Contains(b, a[0]) then rest
      else
        assert forall y | y in rest :: y in Elems(a[1..]) by {
          assert forall y | y in rest :: y in Elems(rest);
        }
        SortedCons(a[0], rest);
        assert Elems([a[0]] + rest) == {a[0]} + Elems(rest);
        assert Elems(a) == {a[0]} + Elems(a[1..]);
        [a[0]] + rest
  }

  /**
   * A tree set is determined by its elements: two strictly sorted
   * sequences holding the same elements are the same sequence.
   */
  lemma {:induction false} SortedUnique(a: seq<string>, b: seq<string>)
    requires StrictlySorted(a) && StrictlySorted(b)
    requires Elems(a) == Elems(b)
    ensures a == b
  {
    if a != [] { assert a[0] in Elems(a); }
    if b != [] { assert b[0] in Elems(b); }
    if a != [] && b != [] {
      SortedTail(a);
      SortedTail(b);
      if a[0] != b[0] {
        assert Less(b[0], a[0]) && Less(a[0], b[0]);
        LessAsymmetric(a[0], b[0]);
        assert false;
      }
      assert a == [a[0]] + a[1..] && b == [b[0]] + b[1..];
      assert Elems(a[1..]) == Elems(a) - {a[0]};
      assert Elems(b[1..]) == Elems(b) - {b[0]};
      SortedUnique(a[1..], b[1..]);
    }
  }

  /**
   * The tree set built from a list depends only on which elements the list
   * holds: neither their order nor how often they occur changes it.
   */
  lemma FromSeqCanonical(xs: seq<string>, ys: seq<string>)
    requires Elems(xs) == Elems(ys)
    ensures FromSeq(xs) == FromSeq(ys)
  {
    SortedUnique(FromSeq(xs), FromSeq(ys));
  }
}
