/** Three-way comparison results (NSComparisonResult) and the lexicographic
    order on sequences that both plain strings and node arrays use. */
module Ordering {

  /** NSOrderedAscending, NSOrderedSame, NSOrderedDescending. */
  datatype Order = Ascending | Same | Descending

  /** The result of comparing the other way round. */
  function Flip(o: Order): (flipped: Order) {
    match o
    case Ascending => Descending
    case Same => Same
    case Descending => Ascending
  }

  /** The first operand sorts no later than the second. */
  predicate AtMost(o: Order) {
    o != Descending
  }

  /** Comparing `y` with `x` gives the opposite of comparing `x` with `y`. */
  ghost predicate Antisymmetric<T(!new)>(cmp: (T, T) -> Order) {
    forall x, y :: cmp(y, x) == Flip(cmp(x, y))
  }

  /** "Sorts no later than" is transitive. */
  ghost predicate Transitive<T(!new)>(cmp: (T, T) -> Order) {
    forall x, y, z :: AtMost(cmp(x, y)) && AtMost(cmp(y, z)) ==> AtMost(cmp(x, z))
  }

  /** A total preorder: every pair is comparable, the comparison is consistent
      in both directions, and it is transitive. `Same` is its equivalence. */
  ghost predicate TotalPreorder<T(!new)>(cmp: (T, T) -> Order) {
    Antisymmetric(cmp) && Transitive(cmp)
  }

  /** `Same` means equality. */
  ghost predicate SameMeansEqual<T(!new)>(cmp: (T, T) -> Order) {
    forall x, y :: cmp(x, y) == Same <==> x == y
  }

  /** The two sequences have the same length and agree element by element. */
  predicate SameSeq<T>(a: seq<T>, b: seq<T>, cmp: (T, T) -> Order) {
    |a| == |b| && forall i :: 0 <= i < |a| ==> cmp(a[i], b[i]) == Same
  }

  /** Lexicographic order: the first position where the elements differ
      decides; a strict prefix sorts first. */
  function Lex<T>(a: seq<T>, b: seq<T>, cmp: (T, T) -> Order): (order: Order)
  {
    if a == [] then (if b == [] then Same else Ascending)
    else if b == [] then Descending
    else if cmp(a[0], b[0]) != Same then cmp(a[0], b[0])
    else Lex(a[1..], b[1..], cmp)
  }

  lemma {:induction false} LexAntisymmetric<T(!new)>(a: seq<T>, b: seq<T>, cmp: (T, T) -> Order)
    requires Antisymmetric(cmp)
    ensures Lex(b, a, cmp) == Flip(Lex(a, b, cmp))
  {
    if a != [] && b != [] {
      assert cmp(b[0], a[0]) == Flip(cmp(a[0], b[0]));
      if cmp(a[0], b[0]) == Same {
        LexAntisymmetric(a[1..], b[1..], cmp);
      }
    }
  }

  lemma {:induction false} LexTransitive<T(!new)>(a: seq<T>, b: seq<T>, c: seq<T>, cmp: (T, T) -> Order)
    requires TotalPreorder(cmp)
    requires AtMost(Lex(a, b, cmp)) && AtMost(Lex(b, c, cmp))
    ensures AtMost(Lex(a, c, cmp))
  {
    if a != [] && b != [] && c != [] {
      var x, y, z := a[0], b[0], c[0];
      assert AtMost(cmp(x, y)) && AtMost(cmp(y, z));
      assert AtMost(cmp(x, z));
      if cmp(x, z) == Same {
        // Neither step can be strict: that would put z strictly after itself.
        assert cmp(z, x) == Same;
        assert cmp(y, x) == Flip(cmp(x, y)) && cmp(z, y) == Flip(cmp(y, z));
        assert AtMost(cmp(z, x)) && AtMost(cmp(x, y)) ==> AtMost(cmp(z, y));
        assert AtMost(cmp(y, z)) && AtMost(cmp(z, x)) ==> AtMost(cmp(y, x));
        assert cmp(x, y) == Same && cmp(y, z) == Same;
        LexTransitive(a[1..], b[1..], c[1..], cmp);
      }
    }
  }

  /** `Lex` answers `Same` exactly when the sequences agree element by element. */
  lemma {:induction false} LexSame<T>(a: seq<T>, b: seq<T>, cmp: (T, T) -> Order)
    ensures Lex(a, b, cmp) == Same <==> SameSeq(a, b, cmp)
  {
    if a != [] && b != [] {
      LexSame(a[1..], b[1..], cmp);
      if SameSeq(a, b, cmp) {
        assert forall i :: 0 <= i < |a| - 1 ==> a[1..][i] == a[i + 1] && b[1..][i] == b[i + 1];
      }
      if cmp(a[0], b[0]) == Same && SameSeq(a[1..], b[1..], cmp) {
        forall i | 0 <= i < |a| ensures cmp(a[i], b[i]) == Same {
          if i > 0 { assert a[i] == a[1..][i - 1] && b[i] == b[1..][i - 1]; }
        }
      }
    }
  }

  /** The lexicographic extension of a total preorder is a total preorder, and
      of an order whose `Same` is equality, an order whose `Same` is equality. */
  lemma LexIsTotalPreorder<T(!new)>(cmp: (T, T) -> Order)
    requires TotalPreorder(cmp)
    ensures TotalPreorder((a: seq<T>, b: seq<T>) => Lex(a, b, cmp))
    ensures SameMeansEqual(cmp) ==> SameMeansEqual((a: seq<T>, b: seq<T>) => Lex(a, b, cmp))
  {
    forall a: seq<T>, b: seq<T> ensures Lex(b, a, cmp) == Flip(Lex(a, b, cmp)) {
      LexAntisymmetric(a, b, cmp);
    }
    forall a: seq<T>, b: seq<T>, c: seq<T> | AtMost(Lex(a, b, cmp)) && AtMost(Lex(b, c, cmp))
      ensures AtMost(Lex(a, c, cmp))
    {
      LexTransitive(a, b, c, cmp);
    }
    if SameMeansEqual(cmp) {
      forall a: seq<T>, b: seq<T> ensures Lex(a, b, cmp) == Same <==> a == b {
        LexSame(a, b, cmp);
        if SameSeq(a, b, cmp) {
          assert forall i :: 0 <= i < |a| ==> a[i] == b[i];
        }
      }
    }
  }
}
