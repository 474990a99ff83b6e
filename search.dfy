/** Substring search and left-to-right, non-overlapping replacement over
    sequences, with element matching given by a comparison: `Same` is a match.
    Plain strings use it on characters, complex strings on whole nodes. */
module Search {
  import opened Ordering

  /** `a` compares as the same as `t`: equal lengths and every element the
      same under `cmp` (see Ordering.LexSame). */
  predicate Matches<T>(a: seq<T>, t: seq<T>, cmp: (T, T) -> Order) {
    Lex(a, t, cmp) == Same
  }

  /** `t` occurs in `s` starting at position `i`. */
  predicate MatchesAt<T>(s: seq<T>, i: int, t: seq<T>, cmp: (T, T) -> Order) {
    0 <= i && i + |t| <= |s| && Matches(s[i..i + |t|], t, cmp)
  }

  /** `s` contains a non-empty `t`; an empty target is never found. */
  predicate Contains<T>(s: seq<T>, t: seq<T>, cmp: (T, T) -> Order) {
    |t| > 0 && exists i | 0 <= i <= |s| - |t| :: MatchesAt(s, i, t, cmp)
  }

  /** Replaces every occurrence of `t`, scanning from the left and resuming
      after each match, by `r`; also answers how many were replaced. */
  function ReplaceAll<T>(s: seq<T>, t: seq<T>, r: seq<T>, cmp: (T, T) -> Order): (res: (seq<T>, nat))
    decreases |s|
  {
    if |t| == 0 || |s| < |t| then (s, 0)
    else if Matches(s[..|t|], t, cmp) then
      var rest := ReplaceAll(s[|t|..], t, r, cmp);
      (r + rest.0, rest.1 + 1)
    else
      var rest := ReplaceAll(s[1..], t, r, cmp);
      ([s[0]] + rest.0, rest.1)
  }

  /** The scan that ReplaceAll describes: it accumulates the output and the
      count while it consumes the input from the left. */
  method ReplaceOccurrences<T>(s: seq<T>, t: seq<T>, r: seq<T>, cmp: (T, T) -> Order)
    returns (res: seq<T>, count: nat)
    ensures (res, count) == ReplaceAll(s, t, r, cmp)
  {
    res, count := [], 0;
    if |t| == 0 {
      res := s;
      return;
    }
    var rest := s;
    while rest != []
      invariant ReplaceAll(s, t, r, cmp).0 == res + ReplaceAll(rest, t, r, cmp).0
      invariant ReplaceAll(s, t, r, cmp).1 == count + ReplaceAll(rest, t, r, cmp).1
      decreases |rest|
    {
      if |rest| < |t| {
        res, rest := res + rest, [];
      } else if Matches(rest[..|t|], t, cmp) {
        ghost var next := ReplaceAll(rest[|t|..], t, r, cmp).0;
        assert res + (r + next) == (res + r) + next;
        res, count, rest := res + r, count + 1, rest[|t|..];
      } else {
        ghost var next := ReplaceAll(rest[1..], t, r, cmp).0;
        assert res + ([rest[0]] + next) == (res + [rest[0]]) + next;
        res, rest := res + [rest[0]], rest[1..];
      }
    }
    assert res + [] == res;
  }

  /** The output length accounts for every replacement, and each replacement
      consumed `|t|` elements of the input. */
  lemma {:induction false} ReplaceAllLength<T>(s: seq<T>, t: seq<T>, r: seq<T>, cmp: (T, T) -> Order)
    ensures |ReplaceAll(s, t, r, cmp).0| == |s| + ReplaceAll(s, t, r, cmp).1 * (|r| - |t|)
    ensures ReplaceAll(s, t, r, cmp).1 * |t| <= |s|
    decreases |s|
  {
    if |t| == 0 || |s| < |t| {
    } else if Matches(s[..|t|], t, cmp) {
      ReplaceAllLength(s[|t|..], t, r, cmp);
      var k := ReplaceAll(s[|t|..], t, r, cmp).1;
      assert (k + 1) * (|r| - |t|) == k * (|r| - |t|) + (|r| - |t|);
      assert (k + 1) * |t| == k * |t| + |t|;
    } else {
      ReplaceAllLength(s[1..], t, r, cmp);
    }
  }

  /** A sequence cut around a series of stretches: a gap, then any number of
      (matched stretch, gap) steps. */
  datatype Pieces<T> = Gap(gap: seq<T>) | Stretch(gap: seq<T>, matched: seq<T>, more: Pieces<T>)

  /** The sequence the pieces were cut from. */
  function Join<T>(p: Pieces<T>): (s: seq<T>) {
    match p
    case Gap(g) => g
    case Stretch(g, m, more) => g + m + Join(more)
  }

  /** The number of stretches. */
  function Stretches<T>(p: Pieces<T>): (k: nat) {
    match p
    case Gap(_) => 0
    case Stretch(_, _, more) => 1 + Stretches(more)
  }

  /** Every stretch matches `t`. */
  predicate AllMatch<T>(p: Pieces<T>, t: seq<T>, cmp: (T, T) -> Order) {
    match p
    case Gap(_) => true
    case Stretch(_, m, more) => Matches(m, t, cmp) && AllMatch(more, t, cmp)
  }

  /** The same gaps with `r` in place of every stretch. */
  function Refill<T>(p: Pieces<T>, r: seq<T>): (q: Pieces<T>)
    ensures Stretches(q) == Stretches(p)
  {
    match p
    case Gap(g) => Gap(g)
    case Stretch(g, _, more) => Stretch(g, r, Refill(more, r))
  }

  /** One more element at the front of the first gap. */
  function PushGap<T>(x: T, p: Pieces<T>): (q: Pieces<T>) {
    match p
    case Gap(g) => Gap([x] + g)
    case Stretch(g, m, more) => Stretch([x] + g, m, more)
  }

  /** No position inside a gap starts a match of `t` in what follows it:
      the stretches are every match a left-to-right scan meets. */
  predicate GapsMatchFree<T>(p: Pieces<T>, t: seq<T>, cmp: (T, T) -> Order) {
    match p
    case Gap(g) => forall i | 0 <= i < |g| :: !MatchesAt(g, i, t, cmp)
    case Stretch(g, m, more) =>
      && (forall i | 0 <= i < |g| :: !MatchesAt(g + m + Join(more), i, t, cmp))
      && GapsMatchFree(more, t, cmp)
  }

  /** A match one element further in, seen from one element earlier. */
  lemma MatchesAtShift<T>(x: T, u: seq<T>, i: int, t: seq<T>, cmp: (T, T) -> Order)
    requires 1 <= i
    ensures MatchesAt([x] + u, i, t, cmp) <==> MatchesAt(u, i - 1, t, cmp)
  {
    if i + |t| <= |[x] + u| {
      assert ([x] + u)[i..i + |t|] == u[i - 1..i - 1 + |t|];
    }
  }

  /** An element that starts no match keeps the gaps free of matches. */
  lemma PushGapMatchFree<T>(x: T, p: Pieces<T>, t: seq<T>, cmp: (T, T) -> Order)
    requires GapsMatchFree(p, t, cmp)
    requires !MatchesAt([x] + Join(p), 0, t, cmp)
    ensures GapsMatchFree(PushGap(x, p), t, cmp)
  {
    match p
    case Gap(g) =>
      forall i | 0 <= i < |[x] + g| ensures !MatchesAt([x] + g, i, t, cmp) {
        if i > 0 { MatchesAtShift(x, g, i, t, cmp); }
      }
    case Stretch(g, m, more) =>
      var j := Join(more);
      assert ([x] + g) + m + j == [x] + (g + m + j);
      forall i | 0 <= i < |[x] + g| ensures !MatchesAt([x] + (g + m + j), i, t, cmp) {
        if i > 0 { MatchesAtShift(x, g + m + j, i, t, cmp); }
      }
  }

  lemma PushGapJoin<T>(x: T, p: Pieces<T>, r: seq<T>, t: seq<T>, cmp: (T, T) -> Order)
    ensures Join(PushGap(x, p)) == [x] + Join(p)
    ensures Stretches(PushGap(x, p)) == Stretches(p)
    ensures AllMatch(PushGap(x, p), t, cmp) == AllMatch(p, t, cmp)
    ensures Refill(PushGap(x, p), r) == PushGap(x, Refill(p, r))
  {
    match p
    case Gap(g) =>
    case Stretch(g, m, more) =>
      var j := Join(more);
      assert ([x] + g) + m + j == [x] + (g + m + j);
  }

  /** The gaps between the matches that ReplaceAll replaces, and the matched
      stretches themselves, in order. */
  ghost function Split<T>(s: seq<T>, t: seq<T>, cmp: (T, T) -> Order): (p: Pieces<T>)
    decreases |s|
  {
    if |t| == 0 || |s| < |t| then Gap(s)
    else if Matches(s[..|t|], t, cmp) then Stretch([], s[..|t|], Split(s[|t|..], t, cmp))
    else PushGap(s[0], Split(s[1..], t, cmp))
  }

  /** What SplitIsReplaceAll states of one input. */
  ghost predicate SplitAgrees<T>(s: seq<T>, t: seq<T>, r: seq<T>, cmp: (T, T) -> Order) {
    var p := Split(s, t, cmp);
    && Stretches(p) == ReplaceAll(s, t, r, cmp).1
    && AllMatch(p, t, cmp)
    && s == Join(p)
    && ReplaceAll(s, t, r, cmp).0 == Join(Refill(p, r))
    && (|t| > 0 ==> GapsMatchFree(p, t, cmp))
  }

  lemma {:induction false} SplitIsReplaceAll<T>(s: seq<T>, t: seq<T>, r: seq<T>, cmp: (T, T) -> Order)
    ensures SplitAgrees(s, t, r, cmp)
    decreases |s|
  {
    if |t| == 0 || |s| < |t| {
    } else if Matches(s[..|t|], t, cmp) {
      SplitIsReplaceAll(s[|t|..], t, r, cmp);
      SplitMatchStep(s, t, r, cmp);
    } else {
      SplitIsReplaceAll(s[1..], t, r, cmp);
      SplitSkipStep(s, t, r, cmp);
    }
  }

  lemma SplitMatchStep<T>(s: seq<T>, t: seq<T>, r: seq<T>, cmp: (T, T) -> Order)
    requires |t| > 0 && |s| >= |t| && Matches(s[..|t|], t, cmp)
    requires SplitAgrees(s[|t|..], t, r, cmp)
    ensures SplitAgrees(s, t, r, cmp)
  {
    var s' := s[|t|..];
    var p' := Split(s', t, cmp);
    var (res', k') := ReplaceAll(s', t, r, cmp);
    assert Split(s, t, cmp) == Stretch([], s[..|t|], p');
    assert ReplaceAll(s, t, r, cmp) == (r + res', k' + 1);
    assert s == [] + s[..|t|] + Join(p');
    assert r + res' == [] + r + Join(Refill(p', r));
    SplitMatchMatchFree(s, t, cmp);
  }

  lemma SplitMatchMatchFree<T>(s: seq<T>, t: seq<T>, cmp: (T, T) -> Order)
    requires |t| > 0 && |s| >= |t| && Matches(s[..|t|], t, cmp)
    requires GapsMatchFree(Split(s[|t|..], t, cmp), t, cmp)
    ensures GapsMatchFree(Split(s, t, cmp), t, cmp)
  {
    assert Split(s, t, cmp) == Stretch([], s[..|t|], Split(s[|t|..], t, cmp));
  }

  lemma SplitSkipStep<T>(s: seq<T>, t: seq<T>, r: seq<T>, cmp: (T, T) -> Order)
    requires |t| > 0 && |s| >= |t| && !Matches(s[..|t|], t, cmp)
    requires SplitAgrees(s[1..], t, r, cmp)
    ensures SplitAgrees(s, t, r, cmp)
  {
    var s' := s[1..];
    var p' := Split(s', t, cmp);
    var (res', k') := ReplaceAll(s', t, r, cmp);
    assert Split(s, t, cmp) == PushGap(s[0], p');
    assert ReplaceAll(s, t, r, cmp) == ([s[0]] + res', k');
    PushGapJoin(s[0], p', r, t, cmp);
    assert s == [s[0]] + s';
    SplitSkipMatchFree(s, t, cmp);
  }

  lemma SplitSkipMatchFree<T>(s: seq<T>, t: seq<T>, cmp: (T, T) -> Order)
    requires |t| > 0 && |s| >= |t| && !Matches(s[..|t|], t, cmp)
    requires Join(Split(s[1..], t, cmp)) == s[1..]
    requires GapsMatchFree(Split(s[1..], t, cmp), t, cmp)
    ensures GapsMatchFree(Split(s, t, cmp), t, cmp)
  {
    var p' := Split(s[1..], t, cmp);
    assert Split(s, t, cmp) == PushGap(s[0], p');
    assert s == [s[0]] + Join(p');
    assert s[0..0 + |t|] == s[..|t|];
    PushGapMatchFree(s[0], p', t, cmp);
  }

  /** The input cuts into gaps and `k` stretches, each of which matches `t`,
      and no match of a non-empty `t` starts inside a gap; the output is the
      same gaps with `r` in place of every stretch. So every occurrence met
      from the left is replaced, the count is the number of replacements
      made, and everything outside the matches is left as it was. */
  lemma ReplaceAllShape<T>(s: seq<T>, t: seq<T>, r: seq<T>, cmp: (T, T) -> Order)
    ensures var (res, k) := ReplaceAll(s, t, r, cmp);
      exists p: Pieces<T> ::
        && Stretches(p) == k
        && AllMatch(p, t, cmp)
        && s == Join(p)
        && res == Join(Refill(p, r))
        && (|t| > 0 ==> GapsMatchFree(p, t, cmp))
  {
    SplitIsReplaceAll(s, t, r, cmp);
    var p := Split(s, t, cmp);
    var (res, k) := ReplaceAll(s, t, r, cmp);
    assert Stretches(p) == k && AllMatch(p, t, cmp) && s == Join(p) && res == Join(Refill(p, r))
      && (|t| > 0 ==> GapsMatchFree(p, t, cmp));
  }

  /** A stretch that matches `t` is a match starting where its gap ends. */
  lemma StretchStartsMatch<T>(g: seq<T>, m: seq<T>, j: seq<T>, t: seq<T>, cmp: (T, T) -> Order)
    requires Matches(m, t, cmp)
    ensures |m| == |t|
    ensures MatchesAt(g + m + j, |g|, t, cmp)
  {
    LexSame(m, t, cmp);
    assert (g + m + j)[|g|..|g| + |t|] == m;
  }

  /** The input determines the cut: two cuts of the same input whose
      stretches match a non-empty `t` and whose gaps start no match are the
      same cut. */
  lemma {:induction false} CutIsUnique<T>(p: Pieces<T>, q: Pieces<T>, t: seq<T>, cmp: (T, T) -> Order)
    requires |t| > 0
    requires AllMatch(p, t, cmp) && GapsMatchFree(p, t, cmp)
    requires AllMatch(q, t, cmp) && GapsMatchFree(q, t, cmp)
    requires Join(p) == Join(q)
    ensures p == q
    decreases p
  {
    match p
    case Gap(g) =>
      if q.Stretch? {
        StretchStartsMatch(q.gap, q.matched, Join(q.more), t, cmp);
        assert false;
      }
    case Stretch(g1, m1, p1) =>
      if q.Gap? {
        StretchStartsMatch(g1, m1, Join(p1), t, cmp);
        assert false;
      } else {
        var (g2, m2, q1) := (q.gap, q.matched, q.more);
        var j1, j2 := Join(p1), Join(q1);
        StretchStartsMatch(g1, m1, j1, t, cmp);
        StretchStartsMatch(g2, m2, j2, t, cmp);
        assert g1 + m1 + j1 == g2 + m2 + j2;
        if |g1| < |g2| {
          assert false;
        } else if |g2| < |g1| {
          assert false;
        } else {
          var u := g1 + m1 + j1;
          assert g1 == u[..|g1|] == g2;
          assert m1 == u[|g1|..|g1| + |t|] == m2;
          assert j1 == u[|g1| + |t|..] == j2;
          CutIsUnique(p1, q1, t, cmp);
        }
      }
  }

  /** ReplaceAll is the refill of any cut of the input into matching
      stretches and match-free gaps: which occurrences it replaces, and how
      many, depends on nothing else. */
  lemma ReplaceAllOfCut<T>(s: seq<T>, t: seq<T>, r: seq<T>, cmp: (T, T) -> Order, p: Pieces<T>)
    requires |t| > 0
    requires AllMatch(p, t, cmp) && GapsMatchFree(p, t, cmp) && Join(p) == s
    ensures ReplaceAll(s, t, r, cmp) == (Join(Refill(p, r)), Stretches(p))
  {
    SplitIsReplaceAll(s, t, r, cmp);
    CutIsUnique(Split(s, t, cmp), p, t, cmp);
  }

  /** Nothing is replaced exactly when the target does not occur; and then
      the result is the input. */
  lemma {:induction false} ReplaceAllCountZero<T>(s: seq<T>, t: seq<T>, r: seq<T>, cmp: (T, T) -> Order)
    ensures ReplaceAll(s, t, r, cmp).1 == 0 <==> !Contains(s, t, cmp)
    ensures ReplaceAll(s, t, r, cmp).1 == 0 ==> ReplaceAll(s, t, r, cmp).0 == s
    decreases |s|
  {
    if |t| == 0 || |s| < |t| {
    } else if Matches(s[..|t|], t, cmp) {
      assert s[0..0 + |t|] == s[..|t|];
      assert MatchesAt(s, 0, t, cmp);
    } else {
      ReplaceAllCountZero(s[1..], t, r, cmp);
      if Contains(s, t, cmp) {
        var i :| 0 <= i <= |s| - |t| && MatchesAt(s, i, t, cmp);
        assert i != 0 by { assert s[0..0 + |t|] == s[..|t|]; }
        assert s[1..][i - 1..i - 1 + |t|] == s[i..i + |t|];
        assert MatchesAt(s[1..], i - 1, t, cmp);
      }
      if Contains(s[1..], t, cmp) {
        var i :| 0 <= i <= |s| - 1 - |t| && MatchesAt(s[1..], i, t, cmp);
        assert s[1..][i..i + |t|] == s[i + 1..i + 1 + |t|];
        assert MatchesAt(s, i + 1, t, cmp);
      }
      assert s == [s[0]] + s[1..];
    }
  }
}
