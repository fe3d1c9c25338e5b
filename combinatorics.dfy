/** Sequences without repeats, binomial coefficients, k-subset enumeration in
    the order of Python's `itertools.combinations`, and uniform sampling of
    positions as `random.sample` does it. Nothing here knows about cards. */
module Combinatorics {

  /** No element occurs twice (a Python tuple of distinct cards). */
  predicate Distinct<T(==)>(s: seq<T>) {
    forall i, j :: 0 <= i < j < |s| ==> s[i] != s[j]
  }

  /** The set of elements of a sequence (`set(s)` in Python). */
  function Elems<T>(s: seq<T>): set<T> {
    set x | x in s
  }

  lemma {:induction false} DistinctCardinality<T>(s: seq<T>)
    requires Distinct(s)
    ensures |Elems(s)| == |s|
  {
    if s != [] {
      assert Distinct(s[1..]);
      DistinctCardinality(s[1..]);
      assert Elems(s) == {s[0]} + Elems(s[1..]);
      assert s[0] !in Elems(s[1..]);
    }
  }

  lemma {:induction false} ElemsCardinality<T>(s: seq<T>)
    ensures |Elems(s)| <= |s|
  {
    if s != [] {
      ElemsCardinality(s[1..]);
      assert Elems(s) == {s[0]} + Elems(s[1..]);
    }
  }

  /** Pigeonhole: a repeat-free sequence drawn from the elements of `m` is no
      longer than `m`. */
  lemma DistinctWithin<T>(s: seq<T>, m: seq<T>)
    requires Distinct(s)
    requires forall x :: x in s ==> x in m
    ensures |s| <= |m|
  {
    DistinctCardinality(s);
    ElemsCardinality(m);
    assert Elems(s) <= Elems(m);
    SubsetCardinality(Elems(s), Elems(m));
  }

  lemma SubsetCardinality<T>(a: set<T>, b: set<T>)
    requires a <= b
    ensures |a| <= |b|
  {
    assert b == a + (b - a);
  }

  /** A sequence is what comes before position j, the element there and
      what comes after. */
  lemma SplitAt<T>(s: seq<T>, j: nat)
    requires j < |s|
    ensures s == s[..j] + [s[j]] + s[j + 1..]
  {
  }

  /** Removing the element at position j from a repeat-free sequence. */
  lemma RemoveAt<T>(s: seq<T>, j: nat)
    requires Distinct(s) && j < |s|
    ensures Distinct(s[..j] + s[j + 1..])
    ensures Elems(s[..j] + s[j + 1..]) == Elems(s) - {s[j]}
    ensures multiset(s) == multiset(s[..j] + s[j + 1..]) + multiset{s[j]}
  {
    var rest := s[..j] + s[j + 1..];
    assert s == s[..j] + [s[j]] + s[j + 1..];
    forall p | 0 <= p < |rest| ensures rest[p] == s[if p < j then p else p + 1] {
    }
    forall y | y in Elems(s) && y != s[j] ensures y in Elems(rest) {
      var m :| 0 <= m < |s| && s[m] == y;
      assert y == rest[if m < j then m else m - 1];
    }
  }

  /** Two repeat-free sequences over the same elements are permutations of
      each other. */
  lemma {:induction false} DistinctSameElems<T>(a: seq<T>, b: seq<T>)
    requires Distinct(a) && Distinct(b)
    requires Elems(a) == Elems(b)
    ensures multiset(a) == multiset(b)
    decreases |a|, 1
  {
    if a == [] {
      assert |Elems(b)| == 0;
      DistinctCardinality(b);
    } else {
      assert a[0] in Elems(b);
      var j :| 0 <= j < |b| && b[j] == a[0];
      DistinctSameElemsAt(a, b, j);
    }
  }

  /** The step of `DistinctSameElems`: the first element of `a` sits at
      position j of `b`; take it out of both. */
  lemma {:induction false} DistinctSameElemsAt<T>(a: seq<T>, b: seq<T>, j: nat)
    requires Distinct(a) && Distinct(b) && Elems(a) == Elems(b)
    requires a != [] && j < |b| && b[j] == a[0]
    ensures multiset(a) == multiset(b)
    decreases |a|, 0
  {
    var ra, rb := a[1..], b[..j] + b[j + 1..];
    RemoveFirst(a);
    RemoveAt(b, j);
    assert Elems(ra) == Elems(rb);
    DistinctSameElems(ra, rb);
  }

  lemma RemoveFirst<T>(s: seq<T>)
    requires Distinct(s) && s != []
    ensures Distinct(s[1..])
    ensures Elems(s[1..]) == Elems(s) - {s[0]}
    ensures multiset(s) == multiset(s[1..]) + multiset{s[0]}
  {
    assert s == [s[0]] + s[1..];
  }

  /** Appending an element not yet present keeps a sequence repeat-free. */
  lemma AppendFresh<T>(s: seq<T>, x: T)
    requires Distinct(s) && x !in Elems(s)
    ensures Distinct(s + [x]) && Elems(s + [x]) == Elems(s) + {x}
  {
  }

  /** `math.comb(n, k)`: the number of k-subsets of an n-set, 0 when k > n. */
  function Binom(n: nat, k: nat): (r: nat)
    ensures n < k ==> r == 0
    decreases n
  {
    if k == 0 then 1
    else if n == 0 then 0
    else Binom(n - 1, k - 1) + Binom(n - 1, k)
  }

  lemma {:induction false} BinomIsZero(n: nat, k: nat)
    ensures Binom(n, k) == 0 <==> n < k
    decreases n
  {
    if k != 0 && n != 0 {
      BinomIsZero(n - 1, k - 1);
      BinomIsZero(n - 1, k);
    }
  }

  lemma {:induction false} BinomOne(n: nat)
    ensures Binom(n, 1) == n
  {
    if n != 0 {
      BinomOne(n - 1);
    }
  }

  /** The absorption identity k * C(n, k) == n * C(n - 1, k - 1). */
  lemma {:induction false} BinomAbsorption(n: nat, k: nat)
    requires 1 <= k <= n
    ensures k * Binom(n, k) == n * Binom(n - 1, k - 1)
    decreases n
  {
    if k == 1 {
      BinomOne(n);
    } else if k == n {
      BinomDiagonal(n);
      BinomDiagonal(n - 1);
    } else {
      BinomAbsorption(n - 1, k);
      BinomAbsorption(n - 1, k - 1);
      AbsorptionStep(n, k, Binom(n - 1, k - 1), Binom(n - 1, k), Binom(n - 2, k - 2), Binom(n - 2, k - 1));
    }
  }

  /** The arithmetic of one Pascal step of the absorption identity, with the
      four neighbouring coefficients named a, b, c, d. */
  lemma AbsorptionStep(n: int, k: int, a: int, b: int, c: int, d: int)
    requires a == c + d
    requires k * b == (n - 1) * d
    requires (k - 1) * a == (n - 1) * c
    ensures k * (a + b) == n * a
  {
    Distribute(n - 1, c, d);
    Distribute(k, a, b);
    calc {
      k * (a + b);
      k * a + k * b;
      a + (k - 1) * a + (n - 1) * d;
      a + (n - 1) * c + (n - 1) * d;
      a + (n - 1) * a;
      n * a;
    }
  }

  lemma Distribute(x: int, y: int, z: int)
    ensures x * (y + z) == x * y + x * z
  {
  }

  lemma {:induction false} BinomDiagonal(n: nat)
    ensures Binom(n, n) == 1
  {
    if n != 0 {
      BinomDiagonal(n - 1);
      BinomIsZero(n - 1, n);
    }
  }

  /** 3 to the power e. */
  function Pow3(e: nat): nat {
    if e == 0 then 1 else 3 * Pow3(e - 1)
  }

  /** While k is at most a third of n, C(n, k) at least triples C(n - 1, k - 1). */
  lemma BinomTriples(n: nat, k: nat)
    requires 1 <= k && 3 * k <= n
    ensures Binom(n, k) >= 3 * Binom(n - 1, k - 1)
  {
    var b, p := Binom(n, k), Binom(n - 1, k - 1);
    BinomAbsorption(n, k);
    MulMonotone(3 * k, n, p);
    assert k * b >= k * (3 * p);
    CancelAtLeast(k, b, 3 * p);
  }

  /** C(n, k) >= 3^(k - 1) * (n - k + 1) while k is at most a third of n. */
  lemma {:induction false} BinomGrowth(n: nat, k: nat)
    requires 1 <= k && 3 * k <= n
    ensures Binom(n, k) >= Pow3(k - 1) * (n - k + 1)
    decreases k
  {
    if k == 1 {
      BinomOne(n);
    } else {
      BinomGrowth(n - 1, k - 1);
      BinomTriples(n, k);
      var m := n - k + 1;
      MulAssociates(3, Pow3(k - 2), m);
    }
  }

  lemma MulMonotone(a: int, b: int, c: int)
    requires a <= b && c >= 0
    ensures a * c <= b * c
  {
  }

  lemma MulAssociates(a: int, b: int, c: int)
    ensures (a * b) * c == a * (b * c)
  {
  }

  /** A positive factor cancels from an inequality. */
  lemma CancelAtLeast(k: int, x: int, y: int)
    requires k > 0 && k * x >= k * y
    ensures x >= y
  {
    Distribute(k, x, -y);
    MultipleSign(k, x - y);
  }

  /** A positive k times a nonzero d is at least k away from zero. */
  lemma MultipleSign(k: int, d: int)
    requires k > 0
    ensures d >= 1 ==> k * d >= k
    ensures d <= -1 ==> k * d <= -k
  {
  }

  lemma PowThreeEight()
    ensures Pow3(8) == 6561
  {
  }

  /** C(31, 9), the number of 9-card hands left once a 9-card hand is dealt
      from a 40-card deck, is more than 150000. (Stated for any n and k
      equal to 31 and 9, so that the verifier does not expand the literal
      recursion.) */
  lemma {:induction false} BinomThirtyOneNine(n: nat, k: nat)
    requires n == 31 && k == 9
    ensures Binom(n, k) >= 150903
  {
    assert Pow3(k - 1) == 6561 by {
      PowThreeEight();
    }
    assert Pow3(k - 1) * (n - k + 1) == 150903;
    BinomGrowth(n, k);
  }

  /** Every sequence of `ss` with `x` put in front. */
  function Prepend<T>(x: T, ss: seq<seq<T>>): (r: seq<seq<T>>)
    ensures |r| == |ss|
    ensures forall i :: 0 <= i < |ss| ==> r[i] == [x] + ss[i]
  {
    seq(|ss|, i requires 0 <= i < |ss| => [x] + ss[i])
  }

  /** `itertools.combinations(xs, k)`: every choice of k positions of `xs`, in
      lexicographic order of the positions, each rendered as the elements at
      those positions in their order in `xs`. */
  function Choose<T>(xs: seq<T>, k: nat): (r: seq<seq<T>>)
    ensures |r| == Binom(|xs|, k)
    decreases |xs|
  {
    if k == 0 then [[]]
    else if |xs| == 0 then []
    else Prepend(xs[0], Choose(xs[1..], k - 1)) + Choose(xs[1..], k)
  }

  /** A combination either starts with the first element (`head`) or skips
      it. */
  lemma ChooseCases<T>(xs: seq<T>, k: nat, c: seq<T>) returns (head: bool)
    requires k != 0 && |xs| != 0 && c in Choose(xs, k)
    ensures head ==> c != [] && c[0] == xs[0] && c[1..] in Choose(xs[1..], k - 1)
    ensures !head ==> c in Choose(xs[1..], k)
  {
    var with := Choose(xs[1..], k - 1);
    head := c !in Choose(xs[1..], k);
    if head {
      var i :| 0 <= i < |with| && c == Prepend(xs[0], with)[i];
      assert c[1..] == with[i];
    }
  }

  /** One enumerated combination has k elements, all taken from `xs`. */
  lemma {:induction false} ChooseMember<T>(xs: seq<T>, k: nat, c: seq<T>)
    requires c in Choose(xs, k)
    ensures |c| == k && forall x :: x in c ==> x in xs
    decreases |xs|, 1
  {
    if k != 0 && |xs| != 0 {
      var head := ChooseCases(xs, k, c);
      if head {
        ChooseMemberHead(xs, k, c);
      } else {
        ChooseMember(xs[1..], k, c);
        TailWithin(xs, c);
      }
    }
  }

  /** A combination starting with the first element has k elements from `xs`. */
  lemma {:induction false} ChooseMemberHead<T>(xs: seq<T>, k: nat, c: seq<T>)
    requires xs != [] && k != 0
    requires c != [] && c[0] == xs[0] && c[1..] in Choose(xs[1..], k - 1)
    ensures |c| == k && forall x :: x in c ==> x in xs
    decreases |xs|, 0
  {
    ChooseMember(xs[1..], k - 1, c[1..]);
    HeadWithin(xs, c);
  }

  lemma TailWithin<T>(xs: seq<T>, c: seq<T>)
    requires xs != [] && forall x :: x in c ==> x in xs[1..]
    ensures forall x :: x in c ==> x in xs
  {
  }

  lemma HeadWithin<T>(xs: seq<T>, c: seq<T>)
    requires xs != [] && c != [] && c[0] == xs[0]
    requires forall x :: x in c[1..] ==> x in xs[1..]
    ensures forall x :: x in c ==> x in xs
  {
    assert c == [c[0]] + c[1..];
  }

  /** Every enumerated combination has k elements, all taken from `xs`. */
  lemma ChooseMembers<T>(xs: seq<T>, k: nat)
    ensures forall c :: c in Choose(xs, k) ==> |c| == k && forall x :: x in c ==> x in xs
  {
    forall c | c in Choose(xs, k) ensures |c| == k && forall x :: x in c ==> x in xs {
      ChooseMember(xs, k, c);
    }
  }

  /** One combination of a repeat-free sequence is repeat-free. */
  lemma {:induction false} ChooseDistinctMember<T>(xs: seq<T>, k: nat, c: seq<T>)
    requires Distinct(xs) && c in Choose(xs, k)
    ensures Distinct(c)
    decreases |xs|, 1
  {
    if k == 0 || |xs| == 0 {
      ChooseBase(xs, k, c);
    } else {
      var head := ChooseCases(xs, k, c);
      if head {
        ChooseDistinctHead(xs, k, c);
      } else {
        DistinctTail(xs);
        ChooseDistinctMember(xs[1..], k, c);
      }
    }
  }

  /** A combination starting with the first element is repeat-free. */
  lemma {:induction false} ChooseDistinctHead<T>(xs: seq<T>, k: nat, c: seq<T>)
    requires Distinct(xs) && xs != [] && k != 0
    requires c != [] && c[0] == xs[0] && c[1..] in Choose(xs[1..], k - 1)
    ensures Distinct(c)
    decreases |xs|, 0
  {
    DistinctTail(xs);
    ChooseDistinctMember(xs[1..], k - 1, c[1..]);
    ChooseMember(xs[1..], k - 1, c[1..]);
    HeadDistinct(xs, c);
  }

  /** With nothing left to choose, or nothing to choose from, the only
      combination is the empty one. */
  lemma ChooseBase<T>(xs: seq<T>, k: nat, c: seq<T>)
    requires (k == 0 || |xs| == 0) && c in Choose(xs, k)
    ensures c == [] && k == 0
  {
  }

  lemma DistinctTail<T>(xs: seq<T>)
    requires Distinct(xs) && xs != []
    ensures Distinct(xs[1..])
  {
  }

  lemma HeadDistinct<T>(xs: seq<T>, c: seq<T>)
    requires Distinct(xs) && xs != [] && c != [] && c[0] == xs[0]
    requires Distinct(c[1..]) && forall x :: x in c[1..] ==> x in xs[1..]
    ensures Distinct(c)
  {
    HeadTail(xs);
    ConsDistinct(c[0], c[1..]);
    assert c == [c[0]] + c[1..];
  }

  /** Putting a new element in front of a repeat-free sequence. */
  lemma ConsDistinct<T>(x: T, s: seq<T>)
    requires Distinct(s) && x !in s
    ensures Distinct([x] + s)
  {
  }

  /** The chosen combinations of a repeat-free sequence are repeat-free. */
  lemma ChooseDistinct<T>(xs: seq<T>, k: nat)
    requires Distinct(xs)
    ensures forall c :: c in Choose(xs, k) ==> Distinct(c)
  {
    forall c | c in Choose(xs, k) ensures Distinct(c) {
      ChooseDistinctMember(xs, k, c);
    }
  }

  /** How many of `hands` hold exactly the elements `s`. */
  function Occurrences<T>(hands: seq<seq<T>>, s: set<T>): (r: nat)
    ensures r <= |hands|
  {
    if hands == [] then 0
    else (if Elems(hands[0]) == s then 1 else 0) + Occurrences(hands[1..], s)
  }

  lemma {:induction false} OccurrencesAppend<T>(a: seq<seq<T>>, b: seq<seq<T>>, s: set<T>)
    ensures Occurrences(a + b, s) == Occurrences(a, s) + Occurrences(b, s)
  {
    if a == [] {
      assert a + b == b;
    } else {
      assert (a + b)[0] == a[0];
      assert (a + b)[1..] == a[1..] + b;
      OccurrencesAppend(a[1..], b, s);
    }
  }

  lemma {:induction false} OccurrencesAbsent<T>(hands: seq<seq<T>>, s: set<T>)
    requires forall c :: c in hands ==> Elems(c) != s
    ensures Occurrences(hands, s) == 0
  {
    if hands != [] {
      OccurrencesAbsent(hands[1..], s);
    }
  }

  lemma {:induction false} OccurrencesPrepend<T>(x: T, hands: seq<seq<T>>, s: set<T>)
    requires forall c :: c in hands ==> x !in c
    ensures Occurrences(Prepend(x, hands), s) == if x in s then Occurrences(hands, s - {x}) else 0
  {
    if hands != [] {
      assert Prepend(x, hands)[1..] == Prepend(x, hands[1..]);
      OccurrencesPrepend(x, hands[1..], s);
      var c := hands[0];
      assert Elems([x] + c) == {x} + Elems(c);
      assert x !in Elems(c);
    }
  }

  /** Splitting a repeat-free sequence into its head and its tail. */
  lemma HeadTail<T>(xs: seq<T>)
    requires Distinct(xs) && xs != []
    ensures Distinct(xs[1..]) && xs[0] !in xs[1..]
    ensures Elems(xs) == {xs[0]} + Elems(xs[1..])
  {
  }

  lemma SubsetWithoutHead<T>(x: T, e: set<T>, s: set<T>)
    requires x !in s
    ensures s <= {x} + e <==> s <= e
  {
  }

  lemma SubsetWithHead<T>(x: T, e: set<T>, s: set<T>, k: nat)
    requires x !in e && x in s && k > 0
    ensures (s <= {x} + e && |s| == k) <==> (s - {x} <= e && |s - {x}| == k - 1)
  {
    assert |s - {x}| == |s| - 1;
  }

  /** No combination of `xs` holds an element that `xs` lacks. */
  lemma ChooseAvoids<T>(xs: seq<T>, k: nat, x: T)
    requires x !in xs
    ensures forall c :: c in Choose(xs, k) ==> x !in c && x !in Elems(c)
  {
    ChooseMembers(xs, k);
  }

  /** Counting the combinations of a repeat-free sequence that hold exactly
      `s`: those that start with the head hold it when the rest holds `s`
      without the head, and those that skip the head only when they hold all
      of `s`. */
  lemma ChooseSplitCount<T>(xs: seq<T>, k: nat, s: set<T>)
    requires Distinct(xs) && xs != [] && k != 0
    ensures Occurrences(Choose(xs, k), s)
         == if xs[0] in s then Occurrences(Choose(xs[1..], k - 1), s - {xs[0]})
            else Occurrences(Choose(xs[1..], k), s)
  {
    var x, tail := xs[0], xs[1..];
    HeadTail(xs);
    var with, without := Choose(tail, k - 1), Choose(tail, k);
    ChooseAvoids(tail, k - 1, x);
    ChooseAvoids(tail, k, x);
    OccurrencesAppend(Prepend(x, with), without, s);
    OccurrencesPrepend(x, with, s);
    if x in s {
      OccurrencesAbsent(without, s);
    }
  }

  /** Each k-subset of a repeat-free sequence is enumerated exactly once by
      `Choose`, and nothing else is. */
  lemma {:induction false} ChooseExactlyOnce<T>(xs: seq<T>, k: nat, s: set<T>)
    requires Distinct(xs)
    ensures Occurrences(Choose(xs, k), s) == if s <= Elems(xs) && |s| == k then 1 else 0
    decreases |xs|
  {
    if k == 0 {
      ChooseNothing(xs, s);
    } else if |xs| == 0 {
      assert Elems(xs) == {};
    } else if xs[0] in s {
      HeadTail(xs);
      ChooseExactlyOnce(xs[1..], k - 1, s - {xs[0]});
      ChooseWithHead(xs, k, s);
    } else {
      HeadTail(xs);
      ChooseExactlyOnce(xs[1..], k, s);
      ChooseWithoutHead(xs, k, s);
    }
  }

  /** A set holding the first element occurs as often as the rest of it
      occurs among the smaller combinations of the tail. */
  lemma ChooseWithHead<T>(xs: seq<T>, k: nat, s: set<T>)
    requires Distinct(xs) && xs != [] && k != 0 && xs[0] in s
    requires Occurrences(Choose(xs[1..], k - 1), s - {xs[0]})
          == if s - {xs[0]} <= Elems(xs[1..]) && |s - {xs[0]}| == k - 1 then 1 else 0
    ensures Occurrences(Choose(xs, k), s) == if s <= Elems(xs) && |s| == k then 1 else 0
  {
    var x, tail := xs[0], xs[1..];
    HeadTail(xs);
    ChooseSplitCount(xs, k, s);
    SubsetWithHead(x, Elems(tail), s, k);
  }

  /** A set without the first element occurs as often as among the
      combinations of the tail. */
  lemma ChooseWithoutHead<T>(xs: seq<T>, k: nat, s: set<T>)
    requires Distinct(xs) && xs != [] && k != 0 && xs[0] !in s
    requires Occurrences(Choose(xs[1..], k), s) == if s <= Elems(xs[1..]) && |s| == k then 1 else 0
    ensures Occurrences(Choose(xs, k), s) == if s <= Elems(xs) && |s| == k then 1 else 0
  {
    var x, tail := xs[0], xs[1..];
    HeadTail(xs);
    ChooseSplitCount(xs, k, s);
    SubsetWithoutHead(x, Elems(tail), s);
  }

  /** Choosing nothing enumerates the empty combination alone. */
  lemma ChooseNothing<T>(xs: seq<T>, s: set<T>)
    ensures Occurrences(Choose(xs, 0), s) == if s <= Elems(xs) && |s| == 0 then 1 else 0
  {
    var empty: seq<T> := [];
    assert Choose(xs, 0) == [empty];
    assert Elems(empty) == {};
    assert Occurrences([empty], s) == if Elems(empty) == s then 1 else 0;
    assert |s| == 0 <==> s == {};
  }

  /** The sets of elements the hands hold, each counted as often as a hand
      holds it. */
  function SetsOf<T>(hands: seq<seq<T>>): (r: multiset<set<T>>)
    ensures |r| == |hands|
  {
    if hands == [] then multiset{}
    else SetsOf(hands[..|hands| - 1]) + multiset{Elems(hands[|hands| - 1])}
  }

  lemma {:induction false} SetsOfOccurrences<T>(hands: seq<seq<T>>, s: set<T>)
    ensures SetsOf(hands)[s] == Occurrences(hands, s)
  {
    if hands != [] {
      var front, last := hands[..|hands| - 1], hands[|hands| - 1];
      assert hands == front + [last];
      SetsOfOccurrences(front, s);
      OccurrencesAppend(front, [last], s);
      assert [last][1..] == [];
    }
  }

  lemma {:induction false} SetsOfAppend<T>(a: seq<seq<T>>, b: seq<seq<T>>)
    ensures SetsOf(a + b) == SetsOf(a) + SetsOf(b)
  {
    if b != [] {
      var front := b[..|b| - 1];
      assert (a + b)[..|a + b| - 1] == a + front;
      SetsOfAppend(a, front);
    } else {
      assert a + b == a;
    }
  }

  /** Taking out the hand at position j takes out one copy of its set. */
  lemma SetsOfRemoveAt<T>(hands: seq<seq<T>>, j: nat)
    requires j < |hands|
    ensures SetsOf(hands) == SetsOf(hands[..j] + hands[j + 1..]) + multiset{Elems(hands[j])}
  {
    SplitAt(hands, j);
    SetsOfAppend(hands[..j] + [hands[j]], hands[j + 1..]);
    SetsOfAppend(hands[..j], [hands[j]]);
    SetsOfAppend(hands[..j], hands[j + 1..]);
    assert [hands[j]][..0] == [];
  }

  /** Taking the last hand from one list and a hand with the same set from
      another keeps their sets equal. */
  lemma SetsOfMatch<T>(a: seq<seq<T>>, b: seq<seq<T>>, j: nat)
    requires SetsOf(a) == SetsOf(b) && a != [] && j < |b|
    requires Elems(b[j]) == Elems(a[|a| - 1])
    ensures SetsOf(a[..|a| - 1]) == SetsOf(b[..j] + b[j + 1..])
  {
    SetsOfRemoveAt(b, j);
    assert SetsOf(a) == SetsOf(a[..|a| - 1]) + multiset{Elems(a[|a| - 1])};
    CancelOne(SetsOf(a[..|a| - 1]), SetsOf(b[..j] + b[j + 1..]), Elems(b[j]));
  }

  lemma CancelOne<T>(m: multiset<T>, n: multiset<T>, x: T)
    requires m + multiset{x} == n + multiset{x}
    ensures m == n
  {
    assert m == (m + multiset{x}) - multiset{x};
  }

  /** A set counted among the hands is held by one of them. */
  lemma {:induction false} SetsOfMember<T>(hands: seq<seq<T>>, s: set<T>) returns (j: nat)
    requires s in SetsOf(hands)
    ensures j < |hands| && Elems(hands[j]) == s
  {
    var front := hands[..|hands| - 1];
    if s == Elems(hands[|hands| - 1]) {
      j := |hands| - 1;
    } else {
      j := SetsOfMember(front, s);
    }
  }

  /** Two orders of the same repeat-free elements give the same k-subsets,
      each once. */
  lemma ChooseSameSets<T>(a: seq<T>, c: seq<T>, k: nat)
    requires Distinct(a) && Distinct(c) && Elems(a) == Elems(c)
    ensures SetsOf(Choose(a, k)) == SetsOf(Choose(c, k))
  {
    var fromA, fromC := SetsOf(Choose(a, k)), SetsOf(Choose(c, k));
    forall s ensures fromA[s] == fromC[s] {
      ChooseSameSet(a, c, k, s);
    }
    SameCounts(fromA, fromC);
  }

  lemma SameCounts<T>(m: multiset<T>, n: multiset<T>)
    requires forall x :: m[x] == n[x]
    ensures m == n
  {
  }

  lemma ChooseSameSet<T>(a: seq<T>, c: seq<T>, k: nat, s: set<T>)
    requires Distinct(a) && Distinct(c) && Elems(a) == Elems(c)
    ensures SetsOf(Choose(a, k))[s] == SetsOf(Choose(c, k))[s]
  {
    SetsOfOccurrences(Choose(a, k), s);
    SetsOfOccurrences(Choose(c, k), s);
    ChooseExactlyOnce(a, k, s);
    ChooseExactlyOnce(c, k, s);
  }

  /** The positions `random.sample(range(n), k)` may return: k distinct
      positions below n. */
  predicate IsSample(positions: seq<nat>, n: nat, k: nat) {
    |positions| == k && Distinct(positions) && forall i :: 0 <= i < |positions| ==> positions[i] < n
  }

  /** The elements of `xs` at the given positions, in the order given. A
      sample of distinct positions takes no element more often than `xs`
      holds it, and a sample of a repeat-free `xs` is repeat-free. */
  function Pick<T>(xs: seq<T>, positions: seq<nat>): (r: seq<T>)
    requires forall i :: 0 <= i < |positions| ==> positions[i] < |xs|
    ensures |r| == |positions|
    ensures forall i :: 0 <= i < |positions| ==> r[i] == xs[positions[i]]
    ensures Distinct(positions) ==> multiset(r) <= multiset(xs)
    ensures Distinct(xs) && Distinct(positions) ==> Distinct(r)
  {
    var r := seq(|positions|, i requires 0 <= i < |positions| => xs[positions[i]]);
    SelectionSubMultiset(xs, positions, r);
    r
  }

  /** Dropping the draw of the last element leaves a selection from the
      elements before it. */
  lemma SelectionDropLast<T>(xs: seq<T>, positions: seq<nat>, r: seq<T>, j: nat,
                             front: seq<T>, rest: seq<nat>, kept: seq<T>)
    requires forall i :: 0 <= i < |positions| ==> positions[i] < |xs|
    requires |r| == |positions| && forall i :: 0 <= i < |r| ==> r[i] == xs[positions[i]]
    requires Distinct(positions) && j < |positions| && positions[j] == |xs| - 1
    requires front == xs[..|xs| - 1]
    requires rest == positions[..j] + positions[j + 1..] && kept == r[..j] + r[j + 1..]
    ensures Distinct(rest) && |kept| == |rest|
    ensures forall i :: 0 <= i < |rest| ==> rest[i] < |front| && kept[i] == front[rest[i]]
  {
    RemoveAt(positions, j);
    forall i | 0 <= i < |rest| ensures rest[i] < |front| && kept[i] == front[rest[i]] {
      assert rest[i] in Elems(rest);
      if i < j {
        assert kept[i] == r[i] && rest[i] == positions[i];
      } else {
        assert kept[i] == r[i + 1] && rest[i] == positions[i + 1];
      }
    }
  }

  /** Elements taken at distinct positions of `xs` form a sub-collection of
      `xs`. */
  lemma {:induction false} SelectionSubMultiset<T>(xs: seq<T>, positions: seq<nat>, r: seq<T>)
    requires forall i :: 0 <= i < |positions| ==> positions[i] < |xs|
    requires |r| == |positions| && forall i :: 0 <= i < |r| ==> r[i] == xs[positions[i]]
    ensures Distinct(positions) ==> multiset(r) <= multiset(xs)
    decreases |xs|
  {
    if Distinct(positions) && positions != [] {
      assert positions[0] < |xs|;
      var n := |xs| - 1;
      var front := xs[..n];
      assert xs == front + [xs[n]];
      if j :| 0 <= j < |positions| && positions[j] == n {
        var rest, kept := positions[..j] + positions[j + 1..], r[..j] + r[j + 1..];
        SelectionDropLast(xs, positions, r, j, front, rest, kept);
        SelectionSubMultiset(front, rest, kept);
        SplitAt(r, j);
      } else {
        forall i | 0 <= i < |r| ensures positions[i] < n && r[i] == front[positions[i]] {
          assert positions[i] != n;
        }
        SelectionSubMultiset(front, positions, r);
      }
    }
  }
}
