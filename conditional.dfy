/** `calcular_probabilidad_condicional`: how often a 9-card hand of the cards
    left after dealing the base hand scores strictly more than the base hand,
    counted over every such hand or over random samples of them. */
module Conditional {
  import opened Outcomes
  import opened Combinatorics
  import opened Cards

  /** The default `max_muestras`. */
  const MaxSamples: nat := 10000

  /** A probability as the source computes it before dividing: the hands
      that beat the base hand out of the hands examined. */
  datatype Estimate = Estimate(hits: nat, examined: nat)

  /** A count that can be turned into a probability. */
  predicate Sound(e: Estimate) {
    e.examined > 0 && e.hits <= e.examined
  }

  /** The ratio `hits / examined`, as a real number. */
  function Value(e: Estimate): (p: real)
    requires Sound(e)
    ensures 0.0 <= p <= 1.0
    ensures p == 0.0 <==> e.hits == 0
    ensures p == 1.0 <==> e.hits == e.examined
  {
    var p := e.hits as real / e.examined as real;
    assert p * e.examined as real == e.hits as real;
    p
  }

  /** How many of `hands` score strictly more than `base`. */
  function CountAbove(w: Weights, hands: seq<Hand>, base: int): (r: nat)
    requires AllWeighted(w, hands)
    ensures r <= |hands|
  {
    if hands == [] then 0
    else
      var front, last := hands[..|hands| - 1], hands[|hands| - 1];
      assert forall h :: h in front ==> h in hands;
      CountAbove(w, front, base) + if Score(w, last) > base then 1 else 0
  }

  /** How many of `hands` score exactly `base`. */
  function CountEqual(w: Weights, hands: seq<Hand>, base: int): nat
    requires AllWeighted(w, hands)
  {
    if hands == [] then 0
    else
      var front, last := hands[..|hands| - 1], hands[|hands| - 1];
      assert forall h :: h in front ==> h in hands;
      CountEqual(w, front, base) + if Score(w, last) == base then 1 else 0
  }

  /** No hand is counted exactly when none scores more than the base. */
  lemma {:induction false} CountAboveZero(w: Weights, hands: seq<Hand>, base: int)
    requires AllWeighted(w, hands)
    ensures CountAbove(w, hands, base) == 0 <==> forall h :: h in hands ==> Score(w, h) <= base
  {
    if hands != [] {
      var front, last := hands[..|hands| - 1], hands[|hands| - 1];
      assert hands == front + [last];
      assert forall h :: h in hands <==> h in front || h == last;
      CountAboveZero(w, front, base);
      assert CountAbove(w, hands, base) == CountAbove(w, front, base) + if Score(w, last) > base then 1 else 0;
    }
  }

  /** Every hand is counted exactly when all score more than the base. */
  lemma {:induction false} CountAboveAll(w: Weights, hands: seq<Hand>, base: int)
    requires AllWeighted(w, hands)
    ensures CountAbove(w, hands, base) == |hands| <==> forall h :: h in hands ==> Score(w, h) > base
  {
    if hands != [] {
      var front, last := hands[..|hands| - 1], hands[|hands| - 1];
      assert hands == front + [last];
      assert forall h :: h in hands <==> h in front || h == last;
      CountAboveAll(w, front, base);
      assert CountAbove(w, hands, base) == CountAbove(w, front, base) + if Score(w, last) > base then 1 else 0;
    }
  }

  /** Ties are not counted: lowering the base by one adds exactly the hands
      that score the base itself. */
  lemma {:induction false} TiesNotCounted(w: Weights, hands: seq<Hand>, base: int)
    requires AllWeighted(w, hands)
    ensures CountAbove(w, hands, base - 1) == CountAbove(w, hands, base) + CountEqual(w, hands, base)
  {
    if hands != [] {
      var front := hands[..|hands| - 1];
      assert forall h :: h in front ==> h in hands;
      TiesNotCounted(w, front, base);
    }
  }

  /** A higher base hand is beaten by no more hands. */
  lemma {:induction false} CountAboveMonotone(w: Weights, hands: seq<Hand>, low: int, high: int)
    requires AllWeighted(w, hands) && low <= high
    ensures CountAbove(w, hands, high) <= CountAbove(w, hands, low)
  {
    if hands != [] {
      var front := hands[..|hands| - 1];
      assert forall h :: h in front ==> h in hands;
      CountAboveMonotone(w, front, low, high);
    }
  }

  lemma {:induction false} CountAboveAppend(w: Weights, a: seq<Hand>, b: seq<Hand>, base: int)
    requires AllWeighted(w, a) && AllWeighted(w, b)
    ensures AllWeighted(w, a + b)
    ensures CountAbove(w, a + b, base) == CountAbove(w, a, base) + CountAbove(w, b, base)
  {
    if b != [] {
      var front := b[..|b| - 1];
      assert (a + b)[..|a + b| - 1] == a + front;
      assert forall h :: h in front ==> h in b;
      CountAboveAppend(w, a, front, base);
    } else {
      assert a + b == a;
    }
  }

  /** Taking out the hand at position j takes out its hit, if it is one. */
  lemma CountAboveRemoveAt(w: Weights, hands: seq<Hand>, j: nat, base: int)
    requires AllWeighted(w, hands) && j < |hands|
    ensures forall h :: h in hands[..j] + hands[j + 1..] ==> h in hands
    ensures AllWeighted(w, hands[..j] + hands[j + 1..])
    ensures CountAbove(w, hands, base)
         == CountAbove(w, hands[..j] + hands[j + 1..], base) + if Score(w, hands[j]) > base then 1 else 0
  {
    var before, h, after := hands[..j], hands[j], hands[j + 1..];
    SplitAt(hands, j);
    assert forall x :: x in before + after ==> x in hands;
    CountAboveAppend(w, before + [h], after, base);
    CountAboveAppend(w, before, [h], base);
    CountAboveAppend(w, before, after, base);
    assert [h][..0] == [];
  }

  /** Two lists of repeat-free hands that hold the same sets of cards, each
      as often, have as many hands that beat the base. */
  lemma {:induction false} CountAboveSameSets(w: Weights, a: seq<Hand>, b: seq<Hand>, base: int)
    requires AllWeighted(w, a) && AllWeighted(w, b)
    requires forall h :: h in a ==> Distinct(h)
    requires forall h :: h in b ==> Distinct(h)
    requires SetsOf(a) == SetsOf(b)
    ensures CountAbove(w, a, base) == CountAbove(w, b, base)
    decreases |a|
  {
    if a != [] {
      var front, last := a[..|a| - 1], a[|a| - 1];
      assert Elems(last) in SetsOf(a);
      var j := SetsOfMember(b, Elems(last));
      var rest := b[..j] + b[j + 1..];
      SetsOfMatch(a, b, j);
      assert b[j] in b;
      ScoreOfSameCards(w, last, b[j]);
      CountAboveRemoveAt(w, b, j, base);
      assert forall h :: h in front ==> h in a;
      CountAboveSameSets(w, front, rest, base);
      assert CountAbove(w, a, base) == CountAbove(w, front, base) + if Score(w, last) > base then 1 else 0;
    }
  }

  /** The hands of k cards of two orders of the same distinct cards have as
      many that beat the base: the exhaustive count does not depend on the
      order in which the remaining cards are listed. */
  lemma ChooseCountOrderFree(w: Weights, a: seq<Card>, c: seq<Card>, k: nat, base: int)
    requires Weighted(w, a) && Distinct(a) && Distinct(c) && Elems(a) == Elems(c)
    ensures AllWeighted(w, Choose(a, k)) && AllWeighted(w, Choose(c, k))
    ensures CountAbove(w, Choose(a, k), base) == CountAbove(w, Choose(c, k), base)
  {
    ChooseMembers(a, k);
    ChooseMembers(c, k);
    ChooseDistinct(a, k);
    ChooseDistinct(c, k);
    forall x | x in c ensures x in a {
      assert x in Elems(c);
    }
    ChooseSameSets(a, c, k);
    CountAboveSameSets(w, Choose(a, k), Choose(c, k), base);
  }

  /** The hands the random draws pick out of the remaining cards: each draw
      is the 9 positions `random.sample` chose, so each hand is 9 of the
      remaining cards, distinct when the remaining cards are. */
  function Samples(rest: seq<Card>, draws: seq<seq<nat>>): (r: seq<Hand>)
    requires forall k :: 0 <= k < |draws| ==> IsSample(draws[k], |rest|, HandSize)
    ensures |r| == |draws|
    ensures forall k :: 0 <= k < |draws| ==> (SampleInRange(draws[k], |rest|); r[k] == Pick(rest, draws[k]))
    ensures forall h :: h in r ==> |h| == HandSize && forall c :: c in h ==> c in rest
    ensures Distinct(rest) ==> forall h :: h in r ==> Distinct(h)
  {
    var r := seq(|draws|, k requires 0 <= k < |draws| => SampleInRange(draws[k], |rest|); Pick(rest, draws[k]));
    SampledFrom(rest, draws, r);
    r
  }

  /** Hands picked by samples of 9 positions are 9 of the cards sampled
      from. */
  lemma SampledFrom(rest: seq<Card>, draws: seq<seq<nat>>, r: seq<Hand>)
    requires forall k :: 0 <= k < |draws| ==> IsSample(draws[k], |rest|, HandSize)
    requires |r| == |draws|
    requires forall k :: 0 <= k < |draws| ==> (SampleInRange(draws[k], |rest|); r[k] == Pick(rest, draws[k]))
    ensures forall h :: h in r ==> |h| == HandSize && forall c :: c in h ==> c in rest
    ensures Distinct(rest) ==> forall h :: h in r ==> Distinct(h)
  {
    forall h | h in r ensures |h| == HandSize && (forall c :: c in h ==> c in rest) && (Distinct(rest) ==> Distinct(h)) {
      var k :| 0 <= k < |r| && r[k] == h;
      SampleInRange(draws[k], |rest|);
      forall c | c in h ensures c in rest {
        var i :| 0 <= i < |h| && h[i] == c;
      }
    }
  }

  lemma SampleInRange(positions: seq<nat>, n: nat)
    requires IsSample(positions, n, HandSize)
    ensures forall i :: 0 <= i < |positions| ==> positions[i] < n
  {
  }

  /** The draws the sampling branch needs: `max` draws of 9 distinct
      positions among the n remaining cards. */
  predicate SamplesFit(draws: seq<seq<nat>>, n: nat, max: nat) {
    |draws| == max && forall k :: 0 <= k < |draws| ==> IsSample(draws[k], n, HandSize)
  }

  /** What `calcular_probabilidad_condicional(base, deck, max)` computes:
      with more possible hands than `max`, the share of the `max` sampled
      hands that beat the base hand; otherwise the share of all possible
      hands. A division by zero is an error. */
  function ConditionalSpec(w: Weights, deck: seq<Card>, base: Hand, max: nat, draws: seq<seq<nat>>): (r: Result<Estimate>)
    requires Weighted(w, deck) && Weighted(w, base) && Distinct(deck)
    requires Binom(|Remaining(deck, base)|, HandSize) > max ==> SamplesFit(draws, |Remaining(deck, base)|, max)
    ensures r.Success? ==> Sound(r.value)
    ensures r.Failure? ==> r.error == ZeroDivisionError
  {
    var rest := Remaining(deck, base);
    var points := Score(w, base);
    var total := Binom(|rest|, HandSize);
    if total > max then
      if max == 0 then Failure(ZeroDivisionError)
      else
        var samples := Samples(rest, draws);
        SampledWeighted(w, rest, draws);
        Success(Estimate(CountAbove(w, samples, points), max))
    else if total == 0 then Failure(ZeroDivisionError)
    else
      ChooseMembers(rest, HandSize);
      Success(Estimate(CountAbove(w, Choose(rest, HandSize), points), total))
  }

  lemma SampledWeighted(w: Weights, rest: seq<Card>, draws: seq<seq<nat>>)
    requires Weighted(w, rest)
    requires forall k :: 0 <= k < |draws| ==> IsSample(draws[k], |rest|, HandSize)
    ensures AllWeighted(w, Samples(rest, draws))
  {
    var r := Samples(rest, draws);
    forall h | h in r ensures Weighted(w, h) {
      var k :| 0 <= k < |r| && r[k] == h;
    }
  }

  /** The count fails exactly when it would divide by zero: no samples asked
      for, or fewer than 9 cards left so that no hand can be dealt. */
  lemma ConditionalFails(w: Weights, deck: seq<Card>, base: Hand, max: nat, draws: seq<seq<nat>>)
    requires Weighted(w, deck) && Weighted(w, base) && Distinct(deck)
    requires Binom(|Remaining(deck, base)|, HandSize) > max ==> SamplesFit(draws, |Remaining(deck, base)|, max)
    ensures ConditionalSpec(w, deck, base, max, draws).Failure? <==> max == 0 || |Remaining(deck, base)| < HandSize
    ensures ConditionalSpec(w, deck, base, max, draws).Failure? ==>
      ConditionalSpec(w, deck, base, max, draws).error == ZeroDivisionError
  {
    BinomIsZero(|Remaining(deck, base)|, HandSize);
  }

  /** A successful count examined `max` samples when there were more than
      `max` possible hands and every possible hand otherwise, and found at
      most as many better hands as it examined. */
  lemma ConditionalExamined(w: Weights, deck: seq<Card>, base: Hand, max: nat, draws: seq<seq<nat>>)
    requires Weighted(w, deck) && Weighted(w, base) && Distinct(deck)
    requires Binom(|Remaining(deck, base)|, HandSize) > max ==> SamplesFit(draws, |Remaining(deck, base)|, max)
    requires ConditionalSpec(w, deck, base, max, draws).Success?
    ensures ConditionalSpec(w, deck, base, max, draws).value.hits <= ConditionalSpec(w, deck, base, max, draws).value.examined
    ensures ConditionalSpec(w, deck, base, max, draws).value.examined
         == if Binom(|Remaining(deck, base)|, HandSize) > max then max else Binom(|Remaining(deck, base)|, HandSize)
    ensures ConditionalSpec(w, deck, base, max, draws).value.examined > 0
  {
  }

  /** When no 9 distinct cards of the deck score more than `top`, a base
      hand scoring at least `top` is beaten by no counted hand, in either
      branch. */
  lemma ConditionalUnbeaten(w: Weights, deck: seq<Card>, base: Hand, max: nat, draws: seq<seq<nat>>, top: int)
    requires Weighted(w, deck) && Weighted(w, base) && Distinct(deck)
    requires Binom(|Remaining(deck, base)|, HandSize) > max ==> SamplesFit(draws, |Remaining(deck, base)|, max)
    requires HandsAtMost(w, deck, top)
    requires Score(w, base) >= top
    requires ConditionalSpec(w, deck, base, max, draws).Success?
    ensures ConditionalSpec(w, deck, base, max, draws).value.hits == 0
  {
    var rest := Remaining(deck, base);
    var points := Score(w, base);
    RemainingDistinct(deck, base);
    if Binom(|rest|, HandSize) > max {
      var samples := Samples(rest, draws);
      SampledWeighted(w, rest, draws);
      forall h | h in samples ensures Score(w, h) <= points {
        assert DealtFrom(h, deck);
      }
      CountAboveZero(w, samples, points);
    } else {
      var hands := Choose(rest, HandSize);
      ChooseMembers(rest, HandSize);
      ChooseDistinct(rest, HandSize);
      forall h | h in hands ensures Score(w, h) <= points {
        assert DealtFrom(h, deck);
      }
      CountAboveZero(w, hands, points);
    }
  }

  /** Python lists `set(deck) - set(base)` in no specified order. When every
      hand is counted, listing the remaining cards in any other order gives
      the estimate the deck order gives. */
  lemma ExhaustiveOrderFree(w: Weights, deck: seq<Card>, base: Hand, max: nat, draws: seq<seq<nat>>, other: seq<Card>)
    requires Weighted(w, deck) && Weighted(w, base) && Distinct(deck)
    requires Distinct(other) && Elems(other) == Elems(Remaining(deck, base))
    requires Binom(|Remaining(deck, base)|, HandSize) <= max
    ensures |other| == |Remaining(deck, base)|
    ensures AllWeighted(w, Choose(other, HandSize))
    ensures var total := Binom(|other|, HandSize);
      ConditionalSpec(w, deck, base, max, draws)
      == if total == 0 then Failure(ZeroDivisionError)
         else Success(Estimate(CountAbove(w, Choose(other, HandSize), Score(w, base)), total))
  {
    var rest := Remaining(deck, base);
    RemainingDistinct(deck, base);
    DistinctCardinality(rest);
    DistinctCardinality(other);
    ChooseCountOrderFree(w, rest, other, HandSize, Score(w, base));
  }

  /** With the real deck a 9-card base hand leaves 31 cards (`DealtFromDeck`),
      and C(31, 9), more than 150000, exceeds `max_muestras`: the sampling branch is
      taken and examines exactly 10000 hands. */
  lemma DeckSampling(base: Hand, draws: seq<seq<nat>>)
    requires Distinct(base) && |base| == HandSize && Weighted(Cartas, base)
    requires SamplesFit(draws, |Remaining(CardOrder, base)|, MaxSamples)
    ensures Weighted(Cartas, CardOrder) && Distinct(CardOrder)
    ensures Binom(|Remaining(CardOrder, base)|, HandSize) > MaxSamples
    ensures ConditionalSpec(Cartas, CardOrder, base, MaxSamples, draws).Success?
    ensures ConditionalSpec(Cartas, CardOrder, base, MaxSamples, draws).value.examined == MaxSamples
  {
    DealtFromDeck(base);
    BinomThirtyOneNine(|Remaining(CardOrder, base)|, HandSize);
    ConditionalFails(Cartas, CardOrder, base, MaxSamples, draws);
    ConditionalExamined(Cartas, CardOrder, base, MaxSamples, draws);
  }

  /** With the real deck, a base hand scoring 99, the most any 9 cards can
      score, is beaten by none of the sampled hands. */
  lemma DeckTopHandUnbeaten(base: Hand, draws: seq<seq<nat>>)
    requires Distinct(base) && |base| == HandSize && Weighted(Cartas, base)
    requires SamplesFit(draws, |Remaining(CardOrder, base)|, MaxSamples)
    requires Score(Cartas, base) == 99
    ensures Weighted(Cartas, CardOrder) && Distinct(CardOrder)
    ensures ConditionalSpec(Cartas, CardOrder, base, MaxSamples, draws) == Success(Estimate(0, MaxSamples))
  {
    DeckSampling(base, draws);
    DeckHandsAtMost();
    ConditionalUnbeaten(Cartas, CardOrder, base, MaxSamples, draws, 99);
    var r := ConditionalSpec(Cartas, CardOrder, base, MaxSamples, draws);
    assert r == Success(Estimate(r.value.hits, r.value.examined));
  }

  /** The counting loop: one more hit for every hand scoring strictly more
      than `base`. */
  method CountBeating(w: Weights, hands: seq<Hand>, base: int) returns (hits: nat)
    requires AllWeighted(w, hands)
    ensures hits == CountAbove(w, hands, base)
  {
    hits := 0;
    for k := 0 to |hands|
      invariant AllWeighted(w, hands[..k])
      invariant hits == CountAbove(w, hands[..k], base)
    {
      assert hands[..k + 1][..k] == hands[..k];
      if Score(w, hands[k]) > base {
        hits := hits + 1;
      }
    }
    assert hands[..|hands|] == hands;
  }

  /** `calcular_probabilidad_condicional(base, deck, max)`: counts, over the
      sampled hands or over every hand of the remaining cards, those that
      score strictly more than the base hand. */
  method ConditionalProbability(w: Weights, deck: seq<Card>, base: Hand, max: nat, draws: seq<seq<nat>>)
    returns (r: Result<Estimate>)
    requires Weighted(w, deck) && Weighted(w, base) && Distinct(deck)
    requires Binom(|Remaining(deck, base)|, HandSize) > max ==> SamplesFit(draws, |Remaining(deck, base)|, max)
    ensures r == ConditionalSpec(w, deck, base, max, draws)
  {
    var points := Score(w, base);
    var rest := Remaining(deck, base);
    var total := Binom(|rest|, HandSize);
    var hands: seq<Hand>;
    if total > max {
      hands := Samples(rest, draws);
      SampledWeighted(w, rest, draws);
    } else {
      hands := Choose(rest, HandSize);
      ChooseMembers(rest, HandSize);
    }
    var hits := CountBeating(w, hands, points);
    if total > max {
      if max == 0 {
        return Failure(ZeroDivisionError);
      }
      r := Success(Estimate(hits, max));
    } else if total == 0 {
      r := Failure(ZeroDivisionError);
    } else {
      r := Success(Estimate(hits, total));
    }
  }
}
