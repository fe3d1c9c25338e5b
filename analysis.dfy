/** `analizar_probabilidades`: the score groups walked in ascending order of
    score; for every kept hand the chance that a hand of the remaining cards
    beats it, with the hands and their probabilities kept side by side, and
    each group's mean, minimum and maximum. */
module Analysis {
  import opened Outcomes
  import opened Combinatorics
  import opened Cards
  import opened Grouping
  import opened Conditional
  import Labels

  /** The largest number of hands per group the analysis accepts. */
  const MaxCount: nat := 1000

  /** Strictly ascending. */
  predicate Increasing(s: seq<int>) {
    forall i, j :: 0 <= i < j < |s| ==> s[i] < s[j]
  }

  /** Puts a new key into an ascending list of keys. */
  function InsertKey(x: int, s: seq<int>): (r: seq<int>)
    requires Increasing(s) && x !in s
    ensures Increasing(r) && Elems(r) == Elems(s) + {x} && |r| == |s| + 1
  {
    if s == [] then [x]
    else if x < s[0] then [x] + s
    else
      var rest := InsertKey(x, s[1..]);
      KeyInFront(x, s, rest);
      [s[0]] + rest
  }

  /** The smallest key goes back in front of the others with the new key
      inserted among them. */
  lemma KeyInFront(x: int, s: seq<int>, rest: seq<int>)
    requires Increasing(s) && s != [] && s[0] < x
    requires Increasing(rest) && Elems(rest) == Elems(s[1..]) + {x}
    ensures Increasing([s[0]] + rest) && Elems([s[0]] + rest) == Elems(s) + {x}
  {
    assert Elems(s) == {s[0]} + Elems(s[1..]) by {
      assert s == [s[0]] + s[1..];
    }
    assert Elems([s[0]] + rest) == {s[0]} + Elems(rest);
    forall k | 0 <= k < |rest| ensures s[0] < rest[k] {
      assert rest[k] in Elems(rest);
    }
  }

  /** `sorted(keys)`: the keys of a dictionary, listed without repeats in
      `order`, in ascending order. */
  function SortKeys(order: seq<int>): (r: seq<int>)
    requires Distinct(order)
    ensures Increasing(r) && Elems(r) == Elems(order) && |r| == |order|
  {
    if order == [] then []
    else
      HeadTail(order);
      var rest := SortKeys(order[1..]);
      assert order[0] !in Elems(rest);
      InsertKey(order[0], rest)
  }

  /** An ascending list is fixed by its elements: sorting does not depend on
      the order in which the dictionary received its keys. */
  lemma {:induction false} IncreasingUnique(a: seq<int>, b: seq<int>)
    requires Increasing(a) && Increasing(b) && Elems(a) == Elems(b)
    ensures a == b
    decreases |a|
  {
    if b != [] {
      assert b[0] in Elems(b);
    }
    if a != [] {
      assert a[0] in Elems(a);
      assert a[0] in Elems(b) && b[0] in Elems(a);
      assert a[0] == b[0];
      var ta, tb := a[1..], b[1..];
      assert Elems(ta) == Elems(a) - {a[0]} by {
        assert a == [a[0]] + ta;
      }
      assert Elems(tb) == Elems(b) - {b[0]} by {
        assert b == [b[0]] + tb;
      }
      IncreasingUnique(ta, tb);
      assert a == [a[0]] + ta && b == [b[0]] + tb;
    }
  }

  /** Whatever order the dictionary received its keys in, the analysis walks
      them in the same order. */
  lemma SortKeysCanonical(a: seq<int>, b: seq<int>)
    requires Distinct(a) && Distinct(b) && Elems(a) == Elems(b)
    ensures SortKeys(a) == SortKeys(b)
  {
    IncreasingUnique(SortKeys(a), SortKeys(b));
  }

  function Sum(s: seq<real>): real {
    if s == [] then 0.0 else s[0] + Sum(s[1..])
  }

  /** `np.mean`: it lies between the minimum and the maximum. */
  function Mean(s: seq<real>): (m: real)
    requires s != []
    ensures Minimum(s) <= m <= Maximum(s)
  {
    SumBetween(s);
    Sum(s) / |s| as real
  }

  /** `np.min`. */
  function Minimum(s: seq<real>): (m: real)
    requires s != []
    ensures m in s && forall x :: x in s ==> m <= x
  {
    if |s| == 1 then s[0]
    else
      var rest := Minimum(s[1..]);
      assert s == [s[0]] + s[1..];
      if s[0] <= rest then s[0] else rest
  }

  /** `np.max`. */
  function Maximum(s: seq<real>): (m: real)
    requires s != []
    ensures m in s && forall x :: x in s ==> x <= m
  {
    if |s| == 1 then s[0]
    else
      var rest := Maximum(s[1..]);
      assert s == [s[0]] + s[1..];
      if s[0] >= rest then s[0] else rest
  }

  /** A sum of n values between lo and hi lies between n * lo and n * hi. */
  lemma {:induction false} SumBounds(s: seq<real>, lo: real, hi: real)
    requires forall i :: 0 <= i < |s| ==> lo <= s[i] <= hi
    ensures |s| as real * lo <= Sum(s) <= |s| as real * hi
  {
    if s != [] {
      assert forall i :: 0 <= i < |s| - 1 ==> s[1..][i] == s[i + 1];
      SumBounds(s[1..], lo, hi);
      assert |s| as real * lo == (|s| - 1) as real * lo + lo;
      assert |s| as real * hi == (|s| - 1) as real * hi + hi;
    }
  }

  /** The sum over the count lies between the minimum and the maximum. */
  lemma {:induction false} SumBetween(s: seq<real>)
    requires s != []
    ensures Minimum(s) <= Sum(s) / |s| as real <= Maximum(s)
  {
    var n, lo, hi := |s| as real, Minimum(s), Maximum(s);
    forall i | 0 <= i < |s|
      ensures lo <= s[i] <= hi
    {
      assert s[i] in s;
    }
    SumBounds(s, lo, hi);
    ScaleDown(n, lo, Sum(s));
    ScaleUp(n, Sum(s), hi);
  }

  lemma ScaleDown(n: real, lo: real, total: real)
    requires n > 0.0 && n * lo <= total
    ensures lo <= total / n
  {
    assert total / n * n == total;
  }

  lemma ScaleUp(n: real, total: real, hi: real)
    requires n > 0.0 && total <= n * hi
    ensures total / n <= hi
  {
    assert total / n * n == total;
  }

  /** What `resultados[pg]` records: every probability, with their mean,
      minimum and maximum (the standard deviation is not modelled). */
  datatype Summary = Summary(probabilities: seq<real>, mean: real, minimum: real, maximum: real)

  /** The probabilities of a group's counts, in order. */
  function Probabilities(es: seq<Estimate>): (ps: seq<real>)
    requires forall i :: 0 <= i < |es| ==> Sound(es[i])
    ensures |ps| == |es|
    ensures forall i :: 0 <= i < |es| ==> ps[i] == Value(es[i]) && 0.0 <= ps[i] <= 1.0
  {
    seq(|es|, i requires 0 <= i < |es| => Value(es[i]))
  }

  /** The statistics of one group. */
  function Summarize(es: seq<Estimate>): (r: Summary)
    requires es != [] && forall i :: 0 <= i < |es| ==> Sound(es[i])
    ensures r.probabilities == Probabilities(es)
    ensures 0.0 <= r.minimum <= r.mean <= r.maximum <= 1.0
    ensures r.minimum in r.probabilities && r.maximum in r.probabilities
  {
    var ps := Probabilities(es);
    Summary(ps, Mean(ps), Minimum(ps), Maximum(ps))
  }

  /** The draws each analysed hand needs: when the cards left after a
      9-card hand admit more than `max_muestras` hands, every key and
      position gets `max_muestras` draws of 9 positions among them. */
  ghost predicate DrawsFit(deck: seq<Card>, draws: (int, nat) -> seq<seq<nat>>) {
    |deck| >= HandSize && Binom(|deck| - HandSize, HandSize) > MaxSamples ==>
      forall pg: int, i: nat :: SamplesFit(draws(pg, i), |deck| - HandSize, MaxSamples)
  }

  /** A hand dealt from a repeat-free deck leaves |deck| - 9 cards. */
  lemma DealtLeaves(w: Weights, deck: seq<Card>, h: Hand)
    requires Weighted(w, deck) && Distinct(deck) && DealtFrom(h, deck)
    ensures Weighted(w, h)
    ensures |Remaining(deck, h)| == |deck| - HandSize
  {
    RemainingSplit(w, deck, h);
  }

  /** The conditional count for one analysed hand, with its draws. */
  ghost function Probability(w: Weights, deck: seq<Card>, h: Hand, d: seq<seq<nat>>): Result<Estimate>
    requires Weighted(w, deck) && Distinct(deck) && DealtFrom(h, deck)
    requires |deck| >= HandSize && Binom(|deck| - HandSize, HandSize) > MaxSamples ==>
      SamplesFit(d, |deck| - HandSize, MaxSamples)
  {
    DealtLeaves(w, deck, h);
    ConditionalSpec(w, deck, h, MaxSamples, d)
  }

  /** The count for a dealt hand fails exactly when fewer than 18 cards are
      in the deck, and otherwise gives a probability. */
  lemma ProbabilityOutcome(w: Weights, deck: seq<Card>, h: Hand, d: seq<seq<nat>>)
    requires Weighted(w, deck) && Distinct(deck) && DealtFrom(h, deck)
    requires |deck| >= HandSize && Binom(|deck| - HandSize, HandSize) > MaxSamples ==>
      SamplesFit(d, |deck| - HandSize, MaxSamples)
    ensures Probability(w, deck, h, d).Success? <==> |deck| >= 2 * HandSize
    ensures Probability(w, deck, h, d).Failure? ==> Probability(w, deck, h, d).error == ZeroDivisionError
    ensures Probability(w, deck, h, d).Success? ==> Sound(Probability(w, deck, h, d).value)
  {
    DealtLeaves(w, deck, h);
    ConditionalFails(w, deck, h, MaxSamples, d);
    if ConditionalSpec(w, deck, h, MaxSamples, d).Success? {
      ConditionalExamined(w, deck, h, MaxSamples, d);
    }
  }

  /** `calcular_probabilidad_condicional(hand, deck)` for one kept hand,
      with the default `max_muestras`. */
  method AnalyzeHand(w: Weights, deck: seq<Card>, hand: Hand, d: seq<seq<nat>>) returns (r: Result<Estimate>)
    requires Weighted(w, deck) && Distinct(deck) && DealtFrom(hand, deck)
    requires |deck| >= HandSize && Binom(|deck| - HandSize, HandSize) > MaxSamples ==>
      SamplesFit(d, |deck| - HandSize, MaxSamples)
    ensures r == Probability(w, deck, hand, d)
    ensures r.Success? <==> |deck| >= 2 * HandSize
    ensures r.Failure? ==> r.error == ZeroDivisionError
    ensures r.Success? ==> Sound(r.value)
  {
    DealtLeaves(w, deck, hand);
    ProbabilityOutcome(w, deck, hand, d);
    r := ConditionalProbability(w, deck, hand, MaxSamples, d);
  }

  /** What one group's analysis produced: one count per hand, in the order of
      the hands, and the group's statistics over them. */
  ghost predicate GroupAnalysed(w: Weights, deck: seq<Card>, draws: (int, nat) -> seq<seq<nat>>,
                                pg: int, hands: seq<Hand>, es: seq<Estimate>, summary: Summary)
    requires Weighted(w, deck) && Distinct(deck) && DrawsFit(deck, draws)
    requires forall h :: h in hands ==> DealtFrom(h, deck)
  {
    |es| == |hands| && es != [] &&
    (forall i :: 0 <= i < |hands| ==> Probability(w, deck, hands[i], draws(pg, i)) == Success(es[i])) &&
    (forall i :: 0 <= i < |es| ==> Sound(es[i])) &&
    summary == Summarize(es)
  }

  /** The most hands of a group that get a label as written. */
  const MaxLabelled: nat := 702

  /** The label of the i-th hand of a group (line 187): as written it exists
      for the first 702 hands only. */
  method LabelHand(i: nat) returns (failure: Option<Error>)
    ensures failure.None? <==> i < MaxLabelled
    ensures failure.Some? ==> failure.value == IndexError
  {
    var name := Labels.Label(i + 1);
    Labels.LabelDefined(i + 1);
    failure := if name.Success? then None else Some(name.error);
  }

  /** The first |es| hands of a group counted, each with its own draws. */
  ghost predicate CountedPrefix(w: Weights, deck: seq<Card>, draws: (int, nat) -> seq<seq<nat>>,
                                pg: int, hands: seq<Hand>, es: seq<Estimate>)
    requires Weighted(w, deck) && Distinct(deck) && DrawsFit(deck, draws)
    requires forall h :: h in hands ==> DealtFrom(h, deck)
  {
    |es| <= |hands| &&
    forall j :: 0 <= j < |es| ==>
      Probability(w, deck, hands[j], draws(pg, j)) == Success(es[j]) && Sound(es[j])
  }

  lemma CountedExtend(w: Weights, deck: seq<Card>, draws: (int, nat) -> seq<seq<nat>>,
                      pg: int, hands: seq<Hand>, es: seq<Estimate>, e: Estimate)
    requires Weighted(w, deck) && Distinct(deck) && DrawsFit(deck, draws)
    requires forall h :: h in hands ==> DealtFrom(h, deck)
    requires CountedPrefix(w, deck, draws, pg, hands, es) && |es| < |hands|
    requires Probability(w, deck, hands[|es|], draws(pg, |es|)) == Success(e) && Sound(e)
    ensures CountedPrefix(w, deck, draws, pg, hands, es + [e])
  {
    var more := es + [e];
    forall j | 0 <= j < |more|
      ensures Probability(w, deck, hands[j], draws(pg, j)) == Success(more[j]) && Sound(more[j])
    {
      if j < |es| {
        assert more[j] == es[j];
      }
    }
  }

  /** The inner loop: for the i-th hand of a group, its label (line 187),
      then the conditional count, appended in step with the hand. The label
      as written fails from the 703rd hand on. */
  method AnalyzeGroup(w: Weights, deck: seq<Card>, draws: (int, nat) -> seq<seq<nat>>, pg: int, hands: seq<Hand>)
    returns (r: Result<seq<Estimate>>)
    requires Weighted(w, deck) && Distinct(deck) && DrawsFit(deck, draws)
    requires forall h :: h in hands ==> DealtFrom(h, deck)
    ensures r.Success? <==> hands == [] || (|deck| >= 2 * HandSize && |hands| <= MaxLabelled)
    ensures r.Failure? ==> r.error == if |deck| < 2 * HandSize then ZeroDivisionError else IndexError
    ensures r.Success? ==> |r.value| == |hands|
    ensures r.Success? ==> forall i :: 0 <= i < |hands| ==>
      Probability(w, deck, hands[i], draws(pg, i)) == Success(r.value[i]) && Sound(r.value[i])
  {
    var estimates: seq<Estimate> := [];
    for i := 0 to |hands|
      invariant |estimates| == i && i <= MaxLabelled
      invariant i > 0 ==> |deck| >= 2 * HandSize
      invariant CountedPrefix(w, deck, draws, pg, hands, estimates)
    {
      var failure := LabelHand(i);
      if failure.Some? {
        return Failure(failure.value);
      }
      var hand := hands[i];
      assert hand in hands;
      var e := AnalyzeHand(w, deck, hand, draws(pg, i));
      if e.Failure? {
        return Failure(e.error);
      }
      CountedExtend(w, deck, draws, pg, hands, estimates, e.value);
      estimates := estimates + [e.value];
    }
    r := Success(estimates);
  }

  /** What the analysis returns: the keys in the order they were walked, the
      hands analysed under each key, their counts and the key's statistics. */
  datatype Report = Report(order: seq<int>, analysed: map<int, seq<Hand>>, estimates: map<int, seq<Estimate>>,
                           results: map<int, Summary>)

  /** The hands kept under a key: the representatives of its group, each
      dealt from the deck and scoring the key. */
  ghost predicate Kept(w: Weights, deck: seq<Card>, count: nat, picks: int -> seq<nat>, pg: int, hands: seq<Hand>)
    requires Weighted(w, deck) && Distinct(deck)
  {
    DeckPicksFit(w, deck, count, picks) &&
    AllWeighted(w, Choose(deck, HandSize)) &&
    hands == Representatives(Group(w, Choose(deck, HandSize), pg), count, picks(pg)) &&
    forall h :: h in hands ==> DealtFrom(h, deck) && Weighted(w, h) && Score(w, h) == pg
  }

  /** Every key entered so far holds its kept hands, one count per hand and
      the statistics over those counts. */
  ghost predicate Entries(w: Weights, deck: seq<Card>, count: nat, picks: int -> seq<nat>,
                          draws: (int, nat) -> seq<seq<nat>>, analysed: map<int, seq<Hand>>,
                          estimates: map<int, seq<Estimate>>, results: map<int, Summary>)
    requires Weighted(w, deck) && Distinct(deck) && DrawsFit(deck, draws)
  {
    estimates.Keys == analysed.Keys && results.Keys == analysed.Keys &&
    forall pg :: pg in analysed ==>
      Entry(w, deck, count, picks, draws, pg, analysed[pg], estimates[pg], results[pg])
  }

  /** One key's entry: its kept hands, one count per hand and the
      statistics over those counts. */
  ghost predicate Entry(w: Weights, deck: seq<Card>, count: nat, picks: int -> seq<nat>,
                        draws: (int, nat) -> seq<seq<nat>>, pg: int, hands: seq<Hand>,
                        es: seq<Estimate>, summary: Summary)
    requires Weighted(w, deck) && Distinct(deck) && DrawsFit(deck, draws)
  {
    Kept(w, deck, count, picks, pg, hands) && GroupAnalysed(w, deck, draws, pg, hands, es, summary)
  }

  /** Entering one more key keeps `Entries`. */
  lemma EntriesStep(w: Weights, deck: seq<Card>, count: nat, picks: int -> seq<nat>,
                    draws: (int, nat) -> seq<seq<nat>>, analysed: map<int, seq<Hand>>,
                    estimates: map<int, seq<Estimate>>, results: map<int, Summary>,
                    pg: int, hands: seq<Hand>, es: seq<Estimate>, summary: Summary)
    requires Weighted(w, deck) && Distinct(deck) && DrawsFit(deck, draws)
    requires Entries(w, deck, count, picks, draws, analysed, estimates, results)
    requires Entry(w, deck, count, picks, draws, pg, hands, es, summary)
    ensures Entries(w, deck, count, picks, draws, analysed[pg := hands], estimates[pg := es], results[pg := summary])
  {
    MapsStep((p, h, e, s) => Entry(w, deck, count, picks, draws, p, h, e, s),
             analysed, estimates, results, pg, hands, es, summary,
             analysed[pg := hands], estimates[pg := es], results[pg := summary]);
  }

  /** Three maps over the same keys whose entries satisfy `ok` still do after
      one key is entered in all three. */
  lemma MapsStep<A, B, C>(ok: (int, A, B, C) -> bool, a: map<int, A>, b: map<int, B>, c: map<int, C>,
                          k: int, x: A, y: B, z: C, a': map<int, A>, b': map<int, B>, c': map<int, C>)
    requires b.Keys == a.Keys && c.Keys == a.Keys
    requires forall p :: p in a ==> ok(p, a[p], b[p], c[p])
    requires ok(k, x, y, z)
    requires a' == a[k := x] && b' == b[k := y] && c' == c[k := z]
    ensures b'.Keys == a'.Keys && c'.Keys == a'.Keys
    ensures forall p :: p in a' ==> ok(p, a'[p], b'[p], c'[p])
  {
  }

  /** The hands `ScoreGroups` kept: one entry per score of a hand of the
      deck, holding the representatives of that score's group. */
  ghost predicate Selection(w: Weights, deck: seq<Card>, count: nat, picks: int -> seq<nat>,
                            selected: map<int, seq<Hand>>)
    requires Weighted(w, deck) && Distinct(deck)
  {
    DeckPicksFit(w, deck, count, picks) &&
    AllWeighted(w, Choose(deck, HandSize)) &&
    selected.Keys == Scores(w, Choose(deck, HandSize)) &&
    forall pg :: pg in selected ==>
      selected[pg] == Representatives(Group(w, Choose(deck, HandSize), pg), count, picks(pg))
  }

  /** The hands kept under a selected key are kept hands, and there is at
      least one. */
  lemma SelectedKept(w: Weights, deck: seq<Card>, count: nat, picks: int -> seq<nat>,
                     selected: map<int, seq<Hand>>, pg: int)
    requires Weighted(w, deck) && Distinct(deck) && count >= 1
    requires Selection(w, deck, count, picks, selected)
    requires pg in selected
    ensures Kept(w, deck, count, picks, pg, selected[pg]) && selected[pg] != []
  {
    KeptHands(w, deck, count, picks, pg);
  }

  /** Every kept list is short enough for each of its hands to get a label
      as written. */
  predicate Labelled(selected: map<int, seq<Hand>>) {
    forall pg :: pg in selected ==> |selected[pg]| <= MaxLabelled
  }

  /** One pass of the outer loop of `analizar_probabilidades`: the key's
      kept hands, their counts and statistics, entered under the key. */
  method AnalyzeEntry(w: Weights, deck: seq<Card>, count: nat, picks: int -> seq<nat>,
                      draws: (int, nat) -> seq<seq<nat>>, selected: map<int, seq<Hand>>, pg: int,
                      analysed: map<int, seq<Hand>>, estimates: map<int, seq<Estimate>>, results: map<int, Summary>)
    returns (failure: Option<Error>, analysed': map<int, seq<Hand>>, estimates': map<int, seq<Estimate>>,
             results': map<int, Summary>)
    requires Weighted(w, deck) && Distinct(deck) && count >= 1 && DrawsFit(deck, draws)
    requires Selection(w, deck, count, picks, selected) && pg in selected
    requires Entries(w, deck, count, picks, draws, analysed, estimates, results)
    ensures failure.None? <==> |deck| >= 2 * HandSize && |selected[pg]| <= MaxLabelled
    ensures failure.Some? ==> failure.value == if |deck| < 2 * HandSize then ZeroDivisionError else IndexError
    ensures failure.None? ==> analysed' == analysed[pg := selected[pg]] && analysed'.Keys == analysed.Keys + {pg}
    ensures failure.None? ==> Entries(w, deck, count, picks, draws, analysed', estimates', results')
  {
    var group := selected[pg];
    SelectedKept(w, deck, count, picks, selected, pg);
    var e := AnalyzeGroup(w, deck, draws, pg, group);
    if e.Failure? {
      return Some(e.error), analysed, estimates, results;
    }
    var summary := Summarize(e.value);
    EntriesStep(w, deck, count, picks, draws, analysed, estimates, results, pg, group, e.value, summary);
    UpdatedKeys(analysed, pg, group);
    failure, analysed', estimates', results' := None, analysed[pg := group], estimates[pg := e.value], results[pg := summary];
  }

  /** The outer loop of `analizar_probabilidades`: the keys in the given
      order, each group analysed in turn; the first exception ends the
      analysis. */
  method AnalyzeKeys(w: Weights, deck: seq<Card>, count: nat, picks: int -> seq<nat>,
                     draws: (int, nat) -> seq<seq<nat>>, selected: map<int, seq<Hand>>, keys: seq<int>)
    returns (r: Result<Report>)
    requires Weighted(w, deck) && Distinct(deck) && count >= 1 && DrawsFit(deck, draws)
    requires Selection(w, deck, count, picks, selected)
    requires Elems(keys) == selected.Keys
    ensures r.Success? <==> keys == [] || (|deck| >= 2 * HandSize && Labelled(selected))
    ensures r.Failure? ==> r.error == if |deck| < 2 * HandSize then ZeroDivisionError else IndexError
    ensures r.Success? ==> r.value.order == keys && r.value.analysed.Keys == Elems(keys)
    ensures r.Success? ==> r.value.estimates.Keys == r.value.analysed.Keys && r.value.results.Keys == r.value.analysed.Keys
    ensures r.Success? ==> Entries(w, deck, count, picks, draws, r.value.analysed, r.value.estimates, r.value.results)
  {
    var analysed: map<int, seq<Hand>> := map[];
    var estimates: map<int, seq<Estimate>> := map[];
    var results: map<int, Summary> := map[];
    for k := 0 to |keys|
      invariant k > 0 ==> |deck| >= 2 * HandSize
      invariant Walked(selected, keys, k, analysed.Keys)
      invariant Entries(w, deck, count, picks, draws, analysed, estimates, results)
    {
      assert keys[k] in Elems(keys);
      var failure;
      ghost var before := analysed.Keys;
      failure, analysed, estimates, results :=
        AnalyzeEntry(w, deck, count, picks, draws, selected, keys[k], analysed, estimates, results);
      if failure.Some? {
        return Failure(failure.value);
      }
      WalkedStep(selected, keys, k, before);
    }
    WalkedAll(selected, keys, analysed.Keys);
    r := Success(Report(keys, analysed, estimates, results));
  }

  /** Every group of the deck's 9-card hands, cut down to `count`, keeps at
      most 702 hands, so that every kept hand gets a label as written. */
  ghost predicate GroupsLabelled(w: Weights, deck: seq<Card>, count: nat)
    requires AllWeighted(w, Choose(deck, HandSize))
  {
    forall pg :: pg in Scores(w, Choose(deck, HandSize)) ==>
      Min(|Group(w, Choose(deck, HandSize), pg)|, count) <= MaxLabelled
  }

  /** Up to 702 hands per group, every kept hand gets a label. */
  lemma SmallCountLabelled(w: Weights, deck: seq<Card>, count: nat)
    requires AllWeighted(w, Choose(deck, HandSize))
    requires count <= MaxLabelled
    ensures GroupsLabelled(w, deck, count)
  {
  }

  /** `analizar_probabilidades(count)`: the groups of `ScoreGroups`, walked
      in ascending order of score; within each group the hands and their
      counts grow in step. A division by zero in any count, or a hand past
      the 702nd of its group, stops the analysis. */
  method Analyze(w: Weights, deck: seq<Card>, count: nat, picks: int -> seq<nat>, draws: (int, nat) -> seq<seq<nat>>)
    returns (r: Result<Report>)
    requires Weighted(w, deck) && Distinct(deck)
    requires 1 <= count <= MaxCount
    requires DeckPicksFit(w, deck, count, picks)
    requires DrawsFit(deck, draws)
    ensures AllWeighted(w, Choose(deck, HandSize))
    ensures r.Success? <==> |deck| < HandSize || (|deck| >= 2 * HandSize && GroupsLabelled(w, deck, count))
    ensures r.Failure? ==> r.error == if |deck| < 2 * HandSize then ZeroDivisionError else IndexError
    ensures r.Success? ==> Increasing(r.value.order) && Elems(r.value.order) == Scores(w, Choose(deck, HandSize))
    ensures r.Success? ==> r.value.analysed.Keys == Elems(r.value.order)
    ensures r.Success? ==> r.value.estimates.Keys == r.value.analysed.Keys && r.value.results.Keys == r.value.analysed.Keys
    ensures r.Success? ==> Entries(w, deck, count, picks, draws, r.value.analysed, r.value.estimates, r.value.results)
  {
    var selected, order := ScoreGroups(w, deck, count, picks);
    KeysExist(w, deck);
    var keys := SortKeys(order);
    assert keys == [] <==> |deck| < HandSize by {
      if keys != [] {
        assert keys[0] in Elems(keys);
      }
    }
    assert Labelled(selected) <==> GroupsLabelled(w, deck, count);
    r := AnalyzeKeys(w, deck, count, picks, draws, selected, keys);
  }

  /** Entering a key adds that key and no other. */
  lemma UpdatedKeys<K, V>(m: map<K, V>, key: K, value: V)
    ensures m[key := value].Keys == m.Keys + {key}
  {
  }

  /** The keys walked so far are the first k keys, and each of their kept
      lists is short enough to be labelled. */
  predicate Walked(selected: map<int, seq<Hand>>, keys: seq<int>, k: nat, done: set<int>)
    requires k <= |keys|
  {
    done == Elems(keys[..k]) &&
    forall pg :: pg in done ==> pg in selected && |selected[pg]| <= MaxLabelled
  }

  /** One more key walked. */
  lemma WalkedStep(selected: map<int, seq<Hand>>, keys: seq<int>, k: nat, done: set<int>)
    requires k < |keys| && Walked(selected, keys, k, done)
    requires keys[k] in selected && |selected[keys[k]]| <= MaxLabelled
    ensures Walked(selected, keys, k + 1, done + {keys[k]})
  {
    assert keys[..k + 1] == keys[..k] + [keys[k]];
  }

  /** Walking every key of the selection means every kept list was short
      enough. */
  lemma WalkedAll(selected: map<int, seq<Hand>>, keys: seq<int>, done: set<int>)
    requires Walked(selected, keys, |keys|, done) && Elems(keys) == selected.Keys
    ensures done == Elems(keys) && Labelled(selected)
  {
    assert keys[..|keys|] == keys;
  }

  /** The hands kept under a key of the deck's groups: at least one, each
      dealt from the deck and scoring the key. */
  lemma KeptHands(w: Weights, deck: seq<Card>, count: nat, picks: int -> seq<nat>, pg: int)
    requires Weighted(w, deck) && Distinct(deck) && count >= 1
    requires DeckPicksFit(w, deck, count, picks)
    requires AllWeighted(w, Choose(deck, HandSize))
    requires pg in Scores(w, Choose(deck, HandSize))
    ensures Kept(w, deck, count, picks, pg, Representatives(Group(w, Choose(deck, HandSize), pg), count, picks(pg)))
    ensures Representatives(Group(w, Choose(deck, HandSize), pg), count, picks(pg)) != []
  {
    GroupNotEmpty(w, Choose(deck, HandSize), pg);
    SelectedHands(w, deck, count, pg, picks(pg));
  }
}
