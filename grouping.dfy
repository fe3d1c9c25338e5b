/** `calcular_probabilidades_por_pg` and `find_representative_combinations`:
    every 9-card hand of the deck grouped by its score (its "PG"), and the
    hands kept for analysis in each group. */
module Grouping {
  import opened Combinatorics
  import opened Cards

  function Min(a: int, b: int): int {
    if a <= b then a else b
  }

  /** `find_representative_combinations(hands, max)`: every hand when there
      are at most `max`, otherwise the hands at the positions `sample` that
      `random.sample` chose. */
  function Representatives(hands: seq<Hand>, max: nat, sample: seq<nat>): (r: seq<Hand>)
    requires |hands| > max ==> IsSample(sample, |hands|, max)
    ensures |r| == Min(|hands|, max)
    ensures |hands| <= max ==> r == hands
    ensures |hands| > max ==> forall i :: 0 <= i < |r| ==> r[i] == hands[sample[i]]
    ensures multiset(r) <= multiset(hands)
  {
    if |hands| <= max then hands
    else Pick(hands, sample)
  }

  /** The hands of `hands` that score `pg`, in their order: what the first
      pass appends under key `pg`. */
  function Group(w: Weights, hands: seq<Hand>, pg: int): (r: seq<Hand>)
    requires AllWeighted(w, hands)
    ensures |r| <= |hands|
    ensures forall h {:trigger h in r} :: h in r ==> h in hands && Score(w, h) == pg
  {
    if hands == [] then []
    else
      var front, last := hands[..|hands| - 1], hands[|hands| - 1];
      assert forall h :: h in front ==> h in hands;
      Group(w, front, pg) + (if Score(w, last) == pg then [last] else [])
  }

  /** A group holds exactly the hands that score its key. */
  lemma {:induction false} GroupMembers(w: Weights, hands: seq<Hand>, pg: int)
    requires AllWeighted(w, hands)
    ensures forall h :: h in Group(w, hands, pg) <==> h in hands && Score(w, h) == pg
  {
    if hands != [] {
      var front, last := hands[..|hands| - 1], hands[|hands| - 1];
      assert hands == front + [last];
      GroupMembers(w, front, pg);
    }
  }

  /** The scores that occur among `hands`: the keys of the first pass. */
  function Scores(w: Weights, hands: seq<Hand>): set<int>
    requires AllWeighted(w, hands)
  {
    set h | h in hands :: Score(w, h)
  }

  /** The scores of `hands` in the order of their first hands: the order in
      which the first pass inserts its keys. */
  function FirstScores(w: Weights, hands: seq<Hand>): seq<int>
    requires AllWeighted(w, hands)
  {
    if hands == [] then []
    else
      var front, last := hands[..|hands| - 1], hands[|hands| - 1];
      assert forall h :: h in front ==> h in hands;
      var keys := FirstScores(w, front);
      if Score(w, last) in keys then keys else keys + [Score(w, last)]
  }

  /** Every score of the hands is listed, once. */
  lemma {:induction false} FirstScoresKeys(w: Weights, hands: seq<Hand>)
    requires AllWeighted(w, hands)
    ensures Distinct(FirstScores(w, hands)) && Elems(FirstScores(w, hands)) == Scores(w, hands)
  {
    if hands != [] {
      var front, last := hands[..|hands| - 1], hands[|hands| - 1];
      assert forall h :: h in hands <==> h in front || h == last by {
        assert hands == front + [last];
      }
      FirstScoresKeys(w, front);
      assert Scores(w, hands) == Scores(w, front) + {Score(w, last)};
      var keys := FirstScores(w, front);
      if Score(w, last) !in keys {
        AppendFresh(keys, Score(w, last));
      }
    }
  }

  /** Insertion order: the keys of any first hands come first, in the same
      order, so a key is listed before another exactly when its first hand
      comes first. */
  lemma {:induction false} FirstScoresPrefix(w: Weights, hands: seq<Hand>, i: nat)
    requires AllWeighted(w, hands) && i <= |hands|
    ensures AllWeighted(w, hands[..i])
    ensures FirstScores(w, hands[..i]) <= FirstScores(w, hands)
    decreases |hands|
  {
    assert forall h :: h in hands[..i] ==> h in hands;
    if i < |hands| {
      var front := hands[..|hands| - 1];
      assert front[..i] == hands[..i];
      assert forall h :: h in front ==> h in hands;
      FirstScoresPrefix(w, front, i);
    } else {
      assert hands[..i] == hands;
    }
  }

  /** One more hand lists its score after the others, unless it is listed
      already. */
  lemma FirstScoresStep(w: Weights, hands: seq<Hand>, i: nat)
    requires AllWeighted(w, hands) && i < |hands|
    ensures AllWeighted(w, hands[..i]) && AllWeighted(w, hands[..i + 1])
    ensures FirstScores(w, hands[..i + 1])
         == if Score(w, hands[i]) in Scores(w, hands[..i]) then FirstScores(w, hands[..i])
            else FirstScores(w, hands[..i]) + [Score(w, hands[i])]
  {
    var next := hands[..i + 1];
    assert forall h :: h in next ==> h in hands;
    assert forall h :: h in hands[..i] ==> h in hands;
    assert next[..i] == hands[..i];
    FirstScoresKeys(w, hands[..i]);
  }

  /** The first pass: each hand appended to the list of its score, in a
      dictionary that starts empty (`defaultdict(list)`). `order` lists the
      keys in the order they were inserted, which is the order the
      dictionary is walked in afterwards. */
  method GroupByScore(w: Weights, hands: seq<Hand>) returns (groups: map<int, seq<Hand>>, order: seq<int>)
    requires AllWeighted(w, hands)
    ensures groups.Keys == Scores(w, hands)
    ensures forall pg :: pg in groups ==> groups[pg] == Group(w, hands, pg)
    ensures Distinct(order) && Elems(order) == groups.Keys
    ensures order == FirstScores(w, hands)
  {
    groups, order := map[], [];
    GroupedNone(w, hands);
    for i := 0 to |hands|
      invariant AllWeighted(w, hands[..i]) && Grouped(w, hands[..i], groups, order)
      invariant order == FirstScores(w, hands[..i])
    {
      var hand := hands[i];
      var pg := Score(w, hand);
      ghost var groups0, order0 := groups, order;
      if pg in groups {
        groups := groups[pg := groups[pg] + [hand]];
      } else {
        groups := groups[pg := [hand]];
        order := order + [pg];
      }
      GroupedStep(w, hands, i, groups0, order0, groups, order);
    }
    GroupedAll(w, hands, groups, order);
  }

  /** Before any hand is placed the dictionary is empty. */
  lemma GroupedNone(w: Weights, hands: seq<Hand>)
    ensures AllWeighted(w, hands[..0]) && Grouped(w, hands[..0], map[], [])
    ensures [] == FirstScores(w, hands[..0])
  {
    assert hands[..0] == [];
  }

  /** Once every hand is placed, the state describes the whole list. */
  lemma GroupedAll(w: Weights, hands: seq<Hand>, groups: map<int, seq<Hand>>, order: seq<int>)
    requires AllWeighted(w, hands) && AllWeighted(w, hands[..|hands|])
    requires Grouped(w, hands[..|hands|], groups, order) && order == FirstScores(w, hands[..|hands|])
    ensures groups.Keys == Scores(w, hands)
    ensures forall pg :: pg in groups ==> groups[pg] == Group(w, hands, pg)
    ensures Distinct(order) && Elems(order) == groups.Keys
    ensures order == FirstScores(w, hands)
  {
    assert hands[..|hands|] == hands;
  }

  /** The state of the first pass after the hands `prefix`: one key per
      score, its group under it, and the keys listed once each. */
  ghost predicate Grouped(w: Weights, prefix: seq<Hand>, groups: map<int, seq<Hand>>, order: seq<int>)
    requires AllWeighted(w, prefix)
  {
    groups.Keys == Scores(w, prefix) &&
    (forall pg :: pg in groups ==> groups[pg] == Group(w, prefix, pg)) &&
    Distinct(order) && Elems(order) == groups.Keys
  }

  /** Appending the next hand to its score's list, creating the list when
      the score is new, keeps `Grouped`. */
  lemma GroupedStep(w: Weights, hands: seq<Hand>, i: nat, groups: map<int, seq<Hand>>, order: seq<int>,
                    groups': map<int, seq<Hand>>, order': seq<int>)
    requires AllWeighted(w, hands) && i < |hands|
    requires AllWeighted(w, hands[..i]) && Grouped(w, hands[..i], groups, order)
    requires order == FirstScores(w, hands[..i])
    requires Score(w, hands[i]) in groups ==>
      groups' == groups[Score(w, hands[i]) := groups[Score(w, hands[i])] + [hands[i]]] && order' == order
    requires Score(w, hands[i]) !in groups ==>
      groups' == groups[Score(w, hands[i]) := [hands[i]]] && order' == order + [Score(w, hands[i])]
    ensures AllWeighted(w, hands[..i + 1])
    ensures Grouped(w, hands[..i + 1], groups', order') && order' == FirstScores(w, hands[..i + 1])
  {
    GroupStep(w, hands, i);
    FirstScoresStep(w, hands, i);
    if Score(w, hands[i]) in groups {
      JoinGroup(w, hands[..i], hands[..i + 1], groups, order, hands[i]);
    } else {
      NewGroup(w, hands[..i], hands[..i + 1], groups, order, hands[i]);
    }
  }

  /** A hand whose score already has a list is appended to it. */
  lemma JoinGroup(w: Weights, before: seq<Hand>, after: seq<Hand>, groups: map<int, seq<Hand>>, order: seq<int>, h: Hand)
    requires AllWeighted(w, before) && AllWeighted(w, after) && Weighted(w, h)
    requires Grouped(w, before, groups, order)
    requires Scores(w, after) == Scores(w, before) + {Score(w, h)}
    requires forall pg :: Group(w, after, pg) == Group(w, before, pg) + (if Score(w, h) == pg then [h] else [])
    requires Score(w, h) in groups
    ensures Grouped(w, after, groups[Score(w, h) := groups[Score(w, h)] + [h]], order)
  {
    var key := Score(w, h);
    assert Scores(w, after) == Scores(w, before);
    AddKey(groups, key, groups[key] + [h], Scores(w, before), Scores(w, after));
    JoinList(w, before, after, groups, h);
  }

  /** The lists after a hand with a known score: its list gains it, every
      other list is unchanged. */
  lemma JoinList(w: Weights, before: seq<Hand>, after: seq<Hand>, groups: map<int, seq<Hand>>, h: Hand)
    requires AllWeighted(w, before) && AllWeighted(w, after) && Weighted(w, h)
    requires forall pg :: pg in groups ==> groups[pg] == Group(w, before, pg)
    requires forall pg :: Group(w, after, pg) == Group(w, before, pg) + (if Score(w, h) == pg then [h] else [])
    requires Score(w, h) in groups
    ensures forall pg :: pg in groups[Score(w, h) := groups[Score(w, h)] + [h]] ==>
      groups[Score(w, h) := groups[Score(w, h)] + [h]][pg] == Group(w, after, pg)
  {
    var key := Score(w, h);
    var next := groups[key := groups[key] + [h]];
    forall pg | pg in next
      ensures next[pg] == Group(w, after, pg)
    {
      assert Group(w, after, pg) == Group(w, before, pg) + (if key == pg then [h] else []);
    }
  }

  /** A hand with a new score starts a list of its own, and its score is
      listed after the keys seen so far. */
  lemma NewGroup(w: Weights, before: seq<Hand>, after: seq<Hand>, groups: map<int, seq<Hand>>, order: seq<int>, h: Hand)
    requires AllWeighted(w, before) && AllWeighted(w, after) && Weighted(w, h)
    requires Grouped(w, before, groups, order)
    requires Scores(w, after) == Scores(w, before) + {Score(w, h)}
    requires forall pg :: Group(w, after, pg) == Group(w, before, pg) + (if Score(w, h) == pg then [h] else [])
    requires Score(w, h) !in groups && Group(w, before, Score(w, h)) == []
    ensures Grouped(w, after, groups[Score(w, h) := [h]], order + [Score(w, h)])
  {
    var key := Score(w, h);
    AddKey(groups, key, [h], Scores(w, before), Scores(w, after));
    AppendFresh(order, key);
    NewList(w, before, after, groups, h);
  }

  lemma AddKey<V>(m: map<int, V>, k: int, v: V, before: set<int>, after: set<int>)
    requires m.Keys == before && after == before + {k}
    ensures m[k := v].Keys == after
  {
  }

  /** The lists after a hand with a new score: its own list holds it alone,
      every other list is unchanged. */
  lemma NewList(w: Weights, before: seq<Hand>, after: seq<Hand>, groups: map<int, seq<Hand>>, h: Hand)
    requires AllWeighted(w, before) && AllWeighted(w, after) && Weighted(w, h)
    requires forall pg :: pg in groups ==> groups[pg] == Group(w, before, pg)
    requires forall pg :: Group(w, after, pg) == Group(w, before, pg) + (if Score(w, h) == pg then [h] else [])
    requires Group(w, before, Score(w, h)) == []
    ensures forall pg :: pg in groups[Score(w, h) := [h]] ==> groups[Score(w, h) := [h]][pg] == Group(w, after, pg)
  {
    var key := Score(w, h);
    var next := groups[key := [h]];
    forall pg | pg in next
      ensures next[pg] == Group(w, after, pg)
    {
      assert Group(w, after, pg) == Group(w, before, pg) + (if key == pg then [h] else []);
      if pg == key {
        assert [] + [h] == [h];
      }
    }
  }

  /** One more hand: it joins the group of its score and no other. */
  lemma GroupStep(w: Weights, hands: seq<Hand>, i: nat)
    requires AllWeighted(w, hands) && i < |hands|
    ensures AllWeighted(w, hands[..i]) && AllWeighted(w, hands[..i + 1])
    ensures Scores(w, hands[..i + 1]) == Scores(w, hands[..i]) + {Score(w, hands[i])}
    ensures forall pg :: (Group(w, hands[..i + 1], pg)
      == Group(w, hands[..i], pg) + (if Score(w, hands[i]) == pg then [hands[i]] else []))
    ensures Score(w, hands[i]) !in Scores(w, hands[..i]) ==> Group(w, hands[..i], Score(w, hands[i])) == []
  {
    var next := hands[..i + 1];
    assert next[..i] == hands[..i] && next[i] == hands[i];
    assert forall h :: h in next <==> h in hands[..i] || h == hands[i];
    var g := Group(w, hands[..i], Score(w, hands[i]));
    if g != [] {
      GroupMembers(w, hands[..i], Score(w, hands[i]));
      assert g[0] in g;
      assert Score(w, hands[i]) in Scores(w, hands[..i]);
    }
  }

  /** A group holds each set of cards as often as the hands do, when every
      hand holding that set of cards scores v and the group's key is v, and
      not at all otherwise. */
  lemma {:induction false} GroupOccurrences(w: Weights, hands: seq<Hand>, pg: int, s: set<Card>, v: int)
    requires AllWeighted(w, hands)
    requires forall h :: h in hands && Elems(h) == s ==> Score(w, h) == v
    ensures Occurrences(Group(w, hands, pg), s) == if pg == v then Occurrences(hands, s) else 0
  {
    if hands != [] {
      var front, last := hands[..|hands| - 1], hands[|hands| - 1];
      assert hands == front + [last];
      GroupOccurrences(w, front, pg, s, v);
      var tail := if Score(w, last) == pg then [last] else [];
      OccurrencesAppend(Group(w, front, pg), tail, s);
      OccurrencesAppend(front, [last], s);
      assert [last][1..] == [];
    }
  }

  /** A hand holding the set `s` is there when some hand counts for it. */
  lemma {:induction false} OccurrencesWitness<T>(hands: seq<seq<T>>, s: set<T>)
    requires Occurrences(hands, s) > 0
    ensures exists h :: h in hands && Elems(h) == s
  {
    if Elems(hands[0]) != s {
      OccurrencesWitness(hands[1..], s);
      var h :| h in hands[1..] && Elems(h) == s;
      assert h in hands;
    }
  }

  /** The 9-card hands of a deck whose cards all have weights can all be
      scored; each is made of 9 distinct cards of the deck. */
  lemma HandsOfDeck(w: Weights, deck: seq<Card>)
    requires Weighted(w, deck) && Distinct(deck)
    ensures AllWeighted(w, Choose(deck, HandSize))
    ensures forall h :: h in Choose(deck, HandSize) ==>
      |h| == HandSize && Distinct(h) && forall c :: c in h ==> c in deck
  {
    ChooseMembers(deck, HandSize);
    ChooseDistinct(deck, HandSize);
  }

  /** Each 9-card subset of the deck is in exactly one group after the first
      pass: the group of its score. */
  lemma EachHandInOneGroup(w: Weights, deck: seq<Card>, s: set<Card>)
    requires Weighted(w, deck) && Distinct(deck)
    requires s <= Elems(deck) && |s| == HandSize
    ensures AllWeighted(w, Choose(deck, HandSize))
    ensures exists h :: (h in Choose(deck, HandSize) && Elems(h) == s &&
      forall pg :: Occurrences(Group(w, Choose(deck, HandSize), pg), s) == if pg == Score(w, h) then 1 else 0)
  {
    var hands := Choose(deck, HandSize);
    HandsOfDeck(w, deck);
    ChooseExactlyOnce(deck, HandSize, s);
    OccurrencesWitness(hands, s);
    var h :| h in hands && Elems(h) == s;
    forall g | g in hands && Elems(g) == s ensures Score(w, g) == Score(w, h) {
      ScoreOfSameCards(w, h, g);
    }
    forall pg ensures Occurrences(Group(w, hands, pg), s) == if pg == Score(w, h) then 1 else 0 {
      GroupOccurrences(w, hands, pg, s, Score(w, h));
    }
  }

  /** The draws the selection needs: for every group larger than `max`,
      `max` distinct positions of that group. */
  predicate PicksFit(groups: map<int, seq<Hand>>, max: nat, picks: int -> seq<nat>) {
    forall pg :: pg in groups && |groups[pg]| > max ==> IsSample(picks(pg), |groups[pg]|, max)
  }

  /** The draws the selection needs, for the groups of a deck's 9-card hands. */
  ghost predicate DeckPicksFit(w: Weights, deck: seq<Card>, max: nat, picks: int -> seq<nat>)
    requires Weighted(w, deck) && Distinct(deck)
  {
    HandsOfDeck(w, deck);
    forall pg :: |Group(w, Choose(deck, HandSize), pg)| > max ==>
      IsSample(picks(pg), |Group(w, Choose(deck, HandSize), pg)|, max)
  }

  /** The second pass: every group kept whole or cut down to `max` sampled
      hands, walking the keys in `order`. */
  method SelectRepresentatives(groups: map<int, seq<Hand>>, order: seq<int>, max: nat, picks: int -> seq<nat>)
    returns (selected: map<int, seq<Hand>>)
    requires Elems(order) == groups.Keys
    requires PicksFit(groups, max, picks)
    ensures selected.Keys == groups.Keys
    ensures forall pg :: pg in groups ==> selected[pg] == Representatives(groups[pg], max, picks(pg))
  {
    selected := map[];
    for k := 0 to |order|
      invariant selected.Keys == Elems(order[..k])
      invariant forall pg :: pg in selected ==> selected[pg] == Representatives(groups[pg], max, picks(pg))
    {
      var pg := order[k];
      assert pg in Elems(order);
      var hands := groups[pg];
      if |hands| <= max {
        selected := selected[pg := hands];
      } else {
        selected := selected[pg := Representatives(hands, max, picks(pg))];
      }
      assert order[..k + 1] == order[..k] + [pg];
    }
    assert order[..|order|] == order;
  }

  /** `calcular_probabilidades_por_pg(max)`: the 9-card hands of the deck,
      grouped by score, each group kept whole or cut down to `max` hands. */
  method ScoreGroups(w: Weights, deck: seq<Card>, max: nat, picks: int -> seq<nat>)
    returns (selected: map<int, seq<Hand>>, order: seq<int>)
    requires Weighted(w, deck) && Distinct(deck)
    requires DeckPicksFit(w, deck, max, picks)
    ensures AllWeighted(w, Choose(deck, HandSize))
    ensures selected.Keys == Scores(w, Choose(deck, HandSize))
    ensures forall pg :: pg in selected ==>
      selected[pg] == Representatives(Group(w, Choose(deck, HandSize), pg), max, picks(pg))
    ensures Distinct(order) && Elems(order) == selected.Keys
    ensures order == FirstScores(w, Choose(deck, HandSize))
  {
    HandsOfDeck(w, deck);
    var hands := Choose(deck, HandSize);
    var groups;
    groups, order := GroupByScore(w, hands);
    selected := SelectRepresentatives(groups, order, max, picks);
  }

  /** Every key is the score of some hand, so its group is not empty. */
  lemma GroupNotEmpty(w: Weights, hands: seq<Hand>, pg: int)
    requires AllWeighted(w, hands)
    ensures pg in Scores(w, hands) <==> Group(w, hands, pg) != []
  {
    GroupMembers(w, hands, pg);
    if Group(w, hands, pg) != [] {
      assert Group(w, hands, pg)[0] in Group(w, hands, pg);
    }
  }

  /** A deck of at least 9 cards has hands, hence keys; a smaller one has
      neither. */
  lemma KeysExist(w: Weights, deck: seq<Card>)
    requires Weighted(w, deck) && Distinct(deck)
    ensures AllWeighted(w, Choose(deck, HandSize))
    ensures Scores(w, Choose(deck, HandSize)) == {} <==> |deck| < HandSize
  {
    HandsOfDeck(w, deck);
    var hands := Choose(deck, HandSize);
    BinomIsZero(|deck|, HandSize);
    if hands != [] {
      assert Score(w, hands[0]) in Scores(w, hands);
    }
  }

  /** Every hand kept under key `pg` scores `pg` and is 9 distinct cards of
      the deck; each group keeps min(size, max) hands. */
  lemma SelectedHands(w: Weights, deck: seq<Card>, max: nat, pg: int, sample: seq<nat>)
    requires Weighted(w, deck) && Distinct(deck)
    requires AllWeighted(w, Choose(deck, HandSize))
    requires |Group(w, Choose(deck, HandSize), pg)| > max ==> IsSample(sample, |Group(w, Choose(deck, HandSize), pg)|, max)
    ensures |Representatives(Group(w, Choose(deck, HandSize), pg), max, sample)|
         == Min(|Group(w, Choose(deck, HandSize), pg)|, max)
    ensures forall h :: h in Representatives(Group(w, Choose(deck, HandSize), pg), max, sample) ==>
      Weighted(w, h) && Score(w, h) == pg && |h| == HandSize && Distinct(h) && forall c :: c in h ==> c in deck
  {
    var g := Group(w, Choose(deck, HandSize), pg);
    var r := Representatives(g, max, sample);
    HandsOfDeck(w, deck);
    GroupMembers(w, Choose(deck, HandSize), pg);
    forall h | h in r ensures h in g {
      assert h in multiset(r);
    }
  }

  /** With the real deck every key lies between 15 and 99. */
  lemma DeckKeys()
    ensures Weighted(Cartas, CardOrder) && AllWeighted(Cartas, Choose(CardOrder, HandSize))
    ensures forall pg :: pg in Scores(Cartas, Choose(CardOrder, HandSize)) ==> 15 <= pg <= 99
  {
    assert Weighted(Cartas, CardOrder) && Distinct(CardOrder) by {
      DeckWeighted();
      DeckDistinct();
    }
    KeysBetween(CardOrder);
  }

  /** Any repeat-free list of the table's cards deals hands scoring 15 to 99. */
  lemma KeysBetween(deck: seq<Card>)
    requires Weighted(Cartas, deck) && Distinct(deck)
    ensures AllWeighted(Cartas, Choose(deck, HandSize))
    ensures forall pg :: pg in Scores(Cartas, Choose(deck, HandSize)) ==> 15 <= pg <= 99
  {
    HandsOfDeck(Cartas, deck);
    NineCardScores(Choose(deck, HandSize));
  }

  /** Hands of 9 distinct cards of the table score between 15 and 99. */
  lemma NineCardScores(hands: seq<Hand>)
    requires forall h :: h in hands ==> |h| == HandSize && Distinct(h) && Weighted(Cartas, h)
    ensures AllWeighted(Cartas, hands)
    ensures forall pg :: pg in Scores(Cartas, hands) ==> 15 <= pg <= 99
  {
    forall h | h in hands ensures 15 <= Score(Cartas, h) <= 99 {
      HandScoreBounds(h);
    }
  }
}
