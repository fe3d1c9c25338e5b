/** The Spanish 40-card deck with the weights the analysis gives each card,
    and the score of a hand: the sum of its cards' weights. */
module Cards {
  import opened Combinatorics

  /** Espadas, Oros, Bastos, Copas: the letter that ends each card code. */
  datatype Suit = Espadas | Oros | Bastos | Copas

  /** A card code such as "7E" is a rank followed by a suit letter. */
  datatype Card = Card(rank: nat, suit: Suit)

  /** A hand is a tuple of cards; the analysis only ever builds hands of
      distinct cards. */
  type Hand = seq<Card>

  /** A weight table: every card of the deck and its weight. */
  type Weights = map<Card, nat>

  /** Cards per hand. */
  const HandSize: nat := 9

  /** Entries of `cartas` with weights 1 to 3. */
  const LightRun: seq<(Card, nat)> := [
    (Card(4, Espadas), 1), (Card(4, Oros), 1), (Card(4, Bastos), 1), (Card(4, Copas), 1),
    (Card(5, Espadas), 2), (Card(5, Oros), 2), (Card(5, Bastos), 2), (Card(5, Copas), 2),
    (Card(6, Espadas), 3), (Card(6, Oros), 3), (Card(6, Bastos), 3), (Card(6, Copas), 3)
  ]

  /** Entries of `cartas` with weights 4 to 6. */
  const MiddleRun: seq<(Card, nat)> := [
    (Card(7, Bastos), 4), (Card(7, Copas), 4),
    (Card(10, Espadas), 5), (Card(10, Oros), 5), (Card(10, Bastos), 5), (Card(10, Copas), 5),
    (Card(11, Espadas), 6), (Card(11, Oros), 6), (Card(11, Bastos), 6), (Card(11, Copas), 6)
  ]

  /** Entries of `cartas` with weights 7 to 9. */
  const HighRun: seq<(Card, nat)> := [
    (Card(12, Espadas), 7), (Card(12, Oros), 7), (Card(12, Bastos), 7), (Card(12, Copas), 7),
    (Card(1, Copas), 8), (Card(1, Oros), 8),
    (Card(2, Espadas), 9), (Card(2, Oros), 9), (Card(2, Bastos), 9), (Card(2, Copas), 9)
  ]

  /** Entries of `cartas` with weights 10 to 14. */
  const TopRun: seq<(Card, nat)> := [
    (Card(3, Espadas), 10), (Card(3, Oros), 10), (Card(3, Bastos), 10), (Card(3, Copas), 10),
    (Card(7, Oros), 11),
    (Card(7, Espadas), 12),
    (Card(1, Bastos), 13),
    (Card(1, Espadas), 14)
  ]

  /** The weight table `cartas`, entry by entry in the order the source
      lists it (the runs above keep each literal small for the proofs). */
  const Table: seq<(Card, nat)> := LightRun + MiddleRun + HighRun + TopRun

  /** The cards of a list of entries, in order. */
  function CardsOf(t: seq<(Card, nat)>): seq<Card> {
    seq(|t|, i requires 0 <= i < |t| => t[i].0)
  }

  /** A dictionary built from a list of entries; a later entry for the same
      card replaces an earlier one, as in a Python dict display. */
  function ToMap(t: seq<(Card, nat)>): Weights {
    if t == [] then map[] else ToMap(t[..|t| - 1])[t[|t| - 1].0 := t[|t| - 1].1]
  }

  /** `cartas`. */
  const Cartas: Weights := ToMap(Table)

  /** `list(cartas.keys())`: the deck in the order of the table. */
  const CardOrder: seq<Card> := CardsOf(Table)

  /** The sum of the weights of a list of entries. */
  function Total(t: seq<(Card, nat)>): nat {
    if t == [] then 0 else t[0].1 + Total(t[1..])
  }

  /** The position of each card in `Table`, -1 for a card not in it. It
      serves to show that the table lists no card twice. */
  ghost function TablePosition(c: Card): int {
    match c
    case Card(4, Espadas) => 0
    case Card(4, Oros) => 1
    case Card(4, Bastos) => 2
    case Card(4, Copas) => 3
    case Card(5, Espadas) => 4
    case Card(5, Oros) => 5
    case Card(5, Bastos) => 6
    case Card(5, Copas) => 7
    case Card(6, Espadas) => 8
    case Card(6, Oros) => 9
    case Card(6, Bastos) => 10
    case Card(6, Copas) => 11
    case Card(7, Bastos) => 12
    case Card(7, Copas) => 13
    case Card(10, Espadas) => 14
    case Card(10, Oros) => 15
    case Card(10, Bastos) => 16
    case Card(10, Copas) => 17
    case Card(11, Espadas) => 18
    case Card(11, Oros) => 19
    case Card(11, Bastos) => 20
    case Card(11, Copas) => 21
    case Card(12, Espadas) => 22
    case Card(12, Oros) => 23
    case Card(12, Bastos) => 24
    case Card(12, Copas) => 25
    case Card(1, Copas) => 26
    case Card(1, Oros) => 27
    case Card(2, Espadas) => 28
    case Card(2, Oros) => 29
    case Card(2, Bastos) => 30
    case Card(2, Copas) => 31
    case Card(3, Espadas) => 32
    case Card(3, Oros) => 33
    case Card(3, Bastos) => 34
    case Card(3, Copas) => 35
    case Card(7, Oros) => 36
    case Card(7, Espadas) => 37
    case Card(1, Bastos) => 38
    case Card(1, Espadas) => 39
    case _ => -1
  }

  /** Every card of `h` has a weight (otherwise the lookup raises KeyError). */
  predicate Weighted(w: Weights, h: seq<Card>) {
    forall c :: c in h ==> c in w
  }

  /** Every hand of `hands` can be scored with `w`. */
  predicate AllWeighted(w: Weights, hands: seq<Hand>) {
    forall h :: h in hands ==> Weighted(w, h)
  }

  /** `calcular_puntos`: the sum of the weights of the hand's cards, so at
      least the weight of any one of them. */
  function Score(w: Weights, h: seq<Card>): (r: nat)
    requires Weighted(w, h)
    ensures forall c {:trigger c in h} :: c in h ==> w[c] <= r
  {
    if h == [] then 0
    else
      assert forall c {:trigger c in h} :: c in h ==> c == h[0] || c in h[1..];
      w[h[0]] + Score(w, h[1..])
  }

  /** The score of two hands put together is the sum of their scores. */
  lemma {:induction false} ScoreAppend(w: Weights, a: seq<Card>, b: seq<Card>)
    requires Weighted(w, a) && Weighted(w, b)
    ensures Weighted(w, a + b)
    ensures Score(w, a + b) == Score(w, a) + Score(w, b)
  {
    if a == [] {
      assert a + b == b;
    } else {
      assert (a + b)[1..] == a[1..] + b;
      ScoreAppend(w, a[1..], b);
    }
  }

  /** Taking the card at position j out of a hand. */
  lemma ScoreRemoveAt(w: Weights, h: seq<Card>, j: nat)
    requires Weighted(w, h) && j < |h|
    ensures Weighted(w, h[..j] + h[j + 1..])
    ensures Score(w, h) == w[h[j]] + Score(w, h[..j] + h[j + 1..])
  {
    assert h == h[..j] + ([h[j]] + h[j + 1..]);
    ScoreAppend(w, h[..j], [h[j]] + h[j + 1..]);
    ScoreAppend(w, [h[j]], h[j + 1..]);
    ScoreAppend(w, h[..j], h[j + 1..]);
  }

  lemma MultisetRemoveAt<T>(a: seq<T>, b: seq<T>, j: nat)
    requires a != [] && j < |b| && b[j] == a[0]
    requires multiset(a) == multiset(b)
    ensures multiset(a[1..]) == multiset(b[..j] + b[j + 1..])
  {
    assert b == b[..j] + [b[j]] + b[j + 1..];
    assert a == [a[0]] + a[1..];
    forall y ensures multiset(a[1..])[y] == multiset(b[..j] + b[j + 1..])[y] {
      assert multiset(a)[y] == multiset(b)[y];
    }
  }

  /** The score does not depend on the order of the cards. */
  lemma {:induction false} ScorePermutation(w: Weights, a: seq<Card>, b: seq<Card>)
    requires Weighted(w, a)
    requires multiset(a) == multiset(b)
    ensures Weighted(w, b)
    ensures Score(w, a) == Score(w, b)
    decreases |a|
  {
    assert forall c :: c in b ==> c in multiset(a);
    if a != [] {
      assert a[0] in multiset(b);
      var j :| 0 <= j < |b| && b[j] == a[0];
      MultisetRemoveAt(a, b, j);
      ScorePermutation(w, a[1..], b[..j] + b[j + 1..]);
      ScoreRemoveAt(w, b, j);
    }
  }

  /** Two hands of distinct cards holding the same cards score the same. */
  lemma ScoreOfSameCards(w: Weights, a: Hand, b: Hand)
    requires Weighted(w, a)
    requires Distinct(a) && Distinct(b) && Elems(a) == Elems(b)
    ensures Weighted(w, b)
    ensures Score(w, a) == Score(w, b)
  {
    DistinctSameElems(a, b);
    ScorePermutation(w, a, b);
  }

  /** `list(set(cards) - set(base))`: the cards of `cards` that are not in
      `base`. Python leaves the order of the set unspecified; this keeps the
      order of `cards`. */
  function Remaining(cards: seq<Card>, base: seq<Card>): (r: seq<Card>)
    ensures forall c :: c in r <==> c in cards && c !in base
    ensures |r| <= |cards|
  {
    if cards == [] then []
    else if cards[0] in base then Remaining(cards[1..], base)
    else [cards[0]] + Remaining(cards[1..], base)
  }

  /** Filtering by two bases that agree on the cards filtered. */
  lemma {:induction false} RemainingAgree(cards: seq<Card>, a: seq<Card>, b: seq<Card>)
    requires forall c :: c in cards ==> (c in a <==> c in b)
    ensures Remaining(cards, a) == Remaining(cards, b)
  {
    if cards != [] {
      RemainingAgree(cards[1..], a, b);
    }
  }

  /** Dealing a hand of distinct cards out of a deck of distinct cards leaves
      |deck| - |hand| distinct cards, and splits the deck's total score
      between the hand and what is left. */
  lemma {:induction false} RemainingSplit(w: Weights, cards: seq<Card>, base: Hand)
    requires Weighted(w, cards)
    requires Distinct(cards) && Distinct(base)
    requires forall c :: c in base ==> c in cards
    ensures Distinct(Remaining(cards, base))
    ensures |Remaining(cards, base)| == |cards| - |base|
    ensures Weighted(w, base)
    ensures Score(w, cards) == Score(w, base) + Score(w, Remaining(cards, base))
    decreases |cards|
  {
    RemainingDistinct(cards, base);
    if cards == [] {
      DistinctWithin(base, cards);
    } else {
      var x, tail := cards[0], cards[1..];
      HeadTail(cards);
      if x in base {
        var j :| 0 <= j < |base| && base[j] == x;
        var rest := base[..j] + base[j + 1..];
        DealtCard(cards, base, j);
        RemainingSplit(w, tail, rest);
        RemainingAgree(tail, base, rest);
        ScoreRemoveAt(w, base, j);
      } else {
        RemainingSplit(w, tail, base);
      }
    }
  }

  /** Taking the deck's first card out of the hand dealt from it. */
  lemma DealtCard(cards: seq<Card>, base: Hand, j: nat)
    requires Distinct(cards) && Distinct(base) && cards != []
    requires forall c :: c in base ==> c in cards
    requires j < |base| && base[j] == cards[0]
    ensures Distinct(base[..j] + base[j + 1..])
    ensures forall c :: c in base[..j] + base[j + 1..] ==> c in cards[1..]
    ensures forall c :: c in cards[1..] ==> (c in base <==> c in base[..j] + base[j + 1..])
  {
    var rest := base[..j] + base[j + 1..];
    RemoveAt(base, j);
    HeadTail(cards);
    forall c | c in rest ensures c in cards[1..] {
      assert c in Elems(rest);
    }
    forall c | c in cards[1..] ensures c in base <==> c in rest {
      assert c in Elems(base) <==> c in Elems(rest);
    }
  }

  /** Filtering a repeat-free deck leaves it repeat-free. */
  lemma {:induction false} RemainingDistinct(cards: seq<Card>, base: seq<Card>)
    requires Distinct(cards)
    ensures Distinct(Remaining(cards, base))
  {
    if cards != [] {
      var tail := cards[1..];
      RemainingDistinct(tail, base);
      var r := Remaining(cards, base);
      if cards[0] !in base {
        assert r == [cards[0]] + Remaining(tail, base);
        forall p, q | 0 <= p < q < |r| ensures r[p] != r[q] {
          if p == 0 {
            assert r[q] in Remaining(tail, base);
          } else {
            assert r[p] == Remaining(tail, base)[p - 1];
            assert r[q] == Remaining(tail, base)[q - 1];
          }
        }
      }
    }
  }

  /** The dictionary has exactly the cards of the list as keys. */
  lemma {:induction false} ToMapKeys(t: seq<(Card, nat)>)
    ensures ToMap(t).Keys == Elems(CardsOf(t))
  {
    if t != [] {
      var front := t[..|t| - 1];
      ToMapKeys(front);
      assert CardsOf(t) == CardsOf(front) + [t[|t| - 1].0];
    }
  }

  /** When no card is listed twice, each card maps to its own entry's weight. */
  lemma {:induction false} ToMapLookup(t: seq<(Card, nat)>, i: nat)
    requires Distinct(CardsOf(t)) && i < |t|
    ensures t[i].0 in ToMap(t) && ToMap(t)[t[i].0] == t[i].1
  {
    var front := t[..|t| - 1];
    if i < |t| - 1 {
      assert CardsOf(front) == CardsOf(t)[..|t| - 1];
      assert CardsOf(t)[i] != CardsOf(t)[|t| - 1];
      ToMapLookup(front, i);
    }
  }

  /** Scoring the cards of a list of entries adds up the entries' weights. */
  lemma {:induction false} ScoreOfEntries(w: Weights, t: seq<(Card, nat)>)
    requires forall i :: 0 <= i < |t| ==> t[i].0 in w && w[t[i].0] == t[i].1
    ensures Weighted(w, CardsOf(t))
    ensures Score(w, CardsOf(t)) == Total(t)
  {
    if t != [] {
      ScoreOfEntries(w, t[1..]);
      assert CardsOf(t)[1..] == CardsOf(t[1..]);
    }
  }

  lemma {:induction false} TotalAppend(a: seq<(Card, nat)>, b: seq<(Card, nat)>)
    ensures Total(a + b) == Total(a) + Total(b)
  {
    if a == [] {
      assert a + b == b;
    } else {
      assert (a + b)[1..] == a[1..] + b;
      TotalAppend(a[1..], b);
    }
  }

  lemma LightTotal() ensures Total(LightRun) == 24 {}
  lemma MiddleTotal() ensures Total(MiddleRun) == 52 {}
  lemma HighTotal() ensures Total(HighRun) == 80 {}
  lemma TopTotal() ensures Total(TopRun) == 90 {}

  lemma LightPrefix()
    ensures Total(LightRun[..9]) == 15
  {
    assert Total(LightRun[9..]) == 9 by {
      var sixes := [(Card(6, Oros), 3), (Card(6, Bastos), 3), (Card(6, Copas), 3)];
      assert Total(sixes) == 9;
      assert LightRun[9..] == sixes;
    }
    assert LightRun == LightRun[..9] + LightRun[9..];
    TotalAppend(LightRun[..9], LightRun[9..]);
    LightTotal();
  }

  lemma HighPrefix()
    ensures Total(HighRun[..9]) == 71
  {
    HighTotal();
    assert HighRun == HighRun[..9] + HighRun[9..];
    TotalAppend(HighRun[..9], HighRun[9..]);
    assert HighRun[9..] == [(Card(2, Copas), 9)];
  }

  lemma RunPositions()
    ensures forall i | 0 <= i < |LightRun| :: TablePosition(LightRun[i].0) == i
    ensures forall i | 0 <= i < |MiddleRun| :: TablePosition(MiddleRun[i].0) == 12 + i
    ensures forall i | 0 <= i < |HighRun| :: TablePosition(HighRun[i].0) == 22 + i
    ensures forall i | 0 <= i < |TopRun| :: TablePosition(TopRun[i].0) == 32 + i
  {
  }

  /** Within each run weights never decrease, and the runs cover 1 to 3,
      4 to 6, 7 to 9 and 10 to 14. */
  lemma RunWeights()
    ensures forall i, j | 0 <= i < j < |LightRun| :: LightRun[i].1 <= LightRun[j].1
    ensures forall i, j | 0 <= i < j < |MiddleRun| :: MiddleRun[i].1 <= MiddleRun[j].1
    ensures forall i, j | 0 <= i < j < |HighRun| :: HighRun[i].1 <= HighRun[j].1
    ensures forall i, j | 0 <= i < j < |TopRun| :: TopRun[i].1 <= TopRun[j].1
    ensures forall i | 0 <= i < |LightRun| :: 1 <= LightRun[i].1 <= 3
    ensures forall i | 0 <= i < |MiddleRun| :: 4 <= MiddleRun[i].1 <= 6
    ensures forall i | 0 <= i < |HighRun| :: 7 <= HighRun[i].1 <= 9
    ensures forall i | 0 <= i < |TopRun| :: 10 <= TopRun[i].1 <= 14
  {
  }

  /** The table lists 40 cards, no card twice. */
  lemma DeckDistinct()
    ensures |Table| == 40 && |CardOrder| == 40
    ensures Distinct(CardOrder)
  {
    RunPositions();
    assert forall i | 0 <= i < 40 :: TablePosition(CardOrder[i]) == i;
  }

  /** `cartas` has 40 keys, the cards of `CardOrder`, and each card weighs
      what its entry says. */
  lemma DeckLookup()
    ensures Cartas.Keys == Elems(CardOrder) && |Cartas| == 40
    ensures forall i :: 0 <= i < |Table| ==> CardOrder[i] in Cartas && Cartas[CardOrder[i]] == Table[i].1
  {
    DeckDistinct();
    ToMapKeys(Table);
    DistinctCardinality(CardOrder);
    forall i | 0 <= i < |Table| ensures CardOrder[i] in Cartas && Cartas[CardOrder[i]] == Table[i].1 {
      ToMapLookup(Table, i);
    }
  }

  /** The weights of the table, position by position: from 1 to 14, never
      decreasing. */
  lemma TableWeights()
    ensures |Table| == 40
    ensures forall i | 0 <= i < |Table| :: 1 <= Table[i].1 <= 14
    ensures forall i, j | 0 <= i < j < |Table| :: Table[i].1 <= Table[j].1
  {
    RunWeights();
    var a, b, c := |LightRun|, |LightRun| + |MiddleRun|, |LightRun| + |MiddleRun| + |HighRun|;
    assert forall i | 0 <= i < a :: Table[i] == LightRun[i];
    assert forall i | a <= i < b :: Table[i] == MiddleRun[i - a];
    assert forall i | b <= i < c :: Table[i] == HighRun[i - b];
    assert forall i | c <= i < |Table| :: Table[i] == TopRun[i - c];
  }

  /** Every card of the deck weighs 1 to 14. */
  lemma DeckWeights()
    ensures forall c :: c in Cartas ==> 1 <= Cartas[c] <= 14
  {
    DeckLookup();
    TableWeights();
    forall c | c in Cartas ensures 1 <= Cartas[c] <= 14 {
      assert c in Elems(CardOrder);
      var i :| 0 <= i < |CardOrder| && CardOrder[i] == c;
    }
  }

  /** Every card of the deck has a weight. */
  lemma DeckWeighted()
    ensures Weighted(Cartas, CardOrder)
  {
    DeckLookup();
  }

  /** The whole deck weighs 246. */
  lemma DeckTotal()
    ensures Weighted(Cartas, CardOrder)
    ensures Score(Cartas, CardOrder) == 246
  {
    DeckLookup();
    ScoreOfEntries(Cartas, Table);
    TableTotal();
  }

  /** The entries of the table add up to 246. */
  lemma TableTotal()
    ensures Total(Table) == 246
  {
    LightTotal();
    MiddleTotal();
    HighTotal();
    TopTotal();
    TotalAppend(LightRun, MiddleRun);
    TotalAppend(LightRun + MiddleRun, HighRun);
    TotalAppend(LightRun + MiddleRun + HighRun, TopRun);
  }

  /** Weights never decrease along `order`. */
  predicate Ascending(w: Weights, order: seq<Card>) {
    Weighted(w, order) &&
    forall i, j :: 0 <= i < j < |order| ==> w[order[i]] <= w[order[j]]
  }

  lemma AscendingTail(w: Weights, order: seq<Card>)
    requires Ascending(w, order) && order != []
    ensures Ascending(w, order[1..])
  {
    var next := order[1..];
    forall i, j | 0 <= i < j < |next| ensures w[next[i]] <= w[next[j]] {
      assert next[i] == order[i + 1] && next[j] == order[j + 1];
    }
  }

  /** In an ascending order, the k cards after the first outweigh the first k. */
  lemma {:induction false} ShiftedPrefix(w: Weights, order: seq<Card>, k: nat)
    requires Ascending(w, order) && k < |order|
    ensures Score(w, order[1..k + 1]) >= Score(w, order[..k])
  {
    if k > 0 {
      var next := order[1..];
      AscendingTail(w, order);
      ShiftedPrefix(w, next, k - 1);
      assert next[1..k] == order[2..k + 1];
      assert next[..k - 1] == order[1..k];
      assert order[1..k + 1] == [order[1]] + order[2..k + 1];
      assert order[..k] == [order[0]] + order[1..k];
    }
  }

  /** A hand of distinct cards taken from an ascending order scores at least
      as much as the same number of cards at the front of that order. */
  lemma {:induction false} LowestPrefixBound(w: Weights, order: seq<Card>, h: Hand)
    requires Ascending(w, order)
    requires Distinct(h)
    requires forall c :: c in h ==> c in order
    ensures |h| <= |order|
    ensures Weighted(w, h)
    ensures Score(w, h) >= Score(w, order[..|h|])
    decreases |order|
  {
    if h != [] {
      assert h[0] in order;
      var x, next := order[0], order[1..];
      AscendingTail(w, order);
      if j :| 0 <= j < |h| && h[j] == x {
        var rest := h[..j] + h[j + 1..];
        RemoveAt(h, j);
        forall c | c in rest ensures c in next {
          assert c in Elems(rest);
          assert c != x && c in order;
        }
        LowestPrefixBound(w, next, rest);
        ScoreRemoveAt(w, h, j);
        assert order[..|h|] == [x] + next[..|rest|];
      } else {
        forall c | c in h ensures c in next {
          assert c != x;
        }
        LowestPrefixBound(w, next, h);
        ShiftedPrefix(w, order, |h|);
        assert next[..|h|] == order[1..|h| + 1];
      }
    }
  }

  /** The table lists the cards from lightest to heaviest; its 9 lightest
      cards weigh 15 and its 31 lightest weigh 147. */
  lemma DeckOrder()
    ensures Ascending(Cartas, CardOrder)
    ensures Score(Cartas, CardOrder[..9]) == 15
    ensures Score(Cartas, CardOrder[..31]) == 147
  {
    DeckAscending();
    DeckLightest();
  }

  lemma DeckAscending()
    ensures Ascending(Cartas, CardOrder)
  {
    DeckLookup();
    TableWeights();
  }

  lemma DeckLightest()
    ensures Weighted(Cartas, CardOrder[..9]) && Score(Cartas, CardOrder[..9]) == 15
    ensures Weighted(Cartas, CardOrder[..31]) && Score(Cartas, CardOrder[..31]) == 147
  {
    DeckLookup();
    var light, bulk := Table[..9], Table[..31];
    assert light == LightRun[..9];
    assert bulk == LightRun + MiddleRun + HighRun[..9];
    assert CardOrder[..9] == CardsOf(light);
    assert CardOrder[..31] == CardsOf(bulk);
    ScoreOfEntries(Cartas, light);
    ScoreOfEntries(Cartas, bulk);
    LightPrefix();
    LightTotal();
    MiddleTotal();
    HighPrefix();
    TotalAppend(LightRun, MiddleRun);
    TotalAppend(LightRun + MiddleRun, HighRun[..9]);
  }

  /** A hand of 9 distinct cards of the deck scores at least 15. */
  lemma HandScoreAtLeast(h: Hand)
    requires Distinct(h) && |h| == HandSize
    requires Weighted(Cartas, h)
    ensures Score(Cartas, h) >= 15
  {
    DeckLookup();
    DeckOrder();
    forall c | c in h ensures c in CardOrder {
      assert c in Elems(CardOrder);
    }
    LowestPrefixBound(Cartas, CardOrder, h);
  }

  /** A hand of 9 distinct cards of the deck scores at most 99: the 31 cards
      left weigh at least 147 of the deck's 246. */
  lemma HandScoreAtMost(h: Hand)
    requires Distinct(h) && |h| == HandSize
    requires Weighted(Cartas, h)
    ensures Score(Cartas, h) <= 99
  {
    DeckDistinct();
    DeckLookup();
    DeckTotal();
    DeckOrder();
    forall c | c in h ensures c in CardOrder {
      assert c in Elems(CardOrder);
    }
    var rest := Remaining(CardOrder, h);
    RemainingSplit(Cartas, CardOrder, h);
    LowestPrefixBound(Cartas, CardOrder, rest);
  }

  /** Dealing 9 distinct cards of the deck leaves 31 distinct cards. */
  lemma DealtFromDeck(h: Hand)
    requires Distinct(h) && |h| == HandSize
    requires Weighted(Cartas, h)
    ensures Weighted(Cartas, CardOrder) && Distinct(CardOrder)
    ensures |Remaining(CardOrder, h)| == 31 && Distinct(Remaining(CardOrder, h))
  {
    DeckDistinct();
    DeckLookup();
    DeckTotal();
    forall c | c in h ensures c in CardOrder {
      assert c in Elems(CardOrder);
    }
    RemainingSplit(Cartas, CardOrder, h);
  }

  /** `h` is 9 distinct cards of `deck`: a hand that can be dealt from it. */
  predicate DealtFrom(h: Hand, deck: seq<Card>) {
    Distinct(h) && |h| == HandSize && forall c :: c in h ==> c in deck
  }

  /** No hand dealt from `deck` scores more than `top`. */
  ghost predicate HandsAtMost(w: Weights, deck: seq<Card>, top: int) {
    forall h: Hand :: DealtFrom(h, deck) ==> Weighted(w, h) && Score(w, h) <= top
  }

  /** No 9 distinct cards of the deck score more than 99. */
  lemma DeckHandsAtMost()
    ensures HandsAtMost(Cartas, CardOrder, 99)
  {
    DeckLookup();
    forall h: Hand | DealtFrom(h, CardOrder)
      ensures Weighted(Cartas, h) && Score(Cartas, h) <= 99
    {
      forall c | c in h ensures c in Cartas {
        assert c in Elems(CardOrder);
      }
      HandScoreAtMost(h);
    }
  }

  /** Any hand of 9 distinct cards of the deck scores between 15 and 99. */
  lemma HandScoreBounds(h: Hand)
    requires Distinct(h) && |h| == HandSize
    requires Weighted(Cartas, h)
    ensures 15 <= Score(Cartas, h) <= 99
  {
    HandScoreAtLeast(h);
    HandScoreAtMost(h);
  }
}
