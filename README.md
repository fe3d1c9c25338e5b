# Truco hand probabilities — a Dafny model

`truco.py` works with a 40-card Spanish deck in which every card has a
weight from 1 to 14. A 9-card hand scores the sum of its cards' weights,
called its "PG". The program does three things:

1. It enumerates every 9-card hand of the deck and groups the hands by
   score.
2. It keeps every hand of a group, or, when the group is larger than a
   requested count (1 to 1000), a random selection of that many hands.
3. For each kept hand, it estimates how likely a 9-card hand of the 31
   remaining cards is to score strictly more. It enumerates every such hand
   when there are at most `max_muestras` (10000) of them, and otherwise
   draws `max_muestras` random ones. Each group's estimates get a mean, a
   minimum and a maximum.

The project models this engine in Dafny over any finite deck with weights.
It also instantiates the engine for the real deck.

- `Cards` (cards.dfy) models the weight table `cartas` as a list of entries
  in the source's order. It also models `calcular_puntos`, and `Remaining`
  (the cards left once a hand is dealt).
- `Combinatorics` (combinatorics.dfy) models three library calls:
  - `math.comb` as `Binom`;
  - `itertools.combinations` as `Choose`, with lexicographic order of
    positions;
  - `random.sample` as a given list of distinct positions (`IsSample`,
    `Pick`).
- `Format` (format.dfy) models `formatear_combinacion`: card codes sorted
  as Python compares strings, then joined with spaces.
- `Labels` (labels.dfy) models `obtener_letra_combinacion` as written. It
  also models the spreadsheet-column naming that the function evidently
  means to follow.
- `Grouping` (grouping.dfy) models `calcular_probabilidades_por_pg`, with
  two loops:
  - the first appends each hand to its score's list in a dictionary;
  - the second keeps each list whole or cut down by
    `find_representative_combinations`.
- `Conditional` (conditional.dfy) models `calcular_probabilidad_condicional`.
  Its counting loop is checked against `CountAbove`, the number of hands
  scoring strictly more than the base hand.
- `Analysis` (analysis.dfy) models `analizar_probabilidades`:
  - the keys are walked in ascending order;
  - within each group the hands and their estimates grow in step;
  - each group gets its statistics;
  - each hand gets its label as written, so a group that keeps more than
    702 hands stops the analysis with IndexError, as the code does.

Random choices are inputs, as described here:

- The selection of a group's hands is `picks(pg)`.
- The sampled hands for the `i`-th hand of group `pg` are `draws(pg, i)`.

Each is a list of positions that must be distinct and in range, as
`random.sample` guarantees. An estimate is the pair (hits, hands examined).
Its probability is the exact rational `hits / examined`, as a `real`.

A division by zero is an error of the model (`ZeroDivisionError` in
`Outcomes.Result`), not a zero estimate, because that is what the code at
truco.py:145 and truco.py:160 does.

## Model

| member | source | states |
|---|---|---|
| Cards.DeckDistinct | truco.py:14-29 | the table lists 40 cards and no card twice |
| Cards.DeckLookup | truco.py:14-29 | `cartas` has exactly the 40 listed cards as keys, and each maps to the weight of its entry |
| Cards.DeckWeights | truco.py:14-29 | every card weighs between 1 and 14 |
| Cards.DeckTotal | truco.py:14-29 | the weights of the deck add up to 246 |
| Cards.DeckOrder | truco.py:14-29 | the table lists the cards from lightest to heaviest; the 9 lightest weigh 15 and the 31 lightest weigh 147 |
| Cards.ToMapKeys | truco.py:14-29 | a dict display has exactly the listed cards as keys |
| Cards.ToMapLookup | truco.py:14-29 | when no card is listed twice, a dict display maps each card to its own entry's weight |
| Cards.Score | truco.py:31-32 | `calcular_puntos` scores a hand at least the weight of each of its cards |
| Cards.ScoreAppend | truco.py:31-32 | the score of two hands put together is the sum of their scores |
| Cards.ScorePermutation | truco.py:31-32 | the score does not depend on the order of the cards |
| Cards.ScoreOfSameCards | truco.py:31-32 | two repeat-free hands with the same cards score the same |
| Cards.ScoreRemoveAt | truco.py:31-32 | a hand scores one card's weight plus the score of the hand without that card |
| Cards.LowestPrefixBound | truco.py:31-32 | in a deck ordered by weight, k distinct cards score at least as much as the k lightest |
| Cards.HandScoreAtLeast | truco.py:31-32 | any 9 distinct cards of the deck score at least 15 |
| Cards.HandScoreAtMost | truco.py:31-32 | any 9 distinct cards of the deck score at most 99 |
| Cards.HandScoreBounds | truco.py:31-32 | any 9 distinct cards of the deck score between 15 and 99 |
| Cards.DeckHandsAtMost | truco.py:31-32 | no hand dealt from the deck scores more than 99 |
| Cards.Remaining | truco.py:126 | a card is left exactly when it is in the deck and not in the base hand |
| Cards.RemainingSplit | truco.py:126 | dealing a repeat-free hand from a repeat-free deck leaves \|deck\| - \|hand\| distinct cards, and splits the deck's score between the hand and the rest |
| Cards.RemainingDistinct | truco.py:126 | the cards left have no repeats |
| Cards.RemainingAgree | truco.py:126 | the cards left depend only on which deck cards the base hand holds |
| Cards.DealtFromDeck | truco.py:126-127 | a 9-card hand dealt from the real deck leaves 31 distinct cards |
| Combinatorics.Choose | truco.py:85 | `combinations(xs, k)` yields C(\|xs\|, k) hands |
| Combinatorics.ChooseMembers | truco.py:85 | every enumerated hand has k cards, all taken from `xs` |
| Combinatorics.ChooseDistinct | truco.py:85 | the hands enumerated from a repeat-free deck are repeat-free |
| Combinatorics.ChooseExactlyOnce | truco.py:85 | each k-subset of a repeat-free deck is enumerated exactly once, and nothing else is |
| Combinatorics.SetsOfOccurrences | truco.py:85 | the multiset of card sets of a list of hands counts each set as often as the hands hold it |
| Combinatorics.SetsOfRemoveAt | truco.py:85 | taking out one hand takes out one copy of its set |
| Combinatorics.ChooseSameSets | truco.py:126-127 | two orders of the same distinct cards give the same k-card sets, each once |
| Combinatorics.Binom | truco.py:127 | `math.comb(n, k)` is 0 when k > n |
| Combinatorics.BinomIsZero | truco.py:127 | C(n, k) is 0 exactly when k > n |
| Combinatorics.BinomOne | truco.py:127 | C(n, 1) == n |
| Combinatorics.BinomDiagonal | truco.py:127 | C(n, n) == 1 |
| Combinatorics.BinomAbsorption | truco.py:127 | k * C(n, k) == n * C(n - 1, k - 1) |
| Combinatorics.BinomTriples | truco.py:127 | while 3k <= n, C(n, k) is at least 3 * C(n - 1, k - 1) |
| Combinatorics.BinomGrowth | truco.py:127 | while 3k <= n, C(n, k) >= 3^(k - 1) * (n - k + 1) |
| Combinatorics.BinomThirtyOneNine | truco.py:127 | C(31, 9) is at least 150903 |
| Combinatorics.Pick | truco.py:68 | `random.sample` at distinct positions takes no element more often than the population holds it, and from a repeat-free population gives a repeat-free sample |
| Combinatorics.SelectionSubMultiset | truco.py:68 | elements taken at distinct positions of a list form a sub-multiset of it |
| Combinatorics.DistinctSameElems | truco.py:126 | two repeat-free lists of the same elements are permutations of each other |
| Labels.Index | truco.py:41 | Python string indexing succeeds exactly for positions from -len to len - 1 |
| Labels.UppercaseLetters | truco.py:41 | `ascii_uppercase` is the 26 letters in order |
| Labels.Label | truco.py:38-44 | `obtener_letra_combinacion` as written gives one or two capital letters, or fails with IndexError and in no other way |
| Labels.LabelIsColumn | truco.py:38-44 | for 1..702 the label as written is the column name: one letter up to 26, two letters up to 702 |
| Labels.LabelDefined | truco.py:38-44 | for positive positions the label as written exists exactly up to 702, and beyond it raises IndexError |
| Labels.LabelInjective | truco.py:38-44 | labels 1..702 are pairwise different |
| Labels.LabelFailsAt703 | truco.py:43-44 | position 703 has no label as written, while its column name is "AAA" |
| Labels.Column | truco.py:38-44 | the corrected naming is a non-empty string of capital letters for every n >= 1 |
| Labels.ColumnRoundTrip | truco.py:38-44 | reading a column name back gives its number |
| Labels.NumberRoundTrip | truco.py:38-44 | every non-empty string of capital letters is the column name of the number it reads as |
| Labels.ColumnInjective | truco.py:38-44 | different numbers get different column names |
| Labels.ColumnLength | truco.py:38-44 | a column name has one letter exactly up to 26, and two letters exactly from 27 to 702 |
| Format.Code | truco.py:14-29 | a card code reads back as its card: the numeral before the last character is the rank and the last character is the suit's letter |
| Format.Decimal | truco.py:14-29 | a rank's numeral is a non-empty string of digits |
| Format.DecimalRoundTrip | truco.py:14-29 | a numeral reads back as its number |
| Format.CodeInjective | truco.py:14-29 | different cards have different codes |
| Format.CodeHasNoSpace | truco.py:14-29 | a card code is non-empty and has no space |
| Format.Codes | truco.py:36 | the codes of a hand, card by card |
| Format.LexTotal | truco.py:36 | Python's string order compares any two strings |
| Format.LexAntisymmetric | truco.py:36 | two strings that each sort no later than the other are equal |
| Format.LexTransitive | truco.py:36 | Python's string order is transitive |
| Format.Insert | truco.py:36 | putting a word into a sorted list keeps it sorted and adds exactly that word |
| Format.Sort | truco.py:36 | `sorted` returns a sorted permutation of its input |
| Format.SortedUnique | truco.py:36 | two sorted lists holding the same words are equal, so `sorted` has only one possible result |
| Format.Split | truco.py:36 | splitting on spaces gives at least one piece |
| Format.SplitJoin | truco.py:36 | splitting a space-join of words without spaces gives the words back |
| Format.CodesCount | truco.py:36 | a card's code occurs among a hand's codes as often as the card occurs in the hand |
| Format.SameCodes | truco.py:36 | two hands have the same codes exactly when they have the same cards |
| Format.FormatHand | truco.py:34-36 | splitting the formatted text of a non-empty hand on spaces gives its card codes in Python's sorted order |
| Format.FormatPieces | truco.py:34-36 | the pieces of a formatted hand are its card codes, once per card, in ascending order |
| Format.FormatEmpty | truco.py:34-36 | only the empty hand formats as the empty string |
| Format.FormatSameCards | truco.py:34-36 | two hands format alike exactly when they hold the same cards |
| Grouping.Representatives | truco.py:61-68 | min(len, max) hands are kept: all of them, unchanged, when there are at most `max`, and otherwise those at the sampled positions; no hand is kept more often than it occurs |
| Grouping.Group | truco.py:85-87 | the list under key `pg` holds no more hands than were enumerated, and each hand in it was enumerated and scores `pg` |
| Grouping.GroupMembers | truco.py:84-87 | a group holds exactly the hands that score its key |
| Grouping.GroupByScore | truco.py:84-87 | the first pass ends with one key per score that occurs, each holding its group in enumeration order, and the keys listed once each in insertion order, that is `FirstScores` of the hands |
| Grouping.FirstScoresKeys | truco.py:84-87 | the insertion order lists every score of the hands, once |
| Grouping.FirstScoresPrefix | truco.py:84-87 | in insertion order the keys of any first hands come first, in the same order: a key precedes another exactly when its first hand does |
| Grouping.FirstScoresStep | truco.py:85-87 | one more hand appends its score to the insertion order when the score is new, and leaves the order alone otherwise |
| Grouping.GroupedStep | truco.py:85-87 | appending one more hand to its score's list, or opening a list for a new score, keeps the grouping state |
| Grouping.GroupOccurrences | truco.py:84-87 | a set of cards is counted in the group of its score as often as among the hands, and in no other group |
| Grouping.HandsOfDeck | truco.py:85 | every enumerated hand is 9 distinct cards of the deck and can be scored |
| Grouping.EachHandInOneGroup | truco.py:84-87 | each 9-card subset of the deck lies in exactly one group, the group of its score |
| Grouping.GroupNotEmpty | truco.py:87 | a key exists exactly when its group is not empty |
| Grouping.KeysExist | truco.py:84-87 | there are keys exactly when the deck has at least 9 cards |
| Grouping.SelectRepresentatives | truco.py:96-106 | the second pass keeps the same keys and stores under each key the representatives of its group |
| Grouping.SelectedHands | truco.py:96-106 | a kept list has min(group size, max) hands, each 9 distinct cards of the deck that score the key |
| Grouping.ScoreGroups | truco.py:70-118 | the result has one key per score of a 9-card hand, each holding the representatives of that score's group, with the keys in insertion order (`FirstScores` of the enumerated hands) |
| Grouping.DeckKeys | truco.py:84-87 | with the real deck every key is between 15 and 99 |
| Conditional.Value | truco.py:145 | the probability is between 0 and 1; it is 0 exactly when there are no hits and 1 exactly when every hand examined is a hit |
| Conditional.CountAbove | truco.py:152-153 | the hits number at most the hands examined |
| Conditional.CountAboveZero | truco.py:152-153 | there are no hits exactly when no hand scores more than the base |
| Conditional.CountAboveAll | truco.py:152-153 | every hand is a hit exactly when all score more than the base |
| Conditional.TiesNotCounted | truco.py:152-153 | lowering the base score by one adds exactly the hands that tie it: ties are not hits |
| Conditional.CountAboveMonotone | truco.py:152-153 | a higher base score has no more hits |
| Conditional.Samples | truco.py:135-136 | every sampled hand is 9 of the remaining cards, and repeat-free when the remaining cards are |
| Conditional.CountAboveAppend | truco.py:151-153 | the hits of two lists put together add up |
| Conditional.CountAboveRemoveAt | truco.py:151-153 | taking out one hand takes out its hit, if it is one |
| Conditional.CountAboveSameSets | truco.py:151-153 | two lists of repeat-free hands holding the same card sets, each as often, have as many hits |
| Conditional.ChooseCountOrderFree | truco.py:126-153 | the hands of two orders of the same distinct cards have as many hits |
| Conditional.ExhaustiveOrderFree | truco.py:126-160 | when every hand is counted, any order of `set(deck) - set(base)` gives the same estimate |
| Conditional.ConditionalSpec | truco.py:120-163 | `calcular_probabilidad_condicional` on a repeat-free deck returns a count of hits no larger than the hands examined, with at least one hand examined, or fails by division by zero and in no other way |
| Conditional.ConditionalFails | truco.py:130-160 | the count fails exactly when `max_muestras` is 0 or fewer than 9 cards remain, and the failure is a division by zero |
| Conditional.ConditionalExamined | truco.py:130-160 | a successful count examines `max` hands when more than `max` hands exist and all C(n, 9) hands otherwise, and finds at most that many hits |
| Conditional.ConditionalUnbeaten | truco.py:125-160 | a base hand that scores at least what any 9 cards of the deck can score has no hits, in either branch |
| Conditional.DeckSampling | truco.py:126-145 | with the real deck and a 9-card base hand, C(31, 9) exceeds 10000, so the sampling branch runs and examines 10000 hands |
| Conditional.DeckTopHandUnbeaten | truco.py:130-145 | with the real deck, a base hand scoring 99 has probability 0 out of 10000 samples |
| Conditional.CountBeating | truco.py:151-153 | the counting loop finds exactly `CountAbove` hits |
| Conditional.ConditionalProbability | truco.py:120-163 | the method returns what `ConditionalSpec` defines, in both branches and on both failure paths |
| Analysis.InsertKey | truco.py:177 | putting a new key into an ascending list keeps it strictly ascending and adds exactly that key |
| Analysis.SortKeys | truco.py:177 | `sorted(keys)` is strictly ascending and has the same keys |
| Analysis.IncreasingUnique | truco.py:177 | two strictly ascending lists of the same keys are equal |
| Analysis.SortKeysCanonical | truco.py:177 | the walking order does not depend on the order in which the dictionary received its keys |
| Analysis.Minimum | truco.py:200 | `np.min` is an element that no element is below |
| Analysis.Maximum | truco.py:201 | `np.max` is an element that no element exceeds |
| Analysis.SumBounds | truco.py:199 | a sum of n values between lo and hi lies between n * lo and n * hi |
| Analysis.Mean | truco.py:199-201 | `np.mean` lies between `np.min` and `np.max` |
| Analysis.Probabilities | truco.py:192 | the i-th probability is the i-th count's ratio, between 0 and 1 |
| Analysis.Summarize | truco.py:197-203 | a group's record keeps its probabilities, and 0 <= minimum <= mean <= maximum <= 1, with minimum and maximum among the probabilities |
| Analysis.DealtLeaves | truco.py:126 | a hand dealt from a repeat-free deck leaves \|deck\| - 9 cards |
| Analysis.ProbabilityOutcome | truco.py:191 | the count for a kept hand succeeds exactly when the deck has at least 18 cards, fails only by division by zero, and otherwise gives a probability |
| Analysis.AnalyzeHand | truco.py:191 | one kept hand's count is `calcular_probabilidad_condicional` with the default `max_muestras`: it succeeds exactly when the deck has at least 18 cards, and a success is a probability |
| Analysis.LabelHand | truco.py:187 | the label of the i-th hand as written exists for the first 702 hands, and beyond them raises IndexError |
| Analysis.AnalyzeGroup | truco.py:183-193 | within a group, the i-th estimate is the count for the i-th hand with its own draws; it fails by division by zero when the deck has fewer than 18 cards, and otherwise by IndexError exactly when the group has more than 702 hands |
| Analysis.KeptHands | truco.py:170-179 | the hands kept under a key are not empty, are dealt from the deck and score the key |
| Analysis.SelectedKept | truco.py:179 | the list under a selected key holds kept hands |
| Analysis.AnalyzeEntry | truco.py:178-203 | one pass of the outer loop fails by division by zero below 18 cards and by IndexError for a list of more than 702 hands; otherwise it adds exactly the key, with its kept hands, and keeps every entry consistent |
| Analysis.AnalyzeKeys | truco.py:177-203 | the keys are walked in the given order; the analysis fails by division by zero below 18 cards, by IndexError when a kept list has more than 702 hands, and otherwise every key, and no other, has its hands, counts and statistics |
| Analysis.Analyze | truco.py:165-215 | the keys are the scores of the deck's 9-card hands, walked in strictly ascending order; every key, and no other, holds its kept hands and, in step with them, their counts and statistics; the analysis fails by division by zero exactly when the deck has 9 to 17 cards, and, with at least 18 cards, by IndexError exactly when some group keeps more than 702 hands |

Proof steps that carry no row of their own:

- `Analysis.CountedExtend`, `Analysis.EntriesStep`, `Analysis.MapsStep`,
  `Analysis.UpdatedKeys`, `Analysis.WalkedStep` and `Analysis.WalkedAll` keep
  the loop invariants of `AnalyzeGroup` and `AnalyzeKeys`.
- `Analysis.SmallCountLabelled` shows that a count of at most 702 leaves
  every kept hand a label.
- `Analysis.SumBetween` bounds the mean for `Mean`.
- `Grouping.GroupedNone` and `Grouping.GroupedAll` open and close the
  first pass's loop invariant.
- `Grouping.KeysBetween` and `Grouping.NineCardScores` bound the scores for
  `DeckKeys`.
- `Cards.DeckWeighted` states that every card of the table has a weight.
- `Format.SortedCodes` gives the sorted codes' count and shows that they
  hold no spaces.
- `Combinatorics.ChooseWithHead` and `Combinatorics.ChooseWithoutHead` are
  the two cases of `ChooseExactlyOnce`.

## Left out

- The interactive prompt `obtener_numero_combinaciones` (truco.py:46-59) is console input. Only its accepted range 1..1000 is modelled, as the precondition `1 <= count <= MaxCount` of `Analysis.Analyze`.
- The disk-space check and the Excel export (truco.py:217-351) are left out. They are file-system and spreadsheet I/O through foreign libraries.
- All progress printing, the progress counters `procesadas` and `muestras_procesadas`, and all timing (`time.time()`) are left out. They only feed the console output. The label of each hand is computed but not printed.
- `np.std` (`desviacion_std`, truco.py:202) is left out. It needs a square root.
- Probabilities and their mean are exact rationals, not IEEE doubles. Rounding in the division and in `np.mean` is not modelled.
- The randomness of `random.sample` is left out. Every random choice is an input: `picks` for the selection of a group, and `draws` for the sampled hands of each analysed hand. The model checks only the size of each choice and that its positions are distinct and in range.
- The order of `list(set(deck) - set(base))` (truco.py:126) is unspecified in Python. `Cards.Remaining` keeps the deck's order. The exhaustive count does not depend on that order (`Conditional.ExhaustiveOrderFree`). The sampled hands depend on it only through the random positions.
- The dictionary of groups is walked in insertion order in the second pass. The order of that walk does not change the result.
- The deck is modelled as a list of distinct cards with a weight map. A hand holding a card outside the table would raise KeyError in `calcular_puntos`. The source never builds such a hand, so `Weighted` is a precondition and KeyError is not an error path.
- Combinatorics.BinomThirtyOneNine: proves C(31, 9) >= 150903 rather than its exact value, 20160075. The source only needs C(31, 9) to exceed `max_muestras`.
- A base hand holding cards outside the deck is computed as the code does it. `Cards.Remaining` ignores those cards, as the set difference at truco.py:126 does, and `Score` still counts their weights. Only the facts about dealt hands, such as `Analysis.DealtLeaves`, assume a hand dealt from the deck, which is all the analysis passes.
- `Conditional.ConditionalSpec` and `Conditional.ConditionalProbability` require a repeat-free deck. `set(...)` at truco.py:126 drops repeats, and the model's `Remaining` keeps the deck's list as it is, so the two agree only for a repeat-free deck. The real deck has no repeats (`Cards.DeckDistinct`).

## Findings

| source | as written | input that shows it | evidently intended | confidence | as-written member | corrected member |
|---|---|---|---|---|---|---|
| truco.py:38-44 | for idx > 26 the first letter is `ascii_uppercase[q - 1]` with `q = (idx - 1) // 26`, and no third letter exists, so from idx = 703 the index is past "Z" | `obtener_letra_combinacion(703)` (q = 27), reached by the 703rd hand of a group, which a count of 703..1000 accepted at truco.py:54 allows | spreadsheet column naming with no length limit: 703 is "AAA" | high, not executed | Labels.LabelFailsAt703 | Labels.Column |
