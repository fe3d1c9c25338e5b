/** `formatear_combinacion`: a hand shown as its card codes, sorted as Python
    sorts strings and joined with single spaces. */
module Format {
  import opened Cards

  /** The letter that ends a card code. */
  function SuitLetter(s: Suit): char {
    match s
    case Espadas => 'E'
    case Oros => 'O'
    case Bastos => 'B'
    case Copas => 'C'
  }

  function Digit(d: int): char
    requires 0 <= d < 10
  {
    ('0' as int + d) as char
  }

  predicate IsDigit(c: char) {
    '0' <= c <= '9'
  }

  /** The decimal numeral of n, as `str(n)` writes it. */
  function Decimal(n: nat): (s: string)
    ensures s != [] && forall i :: 0 <= i < |s| ==> IsDigit(s[i])
  {
    if n < 10 then [Digit(n)] else Decimal(n / 10) + [Digit(n % 10)]
  }

  /** The number a string of digits stands for. */
  function DecimalValue(s: string): int {
    if s == [] then 0 else DecimalValue(s[..|s| - 1]) * 10 + (s[|s| - 1] as int - '0' as int)
  }

  /** Reading a numeral back gives the number it was written from. */
  lemma {:induction false} DecimalRoundTrip(n: nat)
    ensures DecimalValue(Decimal(n)) == n
  {
    if n >= 10 {
      var s := Decimal(n);
      DecimalRoundTrip(n / 10);
      assert s[..|s| - 1] == Decimal(n / 10);
    }
  }

  /** A card code such as "10E": the rank's numeral, then the suit letter.
      The code reads back as its card: the part before the last character is
      the rank's numeral and the last character is the suit's letter. */
  function Code(c: Card): (s: string)
    ensures |s| >= 2 && DecimalValue(s[..|s| - 1]) == c.rank && s[|s| - 1] == SuitLetter(c.suit)
  {
    DecimalRoundTrip(c.rank);
    var s := Decimal(c.rank) + [SuitLetter(c.suit)];
    assert s[..|s| - 1] == Decimal(c.rank);
    s
  }

  /** Different cards have different codes. */
  lemma CodeInjective(c: Card, d: Card)
    ensures Code(c) == Code(d) <==> c == d
  {
    if Code(c) == Code(d) {
      var s := Code(c);
      assert s[..|s| - 1] == Decimal(c.rank) == Decimal(d.rank);
      DecimalRoundTrip(c.rank);
      DecimalRoundTrip(d.rank);
      assert SuitLetter(c.suit) == s[|s| - 1] == SuitLetter(d.suit);
    }
  }

  /** A code holds no space. */
  lemma CodeHasNoSpace(c: Card)
    ensures Code(c) != [] && ' ' !in Code(c)
  {
    var s := Code(c);
    forall i | 0 <= i < |s| ensures s[i] != ' ' {
      if i < |s| - 1 {
        assert s[i] == Decimal(c.rank)[i];
      }
    }
  }

  /** The codes of a hand's cards, in the hand's order. */
  function Codes(h: Hand): (r: seq<string>)
    ensures |r| == |h| && forall i :: 0 <= i < |h| ==> r[i] == Code(h[i])
  {
    if h == [] then [] else [Code(h[0])] + Codes(h[1..])
  }

  /** Python's `<=` on strings: code point by code point, a prefix first. */
  predicate LexLeq(a: string, b: string) {
    a == [] || (b != [] && (a[0] < b[0] || (a[0] == b[0] && LexLeq(a[1..], b[1..]))))
  }

  lemma {:induction false} LexTotal(a: string, b: string)
    ensures LexLeq(a, b) || LexLeq(b, a)
  {
    if a != [] && b != [] && a[0] == b[0] {
      LexTotal(a[1..], b[1..]);
    }
  }

  lemma {:induction false} LexAntisymmetric(a: string, b: string)
    requires LexLeq(a, b) && LexLeq(b, a)
    ensures a == b
  {
    if a != [] {
      LexAntisymmetric(a[1..], b[1..]);
      assert a == [a[0]] + a[1..] && b == [b[0]] + b[1..];
    }
  }

  lemma {:induction false} LexTransitive(a: string, b: string, c: string)
    requires LexLeq(a, b) && LexLeq(b, c)
    ensures LexLeq(a, c)
  {
    if a != [] && a[0] == b[0] && b[0] == c[0] {
      LexTransitive(a[1..], b[1..], c[1..]);
    }
  }

  predicate Sorted(ws: seq<string>) {
    forall i, j :: 0 <= i < j < |ws| ==> LexLeq(ws[i], ws[j])
  }

  /** Puts a word into a sorted list. */
  function Insert(x: string, ws: seq<string>): (r: seq<string>)
    requires Sorted(ws)
    ensures Sorted(r) && multiset(r) == multiset(ws) + multiset{x}
  {
    if ws == [] then [x]
    else if LexLeq(x, ws[0]) then
      InsertFront(x, ws);
      [x] + ws
    else
      LexTotal(x, ws[0]);
      SortedTail(ws);
      var rest := Insert(x, ws[1..]);
      InsertBehind(x, ws, rest);
      [ws[0]] + rest
  }

  lemma InsertFront(x: string, ws: seq<string>)
    requires Sorted(ws) && ws != [] && LexLeq(x, ws[0])
    ensures Sorted([x] + ws)
  {
    forall j | 0 <= j < |ws| ensures LexLeq(x, ws[j]) {
      if j > 0 { LexTransitive(x, ws[0], ws[j]); }
    }
  }

  lemma InsertBehind(x: string, ws: seq<string>, rest: seq<string>)
    requires Sorted(ws) && ws != [] && LexLeq(ws[0], x)
    requires Sorted(rest) && multiset(rest) == multiset(ws[1..]) + multiset{x}
    ensures Sorted([ws[0]] + rest) && multiset([ws[0]] + rest) == multiset(ws) + multiset{x}
  {
    assert ws == [ws[0]] + ws[1..];
    forall k | 0 <= k < |rest| ensures LexLeq(ws[0], rest[k]) {
      assert rest[k] in multiset(rest);
    }
  }

  /** `sorted`: the words in ascending order. */
  function Sort(ws: seq<string>): (r: seq<string>)
    ensures Sorted(r) && multiset(r) == multiset(ws)
  {
    if ws == [] then []
    else
      assert ws == [ws[0]] + ws[1..];
      Insert(ws[0], Sort(ws[1..]))
  }

  lemma SortedTail(ws: seq<string>)
    requires Sorted(ws) && ws != []
    ensures Sorted(ws[1..])
  {
    var t := ws[1..];
    forall p, q | 0 <= p < q < |t| ensures LexLeq(t[p], t[q]) {
      assert t[p] == ws[p + 1] && t[q] == ws[q + 1];
    }
  }

  /** Two sorted lists holding the same words are equal: the sorted order of
      a list depends only on its words. */
  lemma {:induction false} SortedUnique(a: seq<string>, b: seq<string>)
    requires Sorted(a) && Sorted(b) && multiset(a) == multiset(b)
    ensures a == b
    decreases |a|
  {
    if a != [] {
      SameHead(a, b);
      SameTail(a, b);
      SortedTail(a);
      SortedTail(b);
      SortedUnique(a[1..], b[1..]);
      assert a == [a[0]] + a[1..] && b == [b[0]] + b[1..];
    }
  }

  /** Two sorted lists holding the same words start with the same word. */
  lemma SameHead(a: seq<string>, b: seq<string>)
    requires Sorted(a) && Sorted(b) && multiset(a) == multiset(b) && a != []
    ensures b != [] && a[0] == b[0]
  {
    assert a[0] in multiset(b) && b[0] in multiset(a);
    var i :| 0 <= i < |b| && b[i] == a[0];
    var j :| 0 <= j < |a| && a[j] == b[0];
    LexTotal(a[0], a[0]);
    assert LexLeq(a[0], b[0]) by { if j > 0 { assert LexLeq(a[0], a[j]); } }
    assert LexLeq(b[0], a[0]) by { if i > 0 { assert LexLeq(b[0], b[i]); } }
    LexAntisymmetric(a[0], b[0]);
  }

  lemma SameTail(a: seq<string>, b: seq<string>)
    requires a != [] && b != [] && a[0] == b[0] && multiset(a) == multiset(b)
    ensures multiset(a[1..]) == multiset(b[1..])
  {
    assert a == [a[0]] + a[1..] && b == [b[0]] + b[1..];
    assert multiset(a) == multiset{a[0]} + multiset(a[1..]);
    assert multiset(b) == multiset{b[0]} + multiset(b[1..]);
    assert multiset(a[1..]) == multiset(a) - multiset{a[0]};
    assert multiset(b[1..]) == multiset(b) - multiset{b[0]};
  }

  /** `' '.join(ws)`. */
  function Join(ws: seq<string>): string {
    if ws == [] then ""
    else if |ws| == 1 then ws[0]
    else ws[0] + " " + Join(ws[1..])
  }

  /** `s.split(' ')`: the pieces between single spaces. */
  function Split(s: string): (r: seq<string>)
    ensures r != []
  {
    if s == [] then [""]
    else
      var rest := Split(s[1..]);
      if s[0] == ' ' then [""] + rest else [[s[0]] + rest[0]] + rest[1..]
  }

  /** A word without spaces is one piece. */
  lemma {:induction false} SplitWord(w: string)
    requires ' ' !in w
    ensures Split(w) == [w]
  {
    if w != [] {
      SplitWord(w[1..]);
      assert w == [w[0]] + w[1..];
    }
  }

  /** A word without spaces followed by a space splits off as the first piece. */
  lemma {:induction false} SplitFirst(w: string, t: string)
    requires ' ' !in w
    ensures Split(w + " " + t) == [w] + Split(t)
  {
    if w == [] {
      assert w + " " + t == [' '] + t;
      assert (w + " " + t)[1..] == t;
    } else {
      assert (w + " " + t)[1..] == w[1..] + " " + t;
      SplitFirst(w[1..], t);
      assert w == [w[0]] + w[1..];
    }
  }

  /** Splitting a join gives back the words, when there is at least one and
      none holds a space. */
  lemma {:induction false} SplitJoin(ws: seq<string>)
    requires ws != []
    requires forall i :: 0 <= i < |ws| ==> ' ' !in ws[i]
    ensures Split(Join(ws)) == ws
  {
    if |ws| == 1 {
      SplitWord(ws[0]);
    } else {
      SplitJoin(ws[1..]);
      SplitFirst(ws[0], Join(ws[1..]));
      assert ws == [ws[0]] + ws[1..];
    }
  }

  /** Join of words that are not empty is not empty. */
  lemma JoinNotEmpty(ws: seq<string>)
    requires ws != [] && ws[0] != []
    ensures Join(ws) != []
  {
    if |ws| > 1 {
      assert |Join(ws)| >= |ws[0]|;
    }
  }

  /** A card occurs among a hand's codes as often as in the hand. */
  lemma {:induction false} CodesCount(h: Hand, c: Card)
    ensures multiset(Codes(h))[Code(c)] == multiset(h)[c]
  {
    if h != [] {
      CodesCount(h[1..], c);
      CodeInjective(h[0], c);
      CodesCons(h);
    }
  }

  lemma CodesCons(h: Hand)
    requires h != []
    ensures multiset(Codes(h)) == multiset{Code(h[0])} + multiset(Codes(h[1..]))
    ensures multiset(h) == multiset{h[0]} + multiset(h[1..])
  {
    assert h == [h[0]] + h[1..];
    assert Codes(h) == [Code(h[0])] + Codes(h[1..]);
  }

  /** Two hands have the same codes exactly when they have the same cards. */
  lemma SameCodes(a: Hand, b: Hand)
    ensures multiset(Codes(a)) == multiset(Codes(b)) <==> multiset(a) == multiset(b)
  {
    if multiset(a) == multiset(b) {
      CodesOfSameCards(a, b);
    }
    if multiset(Codes(a)) == multiset(Codes(b)) {
      CardsOfSameCodes(a, b);
    }
  }

  lemma CodesOfSameCards(a: Hand, b: Hand)
    requires multiset(a) == multiset(b)
    ensures multiset(Codes(a)) == multiset(Codes(b))
  {
    forall w ensures multiset(Codes(a))[w] == multiset(Codes(b))[w] {
      if c :| Code(c) == w {
        CodesCount(a, c);
        CodesCount(b, c);
      } else {
        NotACode(a, w);
        NotACode(b, w);
      }
    }
  }

  lemma NotACode(h: Hand, w: string)
    requires forall c :: Code(c) != w
    ensures multiset(Codes(h))[w] == 0
  {
    var codes := Codes(h);
    assert forall i :: 0 <= i < |codes| ==> codes[i] != w;
    assert w !in codes;
  }

  lemma CardsOfSameCodes(a: Hand, b: Hand)
    requires multiset(Codes(a)) == multiset(Codes(b))
    ensures multiset(a) == multiset(b)
  {
    forall c ensures multiset(a)[c] == multiset(b)[c] {
      CodesCount(a, c);
      CodesCount(b, c);
    }
  }

  /** `formatear_combinacion`: the card codes in ascending order, joined by
      single spaces. */
  function FormatHand(h: Hand): (r: string)
    ensures h != [] ==> Split(r) == Sort(Codes(h))
  {
    var ws := Sort(Codes(h));
    if h == [] then Join(ws)
    else
      SortedCodes(h);
      SplitJoin(ws);
      Join(ws)
  }

  /** The sorted codes of a hand are one word per card, none with a space. */
  lemma SortedCodes(h: Hand)
    ensures |Sort(Codes(h))| == |h|
    ensures forall i :: 0 <= i < |h| ==> ' ' !in Sort(Codes(h))[i]
  {
    var ws := Sort(Codes(h));
    assert |ws| == |h| by {
      assert |multiset(ws)| == |multiset(Codes(h))|;
    }
    forall i | 0 <= i < |ws| ensures ' ' !in ws[i] {
      assert ws[i] in multiset(Codes(h));
      var j :| 0 <= j < |h| && Codes(h)[j] == ws[i];
      CodeHasNoSpace(h[j]);
    }
  }

  /** The pieces of a formatted hand are its card codes, each once per card,
      in ascending order. */
  lemma FormatPieces(h: Hand)
    requires h != []
    ensures Split(FormatHand(h)) == Sort(Codes(h))
    ensures Sorted(Split(FormatHand(h)))
    ensures multiset(Split(FormatHand(h))) == multiset(Codes(h))
  {
  }

  /** Only the empty hand prints as the empty string. */
  lemma FormatEmpty(h: Hand)
    ensures FormatHand(h) == "" <==> h == []
  {
    if h != [] {
      var ws := Sort(Codes(h));
      assert |ws| == |h| by {
        assert |multiset(ws)| == |multiset(Codes(h))|;
      }
      assert ws[0] in multiset(Codes(h));
      var j :| 0 <= j < |h| && Codes(h)[j] == ws[0];
      CodeHasNoSpace(h[j]);
      JoinNotEmpty(ws);
    }
  }

  /** Two hands print alike exactly when they hold the same cards: the order
      of the cards does not show, and nothing else is lost. */
  lemma FormatSameCards(a: Hand, b: Hand)
    ensures FormatHand(a) == FormatHand(b) <==> multiset(a) == multiset(b)
  {
    SameCodes(a, b);
    FormatEmpty(a);
    FormatEmpty(b);
    if multiset(a) == multiset(b) {
      SortedUnique(Sort(Codes(a)), Sort(Codes(b)));
    } else if a != [] && b != [] {
      FormatPieces(a);
      FormatPieces(b);
    } else if a == [] && b == [] {
      assert false;
    }
  }
}
