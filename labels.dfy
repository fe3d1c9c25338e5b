/** `obtener_letra_combinacion`: the letters that name the n-th hand of a
    score group (A, B, ..., Z, AA, AB, ...), and the spreadsheet-column
    naming it evidently means to follow. */
module Labels {
  import opened Outcomes

  /** `string.ascii_uppercase`. */
  const Uppercase: string := "ABCDEFGHIJKLMNOPQRSTUVWXYZ"

  /** The letter with value d: 1 is 'A', 26 is 'Z'. */
  function Letter(d: int): char
    requires 1 <= d <= 26
  {
    ('A' as int + d - 1) as char
  }

  /** `Uppercase` lists the letters in order. */
  lemma UppercaseLetters()
    ensures |Uppercase| == 26
    ensures forall i | 0 <= i < 26 :: Uppercase[i] == Letter(i + 1)
  {
  }

  /** Python's `s[i]`: a negative position counts from the end, and a
      position outside the string raises IndexError. */
  function Index(s: string, i: int): (r: Result<char>)
    ensures r.Success? <==> -|s| <= i < |s|
  {
    if 0 <= i < |s| then Success(s[i])
    else if -|s| <= i < 0 then Success(s[|s| + i])
    else Failure(IndexError)
  }

  /** `obtener_letra_combinacion(idx)` as written: one letter up to 26,
      otherwise two letters from `divmod(idx - 1, 26)`. The first letter
      is looked up at q - 1, which is past 'Z' from idx = 703 on. */
  function Label(idx: int): (r: Result<string>)
    ensures r.Success? ==> 1 <= |r.value| <= 2 && Letters(r.value)
    ensures r.Failure? ==> r.error == IndexError
  {
    UppercaseLetters();
    if idx <= 26 then
      match Index(Uppercase, idx - 1)
      case Success(c) => Success([c])
      case Failure(e) => Failure(e)
    else
      // idx - 1 is positive here, so Dafny's division is Python's divmod.
      var q, r := (idx - 1) / 26, (idx - 1) % 26;
      match Index(Uppercase, q - 1)
      case Failure(e) => Failure(e)
      case Success(first) =>
        match Index(Uppercase, r)
        case Failure(e) => Failure(e)
        case Success(second) => Success([first, second])
  }

  /** Every character of `s` is an upper-case letter. */
  predicate Letters(s: string) {
    forall i :: 0 <= i < |s| ==> 'A' <= s[i] <= 'Z'
  }

  /** The spreadsheet-column name of n >= 1: A..Z, AA..ZZ, AAA, ... (bijective
      base 26, with no length limit). */
  function Column(n: int): (s: string)
    requires n >= 1
    ensures s != [] && Letters(s)
    decreases n
  {
    if n <= 26 then [Letter(n)]
    else Column((n - 1) / 26) + [Letter((n - 1) % 26 + 1)]
  }

  /** The value of one letter: A is 1, Z is 26. */
  function LetterValue(c: char): int {
    c as int - 'A' as int + 1
  }

  /** The number a column name stands for: its letters read as digits 1..26
      in base 26. */
  function ColumnNumber(s: string): int {
    if s == [] then 0 else ColumnNumber(s[..|s| - 1]) * 26 + LetterValue(s[|s| - 1])
  }

  /** A column name of letters stands for a positive number. */
  lemma {:induction false} ColumnNumberPositive(s: string)
    requires s != [] && Letters(s)
    ensures ColumnNumber(s) >= 1
    decreases |s|
  {
    var front := s[..|s| - 1];
    if front != [] {
      ColumnNumberPositive(front);
    }
  }

  /** Reading a column name back gives the number it was made from. */
  lemma {:induction false} ColumnRoundTrip(n: int)
    requires n >= 1
    ensures ColumnNumber(Column(n)) == n
    decreases n
  {
    if n > 26 {
      var s := Column(n);
      ColumnRoundTrip((n - 1) / 26);
      assert s[..|s| - 1] == Column((n - 1) / 26);
    }
  }

  /** Every name made of letters is the column name of the number it reads as:
      the naming is onto. */
  lemma {:induction false} NumberRoundTrip(s: string)
    requires s != [] && Letters(s)
    ensures ColumnNumber(s) >= 1
    ensures Column(ColumnNumber(s)) == s
    decreases |s|
  {
    var front, last := s[..|s| - 1], s[|s| - 1];
    assert s == front + [last];
    assert 'A' <= last <= 'Z';
    if front == [] {
      SingleLetter(last);
      assert s == [last];
    } else {
      assert Letters(front);
      NumberRoundTrip(front);
      Extend(front, last, ColumnNumber(front));
    }
  }

  lemma SingleLetter(c: char)
    requires 'A' <= c <= 'Z'
    ensures ColumnNumber([c]) == LetterValue(c) >= 1
    ensures Column(LetterValue(c)) == [c]
  {
    LetterOfValue(c);
    assert [c][..0] == [];
  }

  /** Appending a letter to the name of m gives the name of m * 26 plus the
      letter's value. */
  lemma Extend(front: string, last: char, m: int)
    requires m >= 1 && Column(m) == front && 'A' <= last <= 'Z'
    ensures ColumnNumber(front + [last]) == m * 26 + LetterValue(last) >= 1
    ensures Column(m * 26 + LetterValue(last)) == front + [last]
  {
    var d := LetterValue(last);
    LetterOfValue(last);
    ColumnRoundTrip(m);
    assert (front + [last])[..|front|] == front;
    ColumnStep(m, d);
  }

  lemma LetterOfValue(c: char)
    requires 'A' <= c <= 'Z'
    ensures 1 <= LetterValue(c) <= 26
    ensures Letter(LetterValue(c)) == c
  {
  }

  lemma ColumnStep(m: int, d: int)
    requires m >= 1 && 1 <= d <= 26
    ensures Column(m * 26 + d) == Column(m) + [Letter(d)]
  {
    var n := m * 26 + d;
    assert n > 26;
    assert (n - 1) / 26 == m && (n - 1) % 26 == d - 1;
  }

  /** Different numbers get different column names. */
  lemma ColumnInjective(m: int, n: int)
    requires m >= 1 && n >= 1
    ensures Column(m) == Column(n) <==> m == n
  {
    ColumnRoundTrip(m);
    ColumnRoundTrip(n);
  }

  /** Column names have one letter up to 26 and two letters up to 702. */
  lemma ColumnLength(n: int)
    requires n >= 1
    ensures |Column(n)| == 1 <==> n <= 26
    ensures |Column(n)| == 2 <==> 27 <= n <= 702
  {
    if n > 26 {
      var q := (n - 1) / 26;
      if q > 26 {
        assert |Column(q)| >= 2 by {
          assert Column(q) == Column((q - 1) / 26) + [Letter((q - 1) % 26 + 1)];
        }
      }
    }
  }

  /** Up to 702 the label as written is the column name: one letter for 1..26,
      two for 27..702. */
  lemma LabelIsColumn(idx: int)
    requires 1 <= idx <= 702
    ensures Label(idx) == Success(Column(idx))
  {
    UppercaseLetters();
    if idx > 26 {
      var q, r := (idx - 1) / 26, (idx - 1) % 26;
      assert 1 <= q <= 26;
      assert Index(Uppercase, q - 1) == Success(Letter(q));
      assert Index(Uppercase, r) == Success(Letter(r + 1));
      assert Column(idx) == [Letter(q)] + [Letter(r + 1)] == [Letter(q), Letter(r + 1)];
      assert Label(idx) == Success([Letter(q), Letter(r + 1)]);
    }
  }

  /** For positive positions, the label as written exists exactly up to 702. */
  lemma LabelDefined(idx: int)
    requires idx >= 1
    ensures Label(idx).Success? <==> idx <= 702
    ensures idx > 702 ==> Label(idx) == Failure(IndexError)
  {
    if idx > 702 {
      assert (idx - 1) / 26 - 1 >= 26;
    } else {
      LabelIsColumn(idx);
    }
  }

  /** Labels 1..702 are all different. */
  lemma LabelInjective(m: int, n: int)
    requires 1 <= m <= 702 && 1 <= n <= 702
    ensures Label(m) == Label(n) <==> m == n
  {
    LabelIsColumn(m);
    LabelIsColumn(n);
    ColumnInjective(m, n);
  }

  /** The 703rd hand of a group has no label as written, while its column
      name is AAA. */
  lemma LabelFailsAt703()
    ensures Label(703) == Failure(IndexError)
    ensures Column(703) == "AAA"
  {
    assert Column(1) == "A";
    assert Column(27) == Column(1) + "A";
    assert Column(703) == Column(27) + "A";
  }
}
