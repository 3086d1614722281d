/** What `NumRom.a_romano` writes: the range check, the integer part as the numeral
    written place by place, and the fraction glyph. */
module NumRomWriting {
  import opened Errors
  import opened Text
  import opened NumRom
  import opened NumRomReading

  // ---------------------------------------------------------------------------
  // Range, zero and the fraction guard
  // ---------------------------------------------------------------------------

  /** `a_romano` raises exactly outside [0, 3999.5], always with the range error. */
  lemma RangeError(decimal: real)
    ensures RomanNumeral(decimal).Err? <==> decimal < 0.0 || decimal > 3999.5
    ensures RomanNumeral(decimal).Err? ==> RomanNumeral(decimal).error == OutOfRange
  {
  }

  /** Every fraction value exceeds 0.01, so the glyph guard never refuses a glyph;
      none reaches a whole unit. */
  lemma FractionGuardHolds(k: nat)
    requires k < |ValoresFracciones|
    ensures 0.01 < FractionValue(k) <= 0.5
  {
  }

  /** No two fraction entries have the same value. */
  lemma FractionValueInjective(i: nat, j: nat)
    requires i < |ValoresFracciones| && j < |ValoresFracciones|
    requires FractionValue(i) == FractionValue(j)
    ensures i == j
  {
  }

  /** A remainder equal to the value of a fraction entry is written with that entry's
      glyph. */
  lemma NearestExact(k: nat)
    requires k < |ValoresFracciones|
    ensures NearestFraction(FractionValue(k)) == k
  {
    var r := NearestFraction(FractionValue(k));
    assert Distance(FractionValue(k), r) <= Distance(FractionValue(k), k);
    FractionValueInjective(r, k);
  }

  /** The spelling of `n` from entry `k` on, as a list of entries in table order. */
  lemma {:induction false} EmitSpells(n: nat, k: nat) returns (ks: seq<nat>)
    requires k < |ValoresRomanos|
    ensures InTable(ks) && Ascending(ks, k)
    ensures Spell(ks) == Emit(n, k) && Sum(ks) == n
    ensures ks == [] <==> n == 0
    decreases |ValoresRomanos| - k, n
  {
    SymbolShape(k);
    if n >= Value(k) {
      var rest := EmitSpells(n - Value(k), k);
      ks := [k] + rest;
      SpellConsOf(k, rest, ks);
    } else if k + 1 < |ValoresRomanos| {
      ks := EmitSpells(n, k + 1);
      AscendingWeaken(ks, k + 1, k);
    } else {
      ks := [];
    }
  }

  /** For `n >= 1` the integer loop writes table symbols, in table order, whose values
      sum to `n`. */
  lemma IntegerSpelling(n: nat) returns (ks: seq<nat>)
    requires n >= 1
    ensures InTable(ks) && Ascending(ks, 0) && ks != []
    ensures Emit(n, 0) == Spell(ks) && Sum(ks) == n
  {
    ks := EmitSpells(n, 0);
  }

  /** Every character the integer loop writes is a letter of the table. */
  lemma EmitLetters(n: nat, s: string)
    requires s == Emit(n, 0)
    ensures forall i | 0 <= i < |s| :: IsRomanLetter(s[i])
    ensures n >= 1 ==> s != []
  {
    var ks := EmitSpells(n, 0);
    SpellLetters(ks);
  }

  /** Within range, `a_romano` writes `Nihil` exactly for zero: a positive integer part
      writes letters, and a positive remainder always gets a glyph. */
  lemma NihilIffZero(decimal: real)
    requires 0.0 <= decimal <= 3999.5
    ensures RomanNumeral(decimal) == Ok("Nihil") <==> decimal == 0.0
  {
    var n: nat := decimal.Floor;
    var frac := decimal - n as real;
    var digits := if n > 0 then Emit(n, 0) else "";
    var k := NearestFraction(frac);
    var s := if frac > 0.0 && FractionValue(k) > 0.01 then digits + Glyph(k) else digits;
    assert RomanNumeral(decimal) == Ok(if s == "" then "Nihil" else s);
    EmitLetters(n, Emit(n, 0));
    GlyphShape(k);
    FractionGuardHolds(k);
    if decimal != 0.0 {
      assert s != [];
      assert !IsRomanLetter('N') && 'N' != 'S' && 'N' != Dot;
      if digits != [] {
        assert s[0] == digits[0];
      } else {
        assert s == Glyph(k);
      }
      assert s[0] != 'N';
    }
  }

  // ---------------------------------------------------------------------------
  // The integer part, place by place
  // ---------------------------------------------------------------------------

  /** `c` written `j` times. */
  function Rep(c: char, j: nat): (r: string)
    ensures |r| == j
  {
    if j == 0 then "" else [c] + Rep(c, j - 1)
  }

  /** The numeral of one decimal digit `d`, written with the letters for one, five
      and ten of its place. */
  function Digit(one: char, five: char, ten: char, d: nat): string
    requires d < 10
  {
    if d == 9 then [one, ten]
    else if d >= 5 then [five] + Rep(one, d - 5)
    else if d == 4 then [one, five]
    else Rep(one, d)
  }

  /** The numeral of `n` below 4000 as the thousands, hundreds, tens and units are
      written: an independent statement of what the greedy loop is meant to produce. */
  function ByPlaces(n: nat): string
    requires n < 4000
  {
    Rep('M', n / 1000) +
    (Digit('C', 'D', 'M', n % 1000 / 100) +
     (Digit('X', 'L', 'C', n % 100 / 10) + Digit('I', 'V', 'X', n % 10)))
  }

  /** Entries `k` to `k + 3` of the table are nine, five, four and one times `m`,
      written with the letters for one, five and ten of a decimal place. */
  predicate Place(k: nat, one: char, five: char, ten: char, m: nat) {
    k + 4 <= |ValoresRomanos| && m >= 1 &&
    Symbol(k) == [one, ten] && Value(k) == 9 * m &&
    Symbol(k + 1) == [five] && Value(k + 1) == 5 * m &&
    Symbol(k + 2) == [one, five] && Value(k + 2) == 4 * m &&
    Symbol(k + 3) == [one] && Value(k + 3) == m
  }

  lemma Places()
    ensures Place(1, 'C', 'D', 'M', 100)
    ensures Place(5, 'X', 'L', 'C', 10)
    ensures Place(9, 'I', 'V', 'X', 1)
  {
  }

  /** The loop passes over entries whose values exceed what is left. */
  lemma {:induction false} EmitSkip(n: nat, k: nat, j: nat)
    requires k <= j <= |ValoresRomanos| && forall i | k <= i < j :: n < Value(i)
    ensures Emit(n, k) == Emit(n, j)
    decreases j - k
  {
    if k < j {
      EmitSkip(n, k + 1, j);
    }
  }

  /** One step of the loop on an entry whose value fits. */
  lemma EmitTakes(n: nat, k: nat, rest: nat)
    requires k < |ValoresRomanos| && n >= Value(k) && rest == n - Value(k)
    ensures Emit(n, k) == Symbol(k) + Emit(rest, k)
  {
  }

  lemma MulStep(j: nat, m: nat)
    requires j >= 1
    ensures j * m == (j - 1) * m + m && (j - 1) * m >= 0
  {
  }

  /** An entry of value `m` is written `j` times for `j * m + r` with `r < m`. */
  lemma {:induction false} RepEmit(k: nat, c: char, m: nat, j: nat, r: nat)
    requires k < |ValoresRomanos| && Symbol(k) == [c] && Value(k) == m && r < m
    ensures Emit(j * m + r, k) == Rep(c, j) + Emit(r, k + 1)
    decreases j
  {
    if j == 0 {
      assert j * m + r == r;
      EmitSkip(r, k, k + 1);
    } else {
      MulStep(j, m);
      RepEmit(k, c, m, j - 1, r);
      RepEmitStep(k, c, m, j, r, j * m + r, (j - 1) * m + r);
    }
  }

  /** The step of `RepEmit`: one more copy of the symbol for `m` more. */
  lemma RepEmitStep(k: nat, c: char, m: nat, j: nat, r: nat, n: nat, n': nat)
    requires k < |ValoresRomanos| && Symbol(k) == [c] && Value(k) == m && j >= 1
    requires n == n' + m && Emit(n', k) == Rep(c, j - 1) + Emit(r, k + 1)
    ensures Emit(n, k) == Rep(c, j) + Emit(r, k + 1)
  {
    EmitTakes(n, k, n');
    assert Rep(c, j) == [c] + Rep(c, j - 1);
    AppendAssoc([c], Rep(c, j - 1), Emit(r, k + 1));
  }

  lemma MulSub(a: nat, b: nat, m: nat)
    requires b <= a
    ensures a * m == b * m + (a - b) * m && (a - b) * m >= 0
  {
  }

  /** Digit 9 of a place: the entry for nine. */
  lemma PlaceNine(k: nat, one: char, five: char, ten: char, m: nat, r: nat)
    requires Place(k, one, five, ten, m) && r < m
    ensures Emit(9 * m + r, k) == Digit(one, five, ten, 9) + Emit(r, k + 4)
  {
    EmitTakes(9 * m + r, k, r);
    EmitSkip(r, k, k + 4);
  }

  /** Digits 5 to 8 of a place: the entry for five, then the entry for one up to
      three times. */
  lemma PlaceFive(k: nat, one: char, five: char, ten: char, m: nat, j: nat, r: nat)
    requires Place(k, one, five, ten, m) && j <= 3 && r < m
    ensures Emit(5 * m + (j * m + r), k) == Digit(one, five, ten, j + 5) + Emit(r, k + 4)
  {
    MulSub(3, j, m);
    var rest := j * m + r;
    var n := 5 * m + rest;
    EmitSkip(n, k, k + 1);
    EmitTakes(n, k + 1, rest);
    EmitSkip(rest, k + 1, k + 3);
    RepEmit(k + 3, one, m, j, r);
    AppendAssoc([five], Rep(one, j), Emit(r, k + 4));
  }

  /** Digit 4 of a place: the entry for four. */
  lemma PlaceFour(k: nat, one: char, five: char, ten: char, m: nat, r: nat)
    requires Place(k, one, five, ten, m) && r < m
    ensures Emit(4 * m + r, k) == Digit(one, five, ten, 4) + Emit(r, k + 4)
  {
    EmitSkip(4 * m + r, k, k + 2);
    EmitTakes(4 * m + r, k + 2, r);
    EmitSkip(r, k + 2, k + 4);
  }

  /** Digits 0 to 3 of a place: the entry for one, as often as the digit says. */
  lemma PlaceLow(k: nat, one: char, five: char, ten: char, m: nat, j: nat, r: nat)
    requires Place(k, one, five, ten, m) && j <= 3 && r < m
    ensures Emit(j * m + r, k) == Digit(one, five, ten, j) + Emit(r, k + 4)
  {
    var n := j * m + r;
    MulSub(3, j, m);
    PlaceSkip(k, one, five, ten, m, n);
    RepEmit(k + 3, one, m, j, r);
    assert Digit(one, five, ten, j) == Rep(one, j);
  }

  /** Below four times `m` the loop passes over the entries for nine, five and four. */
  lemma PlaceSkip(k: nat, one: char, five: char, ten: char, m: nat, n: nat)
    requires Place(k, one, five, ten, m) && n < 4 * m
    ensures Emit(n, k) == Emit(n, k + 3)
  {
    EmitSkip(n, k, k + 3);
  }

  /** One decimal place: `d * m + r` with `r < m` is written as the digit `d`
      followed by what the next place writes for `r`. */
  lemma PlaceEmit(k: nat, one: char, five: char, ten: char, m: nat, d: nat, r: nat)
    requires Place(k, one, five, ten, m) && d < 10 && r < m
    ensures Emit(d * m + r, k) == Digit(one, five, ten, d) + Emit(r, k + 4)
  {
    if d == 9 {
      PlaceNine(k, one, five, ten, m, r);
    } else if d >= 5 {
      MulSub(d, 5, m);
      PlaceFive(k, one, five, ten, m, d - 5, r);
    } else if d == 4 {
      PlaceFour(k, one, five, ten, m, r);
    } else {
      PlaceLow(k, one, five, ten, m, d, r);
    }
  }

  /** The places of `n`, and how they add up. */
  lemma PlaceArithmetic(n: nat)
    requires n < 4000
    ensures n == n / 1000 * 1000 + n % 1000
    ensures n % 1000 == n % 1000 / 100 * 100 + n % 100
    ensures n % 100 == n % 100 / 10 * 10 + n % 10
    ensures n / 1000 <= 3 && n % 1000 / 100 < 10 && n % 100 / 10 < 10 && n % 10 < 10
  {
  }

  /** The greedy loop from the entry for ninety on the number with digits `c`, `d`. */
  lemma EmitTensUnits(c: nat, d: nat)
    requires c < 10 && d < 10
    ensures Emit(c * 10 + d, 5) == Digit('X', 'L', 'C', c) + Digit('I', 'V', 'X', d)
  {
    Places();
    PlaceEmit(9, 'I', 'V', 'X', 1, d, 0);
    assert Emit(0, 13) == "";
    assert Emit(d, 9) == Digit('I', 'V', 'X', d);
    PlaceEmit(5, 'X', 'L', 'C', 10, c, d);
  }

  /** The greedy loop on the number with digits `a`, `b`, `c`, `d`. */
  lemma EmitByDigits(a: nat, b: nat, c: nat, d: nat)
    requires a <= 3 && b < 10 && c < 10 && d < 10
    ensures Emit(a * 1000 + (b * 100 + (c * 10 + d)), 0) ==
            Rep('M', a) + (Digit('C', 'D', 'M', b) + (Digit('X', 'L', 'C', c) + Digit('I', 'V', 'X', d)))
  {
    var r1 := b * 100 + (c * 10 + d);
    EmitHundredsTensUnits(b, c, d);
    RepEmit(0, 'M', 1000, a, r1);
  }

  /** The greedy loop from the entry for nine hundred on the number with digits
      `b`, `c`, `d`. */
  lemma EmitHundredsTensUnits(b: nat, c: nat, d: nat)
    requires b < 10 && c < 10 && d < 10
    ensures Emit(b * 100 + (c * 10 + d), 1) ==
            Digit('C', 'D', 'M', b) + (Digit('X', 'L', 'C', c) + Digit('I', 'V', 'X', d))
  {
    Places();
    EmitTensUnits(c, d);
    PlaceEmit(1, 'C', 'D', 'M', 100, b, c * 10 + d);
  }

  /** The greedy loop writes every `n` below 4000 place by place. */
  lemma EmitByPlaces(n: nat)
    requires n < 4000
    ensures Emit(n, 0) == ByPlaces(n)
  {
    PlaceArithmetic(n);
    EmitByDigits(n / 1000, n % 1000 / 100, n % 100 / 10, n % 10);
  }

  // ---------------------------------------------------------------------------
  // The integer part is free of the invalid sequences
  // ---------------------------------------------------------------------------

  lemma {:induction false} RepCounts(c: char, j: nat)
    ensures multiset(Rep(c, j))[c] == j
    ensures forall x | x != c :: multiset(Rep(c, j))[x] == 0
    decreases j
  {
    if j > 0 {
      RepCounts(c, j - 1);
      assert multiset(Rep(c, j)) == multiset{c} + multiset(Rep(c, j - 1));
    }
  }

  /** `s` holds the letter `one` at most three times and every other character at
      most once, and starts with `one` or `five` and ends with a letter of its place. */
  predicate DigitLike(s: string, one: char, five: char, ten: char) {
    multiset(s)[one] <= 3 && (forall x | x != one :: multiset(s)[x] <= 1) &&
    (s == [] || ((s[0] == one || s[0] == five) &&
                 (s[|s| - 1] == one || s[|s| - 1] == five || s[|s| - 1] == ten)))
  }

  lemma {:induction false} RepChars(c: char, j: nat)
    ensures forall i | 0 <= i < j :: Rep(c, j)[i] == c
    decreases j
  {
    if j > 0 {
      RepChars(c, j - 1);
      assert Rep(c, j) == [c] + Rep(c, j - 1);
    }
  }

  lemma RepLast(c: char, j: nat)
    requires j > 0
    ensures Rep(c, j)[0] == c && Rep(c, j)[j - 1] == c
  {
    RepCounts(c, j);
    assert Rep(c, j)[0] in multiset(Rep(c, j)) && Rep(c, j)[j - 1] in multiset(Rep(c, j));
  }

  lemma RepShape(c: char, j: nat)
    ensures multiset(Rep(c, j))[c] == j && forall x | x != c :: multiset(Rep(c, j))[x] == 0
    ensures j > 0 ==> Rep(c, j)[0] == c && Rep(c, j)[j - 1] == c
  {
    RepCounts(c, j);
    if j > 0 {
      RepLast(c, j);
    }
  }

  lemma PairShape(one: char, x: char, five: char, ten: char)
    requires one != x && (x == five || x == ten)
    ensures DigitLike([one, x], one, five, ten)
  {
    assert multiset([one, x]) == multiset{one, x};
  }

  lemma FiveShape(one: char, five: char, ten: char, j: nat)
    requires j <= 3 && one != five
    ensures DigitLike([five] + Rep(one, j), one, five, ten)
  {
    RepShape(one, j);
    var s := [five] + Rep(one, j);
    assert multiset(s) == multiset{five} + multiset(Rep(one, j));
    if j > 0 {
      assert s[|s| - 1] == Rep(one, j)[j - 1];
    }
  }

  lemma LowShape(one: char, five: char, ten: char, j: nat)
    requires j <= 3
    ensures DigitLike(Rep(one, j), one, five, ten)
  {
    RepShape(one, j);
  }

  /** A digit's numeral holds its letter for one at most three times and every other
      character at most once; it starts with the letter for one or five and ends
      with a letter of its place. */
  lemma DigitShape(one: char, five: char, ten: char, d: nat)
    requires d < 10 && one != five && one != ten
    ensures DigitLike(Digit(one, five, ten, d), one, five, ten)
  {
    if d == 9 {
      DigitShapeNine(one, five, ten, d);
    } else if d >= 5 {
      DigitShapeFive(one, five, ten, d);
    } else if d == 4 {
      DigitShapeFour(one, five, ten, d);
    } else {
      DigitShapeLow(one, five, ten, d);
    }
  }

  lemma DigitShapeNine(one: char, five: char, ten: char, d: nat)
    requires d == 9 && one != ten
    ensures DigitLike(Digit(one, five, ten, d), one, five, ten)
  {
    assert Digit(one, five, ten, d) == [one, ten];
    PairShape(one, ten, five, ten);
  }

  lemma DigitShapeFive(one: char, five: char, ten: char, d: nat)
    requires 5 <= d < 9 && one != five
    ensures DigitLike(Digit(one, five, ten, d), one, five, ten)
  {
    assert Digit(one, five, ten, d) == [five] + Rep(one, d - 5);
    FiveShape(one, five, ten, d - 5);
  }

  lemma DigitShapeFour(one: char, five: char, ten: char, d: nat)
    requires d == 4 && one != five
    ensures DigitLike(Digit(one, five, ten, d), one, five, ten)
  {
    assert Digit(one, five, ten, d) == [one, five];
    PairShape(one, five, five, ten);
  }

  lemma DigitShapeLow(one: char, five: char, ten: char, d: nat)
    requires d < 4
    ensures DigitLike(Digit(one, five, ten, d), one, five, ten)
  {
    assert Digit(one, five, ten, d) == Rep(one, d);
    LowShape(one, five, ten, d);
  }

  /** A digit's numeral is clean, and so is `M` written at most three times. */
  lemma DigitClean(one: char, five: char, ten: char, d: nat)
    requires d < 10 && one != five && one != ten
    requires five == 'V' || five == 'L' || five == 'D'
    requires one != 'V' && one != 'L' && one != 'D' && ten != 'V' && ten != 'L' && ten != 'D'
    ensures Clean(Digit(one, five, ten, d))
  {
    DigitShape(one, five, ten, d);
    CleanByCounts(Digit(one, five, ten, d));
  }

  lemma ThousandsClean(a: nat)
    requires a <= 3
    ensures Clean(Rep('M', a))
  {
    RepCounts('M', a);
    CleanByCounts(Rep('M', a));
  }

  /** `s` is empty or starts with one of `cs`. */
  predicate StartsWithOneOf(s: string, cs: string) {
    s == [] || s[0] in cs
  }

  /** The numeral of a place followed by what the lower places wrote, which starts
      with none of the place's letters, is clean. */
  lemma PlaceJoin(s: string, one: char, five: char, ten: char, rest: string, firsts: string)
    requires DigitLike(s, one, five, ten) && Clean(s) && Clean(rest)
    requires StartsWithOneOf(rest, firsts) && one !in firsts && five !in firsts && ten !in firsts
    ensures Clean(s + rest) && StartsWithOneOf(s + rest, [one, five] + firsts)
  {
    CleanJoin(s, rest);
    if s != [] {
      assert (s + rest)[0] == s[0];
    } else {
      assert s + rest == rest;
    }
  }

  /** `M` written up to three times, followed by a clean string that does not start
      with `M`, is clean. */
  lemma ThousandsJoin(a: nat, rest: string)
    requires a <= 3 && Clean(rest) && (rest == [] || rest[0] != 'M')
    ensures Clean(Rep('M', a) + rest)
  {
    ThousandsClean(a);
    if a > 0 {
      RepLast('M', a);
    }
    CleanJoin(Rep('M', a), rest);
  }

  /** The numeral with digits `a`, `b`, `c`, `d`, written place by place, is clean:
      each place is, and no two neighbouring places put the same letter side by side. */
  lemma DigitsClean(a: nat, b: nat, c: nat, d: nat)
    requires a <= 3 && b < 10 && c < 10 && d < 10
    ensures Clean(Rep('M', a) + (Digit('C', 'D', 'M', b) + (Digit('X', 'L', 'C', c) + Digit('I', 'V', 'X', d))))
  {
    var h, t, u := Digit('C', 'D', 'M', b), Digit('X', 'L', 'C', c), Digit('I', 'V', 'X', d);
    DigitClean('I', 'V', 'X', d);
    DigitShape('I', 'V', 'X', d);
    PlaceJoin(u, 'I', 'V', 'X', "", "");
    assert u + "" == u;
    DigitClean('X', 'L', 'C', c);
    DigitShape('X', 'L', 'C', c);
    PlaceJoin(t, 'X', 'L', 'C', u, "IV");
    DigitClean('C', 'D', 'M', b);
    DigitShape('C', 'D', 'M', b);
    PlaceJoin(h, 'C', 'D', 'M', t + u, "XLIV");
    ThousandsJoin(a, h + (t + u));
  }

  /** The numeral written place by place is clean. */
  lemma ByPlacesClean(n: nat)
    requires n < 4000
    ensures Clean(ByPlaces(n))
  {
    PlaceArithmetic(n);
    DigitsClean(n / 1000, n % 1000 / 100, n % 100 / 10, n % 10);
  }

  /** For `n` up to 3999 the integer loop writes a numeral that passes validation. */
  lemma IntegerValid(n: nat, s: string)
    requires n < 4000 && s == Emit(n, 0)
    ensures Clean(s) && Validation(s) == Pass
  {
    EmitByPlaces(n);
    ByPlacesClean(n);
    var ks := EmitSpells(n, 0);
    SpellingUpper(ks, s);
    EmitLetters(n, s);
    CleanValid(s);
  }

  // ---------------------------------------------------------------------------
  // What `a_romano` returns for whole numbers and exact fractions
  // ---------------------------------------------------------------------------

  lemma EmitZero()
    ensures Emit(0, 0) == ""
  {
    var ks := EmitSpells(0, 0);
  }

  /** A whole number from 1 to 3999 is written by the integer loop alone. */
  lemma IntegerWritten(n: nat)
    requires 1 <= n <= 3999
    ensures RomanNumeral(n as real) == Ok(Emit(n, 0))
  {
    assert (n as real).Floor == n;
    EmitLetters(n, Emit(n, 0));
  }

  /** The integer and fractional parts of a whole number plus a fraction value. */
  lemma FractionParts(n: nat, k: nat, x: real)
    requires k < |ValoresFracciones| && x == n as real + FractionValue(k)
    ensures x.Floor == n && x - n as real == FractionValue(k) && 0.0 <= x
  {
    FractionGuardHolds(k);
  }

  /** A value in range with a positive remainder is written as its integer part
      by the greedy loop, then the glyph nearest to the remainder: the 0.01 guard
      never drops it. */
  lemma RomanNumeralOf(x: real, n: nat, frac: real, k: nat)
    requires 0.0 <= x <= 3999.5 && n == x.Floor && frac == x - n as real && frac > 0.0
    requires k == NearestFraction(frac)
    ensures RomanNumeral(x) == Ok((if n > 0 then Emit(n, 0) else "") + Glyph(k))
  {
    FractionGuardHolds(k);
    GlyphNonEmpty(k);
    var s := (if n > 0 then Emit(n, 0) else "") + Glyph(k);
    assert |s| >= |Glyph(k)| > 0;
  }

  lemma GlyphNonEmpty(k: nat)
    requires k < |ValoresFracciones|
    ensures |Glyph(k)| > 0
  {
  }

  /** A whole number up to 3999 plus the value of a fraction entry is written by the
      integer loop followed by that entry's glyph. */
  lemma FractionWritten(x: real, n: nat, k: nat)
    requires n <= 3999 && k < |ValoresFracciones| && x == n as real + FractionValue(k)
    ensures RomanNumeral(x) == Ok(Emit(n, 0) + Glyph(k))
  {
    FractionParts(n, k, x);
    FractionGuardHolds(k);
    NearestExact(k);
    EmitZero();
    RomanNumeralOf(x, n, FractionValue(k), k);
    assert (if n > 0 then Emit(n, 0) else "") == Emit(n, 0);
  }

  /** The examples of the glyph choice: a half is `S`, a twelfth is `·`. */
  lemma HalfWritten(x: real)
    requires x == 0.5
    ensures RomanNumeral(x) == Ok("S")
  {
    FractionWritten(x, 0, 0);
    EmitZero();
    assert Emit(0, 0) + Glyph(0) == "S";
  }

  lemma TwelfthWritten(x: real)
    requires x == 1.0 / 12.0
    ensures RomanNumeral(x) == Ok([Dot])
  {
    FractionWritten(x, 0, 1);
    EmitZero();
    assert Emit(0, 0) + Glyph(1) == [Dot];
  }

  /** A whole number from 1 to 3999 is written digit by digit. */
  lemma WrittenByDigits(a: nat, b: nat, c: nat, d: nat, s: string)
    requires a <= 3 && b < 10 && c < 10 && d < 10 && 1 <= a * 1000 + b * 100 + c * 10 + d
    requires s == Rep('M', a) + (Digit('C', 'D', 'M', b) + (Digit('X', 'L', 'C', c) + Digit('I', 'V', 'X', d)))
    ensures RomanNumeral((a * 1000 + b * 100 + c * 10 + d) as real) == Ok(s)
  {
    var n := a * 1000 + (b * 100 + (c * 10 + d));
    IntegerWritten(n);
    EmitByDigits(a, b, c, d);
  }

  /** The subtractive forms: 4, 9, 40 and 1994. */
  lemma SubtractiveWritten()
    ensures RomanNumeral(4.0) == Ok("IV") && RomanNumeral(9.0) == Ok("IX")
    ensures RomanNumeral(40.0) == Ok("XL") && RomanNumeral(1994.0) == Ok("MCMXCIV")
  {
    FourWritten();
    NineWritten();
    FortyWritten();
    NineteenNinetyFourWritten();
  }

  lemma FourWritten()
    ensures RomanNumeral(4.0) == Ok("IV")
  {
    assert Rep('M', 0) + (Digit('C', 'D', 'M', 0) + (Digit('X', 'L', 'C', 0) + "IV")) == "IV";
    WrittenByDigits(0, 0, 0, 4, "IV");
  }

  lemma NineWritten()
    ensures RomanNumeral(9.0) == Ok("IX")
  {
    assert Rep('M', 0) + (Digit('C', 'D', 'M', 0) + (Digit('X', 'L', 'C', 0) + "IX")) == "IX";
    WrittenByDigits(0, 0, 0, 9, "IX");
  }

  lemma FortyWritten()
    ensures RomanNumeral(40.0) == Ok("XL")
  {
    assert Digit('I', 'V', 'X', 0) == "" && Digit('X', 'L', 'C', 4) == "XL";
    assert Rep('M', 0) + (Digit('C', 'D', 'M', 0) + ("XL" + "")) == "XL";
    WrittenByDigits(0, 0, 4, 0, "XL");
  }

  lemma NineteenNinetyFourWritten()
    ensures RomanNumeral(1994.0) == Ok("MCMXCIV")
  {
    assert Rep('M', 1) == "M" && Digit('C', 'D', 'M', 9) == "CM" && Digit('X', 'L', 'C', 9) == "XC";
    assert "M" + ("CM" + ("XC" + "IV")) == "MCMXCIV";
    WrittenByDigits(1, 9, 9, 4, "MCMXCIV");
  }

  /** The ends of the range: 3999.5 is written, anything above it is refused. */
  lemma RangeEnds()
    ensures RomanNumeral(3999.5).Ok? && RomanNumeral(3999.51) == Err(OutOfRange)
    ensures RomanNumeral(0.0) == Ok("Nihil") && RomanNumeral(-0.5) == Err(OutOfRange)
  {
    RangeError(3999.5);
    RangeError(3999.51);
    RangeError(-0.5);
    NihilIffZero(0.0);
  }
}
