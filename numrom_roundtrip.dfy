/** `a_decimal` after `a_romano`. Whole numbers, halves and single twelfths are
    read back; two to five twelfths are written but never read back. A reader that
    tries the longest fraction glyph first reads every exact twelfth back, and agrees
    with `a_decimal` on everything `a_decimal` accepts. */
module NumRomRoundTrip {
  import opened Errors
  import opened Text
  import opened NumRom
  import opened NumRomReading
  import opened NumRomWriting

  // ---------------------------------------------------------------------------
  // The fraction glyphs
  // ---------------------------------------------------------------------------

  /** The glyphs after `S` are one to five dots. */
  lemma GlyphDots(k: nat)
    requires 1 <= k < |ValoresFracciones|
    ensures Glyph(k) == Rep(Dot, k)
  {
    if k == 1 {
      assert Rep(Dot, 1) == [Dot];
    } else if k == 2 {
      assert Rep(Dot, 2) == [Dot, Dot];
    } else if k == 3 {
      assert Rep(Dot, 3) == [Dot, Dot, Dot];
    } else if k == 4 {
      assert Rep(Dot, 4) == [Dot, Dot, Dot, Dot];
    } else {
      assert Rep(Dot, 5) == [Dot, Dot, Dot, Dot, Dot];
    }
  }

  /** Every character of a glyph is `S` or `·`. */
  lemma GlyphChars(k: nat)
    requires k < |ValoresFracciones|
    ensures forall i | 0 <= i < |Glyph(k)| :: IsFractionChar(Glyph(k)[i])
  {
    if k > 0 {
      GlyphDots(k);
      RepChars(Dot, k);
    }
  }

  /** A run of dots ends with a shorter or equal run of dots only. */
  lemma RepSuffix(c: char, k: nat, j: nat)
    ensures EndsWith(Rep(c, k), Rep(c, j)) <==> j <= k
  {
    if j <= k {
      RepChars(c, k);
      RepChars(c, j);
      assert Rep(c, k)[k - j..] == Rep(c, j);
    }
  }

  /** Glyph `k` ends with glyph `j` exactly when they are the same or both are runs
      of dots, the run of `j` no longer. */
  lemma GlyphSuffix(k: nat, j: nat)
    requires k < |ValoresFracciones| && j < |ValoresFracciones|
    ensures EndsWith(Glyph(k), Glyph(j)) <==> j == k || 1 <= j <= k
  {
    GlyphShape(k);
    GlyphShape(j);
    if k >= 1 && j >= 1 {
      GlyphDots(k);
      GlyphDots(j);
      RepSuffix(Dot, k, j);
    } else if j != k && |Glyph(j)| <= |Glyph(k)| {
      var g := Glyph(k);
      assert g[|g| - |Glyph(j)|..][|Glyph(j)| - 1] == g[|g| - 1];
    }
  }

  /** Behind a numeral that ends with a letter of the table, the glyph is the only
      part a glyph can end on. */
  lemma SuffixOfGlyphNumeral(e: string, k: nat, j: nat)
    requires e == [] || IsRomanLetter(e[|e| - 1])
    requires k < |ValoresFracciones| && j < |ValoresFracciones|
    ensures EndsWith(e + Glyph(k), Glyph(j)) <==> EndsWith(Glyph(k), Glyph(j))
  {
    GlyphChars(j);
    SuffixBehindLetter(e, Glyph(k), Glyph(j));
  }

  /** A string of fraction characters that ends `e + g` and is longer than `g` would
      reach the last character of `e`. */
  lemma SuffixBehindLetter(e: string, g: string, w: string)
    requires e == [] || !IsFractionChar(e[|e| - 1])
    requires forall i | 0 <= i < |w| :: IsFractionChar(w[i])
    ensures EndsWith(e + g, w) <==> EndsWith(g, w)
  {
    var s := e + g;
    if |w| <= |g| {
      assert s[|s| - |w|..] == g[|g| - |w|..];
    } else if |w| <= |s| {
      var p := |w| - |g| - 1;
      assert s[|s| - |w|..][p] == e[|e| - 1];
      assert IsFractionChar(w[p]);
    }
  }

  // ---------------------------------------------------------------------------
  // What `a_romano` writes for a whole number plus an exact fraction
  // ---------------------------------------------------------------------------

  /** The integer loop's output followed by a glyph: upper case, letters of the
      table, then the glyph's `S` or dots. */
  lemma GlyphNumeralShape(n: nat, k: nat, s: string)
    requires k < |ValoresFracciones| && s == Emit(n, 0) + Glyph(k)
    ensures Upper(s) == s
    ensures forall i | 0 <= i < |s| && IsFractionChar(s[i]) :: i >= |Emit(n, 0)|
    ensures Emit(n, 0) == [] || IsRomanLetter(Emit(n, 0)[|Emit(n, 0)| - 1])
  {
    var e := Emit(n, 0);
    EmitLetters(n, e);
    GlyphChars(k);
    forall i | 0 <= i < |s|
      ensures !IsLower(s[i]) && (i < |e| ==> IsRomanLetter(s[i]))
    {
      if i < |e| {
        assert s[i] == e[i];
      } else {
        assert s[i] == Glyph(k)[i - |e|];
      }
    }
    UpperUnchanged(s);
  }

  /** For `n` up to 3999 the integer loop's output followed by any glyph passes
      validation: it is clean, and its `S` or dots are all within the last five
      characters. */
  lemma GlyphNumeralValid(n: nat, k: nat, s: string)
    requires n <= 3999 && k < |ValoresFracciones| && s == Emit(n, 0) + Glyph(k)
    ensures Validation(s) == Pass
  {
    var e := Emit(n, 0);
    IntegerValid(n, e);
    GlyphNumeralShape(n, k, s);
    GlyphChars(k);
    GlyphShape(k);
    FractionCharsClean(Glyph(k));
    CleanJoin(e, Glyph(k));
    ValidationMeaning(s);
  }

  lemma GlyphNumeralEndsDots(e: string, k: nat)
    requires k < |ValoresFracciones|
    ensures k >= 2 ==> EndsWith(e + Glyph(k), [Dot, Dot])
  {
    if k >= 2 {
      GlyphDots(k);
      RepChars(Dot, k);
      var s := e + Glyph(k);
      assert s[|s| - 2..] == [Glyph(k)[k - 2], Glyph(k)[k - 1]];
    }
  }

  // ---------------------------------------------------------------------------
  // Round trips through `a_decimal`
  // ---------------------------------------------------------------------------

  /** `a_decimal(a_romano(n)) == n` for every whole `n` from 1 to 3999. */
  lemma RoundTripInteger(n: nat)
    requires 1 <= n <= 3999
    ensures RomanNumeral(n as real).Ok?
    ensures DecimalValue(RomanNumeral(n as real).value) == Ok(n as real)
  {
    IntegerWritten(n);
    var s := Emit(n, 0);
    var ks := IntegerSpelling(n);
    IntegerValid(n, s);
    DecimalOfSpelling(ks, s, n);
  }

  /** The same for a whole number up to 3999 plus a half (`S`) or a twelfth (`·`). */
  lemma RoundTripGlyph(n: nat, k: nat)
    requires n <= 3999 && (k == 0 || k == 1)
    ensures RomanNumeral(n as real + FractionValue(k)).Ok?
    ensures DecimalValue(RomanNumeral(n as real + FractionValue(k)).value) ==
            Ok(n as real + FractionValue(k))
  {
    FractionWritten(n as real + FractionValue(k), n, k);
    var s := Emit(n, 0) + Glyph(k);
    var ks := EmitSpells(n, 0);
    GlyphNumeralValid(n, k, s);
    DecimalOfGlyphSpelling(ks, k, s, n);
  }

  /** `a_decimal(a_romano(n + 0.5)) == n + 0.5` for every whole `n` up to 3999. */
  lemma RoundTripHalf(n: nat)
    requires n <= 3999
    ensures RomanNumeral(n as real + 0.5).Ok?
    ensures DecimalValue(RomanNumeral(n as real + 0.5).value) == Ok(n as real + 0.5)
  {
    RoundTripGlyph(n, 0);
    assert FractionValue(0) == 0.5;
  }

  /** Two to five twelfths are written as that many dots, and `a_decimal` rejects the
      result: `·` is found first at the end, and the dot before it is left unread. */
  lemma TwelfthsNotReadBack(n: nat, k: nat)
    requires n <= 3999 && 2 <= k < |ValoresFracciones|
    ensures RomanNumeral(n as real + FractionValue(k)) == Ok(Emit(n, 0) + Glyph(k))
    ensures DecimalValue(Emit(n, 0) + Glyph(k)).Err?
  {
    FractionWritten(n as real + FractionValue(k), n, k);
    var s := Emit(n, 0) + Glyph(k);
    GlyphNumeralShape(n, k, s);
    GlyphNumeralEndsDots(Emit(n, 0), k);
    TrailingDotsRejected(s);
  }

  /** The example of the docstring of `a_romano`: 12.25 is written `XII···`, which
      `a_decimal` rejects. */
  lemma TwelveAndAQuarter(x: real)
    requires x == 12.25
    ensures RomanNumeral(x) == Ok("XII" + [Dot, Dot, Dot])
    ensures DecimalValue("XII" + [Dot, Dot, Dot]).Err?
  {
    TwelfthsNotReadBack(12, 3);
    assert 12 as real + FractionValue(3) == x;
    TwelveWritten(Emit(12, 0));
    assert Glyph(3) == [Dot, Dot, Dot];
  }

  lemma TwelveWritten(s: string)
    requires s == Emit(12, 0)
    ensures s == "XII"
  {
    EmitByPlaces(12);
    assert Rep('M', 0) == [] && Digit('C', 'D', 'M', 0) == [] && Digit('X', 'L', 'C', 1) == "X";
    assert Digit('I', 'V', 'X', 2) == "II";
  }

  // ---------------------------------------------------------------------------
  // A reader that tries the longest glyph first
  // ---------------------------------------------------------------------------

  /** The longest run of dots, from `k` dots down to one, that `u` ends with. */
  function LongestDots(u: string, k: nat): Option<nat>
    requires 1 <= k < |ValoresFracciones|
    decreases k
  {
    if EndsWith(u, Glyph(k)) then Some(k)
    else if k == 1 then None
    else LongestDots(u, k - 1)
  }

  /** `LongestDots` finds the longest run of at most `k` dots that `u` ends with, and
      nothing when `u` ends with no dot. */
  lemma {:induction false} LongestDotsMeaning(u: string, k: nat)
    requires 1 <= k < |ValoresFracciones|
    ensures LongestDots(u, k).Some? ==>
              1 <= LongestDots(u, k).value <= k && EndsWith(u, Glyph(LongestDots(u, k).value))
    ensures LongestDots(u, k).Some? ==>
              forall j | LongestDots(u, k).value < j <= k :: !EndsWith(u, Glyph(j))
    ensures LongestDots(u, k).None? ==> forall j | 1 <= j <= k :: !EndsWith(u, Glyph(j))
    decreases k
  {
    if EndsWith(u, Glyph(k)) {
      LongestDotsAt(u, k);
    } else if k == 1 {
      assert LongestDots(u, k) == None;
    } else {
      LongestDotsMeaning(u, k - 1);
      LongestDotsBelow(u, k);
    }
  }

  lemma LongestDotsAt(u: string, k: nat)
    requires 1 <= k < |ValoresFracciones| && EndsWith(u, Glyph(k))
    ensures LongestDots(u, k) == Some(k)
  {
  }

  /** One step of the induction: no run of `k` dots, so the answer is that for `k - 1`. */
  lemma LongestDotsBelow(u: string, k: nat)
    requires 1 < k < |ValoresFracciones| && !EndsWith(u, Glyph(k))
    requires LongestDots(u, k - 1).Some? ==>
               1 <= LongestDots(u, k - 1).value <= k - 1 &&
               EndsWith(u, Glyph(LongestDots(u, k - 1).value))
    requires LongestDots(u, k - 1).Some? ==>
               forall j | LongestDots(u, k - 1).value < j <= k - 1 :: !EndsWith(u, Glyph(j))
    requires LongestDots(u, k - 1).None? ==> forall j | 1 <= j <= k - 1 :: !EndsWith(u, Glyph(j))
    ensures LongestDots(u, k).Some? ==>
              1 <= LongestDots(u, k).value <= k && EndsWith(u, Glyph(LongestDots(u, k).value))
    ensures LongestDots(u, k).Some? ==>
              forall j | LongestDots(u, k).value < j <= k :: !EndsWith(u, Glyph(j))
    ensures LongestDots(u, k).None? ==> forall j | 1 <= j <= k :: !EndsWith(u, Glyph(j))
  {
    var r := LongestDots(u, k - 1);
    assert LongestDots(u, k) == r;
    if r.Some? {
      forall j | r.value < j <= k ensures !EndsWith(u, Glyph(j)) {
        if j < k {
          assert r.value < j <= k - 1;
        }
      }
    } else {
      forall j | 1 <= j <= k ensures !EndsWith(u, Glyph(j)) {
        if j < k {
          assert 1 <= j <= k - 1;
        }
      }
    }
  }

  /** The fraction glyph `u` ends with, the run of dots taken whole. */
  function TrailingFractionLongest(u: string): (r: Option<nat>) {
    if EndsWith(u, Glyph(0)) then Some(0) else LongestDots(u, |ValoresFracciones| - 1)
  }

  function ReadValidatedLongest(u: string): Result<real> {
    Finish(u, Greedy(u, 0, 0), TrailingFractionLongest(u))
  }

  /** `a_decimal` with the fraction loop taking the longest glyph. */
  function DecimalValueLongest(roman: string): Result<real> {
    if |roman| == 0 then Err(EmptyInput)
    else
      var u := Upper(roman);
      match Validation(u)
      case Fail(e) => Err(e)
      case Pass => ReadValidatedLongest(u)
  }

  /** Behind a numeral that ends with a letter of the table, the longest-glyph loop
      finds exactly the glyph written. */
  lemma LongestOfGlyph(e: string, k: nat)
    requires e == [] || IsRomanLetter(e[|e| - 1])
    requires k < |ValoresFracciones|
    ensures TrailingFractionLongest(e + Glyph(k)) == Some(k)
  {
    var s := e + Glyph(k);
    LongestDotsMeaning(s, |ValoresFracciones| - 1);
    forall j | 0 <= j < |ValoresFracciones|
      ensures EndsWith(s, Glyph(j)) <==> j == k || 1 <= j <= k
    {
      SuffixOfGlyphNumeral(e, k, j);
      GlyphSuffix(k, j);
    }
  }

  /** A non-empty numeral that ends with a letter of the table has no glyph. */
  lemma LongestOfLetters(e: string)
    requires e != [] && IsRomanLetter(e[|e| - 1])
    ensures TrailingFractionLongest(e) == None && TrailingFraction(e, 0) == None
  {
    forall j | 0 <= j < |ValoresFracciones| ensures !EndsWith(e, Glyph(j)) {
      GlyphShape(j);
      var g := Glyph(j);
      if |g| <= |e| {
        assert e[|e| - |g|..][|g| - 1] == e[|e| - 1];
      }
    }
    LongestDotsMeaning(e, |ValoresFracciones| - 1);
  }

  /** `s` is the spelling `ks`, of value `n`, followed by glyph `k`, and the
      spelling ends with a letter when it is not empty. */
  predicate SpelledWithGlyph(ks: seq<nat>, k: nat, s: string, n: nat) {
    InTable(ks) && Ascending(ks, 0) && k < |ValoresFracciones| &&
    s == Spell(ks) + Glyph(k) && n == Sum(ks) &&
    (Spell(ks) == [] || IsRomanLetter(Spell(ks)[|Spell(ks)| - 1]))
  }

  /** `a_decimal`'s checks let `s` through to the reading loops unchanged. */
  predicate Readable(s: string) {
    |s| > 0 && Upper(s) == s && Validation(s).Pass?
  }

  /** The longest-glyph reader on a spelling followed by a glyph. */
  lemma ReadLongestOfGlyph(ks: seq<nat>, k: nat, s: string, n: nat)
    requires SpelledWithGlyph(ks, k, s, n)
    ensures ReadValidatedLongest(s) == Ok(n as real + FractionValue(k))
  {
    GlyphNumeralScan(ks, k, s);
    ReadLongestFromOutcome(s, |Spell(ks)|, n, Some(k));
    assert GlyphValue(Some(k)) == FractionValue(k);
  }

  /** The scan stops where the glyph starts, and the longest-glyph loop finds it. */
  lemma GlyphNumeralScan(ks: seq<nat>, k: nat, s: string)
    requires InTable(ks) && Ascending(ks, 0) && k < |ValoresFracciones|
    requires s == Spell(ks) + Glyph(k)
    requires Spell(ks) == [] || IsRomanLetter(Spell(ks)[|Spell(ks)| - 1])
    ensures Greedy(s, 0, 0) == Scan(|Spell(ks)|, Sum(ks))
    ensures TrailingFractionLongest(s) == Some(k)
    ensures |Spell(ks)| + |Glyph(k)| == |s|
  {
    GlyphShape(k);
    ScanFromStart(s, ks, Glyph(k));
    LongestOfGlyph(Spell(ks), k);
  }

  lemma ReadLongestFromOutcome(u: string, pos: nat, total: nat, f: Option<nat>)
    requires f.Some? ==> f.value < |ValoresFracciones|
    requires Greedy(u, 0, 0) == Scan(pos, total) && TrailingFractionLongest(u) == f
    requires pos + |GlyphOf(f)| == |u|
    ensures ReadValidatedLongest(u) == Ok(total as real + GlyphValue(f))
  {
    ReadValidatedLongestSteps(u);
    FinishOk(u, pos, total, f);
  }

  /** Proof step only: unfolds `ReadValidatedLongest` into its three stages. */
  lemma ReadValidatedLongestSteps(u: string)
    ensures ReadValidatedLongest(u) == Finish(u, Greedy(u, 0, 0), TrailingFractionLongest(u))
  {
  }

  /** With the longest glyph taken, every whole number up to 3999 plus any exact
      number of twelfths that `a_romano` writes with a glyph is read back. */
  lemma RoundTripLongest(n: nat, k: nat)
    requires n <= 3999 && k < |ValoresFracciones|
    ensures RomanNumeral(n as real + FractionValue(k)).Ok?
    ensures DecimalValueLongest(RomanNumeral(n as real + FractionValue(k)).value) ==
            Ok(n as real + FractionValue(k))
  {
    var x := n as real + FractionValue(k);
    var s := GlyphNumeralWritten(x, n, k);
    ReadBackLongest(x, s);
  }

  /** What `a_romano` writes for `n` plus `k` twelfths passes `a_decimal`'s checks
      and the longest-glyph loops read it as that value. */
  lemma GlyphNumeralWritten(x: real, n: nat, k: nat) returns (s: string)
    requires n <= 3999 && k < |ValoresFracciones| && x == n as real + FractionValue(k)
    ensures RomanNumeral(x) == Ok(s) && Readable(s) && ReadValidatedLongest(s) == Ok(x)
  {
    FractionWritten(x, n, k);
    s := Emit(n, 0) + Glyph(k);
    ReadLongestOfGlyphNumeral(n, k, s);
    GlyphNumeralReadable(n, k, s);
  }

  lemma ReadLongestOfGlyphNumeral(n: nat, k: nat, s: string)
    requires n <= 3999 && k < |ValoresFracciones| && s == Emit(n, 0) + Glyph(k)
    ensures ReadValidatedLongest(s) == Ok(n as real + FractionValue(k))
  {
    var ks := EmitSpells(n, 0);
    GlyphNumeralShape(n, k, s);
    ReadLongestOfGlyph(ks, k, s, n);
  }

  lemma GlyphNumeralReadable(n: nat, k: nat, s: string)
    requires n <= 3999 && k < |ValoresFracciones| && s == Emit(n, 0) + Glyph(k)
    ensures Readable(s)
  {
    GlyphShape(k);
    GlyphNumeralValid(n, k, s);
    GlyphNumeralShape(n, k, s);
  }

  /** A numeral `a_romano` writes for `x` that the longest-glyph reader reads as `x`. */
  lemma ReadBackLongest(x: real, s: string)
    requires RomanNumeral(x) == Ok(s) && Readable(s) && ReadValidatedLongest(s) == Ok(x)
    ensures RomanNumeral(x).Ok? && DecimalValueLongest(RomanNumeral(x).value) == Ok(x)
  {
    DecimalLongestOfValid(s, x);
  }

  lemma DecimalLongestOfValid(s: string, v: real)
    requires Readable(s) && ReadValidatedLongest(s) == Ok(v)
    ensures DecimalValueLongest(s) == Ok(v)
  {
  }

  /** The same for whole numbers from 1 to 3999. */
  lemma RoundTripLongestInteger(n: nat)
    requires 1 <= n <= 3999
    ensures DecimalValueLongest(RomanNumeral(n as real).value) == Ok(n as real)
  {
    IntegerWritten(n);
    var s := Emit(n, 0);
    var ks := IntegerSpelling(n);
    IntegerValid(n, s);
    SpellingUpper(ks, s);
    EmitLetters(n, s);
    LongestOfLetters(s);
    assert s == Spell(ks) + [];
    ScanFromStart(s, ks, []);
    ReadLongestFromOutcome(s, |s|, n, None);
    DecimalLongestOfValid(s, n as real + GlyphValue(None));
  }

  lemma DotsEndUnread(u: string)
    ensures EndsWith(u, [Dot, Dot]) ==> ReadValidated(u).Err?
  {
    if EndsWith(u, [Dot, Dot]) {
      TrailingDotsUnread(u);
    }
  }

  /** Both fraction loops find the same glyph on what `a_decimal` accepts. */
  lemma SameTrailingGlyph(e: string, f: Option<nat>)
    requires f.Some? ==> f.value < |ValoresFracciones|
    requires e == [] || IsRomanLetter(e[|e| - 1])
    requires f.None? ==> e != []
    requires f.Some? ==> f.value <= 1
    ensures TrailingFraction(e + GlyphOf(f), 0) == TrailingFractionLongest(e + GlyphOf(f))
  {
    var u := e + GlyphOf(f);
    if f.Some? {
      if f.value == 1 {
        SameTrailingDot(e, u);
      } else {
        SameTrailingHalf(e, u);
      }
    } else {
      assert u == e;
      LongestOfLetters(u);
    }
  }

  /** A numeral ending in one dot: both loops find `·`. */
  lemma SameTrailingDot(e: string, u: string)
    requires e == [] || IsRomanLetter(e[|e| - 1])
    requires u == e + Glyph(1)
    ensures TrailingFraction(u, 0) == TrailingFractionLongest(u)
  {
    LongestOfGlyph(e, 1);
    assert u[|u| - 1] == Dot;
    assert !EndsWith(u, Glyph(0));
    assert EndsWith(u, Glyph(1)) by { assert u[|u| - 1..] == [Dot]; }
  }

  /** A numeral ending in `S`: both loops find the half. */
  lemma SameTrailingHalf(e: string, u: string)
    requires e == [] || IsRomanLetter(e[|e| - 1])
    requires u == e + Glyph(0)
    ensures TrailingFraction(u, 0) == TrailingFractionLongest(u)
  {
    LongestOfGlyph(e, 0);
    assert EndsWith(u, Glyph(0)) by { assert u[|u| - 1..] == "S"; }
  }

  /** The longest-glyph reader changes nothing that `a_decimal` accepts: it only reads
      numerals that `a_decimal` rejects. */
  lemma LongestAgreesWhereAccepted(roman: string)
    requires DecimalValue(roman).Ok?
    ensures DecimalValueLongest(roman) == DecimalValue(roman)
  {
    var u := Upper(roman);
    UpperOfUpper(roman);
    var ks, f := DecimalSound(roman);
    SpellLetters(ks);
    var e := Spell(ks);
    assert e == [] || IsRomanLetter(e[|e| - 1]);
    if f.Some? {
      GlyphNumeralEndsDots(e, f.value);
      DotsEndUnread(u);
    }
    SameTrailingGlyph(e, f);
  }
}
