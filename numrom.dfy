/** Roman numerals with uncia fractions (class `NumRom` of PyRomano.py): the two
    tables, the validator, the reader `a_decimal` and the writer `a_romano`.
    Each method is proved equal to a function that states its behaviour;
    the properties of those functions are proved in NumRomReading, NumRomWriting
    and NumRomRoundTrip. */
module NumRom {
  import opened Errors
  import opened Text

  /** The middle dot: one uncia, a twelfth. */
  const Dot: char := '\U{00B7}'

  /** Symbols and values, tried in this order when reading and writing. */
  const ValoresRomanos: seq<(string, nat)> := [
    ("M", 1000), ("CM", 900), ("D", 500), ("CD", 400),
    ("C", 100), ("XC", 90), ("L", 50), ("XL", 40),
    ("X", 10), ("IX", 9), ("V", 5), ("IV", 4), ("I", 1)
  ]

  /** Fraction glyphs and their values, in twelfths, as exact reals. */
  const ValoresFracciones: seq<(string, real)> := [
    ("S", 6.0 / 12.0), ([Dot], 1.0 / 12.0), ([Dot, Dot], 2.0 / 12.0),
    ([Dot, Dot, Dot], 3.0 / 12.0), ([Dot, Dot, Dot, Dot], 4.0 / 12.0),
    ([Dot, Dot, Dot, Dot, Dot], 5.0 / 12.0)
  ]

  /** Repetitions the validator refuses, in the order it looks for them. */
  const InvalidSequences: seq<string> := ["IIII", "VV", "XXXX", "LL", "CCCC", "DD", "MMMM"]

  /** Symbol and value of entry `k` of `ValoresRomanos`. */
  function Symbol(k: nat): string
    requires k < |ValoresRomanos|
  {
    ValoresRomanos[k].0
  }

  function Value(k: nat): nat
    requires k < |ValoresRomanos|
  {
    ValoresRomanos[k].1
  }

  /** Glyph and value of entry `k` of `ValoresFracciones`. */
  function Glyph(k: nat): string
    requires k < |ValoresFracciones|
  {
    ValoresFracciones[k].0
  }

  function FractionValue(k: nat): real
    requires k < |ValoresFracciones|
  {
    ValoresFracciones[k].1
  }

  /** A letter that occurs in some symbol of the table. */
  predicate IsRomanLetter(c: char) {
    c == 'M' || c == 'D' || c == 'C' || c == 'L' || c == 'X' || c == 'V' || c == 'I'
  }

  /** Every symbol is one or two letters of the table, and every value is positive. */
  lemma SymbolShape(k: nat)
    requires k < |ValoresRomanos|
    ensures 1 <= |Symbol(k)| <= 2 && Value(k) >= 1
    ensures IsRomanLetter(Symbol(k)[0]) && (|Symbol(k)| == 2 ==> IsRomanLetter(Symbol(k)[1]))
  {
  }

  /** Every fraction glyph is one to five copies of one character, `S` for the half
      and `·` otherwise, and every fraction value is positive. */
  lemma GlyphShape(k: nat)
    requires k < |ValoresFracciones|
    ensures 1 <= |Glyph(k)| <= 5 && FractionValue(k) > 0.0
    ensures Glyph(k)[0] == (if k == 0 then 'S' else Dot)
    ensures forall i | 0 <= i < |Glyph(k)| :: Glyph(k)[i] == Glyph(k)[0]
    ensures k >= 1 ==> |Glyph(k)| == k
  {
  }

  // ---------------------------------------------------------------------------
  // Spellings: a numeral as a list of table entries
  // ---------------------------------------------------------------------------

  predicate InTable(ks: seq<nat>) { forall i | 0 <= i < |ks| :: ks[i] < |ValoresRomanos| }

  /** `ks` lists table entries from `k` on in table order, repetitions allowed. */
  predicate Ascending(ks: seq<nat>, k: nat) {
    ks == [] || (k <= ks[0] < |ValoresRomanos| && Ascending(ks[1..], ks[0]))
  }

  /** The symbols of the entries `ks`, one after the other. */
  function Spell(ks: seq<nat>): string
    requires InTable(ks)
  {
    if ks == [] then "" else Symbol(ks[0]) + Spell(ks[1..])
  }

  /** The sum of the values of the entries `ks`. */
  function Sum(ks: seq<nat>): nat
    requires InTable(ks)
  {
    if ks == [] then 0 else Value(ks[0]) + Sum(ks[1..])
  }

  // ---------------------------------------------------------------------------
  // Validation (`_valida_romano`)
  // ---------------------------------------------------------------------------

  /** A character of the set `'S·'`. */
  predicate IsFractionChar(c: char) { c == 'S' || c == Dot }

  /** Index of the first invalid sequence, from entry `j` on, that `u` contains. */
  function FirstInvalid(u: string, j: nat): (r: Option<nat>)
    requires j <= |InvalidSequences|
    ensures r.None? <==> forall q | j <= q < |InvalidSequences| :: !Contains(u, InvalidSequences[q])
    ensures r.Some? ==> j <= r.value < |InvalidSequences| && Contains(u, InvalidSequences[r.value])
    ensures r.Some? ==> forall q | j <= q < r.value :: !Contains(u, InvalidSequences[q])
    decreases |InvalidSequences| - j
  {
    if j == |InvalidSequences| then None
    else if Contains(u, InvalidSequences[j]) then Some(j)
    else FirstInvalid(u, j + 1)
  }

  /** Some fraction glyph of the table occurs in `u`. */
  predicate HasFractionGlyph(u: string) {
    exists k | 0 <= k < |ValoresFracciones| :: Contains(u, Glyph(k))
  }

  /** Some `S` or `·` stands before the last six characters of `u`. */
  predicate FractionEarly(u: string) {
    exists i | 0 <= i < |u| :: IsFractionChar(u[i]) && i < |u| - 6
  }

  /** What `_valida_romano` does with `roman`: raise for the first invalid sequence
      found, else raise when a fraction glyph occurs and an `S` or `·` stands too
      early, else return. */
  function Validation(roman: string): (r: Outcome)
    ensures r.Fail? ==>
              r.error == FractionNotAtEnd ||
              (r.error.InvalidSequence? && r.error.sequence in InvalidSequences)
    ensures r.Pass? ==>
              forall q | 0 <= q < |InvalidSequences| :: !Contains(Upper(roman), InvalidSequences[q])
  {
    var u := Upper(roman);
    match FirstInvalid(u, 0)
    case Some(q) => Fail(InvalidSequence(InvalidSequences[q]))
    case None => if HasFractionGlyph(u) && FractionEarly(u) then Fail(FractionNotAtEnd) else Pass
  }

  method ValidaRomano(roman: string) returns (r: Outcome)
    ensures r == Validation(roman)
  {
    var u := Upper(roman);
    for j := 0 to |InvalidSequences|
      invariant FirstInvalid(u, j) == FirstInvalid(u, 0)
    {
      if Contains(u, InvalidSequences[j]) {
        return Fail(InvalidSequence(InvalidSequences[j]));
      }
    }
    if HasFractionGlyph(u) {
      for i := 0 to |u|
        invariant forall i' | 0 <= i' < i :: !(IsFractionChar(u[i']) && i' < |u| - 6)
      {
        if IsFractionChar(u[i]) && i < |u| - 6 {
          return Fail(FractionNotAtEnd);
        }
      }
    }
    return Pass;
  }

  // ---------------------------------------------------------------------------
  // Reading (`a_decimal`)
  // ---------------------------------------------------------------------------

  /** Where a scan stops and the sum of the values it consumed. */
  datatype Scan = Scan(pos: nat, total: nat)

  /** The symbol scan of `a_decimal` from table entry `k` and cursor `i`: entry `k`
      is consumed as often as it occurs at the cursor, then the next entry is tried. */
  function Greedy(u: string, k: nat, i: nat): (r: Scan)
    requires k <= |ValoresRomanos| && i <= |u|
    ensures i <= r.pos <= |u|
    decreases |ValoresRomanos| - k, |u| - i
  {
    if k == |ValoresRomanos| then Scan(i, 0)
    else if i < |u| && StartsAt(u, Symbol(k), i) then
      var rest := Greedy(u, k, i + |Symbol(k)|);
      Scan(rest.pos, rest.total + Value(k))
    else Greedy(u, k + 1, i)
  }

  /** Index of the first fraction entry, from `k` on, that `u` ends with. */
  function TrailingFraction(u: string, k: nat): (r: Option<nat>)
    requires k <= |ValoresFracciones|
    ensures r.None? <==> forall j | k <= j < |ValoresFracciones| :: !EndsWith(u, Glyph(j))
    ensures r.Some? ==> k <= r.value < |ValoresFracciones| && EndsWith(u, Glyph(r.value))
    ensures r.Some? ==> forall j | k <= j < r.value :: !EndsWith(u, Glyph(j))
    decreases |ValoresFracciones| - k
  {
    if k == |ValoresFracciones| then None
    else if EndsWith(u, Glyph(k)) then Some(k)
    else TrailingFraction(u, k + 1)
  }

  /** The end of `a_decimal` once the symbol scan stopped at `scan` and the fraction
      loop found `f`: the cursor, moved past the glyph, must land on the end. */
  function Finish(u: string, scan: Scan, f: Option<nat>): Result<real>
    requires f.Some? ==> f.value < |ValoresFracciones|
  {
    match f
    case Some(k) =>
      if scan.pos + |Glyph(k)| != |u| then Err(InvalidNumeral(u))
      else Ok(scan.total as real + FractionValue(k))
    case None =>
      if scan.pos != |u| then Err(InvalidNumeral(u)) else Ok(scan.total as real)
  }

  /** What `a_decimal` returns for an upper-case numeral that passed validation: the
      symbol scan, then the first trailing fraction glyph, then the end check. */
  function ReadValidated(u: string): Result<real> {
    Finish(u, Greedy(u, 0, 0), TrailingFraction(u, 0))
  }

  /** What `a_decimal` returns or raises for `roman`. */
  function DecimalValue(roman: string): (r: Result<real>)
    ensures r == Err(EmptyInput) <==> |roman| == 0
    ensures r.Ok? ==> r.value >= 0.0
  {
    if |roman| == 0 then Err(EmptyInput)
    else
      var u := Upper(roman);
      match Validation(u)
      case Fail(e) => Err(e)
      case Pass => ReadValidated(u)
  }

  /** The symbol loops of `a_decimal`: each table entry in turn is consumed while
      it occurs at the cursor. */
  method ScanSymbols(u: string) returns (i: nat, result: nat)
    ensures Scan(i, result) == Greedy(u, 0, 0)
  {
    ghost var scan := Greedy(u, 0, 0);
    result, i := 0, 0;
    for k := 0 to |ValoresRomanos|
      invariant i <= |u|
      invariant Greedy(u, k, i).pos == scan.pos
      invariant result + Greedy(u, k, i).total == scan.total
    {
      var symbol, value := Symbol(k), Value(k);
      while i < |u| && StartsAt(u, symbol, i)
        invariant i <= |u|
        invariant Greedy(u, k, i).pos == scan.pos
        invariant result + Greedy(u, k, i).total == scan.total
        decreases |u| - i
      {
        result := result + value;
        i := i + |symbol|;
      }
    }
  }

  /** The fraction loop of `a_decimal`: the first glyph the numeral ends with adds
      its value and its length to the running total and the cursor. */
  method AddFraction(u: string, i: nat, total: real) returns (i': nat, total': real)
    ensures TrailingFraction(u, 0).None? ==> i' == i && total' == total
    ensures TrailingFraction(u, 0).Some? ==>
              var k := TrailingFraction(u, 0).value;
              i' == i + |Glyph(k)| && total' == total + FractionValue(k)
  {
    i', total' := i, total;
    for k := 0 to |ValoresFracciones|
      invariant TrailingFraction(u, k) == TrailingFraction(u, 0)
      invariant i' == i && total' == total
    {
      var symbol, value := Glyph(k), FractionValue(k);
      if EndsWith(u, symbol) {
        total' := total' + value;
        i' := i' + |symbol|;
        return;
      }
    }
  }

  method ADecimal(roman: string) returns (r: Result<real>)
    ensures r == DecimalValue(roman)
  {
    if |roman| == 0 {
      return Err(EmptyInput);
    }
    var u := Upper(roman);
    var check := ValidaRomano(u);
    if check.Fail? {
      return Err(check.error);
    }
    var i, result := ScanSymbols(u);
    var total := result as real;
    i, total := AddFraction(u, i, total);
    if i != |u| {
      return Err(InvalidNumeral(u));
    }
    return Ok(total);
  }

  // ---------------------------------------------------------------------------
  // Writing (`a_romano`)
  // ---------------------------------------------------------------------------

  /** The greedy writing of `n` from table entry `k` on: while `n` is at least the
      entry's value its symbol is appended and its value subtracted. */
  function Emit(n: nat, k: nat): (r: string)
    requires k <= |ValoresRomanos|
    ensures r == "" <==> n == 0 || k == |ValoresRomanos|
    decreases |ValoresRomanos| - k, n
  {
    if k == |ValoresRomanos| then ""
    else if n >= Value(k) then SymbolShape(k); Symbol(k) + Emit(n - Value(k), k)
    else Emit(n, k + 1)
  }

  /** `abs(value - frac)` for fraction entry `k`. */
  function Distance(frac: real, k: nat): real
    requires k < |ValoresFracciones|
  {
    if FractionValue(k) >= frac then FractionValue(k) - frac else frac - FractionValue(k)
  }

  /** Python's `min` over the fraction entries from `k` on, `best` being the
      earliest entry of least distance among those before `k`. */
  function NearestFrom(frac: real, k: nat, best: nat): (r: nat)
    requires best < k <= |ValoresFracciones|
    requires forall j | 0 <= j < k :: Distance(frac, best) <= Distance(frac, j)
    requires forall j | 0 <= j < best :: Distance(frac, j) > Distance(frac, best)
    ensures r < |ValoresFracciones|
    ensures forall j | 0 <= j < |ValoresFracciones| :: Distance(frac, r) <= Distance(frac, j)
    ensures forall j | 0 <= j < r :: Distance(frac, j) > Distance(frac, r)
    decreases |ValoresFracciones| - k
  {
    if k == |ValoresFracciones| then best
    else if Distance(frac, k) < Distance(frac, best) then NearestFrom(frac, k + 1, k)
    else NearestFrom(frac, k + 1, best)
  }

  /** The fraction entry nearest to `frac`, the earliest one on ties. */
  function NearestFraction(frac: real): (r: nat)
    ensures r < |ValoresFracciones|
    ensures forall j | 0 <= j < |ValoresFracciones| :: Distance(frac, r) <= Distance(frac, j)
    ensures forall j | 0 <= j < r :: Distance(frac, j) > Distance(frac, r)
  {
    NearestFrom(frac, 1, 0)
  }

  /** What `a_romano` returns or raises for `decimal`. */
  function RomanNumeral(decimal: real): (r: Result<string>)
    ensures r.Err? <==> decimal < 0.0 || decimal > 3999.5
    ensures r.Err? ==> r.error == OutOfRange
    ensures r.Ok? ==> r.value != ""
  {
    if decimal < 0.0 || decimal > 3999.5 then Err(OutOfRange)
    else
      var n: nat := decimal.Floor;
      var frac := decimal - n as real;
      var digits := if n > 0 then Emit(n, 0) else "";
      var k := NearestFraction(frac);
      var s := if frac > 0.0 && FractionValue(k) > 0.01 then digits + Glyph(k) else digits;
      Ok(if s == "" then "Nihil" else s)
  }

  /** The integer loop of `a_romano`: appends symbols while subtracting values. */
  method WriteInteger(n: nat) returns (result: string)
    ensures result == Emit(n, 0)
  {
    var integerPart := n;
    result := "";
    for k := 0 to |ValoresRomanos|
      invariant result + Emit(integerPart, k) == Emit(n, 0)
    {
      var symbol, value := Symbol(k), Value(k);
      while integerPart >= value
        invariant result + Emit(integerPart, k) == Emit(n, 0)
      {
        assert result + Emit(integerPart, k) == (result + symbol) + Emit(integerPart - value, k);
        result := result + symbol;
        integerPart := integerPart - value;
      }
    }
  }

  method ARomano(decimal: real) returns (r: Result<string>)
    ensures r == RomanNumeral(decimal)
  {
    if decimal < 0.0 || decimal > 3999.5 {
      return Err(OutOfRange);
    }
    var integerPart: nat := decimal.Floor;
    var fractionalPart := decimal - integerPart as real;
    var result := "";
    if integerPart > 0 {
      result := WriteInteger(integerPart);
    }
    if fractionalPart > 0.0 {
      var closest := NearestFraction(fractionalPart);
      var glyph, value := Glyph(closest), FractionValue(closest);
      if value > 0.01 {
        result := result + glyph;
      }
    }
    return Ok(if result == "" then "Nihil" else result);
  }
}
