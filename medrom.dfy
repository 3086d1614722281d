/** The Roman unit table of PyRomano (`MedRom`): conversions between Roman units and
    metres, kilograms and litres, and between two Roman units. Measurements are exact
    real numbers here.

    The conversions are written over any unit table, so that their laws are proved for
    every table whose factors are positive; `AModernas`, `AUnidadRomana` and
    `ConversionUnidades` fix the table to `Medidas`, the class's own. */
module MedRom {
  import opened Errors
  import opened Text

  /** A unit table: unit names with their modern equivalents, in key order. */
  type Table = seq<(string, real)>

  /** `_medidas`: metres for length, kilograms for weight, litres for capacity. */
  const Medidas: Table := [
    ("pes", 0.296),
    ("passus", 1.48),
    ("stadium", 185.0),
    ("mille_passus", 1480.0),
    ("libra", 0.3289),
    ("uncia", 0.3289 / 12.0),
    ("amphora", 26.2),
    ("sextarius", 0.546)
  ]

  predicate Positive(t: Table) {
    forall i | 0 <= i < |t| :: t[i].1 > 0.0
  }

  /** `t.get(unit)`: the factor of the first entry named `unit`. */
  function Find(t: Table, unit: string): Option<real>
    decreases |t|
  {
    if t == [] then None
    else if t[0].0 == unit then Some(t[0].1)
    else Find(t[1..], unit)
  }

  /** `t[unit]`, for a unit the table knows. */
  function Factor(t: Table, unit: string): (r: real)
    requires Find(t, unit).Some?
    ensures Positive(t) ==> r > 0.0
  {
    FindPositive(t, unit);
    Find(t, unit).value
  }

  // ---------------------------------------------------------------------------
  // The operations
  // ---------------------------------------------------------------------------

  /** `a_modernas` over table `t`: the unit is looked up in lower case. It is known
      exactly when it is listed, and an unknown unit is reported before a negative
      value. */
  function ToModern(t: Table, value: real, unit: string): (r: Result<real>)
    ensures r.Ok? <==> Lower(unit) in Names(t) && value >= 0.0
    ensures r == Err(UnknownUnit(Lower(unit))) <==> Lower(unit) !in Names(t)
    ensures r == Err(NegativeValue) <==> Lower(unit) in Names(t) && value < 0.0
    ensures Positive(t) && r.Ok? ==> r.value >= 0.0
  {
    ModernNonnegative(t, value, Lower(unit));
    ModernOf(t, value, Lower(unit))
  }

  /** The lookup and product of `a_modernas` on the lowered unit `u`. */
  function ModernOf(t: Table, value: real, u: string): (r: Result<real>)
    ensures r.Ok? <==> u in Names(t) && value >= 0.0
    ensures r == Err(UnknownUnit(u)) <==> u !in Names(t)
    ensures r == Err(NegativeValue) <==> u in Names(t) && value < 0.0
  {
    FindIffNamed(t, u);
    match Find(t, u)
    case None => Err(UnknownUnit(u))
    case Some(f) => if value < 0.0 then Err(NegativeValue) else Ok(value * f)
  }

  /** In a table of positive factors the product is non-negative. */
  lemma ModernNonnegative(t: Table, value: real, u: string)
    ensures Positive(t) && ModernOf(t, value, u).Ok? ==> ModernOf(t, value, u).value >= 0.0
  {
    FindPositive(t, u);
    if Positive(t) && ModernOf(t, value, u).Ok? {
      Scaled(value, Find(t, u).value);
    }
  }

  /** A listed unit and a non-negative value give the product. */
  lemma ModernOfFound(t: Table, u: string, f: real, value: real)
    requires Find(t, u) == Some(f) && value >= 0.0
    ensures ModernOf(t, value, u) == Ok(value * f)
  {
    var p := value * f;
    assert ModernOf(t, value, u).value == p;
  }

  /** `a_unidad_romana` over table `t`, with the same checks in the same order. */
  function FromModern(t: Table, value: real, unit: string): (r: Result<real>)
    requires Positive(t)
    ensures r.Ok? <==> Lower(unit) in Names(t) && value >= 0.0
    ensures r == Err(UnknownUnit(Lower(unit))) <==> Lower(unit) !in Names(t)
    ensures r == Err(NegativeValue) <==> Lower(unit) in Names(t) && value < 0.0
    ensures r.Ok? ==> r.value >= 0.0
  {
    RomanOf(t, value, Lower(unit))
  }

  /** The lookup and quotient of `a_unidad_romana` on the lowered unit `u`. */
  function RomanOf(t: Table, value: real, u: string): (r: Result<real>)
    requires Positive(t)
    ensures r.Ok? <==> u in Names(t) && value >= 0.0
    ensures r == Err(UnknownUnit(u)) <==> u !in Names(t)
    ensures r == Err(NegativeValue) <==> u in Names(t) && value < 0.0
    ensures r.Ok? ==> r.value >= 0.0
  {
    FindPositive(t, u);
    FindIffNamed(t, u);
    match Find(t, u)
    case None => Err(UnknownUnit(u))
    case Some(f) =>
      if value < 0.0 then Err(NegativeValue)
      else Ok(value / f)
  }

  /** `conversion_unidades` over table `t`: both units are checked first, then the
      value goes to modern units and on to the second unit. Either unit missing
      from the list gives `InvalidUnits`; with both listed, a negative value gives
      `NegativeValue` and any other value converts. */
  function Convert(t: Table, value: real, fromUnit: string, toUnit: string): (r: Result<real>)
    requires Positive(t)
    ensures r == Err(InvalidUnits) <==>
              Lower(fromUnit) !in Names(t) || Lower(toUnit) !in Names(t)
    ensures r == Err(NegativeValue) <==>
              Lower(fromUnit) in Names(t) && Lower(toUnit) in Names(t) && value < 0.0
    ensures r.Ok? <==> Lower(fromUnit) in Names(t) && Lower(toUnit) in Names(t) && value >= 0.0
    ensures r.Ok? ==> r.value >= 0.0
  {
    var a, b := Lower(fromUnit), Lower(toUnit);
    LowerOfLower(fromUnit);
    LowerOfLower(toUnit);
    FindIffNamed(t, a);
    FindIffNamed(t, b);
    if Find(t, a).None? || Find(t, b).None? then Err(InvalidUnits)
    else
      match ToModern(t, value, a)
      case Err(e) => Err(e)
      case Ok(m) => FromModern(t, m, b)
  }

  /** `unidades_disponibles` over table `t`: the names in table order. */
  function Names(t: Table): (r: seq<string>)
    ensures |r| == |t| && forall i | 0 <= i < |t| :: r[i] == t[i].0
  {
    seq(|t|, i requires 0 <= i < |t| => t[i].0)
  }

  /** `a_modernas` on `_medidas`. */
  function AModernas(value: real, unit: string): (r: Result<real>)
    ensures r.Ok? <==> Lower(unit) in UnidadesDisponibles() && value >= 0.0
    ensures r == Err(UnknownUnit(Lower(unit))) <==> Lower(unit) !in UnidadesDisponibles()
    ensures r == Err(NegativeValue) <==> Lower(unit) in UnidadesDisponibles() && value < 0.0
    ensures r.Ok? ==> r.value >= 0.0
  {
    MedidasPositive();
    ToModern(Medidas, value, unit)
  }

  /** `a_unidad_romana` on `_medidas`. */
  function AUnidadRomana(value: real, unit: string): (r: Result<real>)
    ensures r.Ok? <==> Lower(unit) in UnidadesDisponibles() && value >= 0.0
    ensures r == Err(UnknownUnit(Lower(unit))) <==> Lower(unit) !in UnidadesDisponibles()
    ensures r == Err(NegativeValue) <==> Lower(unit) in UnidadesDisponibles() && value < 0.0
    ensures r.Ok? ==> r.value >= 0.0
  {
    MedidasPositive();
    FromModern(Medidas, value, unit)
  }

  /** `conversion_unidades` on `_medidas`. */
  function ConversionUnidades(value: real, fromUnit: string, toUnit: string): (r: Result<real>)
    ensures r == Err(InvalidUnits) <==>
              Lower(fromUnit) !in UnidadesDisponibles() || Lower(toUnit) !in UnidadesDisponibles()
    ensures r == Err(NegativeValue) <==>
              Lower(fromUnit) in UnidadesDisponibles() && Lower(toUnit) in UnidadesDisponibles() &&
              value < 0.0
    ensures r.Ok? <==>
              Lower(fromUnit) in UnidadesDisponibles() && Lower(toUnit) in UnidadesDisponibles() &&
              value >= 0.0
    ensures r.Ok? ==> r.value >= 0.0
  {
    MedidasPositive();
    Convert(Medidas, value, fromUnit, toUnit)
  }

  /** `unidades_disponibles()`: the eight keys of `_medidas`, in table order. */
  function UnidadesDisponibles(): (r: seq<string>)
    ensures r == ["pes", "passus", "stadium", "mille_passus", "libra", "uncia", "amphora", "sextarius"]
  {
    Names(Medidas)
  }

  // ---------------------------------------------------------------------------
  // The table
  // ---------------------------------------------------------------------------

  lemma MedidasPositive()
    ensures Positive(Medidas)
  {
  }

  /** A found factor is one of the table's, so it is positive when they all are. */
  lemma {:induction false} FindPositive(t: Table, unit: string)
    ensures Positive(t) && Find(t, unit).Some? ==> Find(t, unit).value > 0.0
    decreases |t|
  {
    if Positive(t) && t != [] && t[0].0 != unit {
      assert Positive(t[1..]) by {
        forall i | 0 <= i < |t| - 1 ensures t[1..][i].1 > 0.0 {
          assert t[1..][i] == t[i + 1];
        }
      }
      FindPositive(t[1..], unit);
    }
  }

  /** `Find` knows exactly the names of the table. */
  lemma {:induction false} FindIffNamed(t: Table, unit: string)
    ensures Find(t, unit).Some? <==> unit in Names(t)
    decreases |t|
  {
    if t != [] {
      FindIffNamed(t[1..], unit);
      assert Names(t) == [t[0].0] + Names(t[1..]);
    }
  }

  /** The names of `_medidas` are distinct and already in lower case. */
  lemma MedidasNames()
    ensures UnidadesDisponibles() ==
            ["pes", "passus", "stadium", "mille_passus", "libra", "uncia", "amphora", "sextarius"]
    ensures forall i, j | 0 <= i < j < |UnidadesDisponibles()| ::
              UnidadesDisponibles()[i] != UnidadesDisponibles()[j]
    ensures forall i | 0 <= i < |UnidadesDisponibles()| ::
              Lower(UnidadesDisponibles()[i]) == UnidadesDisponibles()[i]
  {
  }

  // ---------------------------------------------------------------------------
  // Outcomes
  // ---------------------------------------------------------------------------

  /** What `a_modernas` returns or raises. */
  lemma ToModernOutcome(t: Table, value: real, unit: string)
    ensures ToModern(t, value, unit) == Err(UnknownUnit(Lower(unit))) <==>
              Find(t, Lower(unit)).None?
    ensures ToModern(t, value, unit) == Err(NegativeValue) <==>
              Find(t, Lower(unit)).Some? && value < 0.0
    ensures ToModern(t, value, unit).Ok? <==> Find(t, Lower(unit)).Some? && value >= 0.0
    ensures ToModern(t, value, unit).Ok? ==>
              ToModern(t, value, unit).value == value * Factor(t, Lower(unit))
  {
  }

  /** What `a_unidad_romana` returns or raises. */
  lemma FromModernOutcome(t: Table, value: real, unit: string)
    requires Positive(t)
    ensures FromModern(t, value, unit) == Err(UnknownUnit(Lower(unit))) <==>
              Find(t, Lower(unit)).None?
    ensures FromModern(t, value, unit) == Err(NegativeValue) <==>
              Find(t, Lower(unit)).Some? && value < 0.0
    ensures FromModern(t, value, unit).Ok? <==> Find(t, Lower(unit)).Some? && value >= 0.0
    ensures FromModern(t, value, unit).Ok? ==>
              FromModern(t, value, unit).value * Factor(t, Lower(unit)) == value
  {
    if FromModern(t, value, unit).Ok? {
      FromModernScaled(t, value, Lower(unit), FromModern(t, value, unit).value);
    }
  }

  /** The quotient of `a_unidad_romana`, times the factor, is the value. */
  lemma FromModernScaled(t: Table, value: real, u: string, r: real)
    requires Positive(t) && RomanOf(t, value, u) == Ok(r)
    ensures Find(t, u).Some? && r * Find(t, u).value == value
  {
    var f := Find(t, u).value;
    FindPositive(t, u);
    Quotient(value, f);
  }

  /** What `conversion_unidades` returns or raises: an unknown unit on either side is
      reported, as `InvalidUnits`, before a negative value. */
  lemma ConvertOutcome(t: Table, value: real, fromUnit: string, toUnit: string)
    requires Positive(t)
    ensures Convert(t, value, fromUnit, toUnit) == Err(InvalidUnits) <==>
              Find(t, Lower(fromUnit)).None? || Find(t, Lower(toUnit)).None?
    ensures Convert(t, value, fromUnit, toUnit) == Err(NegativeValue) <==>
              Find(t, Lower(fromUnit)).Some? && Find(t, Lower(toUnit)).Some? && value < 0.0
    ensures Convert(t, value, fromUnit, toUnit).Ok? <==>
              Find(t, Lower(fromUnit)).Some? && Find(t, Lower(toUnit)).Some? && value >= 0.0
  {
    LowerOfLower(fromUnit);
    LowerOfLower(toUnit);
    FindPositive(t, Lower(fromUnit));
  }

  /** A unit is accepted exactly when its lower-case form is listed. */
  lemma ListedUnitAccepted(t: Table, value: real, unit: string)
    requires Positive(t) && value >= 0.0
    ensures ToModern(t, value, unit).Ok? <==> Lower(unit) in Names(t)
    ensures FromModern(t, value, unit).Ok? <==> Lower(unit) in Names(t)
  {
    FindIffNamed(t, Lower(unit));
  }

  /** The unit name is compared in lower case: a name and its upper-case form give
      the same result. */
  lemma CaseInsensitive(t: Table, value: real, unit: string)
    requires Positive(t)
    ensures ToModern(t, value, Upper(unit)) == ToModern(t, value, unit)
    ensures FromModern(t, value, Upper(unit)) == FromModern(t, value, unit)
  {
    LowerOfUpper(unit);
    LoweredUnit(t, value, unit);
    LoweredUnit(t, value, Upper(unit));
  }

  // ---------------------------------------------------------------------------
  // Round trips and composition
  // ---------------------------------------------------------------------------

  /** `a_unidad_romana` undoes `a_modernas`. */
  lemma ModernAndBack(t: Table, value: real, unit: string)
    requires Positive(t) && ToModern(t, value, unit).Ok?
    ensures FromModern(t, ToModern(t, value, unit).value, unit) == Ok(value)
  {
    ToModernOutcome(t, value, unit);
    var f := Factor(t, Lower(unit));
    var m := ToModern(t, value, unit).value;
    Scaled(value, f);
    FromModernOutcome(t, m, unit);
    Cancel(FromModern(t, m, unit).value, value, f);
  }

  /** `a_modernas` undoes `a_unidad_romana`. */
  lemma RomanAndBack(t: Table, value: real, unit: string)
    requires Positive(t) && FromModern(t, value, unit).Ok?
    ensures ToModern(t, FromModern(t, value, unit).value, unit) == Ok(value)
  {
    var u := Lower(unit);
    FindIffNamed(t, u);
    FindPositive(t, u);
    var f := Find(t, u).value;
    var r := value / f;
    assert FromModern(t, value, unit) == RomanOf(t, value, u) == Ok(r);
    ModernOfQuotient(t, u, f, value, r);
    assert ToModern(t, r, unit) == ModernOf(t, r, u);
  }

  /** The product of `a_modernas` undoes the quotient of `a_unidad_romana`. */
  lemma ModernOfQuotient(t: Table, u: string, f: real, value: real, r: real)
    requires Find(t, u) == Some(f) && f > 0.0 && value >= 0.0 && r == value / f
    ensures ModernOf(t, r, u) == Ok(value)
  {
    QuotientTimes(value, f, r);
    QuotientNonnegative(value, f);
    ModernOfFound(t, u, f, r);
  }

  /** Between two known units a non-negative value converts to the amount of the
      second unit that has the same modern measure. */
  lemma ConvertByFactors(t: Table, value: real, fromUnit: string, toUnit: string)
    requires Positive(t) && value >= 0.0
    requires Find(t, Lower(fromUnit)).Some? && Find(t, Lower(toUnit)).Some?
    ensures Convert(t, value, fromUnit, toUnit).Ok?
    ensures ToModern(t, Convert(t, value, fromUnit, toUnit).value, toUnit) ==
            ToModern(t, value, fromUnit)
  {
    ToModernOutcome(t, value, fromUnit);
    ConvertComposes(t, value, fromUnit, toUnit);
    var m := ToModern(t, value, fromUnit).value;
    Scaled(value, Factor(t, Lower(fromUnit)));
    FromModernOutcome(t, m, toUnit);
    RomanAndBack(t, m, toUnit);
  }

  /** A conversion is `a_modernas` followed by `a_unidad_romana` whenever both units
      are known. */
  lemma ConvertComposes(t: Table, value: real, fromUnit: string, toUnit: string)
    requires Positive(t)
    requires Find(t, Lower(fromUnit)).Some? && Find(t, Lower(toUnit)).Some?
    ensures ToModern(t, value, fromUnit).Ok? ==>
              Convert(t, value, fromUnit, toUnit) ==
              FromModern(t, ToModern(t, value, fromUnit).value, toUnit)
    ensures ToModern(t, value, fromUnit).Err? ==>
              Convert(t, value, fromUnit, toUnit) == ToModern(t, value, fromUnit)
  {
    LoweredUnit(t, value, fromUnit);
    var m := ToModern(t, value, fromUnit);
    if m.Ok? {
      LoweredUnit(t, m.value, toUnit);
    }
  }

  /** Both operations lower the unit themselves, so lowering it first changes nothing. */
  lemma LoweredUnit(t: Table, value: real, unit: string)
    requires Positive(t)
    ensures ToModern(t, value, Lower(unit)) == ToModern(t, value, unit)
    ensures FromModern(t, value, Lower(unit)) == FromModern(t, value, unit)
  {
    LowerOfLower(unit);
  }

  /** Converting the result back to the first unit gives the value again. */
  lemma ConvertBack(t: Table, value: real, fromUnit: string, toUnit: string, w: real)
    requires Positive(t) && Convert(t, value, fromUnit, toUnit) == Ok(w)
    ensures Convert(t, w, toUnit, fromUnit) == Ok(value)
  {
    ConvertOutcome(t, value, fromUnit, toUnit);
    ToModernOutcome(t, value, fromUnit);
    var m := ToModern(t, value, fromUnit).value;
    ConvertComposes(t, value, fromUnit, toUnit);
    RomanAndBack(t, m, toUnit);
    ConvertComposes(t, w, toUnit, fromUnit);
    ModernAndBack(t, value, fromUnit);
  }

  /** Converting the result on to a third unit is converting to that unit directly. */
  lemma ConvertChains(t: Table, value: real, a: string, b: string, c: string, w: real)
    requires Positive(t) && Convert(t, value, a, b) == Ok(w)
    ensures Convert(t, w, b, c) == Convert(t, value, a, c)
  {
    ConvertOutcome(t, value, a, b);
    if Find(t, Lower(c)).None? {
      ConvertOutcome(t, w, b, c);
      ConvertOutcome(t, value, a, c);
    } else {
      ToModernOutcome(t, value, a);
      var m := ToModern(t, value, a).value;
      ConvertComposes(t, value, a, b);
      RomanAndBack(t, m, b);
      ConvertComposes(t, w, b, c);
      ConvertComposes(t, value, a, c);
    }
  }

  lemma Scaled(v: real, f: real)
    requires v >= 0.0 && f > 0.0
    ensures v * f >= 0.0
  {
  }

  lemma Quotient(v: real, f: real)
    requires f > 0.0
    ensures (v / f) * f == v
  {
  }

  lemma QuotientTimes(v: real, f: real, r: real)
    requires f > 0.0 && r == v / f
    ensures r * f == v
  {
  }

  lemma QuotientNonnegative(v: real, f: real)
    requires f > 0.0 && v >= 0.0
    ensures v / f >= 0.0
  {
  }

  lemma Cancel(r: real, v: real, f: real)
    requires f > 0.0 && r * f == v * f
    ensures r == v
  {
  }

  lemma Nonnegative(r: real, f: real, v: real)
    requires f > 0.0 && v >= 0.0 && r * f == v
    ensures r >= 0.0
  {
  }

  // ---------------------------------------------------------------------------
  // The relations the comments of `_medidas` state
  // ---------------------------------------------------------------------------

  /** A passus is five pedes, a stadium 125 passus and a mille passus 1000 passus. */
  lemma LengthRelations()
    ensures ConversionUnidades(1.0, "passus", "pes") == Ok(5.0)
    ensures ConversionUnidades(1.0, "stadium", "passus") == Ok(125.0)
    ensures ConversionUnidades(1.0, "mille_passus", "passus") == Ok(1000.0)
  {
    MedidasPositive();
    LengthFactors();
    ConvertComposes(Medidas, 1.0, "passus", "pes");
    ConvertComposes(Medidas, 1.0, "stadium", "passus");
    ConvertComposes(Medidas, 1.0, "mille_passus", "passus");
  }

  lemma LengthFactors()
    ensures ToModern(Medidas, 1.0, "passus") == Ok(1.48)
    ensures ToModern(Medidas, 1.0, "stadium") == Ok(185.0)
    ensures ToModern(Medidas, 1.0, "mille_passus") == Ok(1480.0)
    ensures Find(Medidas, Lower("pes")) == Some(0.296)
    ensures Find(Medidas, Lower("passus")) == Some(1.48)
  {
    LowerUnchanged("pes");
    LowerUnchanged("passus");
    LowerUnchanged("stadium");
    LowerUnchanged("mille_passus");
  }

  /** An uncia is a twelfth of a libra. */
  lemma UnciaRelation()
    ensures ConversionUnidades(12.0, "uncia", "libra") == Ok(1.0)
  {
    MedidasPositive();
    UnciaLibra();
    ConvertComposes(Medidas, 12.0, "uncia", "libra");
  }

  lemma UnciaLibra()
    ensures ToModern(Medidas, 12.0, "uncia") == Ok(0.3289)
    ensures Find(Medidas, Lower("libra")) == Some(0.3289)
  {
    LowerUnchanged("uncia");
    LowerUnchanged("libra");
  }

  /** Forty-eight sextarii are 26.208 litres, a little more than the amphora's 26.2:
      the "1/48 of an amphora" of the table's comment is a rounding. */
  lemma SextariusRelation()
    ensures ConversionUnidades(48.0, "sextarius", "amphora") == Ok(26.208 / 26.2)
    ensures 26.208 / 26.2 > 1.0
  {
    MedidasPositive();
    SextariusAmphora();
    ConvertComposes(Medidas, 48.0, "sextarius", "amphora");
  }

  lemma SextariusAmphora()
    ensures ToModern(Medidas, 48.0, "sextarius") == Ok(26.208)
    ensures Find(Medidas, Lower("amphora")) == Some(26.2)
  {
    LowerUnchanged("sextarius");
    LowerUnchanged("amphora");
  }

  /** One pes is 0.296 metres, and 0.296 metres are one pes. */
  lemma PesExamples()
    ensures AModernas(1.0, "pes") == Ok(0.296)
    ensures AUnidadRomana(0.296, "pes") == Ok(1.0)
  {
    MedidasPositive();
    LowerUnchanged("pes");
  }
}
