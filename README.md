# PyRomano in Dafny

A model of the conversion core of PyRomano (`PyRomano.py`):

- `NumRom`, the Roman numeral converter. It has the two symbol tables and the validator `_valida_romano`. It has the reader `a_decimal`, which turns a numeral into a number. It has the writer `a_romano`, which turns a number into a numeral, with the twelfths (`S`, `·` … `·····`) of the Roman fraction system.
- `MedRom`, the table of Roman units with their metric factors. Its operations convert a Roman measurement to metres, kilograms or litres and back (`a_modernas`, `a_unidad_romana`), convert between two Roman units (`conversion_unidades`), and list the units (`unidades_disponibles`).
- `RomanError`, the one exception kind. Every failing operation returns it.

Files:

- `errors.dfy` (module `Errors`): `RomanError`, with one variant per message the source raises, and `Option`, `Result` and `Outcome`.
- `text.dfy` (module `Text`): ASCII `upper()`/`lower()`, `startswith`, `endswith` and `in` on strings, with their laws.
- `numrom.dfy` (module `NumRom`): the tables and the three operations. The loops of the source are methods: `ValidaRomano`, `ScanSymbols`, `AddFraction`, `ADecimal`, `WriteInteger` and `ARomano`. Each is proved equal to a function that states its behaviour (`Validation`, `Greedy`, `TrailingFraction`, `DecimalValue`, `Emit`, `RomanNumeral`).
- `numrom_reading.dfy` (module `NumRomReading`): what the validator and the reader accept, reject and compute.
- `numrom_writing.dfy` (module `NumRomWriting`): what the writer produces. The greedy loop writes each number place by place, its output contains none of the forbidden sequences, and the fraction glyph is chosen correctly.
- `numrom_roundtrip.dfy` (module `NumRomRoundTrip`): reading back what the writer writes. It holds the reader defect in "## Findings" and a corrected reader that takes the longest trailing glyph.
- `medrom.dfy` (module `MedRom`): the unit table and the converters. The converters are written over any table with positive factors; `AModernas`, `AUnidadRomana`, `ConversionUnidades` and `UnidadesDisponibles` fix the table to `_medidas`.

Numbers are exact: a Dafny `real` stands for a Python number, so `a_decimal`'s sum and the MedRom products and quotients have no rounding. `int(decimal)` on the non-negative values that pass the range check is `Floor`.

Two behaviours of the code are worth naming:

- `conversion_unidades` checks both units itself and raises its own "Unidades inválidas" error when either is unknown (PyRomano.py:139-140), not the per-unit error of `a_modernas`. The model has that error as `InvalidUnits`.
- The docstring of `a_romano` (PyRomano.py:76) writes 12.25 as `XII···`, and `a_romano` does produce that numeral, but `a_decimal` refuses it (see "## Findings").

The table's sextarius (0.546 l) is not exactly 1/48 of its amphora (26.2 l). `MedRom.SextariusRelation` states the exact ratio.

## Model

| member | source | states |
|---|---|---|
| NumRom.SymbolShape | PyRomano.py:12-16 | every entry of the integer table is one or two numeral letters with a value of at least 1 |
| NumRom.GlyphShape | PyRomano.py:19-22 | every fraction glyph is one to five copies of one character, `S` for the half and `·` otherwise, entry `k` of the dots having `k` of them, with a positive value |
| NumRom.FirstInvalid | PyRomano.py:28-31 | the first forbidden sequence the string contains, in list order; none exactly when it contains none of them |
| NumRom.ValidaRomano | PyRomano.py:25-35 | the validator's loops return the outcome of `Validation` on every string |
| NumRom.Validation | PyRomano.py:25-35 | what `_valida_romano` does: a failure is the fraction error or a sequence error naming one of the seven listed sequences; a pass means the uppercased string contains none of them |
| NumRomReading.ValidationMeaning | PyRomano.py:25-35 | validation passes iff the uppercased string has no forbidden sequence and every `S`/`·` is among the last six characters; it fails with the fraction error iff no sequence is forbidden but an `S`/`·` sits earlier; it fails with a sequence error iff some forbidden sequence occurs |
| NumRomReading.FractionGlyphIffChar | PyRomano.py:32 | "some fraction glyph is in the string" holds iff some character is `S` or `·` |
| NumRom.TrailingFraction | PyRomano.py:60-64 | the first fraction entry, in table order, that ends the string; none iff no entry ends it |
| NumRom.ScanSymbols | PyRomano.py:50-57 | the nested cursor loops end at the cursor and sum of the greedy scan `Greedy` |
| NumRom.AddFraction | PyRomano.py:59-64 | with a trailing glyph, the cursor moves by the glyph's length and its value is added; without one, nothing changes |
| NumRom.ADecimal | PyRomano.py:38-69 | the method returns `DecimalValue` on every string: the empty-input error, the validation error, the value, or the invalid-numeral error |
| NumRom.DecimalValue | PyRomano.py:38-69 | what `a_decimal` returns or raises: the empty-input error exactly for the empty string; every value it returns is non-negative |
| NumRomReading.InvalidSequenceRejected | PyRomano.py:27-31 | a numeral whose uppercase form has a forbidden sequence is refused; a non-empty one with the sequence error for the first such sequence in list order |
| NumRomReading.CaseInsensitive | PyRomano.py:27 | the reader gives the same result, value or error, for a numeral, its lower-case and its upper-case form |
| NumRomReading.ReadSound | PyRomano.py:50-69 | what the reading loops accept is a spelling by table entries in table order plus at most one glyph, and the value is the entries' sum plus the glyph's value |
| NumRomReading.DecimalSound | PyRomano.py:38-69 | the same for `a_decimal` on the uppercased input |
| NumRomReading.DecimalOfSpelling | PyRomano.py:50-69 | a non-empty spelling in table order that passes validation is read as its sum |
| NumRomReading.DecimalOfGlyphSpelling | PyRomano.py:50-69 | the same spelling followed by `S` or one `·` is read as the sum plus that glyph's value |
| NumRomReading.TrailingDotsRejected | PyRomano.py:60-67 | every numeral whose uppercase form ends in two dots is refused |
| NumRomReading.CleanValid | PyRomano.py:28-35 | an uppercase string with no `S`/`·` and none of the forbidden sequences passes validation |
| NumRomReading.DoubleNinehundredAccepted | PyRomano.py:54-57 | the single greedy pass accepts the non-canonical `CMCM` (and `cmcm`) as 1800 |
| NumRom.NearestFraction | PyRomano.py:94-95 | the fraction entry of least distance to the remainder, the earliest one on ties |
| NumRom.WriteInteger | PyRomano.py:86-90 | the greedy subtraction loop appends exactly `Emit(n, 0)` |
| NumRom.Emit | PyRomano.py:86-90 | the symbols the integer loop appends from table entry `k` on; nothing exactly when `n` is 0 or no entry is left |
| NumRom.ARomano | PyRomano.py:72-99 | the method returns `RomanNumeral` on every real |
| NumRom.RomanNumeral | PyRomano.py:72-99 | what `a_romano` returns or raises: the range error exactly outside [0, 3999.5]; a result is never the empty string |
| NumRomWriting.RangeError | PyRomano.py:78-79 | the writer fails iff the value is below 0 or above 3999.5, and then with the range error |
| NumRomWriting.RangeEnds | PyRomano.py:78-99 | 3999.5 is written, 3999.51 and -0.5 are refused, and 0 is written `Nihil` |
| NumRomWriting.NihilIffZero | PyRomano.py:84-99 | within range, the result is `Nihil` iff the value is 0 |
| NumRomWriting.FractionGuardHolds | PyRomano.py:96 | every fraction value exceeds 0.01, so the guard never drops a chosen glyph |
| NumRomWriting.NearestExact | PyRomano.py:93-97 | for an exact fraction value, the nearest entry is that entry |
| NumRomWriting.EmitSpells | PyRomano.py:86-90 | the integer loop writes `n` as table entries in table order whose values sum to `n`; nothing is written iff `n` is 0 |
| NumRomWriting.EmitByPlaces | PyRomano.py:86-90 | below 4000 the loop writes thousands, hundreds, tens and units with the standard subtractive digits |
| NumRomWriting.IntegerValid | PyRomano.py:86-90 | what the loop writes below 4000 contains none of the seven forbidden sequences and passes validation |
| NumRomWriting.RomanNumeralOf | PyRomano.py:81-99 | a value in range with a positive remainder is written as the greedy writing of its integer part (nothing for 0) followed by the glyph nearest to the remainder |
| NumRomWriting.IntegerWritten | PyRomano.py:81-90 | a whole number from 1 to 3999 is written by the integer loop alone |
| NumRomWriting.FractionWritten | PyRomano.py:81-97 | a whole number up to 3999 plus a fraction entry's value is written by the loop, then that entry's glyph |
| NumRomWriting.HalfWritten | PyRomano.py:93-97 | 0.5 is written `S` |
| NumRomWriting.TwelfthWritten | PyRomano.py:93-97 | 1/12 is written `·` |
| NumRomWriting.SubtractiveWritten | PyRomano.py:86-90 | 4, 9, 40 and 1994 are written `IV`, `IX`, `XL` and `MCMXCIV` |
| NumRomRoundTrip.RoundTripInteger | PyRomano.py:38-99 | `a_decimal(a_romano(n)) == n` for every whole number from 1 to 3999 |
| NumRomRoundTrip.RoundTripHalf | PyRomano.py:38-99 | `a_decimal(a_romano(n + 0.5)) == n + 0.5` for every `n` up to 3999 |
| NumRomRoundTrip.RoundTripGlyph | PyRomano.py:38-99 | the same for `n` plus a half or plus one twelfth |
| NumRomRoundTrip.TwelfthsNotReadBack | PyRomano.py:60-67 | for `n` up to 3999 and two to five twelfths, the writer's numeral is refused by the reader |
| NumRomRoundTrip.TwelveAndAQuarter | PyRomano.py:60-76 | 12.25 is written `XII···`, and `a_decimal` refuses `XII···` |
| NumRomRoundTrip.LongestDotsMeaning | PyRomano.py:60-64 | the corrected glyph search returns the longest dot glyph that ends the string, or none when none does |
| NumRomRoundTrip.RoundTripLongest | PyRomano.py:38-99 | with the longest glyph taken, every `n` up to 3999 plus any fraction entry's value is read back from what the writer writes |
| NumRomRoundTrip.RoundTripLongestInteger | PyRomano.py:38-99 | the corrected reader reads back every whole number from 1 to 3999 |
| NumRomRoundTrip.LongestAgreesWhereAccepted | PyRomano.py:38-69 | on every numeral the source reader accepts, the corrected reader gives the same value |
| MedRom.MedidasPositive | PyRomano.py:104-113 | every factor of `_medidas` is positive |
| MedRom.Factor | PyRomano.py:123 | the factor of a known unit in a table of positive factors is positive |
| MedRom.ToModern | PyRomano.py:116-123 | `a_modernas` over a unit table: succeeds iff the lowered unit is listed and the value is non-negative; the unknown-unit error iff it is not listed; the negative-value error iff it is listed and the value is negative; with positive factors the result is non-negative |
| MedRom.FromModern | PyRomano.py:126-133 | `a_unidad_romana` over a table of positive factors: the same outcomes under the same conditions, and the result is non-negative |
| MedRom.Convert | PyRomano.py:136-142 | `conversion_unidades` over a table of positive factors: the invalid-units error iff either lowered unit is unlisted; the negative-value error iff both are listed and the value is negative; otherwise a non-negative result |
| MedRom.Names | PyRomano.py:145-147 | `unidades_disponibles` over a table: its names, one per entry, in table order |
| MedRom.AModernas | PyRomano.py:116-123 | `a_modernas` on `_medidas`: succeeds iff the lowered unit is one of the eight listed and the value is non-negative, with the two errors otherwise, and a non-negative result |
| MedRom.AUnidadRomana | PyRomano.py:126-133 | `a_unidad_romana` on `_medidas`: the same outcomes under the same conditions |
| MedRom.ConversionUnidades | PyRomano.py:136-142 | `conversion_unidades` on `_medidas`: invalid units iff either lowered unit is not listed, then the negative-value error, otherwise a non-negative result |
| MedRom.UnidadesDisponibles | PyRomano.py:145-147 | the list is `pes`, `passus`, `stadium`, `mille_passus`, `libra`, `uncia`, `amphora`, `sextarius`, the keys of `_medidas` in order |
| MedRom.FindIffNamed | PyRomano.py:119 | a unit is found in the table iff it is one of the table's names |
| MedRom.MedidasNames | PyRomano.py:145-147 | `unidades_disponibles` lists the eight keys in table order, all distinct and all lower case |
| MedRom.ToModernOutcome | PyRomano.py:116-123 | unknown-unit error iff the lowered unit is not in the table; negative-value error iff it is and the value is negative; otherwise the value times the unit's factor |
| MedRom.FromModernOutcome | PyRomano.py:126-133 | the same errors under the same conditions; otherwise the result times the unit's factor is the value |
| MedRom.ConvertOutcome | PyRomano.py:136-142 | invalid-units error iff either lowered unit is unknown; negative-value error iff both are known and the value is negative; a result otherwise |
| MedRom.ListedUnitAccepted | PyRomano.py:116-133 | for a non-negative value, each converter succeeds iff the lowered unit is listed |
| MedRom.CaseInsensitive | PyRomano.py:118-128 | both converters give the same result for a unit and its upper-case form |
| MedRom.ConvertComposes | PyRomano.py:136-142 | with both units known, a conversion is `a_modernas` followed by `a_unidad_romana`, or `a_modernas`'s error |
| MedRom.ModernAndBack | PyRomano.py:116-133 | `a_unidad_romana(a_modernas(v, u), u) == v` whenever `a_modernas` succeeds |
| MedRom.RomanAndBack | PyRomano.py:116-133 | `a_modernas(a_unidad_romana(v, u), u) == v` whenever `a_unidad_romana` succeeds |
| MedRom.ConvertByFactors | PyRomano.py:136-142 | between two known units a non-negative value converts, and the result has the same modern measure as the value |
| MedRom.ConvertBack | PyRomano.py:136-142 | converting the result back to the first unit gives the original value |
| MedRom.ConvertChains | PyRomano.py:136-142 | converting from `a` to `b` and then to any `c` is converting from `a` to `c`, the same result or the same error |
| MedRom.PesExamples | PyRomano.py:105-123 | one pes is 0.296 m, and 0.296 m is one pes |
| MedRom.LengthRelations | PyRomano.py:105-108 | a passus is 5 pedes, a stadium 125 passus, a mille passus 1000 passus |
| MedRom.UnciaRelation | PyRomano.py:109-110 | twelve unciae are one libra |
| MedRom.SextariusRelation | PyRomano.py:111-112 | 48 sextarii are 26.208/26.2 amphorae, slightly more than one |

## Left out

- `cli` (PyRomano.py:149-184): argument parsing, printing, standard error and the exit status are input/output around the converters.
- Floating point: every `float` is an exact `real`, so there is no NaN or infinity (a NaN passes the range test of `a_romano` at PyRomano.py:78 and `int` raises `ValueError` at :81; `a_modernas` returns NaN for NaN), and the `int` that `a_decimal` returns when no glyph is read (PyRomano.py:50-57) is the same `real`. `6/12`, `0.3289 / 12`, the products, the quotients and the distance `abs(x[1] - fractional_part)` have no rounding, so the MedRom round trips hold exactly here and only approximately in Python.
- The `isinstance` checks (PyRomano.py:44, 78, 121, 131): the Dafny types already exclude non-strings and non-numbers.
- Case mapping is ASCII only. Python's Unicode `upper()`/`lower()` cases that change a string's length are not modelled, and `·` is left unchanged.
- Error messages: each message is a variant of `RomanError` carrying the offending sequence, numeral or unit. The message text, including the list of valid units, is not modelled.
- NumRom.Greedy: its own contract only bounds the cursor; what the scan reads is stated by `NumRomReading.ReadSound` and `NumRomReading.DecimalOfSpelling`.

## Findings

| source | as written | input that shows it | evidently intended | confidence | as-written member | corrected member |
|---|---|---|---|---|---|---|
| PyRomano.py:60-64 | the glyph loop takes the first table entry the numeral ends with; `·` precedes `··` … `·····`, so a numeral ending in two to five dots matches `·`, the cursor stops short of the end, and the numeral is refused | `a_romano(12.25)` returns `XII···` (as its docstring at PyRomano.py:76 says), and `a_decimal("XII···")` raises | the longest glyph that ends the numeral is taken, so `a_decimal` reads back what `a_romano` writes: `XII···` is 12.25 | high; not executed | NumRomRoundTrip.TwelfthsNotReadBack | NumRomRoundTrip.RoundTripLongest |
