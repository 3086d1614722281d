/** What `NumRom.a_decimal` accepts and rejects, and what it computes. */
module NumRomReading {
  import opened Errors
  import opened Text
  import opened NumRom

  /** A fraction glyph chosen by the reader, or none. */
  function GlyphOf(f: Option<nat>): string
    requires f.Some? ==> f.value < |ValoresFracciones|
  {
    if f.Some? then Glyph(f.value) else ""
  }

  function GlyphValue(f: Option<nat>): real
    requires f.Some? ==> f.value < |ValoresFracciones|
  {
    if f.Some? then FractionValue(f.value) else 0.0
  }

  // ---------------------------------------------------------------------------
  // Validation
  // ---------------------------------------------------------------------------

  /** The `any(...)` test on fraction glyphs holds exactly when an `S` or a `·` occurs. */
  lemma {:induction false} FractionGlyphIffChar(u: string)
    ensures HasFractionGlyph(u) <==> exists i | 0 <= i < |u| :: IsFractionChar(u[i])
  {
    if i :| 0 <= i < |u| && IsFractionChar(u[i]) {
      var k := if u[i] == 'S' then 0 else 1;
      assert u[i..i + 1] == Glyph(k);
      assert StartsAt(u, Glyph(k), i);
    }
    if HasFractionGlyph(u) {
      var k :| 0 <= k < |ValoresFracciones| && Contains(u, Glyph(k));
      var i: nat :| i <= |u| && StartsAt(u, Glyph(k), i);
      assert u[i..i + |Glyph(k)|][0] == Glyph(k)[0];
      assert IsFractionChar(u[i]);
    }
  }

  /** Validation accepts exactly the strings whose upper-case form contains none of
      the seven invalid sequences and has no `S` or `·` before its last six
      characters; it names the first sequence found, and otherwise reports a
      misplaced fraction. */
  lemma ValidationMeaning(roman: string)
    ensures var u := Upper(roman);
      (Validation(roman).Pass? <==>
         (forall q | 0 <= q < |InvalidSequences| :: !Contains(u, InvalidSequences[q])) &&
         (forall i | 0 <= i < |u| && IsFractionChar(u[i]) :: i >= |u| - 6)) &&
      (Validation(roman) == Fail(FractionNotAtEnd) <==>
         (forall q | 0 <= q < |InvalidSequences| :: !Contains(u, InvalidSequences[q])) &&
         (exists i | 0 <= i < |u| :: IsFractionChar(u[i]) && i < |u| - 6)) &&
      (Validation(roman).Fail? && Validation(roman).error.InvalidSequence? <==>
         exists q | 0 <= q < |InvalidSequences| :: Contains(u, InvalidSequences[q]))
  {
    FractionGlyphIffChar(Upper(roman));
  }

  // ---------------------------------------------------------------------------
  // Rejections
  // ---------------------------------------------------------------------------

  /** Every string whose upper-case form contains an invalid sequence raises; a
      non-empty one raises for the first such sequence in table order. */
  lemma {:induction false} InvalidSequenceRejected(roman: string, q: nat)
    requires q < |InvalidSequences| && Contains(Upper(roman), InvalidSequences[q])
    ensures DecimalValue(roman).Err?
    ensures roman != [] ==> exists p | 0 <= p <= q ::
              DecimalValue(roman) == Err(InvalidSequence(InvalidSequences[p])) &&
              Contains(Upper(roman), InvalidSequences[p])
  {
    if roman != [] {
      UpperOfUpper(roman);
      var p := FirstInvalid(Upper(roman), 0).value;
      assert p <= q;
      assert DecimalValue(roman) == Err(InvalidSequence(InvalidSequences[p]));
    }
  }

  /** `a_decimal` depends only on the upper-case form of its input. */
  lemma CaseInsensitive(roman: string)
    ensures DecimalValue(Lower(roman)) == DecimalValue(roman)
    ensures DecimalValue(Upper(roman)) == DecimalValue(roman)
  {
    UpperOfLower(roman);
    UpperOfUpper(roman);
  }

  // ---------------------------------------------------------------------------
  // The scan consumes table symbols in table order
  // ---------------------------------------------------------------------------

  lemma {:induction false} SpellLetters(ks: seq<nat>)
    requires InTable(ks)
    ensures forall i | 0 <= i < |Spell(ks)| :: IsRomanLetter(Spell(ks)[i])
    decreases |ks|
  {
    if ks != [] {
      SpellLetters(ks[1..]);
      SymbolShape(ks[0]);
      var n := |Symbol(ks[0])|;
      forall i | 0 <= i < |Spell(ks)| ensures IsRomanLetter(Spell(ks)[i]) {
        if i >= n {
          assert Spell(ks)[i] == Spell(ks[1..])[i - n];
        }
      }
    }
  }

  /** The part of `u` the scan from entry `k` at cursor `i` consumes is the spelling of
      table entries from `k` on in table order, and the scan's total is their sum. */
  lemma {:induction false} GreedySpells(u: string, k: nat, i: nat) returns (ks: seq<nat>)
    requires k <= |ValoresRomanos| && i <= |u|
    ensures InTable(ks) && Ascending(ks, k)
    ensures u[i..Greedy(u, k, i).pos] == Spell(ks) && Greedy(u, k, i).total == Sum(ks)
    decreases |ValoresRomanos| - k, |u| - i
  {
    if k == |ValoresRomanos| {
      ks := [];
    } else if i < |u| && StartsAt(u, Symbol(k), i) {
      var rest := GreedySpells(u, k, i + |Symbol(k)|);
      GreedyTakes(u, k, i);
      ks := [k] + rest;
      SpellConsOf(k, rest, ks);
      JoinAt(u, i, Symbol(k), Greedy(u, k, i).pos, Spell(rest));
    } else {
      ks := GreedySpells(u, k + 1, i);
      AscendingWeaken(ks, k + 1, k);
    }
  }

  /** The entry list `k` followed by `rest` spells the symbol of `k` followed by the
      spelling of `rest`, and sums to their values. */
  lemma SpellConsOf(k: nat, rest: seq<nat>, ks: seq<nat>)
    requires k < |ValoresRomanos| && InTable(rest) && Ascending(rest, k) && ks == [k] + rest
    ensures InTable(ks) && Ascending(ks, k)
    ensures Spell(ks) == Symbol(k) + Spell(rest) && Sum(ks) == Value(k) + Sum(rest)
  {
    assert ks[1..] == rest;
  }

  /** Two adjacent slices of `u` join into one. */
  lemma JoinAt(u: string, i: nat, a: string, pos: nat, s: string)
    requires i + |a| <= pos <= |u| && u[i..i + |a|] == a && u[i + |a|..pos] == s
    ensures u[i..pos] == a + s
  {
    assert u[i..pos] == u[i..i + |a|] + u[i + |a|..pos];
  }

  lemma AscendingWeaken(ks: seq<nat>, k: nat, k': nat)
    requires Ascending(ks, k) && k' <= k
    ensures Ascending(ks, k')
  {
  }

  /** What `ReadValidated` accepts is a spelling of table entries in table order
      followed by at most one fraction glyph, valued at the entries' sum plus the
      glyph's value. */
  lemma ReadSound(u: string) returns (ks: seq<nat>, f: Option<nat>)
    requires ReadValidated(u).Ok?
    ensures f.Some? ==> f.value < |ValoresFracciones|
    ensures InTable(ks) && Ascending(ks, 0)
    ensures u == Spell(ks) + GlyphOf(f)
    ensures ReadValidated(u).value == Sum(ks) as real + GlyphValue(f)
  {
    ks := GreedySpells(u, 0, 0);
    f := TrailingFraction(u, 0);
    var pos := Greedy(u, 0, 0).pos;
    assert u == u[..pos] + u[pos..];
  }

  /** Every successful reading is a spelling of table entries in table order,
      followed by at most one fraction glyph, and its value is the sum of the
      entries' values plus the glyph's value. */
  lemma DecimalSound(roman: string) returns (ks: seq<nat>, f: Option<nat>)
    requires DecimalValue(roman).Ok?
    ensures f.Some? ==> f.value < |ValoresFracciones|
    ensures InTable(ks) && Ascending(ks, 0)
    ensures Upper(roman) == Spell(ks) + GlyphOf(f)
    ensures DecimalValue(roman).value == Sum(ks) as real + GlyphValue(f)
  {
    ks, f := ReadSound(Upper(roman));
  }

  /** An upper-case numeral ending in two dots is never read: the single dot comes
      before the longer glyphs in the fraction table, so it is the one matched, and
      the dot before it is never consumed by the symbol scan. */
  lemma TrailingDotsUnread(u: string)
    requires EndsWith(u, [Dot, Dot])
    ensures ReadValidated(u).Err?
  {
    assert u[|u| - 1] == Dot && u[|u| - 2] == Dot;
    assert !EndsWith(u, Glyph(0));
    assert EndsWith(u, Glyph(1)) by { assert u[|u| - 1..] == [Dot]; }
    assert TrailingFraction(u, 0) == Some(1);
    var ks := GreedySpells(u, 0, 0);
    SpellLetters(ks);
    var pos := Greedy(u, 0, 0).pos;
    if pos == |u| - 1 {
      assert Spell(ks)[|u| - 2] == u[|u| - 2];
    }
    assert pos + |Glyph(1)| != |u|;
  }

  /** A numeral ending in two to five dots (the glyphs for two to five twelfths) is
      always rejected. */
  lemma TrailingDotsRejected(roman: string)
    requires EndsWith(Upper(roman), [Dot, Dot])
    ensures DecimalValue(roman).Err?
  {
    UpperOfUpper(roman);
    TrailingDotsUnread(Upper(roman));
  }

  // ---------------------------------------------------------------------------
  // The scan reads every spelling in table order
  // ---------------------------------------------------------------------------

  /** `c` can stand right after the symbol of entry `j` in a spelling in table order
      (the first letter of an entry from `j` on), or is not a letter of the table. */
  predicate MayFollow(j: nat, c: char) {
    !IsRomanLetter(c) || exists j' | j <= j' < |ValoresRomanos| :: Symbol(j')[0] == c
  }

  /** Two entries of the table that start with the same letter: the earlier one is
      two letters long, and its second letter differs from the later one's, or
      cannot follow the later one. */
  lemma SameLeadEntries(k: nat, j: nat)
    requires k < j < |ValoresRomanos| && Symbol(k)[0] == Symbol(j)[0]
    ensures |Symbol(k)| == 2
    ensures |Symbol(j)| == 2 ==> Symbol(k)[1] != Symbol(j)[1]
    ensures |Symbol(j)| == 1 ==> !MayFollow(j, Symbol(k)[1])
  {
  }

  /** Where the symbol of entry `j` stands, followed by something that may follow it,
      no earlier entry matches: no symbol is a prefix of a later symbol, nor of a
      later symbol followed by whatever may follow it. */
  lemma NoEarlierMatch(u: string, k: nat, j: nat, i: nat)
    requires k < j < |ValoresRomanos| && StartsAt(u, Symbol(j), i)
    requires i + |Symbol(j)| < |u| ==> MayFollow(j, u[i + |Symbol(j)|])
    ensures !StartsAt(u, Symbol(k), i)
  {
    SymbolShape(j);
    assert u[i] == Symbol(j)[0] by { assert u[i..i + |Symbol(j)|][0] == u[i]; }
    if i + |Symbol(k)| <= |u| && Symbol(k)[0] == Symbol(j)[0] {
      SameLeadEntries(k, j);
      if |Symbol(j)| == 2 {
        assert u[i + 1] == u[i..i + |Symbol(j)|][1];
      }
      assert u[i..i + |Symbol(k)|][1] == u[i + 1];
    } else if i + |Symbol(k)| <= |u| {
      assert u[i..i + |Symbol(k)|][0] == u[i];
    }
  }

  /** `t` cannot continue a symbol: it is empty or starts with a character that is
      not a letter of the table. */
  predicate Stops(t: string) { t == [] || !IsRomanLetter(t[0]) }

  /** A sequence equal, from `i` on, to `a + b` holds `a` at `i` and `b` after it. */
  lemma SplitAt(u: string, i: nat, a: string, b: string)
    requires i <= |u| && u[i..] == a + b
    ensures i + |a| <= |u| && u[i..i + |a|] == a && u[i + |a|..] == b
  {
    assert u[i..i + |a|] == u[i..][..|a|];
    assert u[i + |a|..] == u[i..][|a|..];
  }

  lemma AppendAssoc(a: string, b: string, c: string)
    ensures (a + b) + c == a + (b + c)
  {
  }

  /** A spelling at the cursor starts with the symbol of its first entry. */
  lemma SpellHead(u: string, ks: seq<nat>, t: string, i: nat)
    requires i <= |u| && InTable(ks) && ks != []
    requires u[i..] == Spell(ks) + t
    ensures i + |Symbol(ks[0])| <= |u| && StartsAt(u, Symbol(ks[0]), i)
    ensures u[i + |Symbol(ks[0])|..] == Spell(ks[1..]) + t
  {
    var a, r := Symbol(ks[0]), Spell(ks[1..]);
    assert Spell(ks) == a + r;
    AppendAssoc(a, r, t);
    SplitAt(u, i, a, r + t);
  }

  /** What stands at the cursor, in a spelling from entry `j` on followed by something
      that cannot continue it, may follow entry `j`. */
  lemma NextMayFollow(u: string, ks: seq<nat>, t: string, j: nat, p: nat)
    requires p <= |u| && InTable(ks) && Ascending(ks, j) && Stops(t)
    requires u[p..] == Spell(ks) + t
    ensures p < |u| ==> MayFollow(j, u[p])
  {
    if p < |u| {
      if ks != [] {
        SymbolShape(ks[0]);
        SpellHead(u, ks, t, p);
        assert u[p] == Symbol(ks[0])[0] by { assert u[p..p + |Symbol(ks[0])|][0] == u[p]; }
      } else {
        assert u[p] == u[p..][0];
      }
    }
  }

  /** At a cursor where nothing can continue a symbol, no entry matches. */
  lemma NothingAtCursor(u: string, t: string, k: nat, i: nat)
    requires k < |ValoresRomanos| && i <= |u|
    requires u[i..] == t && Stops(t)
    ensures !(i < |u| && StartsAt(u, Symbol(k), i))
  {
    SymbolShape(k);
    if i < |u| && i + |Symbol(k)| <= |u| {
      assert u[i] == t[0];
      assert u[i..i + |Symbol(k)|][0] == u[i];
    }
  }

  /** At a cursor where a spelling in table order starts with an entry later than
      `k`, entry `k` does not match. */
  lemma EarlierSkipped(u: string, ks: seq<nat>, t: string, k: nat, i: nat)
    requires k < |ValoresRomanos| && i <= |u|
    requires InTable(ks) && Ascending(ks, k) && ks != [] && ks[0] != k
    requires u[i..] == Spell(ks) + t && Stops(t)
    ensures !StartsAt(u, Symbol(k), i)
  {
    SpellHead(u, ks, t, i);
    NextMayFollow(u, ks[1..], t, ks[0], i + |Symbol(ks[0])|);
    NoEarlierMatch(u, k, ks[0], i);
  }

  /** One step of the scan: entry `k` matches at the cursor and is consumed. */
  lemma GreedyTakes(u: string, k: nat, i: nat)
    requires k < |ValoresRomanos| && i + |Symbol(k)| <= |u| && StartsAt(u, Symbol(k), i)
    ensures Greedy(u, k, i).pos == Greedy(u, k, i + |Symbol(k)|).pos
    ensures Greedy(u, k, i).total == Greedy(u, k, i + |Symbol(k)|).total + Value(k)
  {
    SymbolShape(k);
  }

  /** One step of the scan: entry `k` does not match at the cursor, the next one is
      tried. */
  lemma GreedySkips(u: string, k: nat, i: nat)
    requires k < |ValoresRomanos| && i <= |u| && !(i < |u| && StartsAt(u, Symbol(k), i))
    ensures Greedy(u, k, i) == Greedy(u, k + 1, i)
  {
  }

  /** The symbols and values of a non-empty list of entries. */
  lemma SpellCons(ks: seq<nat>)
    requires InTable(ks) && ks != []
    ensures |Spell(ks)| == |Symbol(ks[0])| + |Spell(ks[1..])|
    ensures Sum(ks) == Value(ks[0]) + Sum(ks[1..])
  {
  }

  /** Scanning a spelling in table order, followed by something that cannot continue
      it, consumes exactly the spelling and totals the values of its entries. */
  lemma {:induction false} ScanReads(u: string, ks: seq<nat>, t: string, k: nat, i: nat)
    requires k <= |ValoresRomanos| && i <= |u|
    requires InTable(ks) && Ascending(ks, k)
    requires u[i..] == Spell(ks) + t && Stops(t)
    ensures Greedy(u, k, i).pos == i + |Spell(ks)| && Greedy(u, k, i).total == Sum(ks)
    decreases |ks|, |ValoresRomanos| - k, 1
  {
    if k == |ValoresRomanos| {
      assert ks == [];
    } else if ks == [] {
      ScanPastEnd(u, t, k, i);
    } else if ks[0] == k {
      SpellHead(u, ks, t, i);
      SpellCons(ks);
      ScanTakes(u, ks[1..], t, k, i);
    } else {
      ScanSkips(u, ks, t, k, i);
    }
  }

  /** `ScanReads` once the spelling is used up. */
  lemma {:induction false} ScanPastEnd(u: string, t: string, k: nat, i: nat)
    requires k < |ValoresRomanos| && i <= |u|
    requires u[i..] == Spell([]) + t && Stops(t)
    ensures Greedy(u, k, i).pos == i + |Spell([])| && Greedy(u, k, i).total == Sum([])
    decreases 0, |ValoresRomanos| - k, 0
  {
    assert u[i..] == t;
    NothingAtCursor(u, t, k, i);
    GreedySkips(u, k, i);
    ScanReads(u, [], t, k + 1, i);
  }

  /** `ScanReads` when the spelling starts with entry `k`, followed by `rest`. */
  lemma {:induction false} ScanTakes(u: string, rest: seq<nat>, t: string, k: nat, i: nat)
    requires k < |ValoresRomanos| && i + |Symbol(k)| <= |u| && StartsAt(u, Symbol(k), i)
    requires InTable(rest) && Ascending(rest, k)
    requires u[i + |Symbol(k)|..] == Spell(rest) + t && Stops(t)
    ensures Greedy(u, k, i).pos == i + |Symbol(k)| + |Spell(rest)|
    ensures Greedy(u, k, i).total == Value(k) + Sum(rest)
    decreases |rest| + 1, |ValoresRomanos| - k, 0
  {
    GreedyTakes(u, k, i);
    ScanReads(u, rest, t, k, i + |Symbol(k)|);
  }

  /** `ScanReads` when the spelling starts with an entry after `k`. */
  lemma {:induction false} ScanSkips(u: string, ks: seq<nat>, t: string, k: nat, i: nat)
    requires k < |ValoresRomanos| && i <= |u|
    requires InTable(ks) && Ascending(ks, k) && ks != [] && ks[0] != k
    requires u[i..] == Spell(ks) + t && Stops(t)
    ensures Greedy(u, k, i).pos == i + |Spell(ks)| && Greedy(u, k, i).total == Sum(ks)
    decreases |ks|, |ValoresRomanos| - k, 0
  {
    EarlierSkipped(u, ks, t, k, i);
    GreedySkips(u, k, i);
    assert Ascending(ks, k + 1);
    ScanReads(u, ks, t, k + 1, i);
  }

  /** No character of `s` is a lower-case letter. */
  predicate Unlowered(s: string) { forall i | 0 <= i < |s| :: !IsLower(s[i]) }

  /** A spelling has no lower-case letter, so upper-casing leaves it unchanged. */
  lemma SpellingUpper(ks: seq<nat>, s: string)
    requires InTable(ks) && s == Spell(ks)
    ensures Unlowered(s) && Upper(s) == s
  {
    SpellLetters(ks);
    UpperUnchanged(s);
  }

  /** The same for a spelling followed by `S` or by a single `·`. */
  lemma GlyphSpellingUpper(ks: seq<nat>, k: nat, s: string)
    requires InTable(ks) && (k == 0 || k == 1) && s == Spell(ks) + Glyph(k)
    ensures Upper(s) == s
  {
    SpellingUpper(ks, Spell(ks));
    forall i | 0 <= i < |s| ensures !IsLower(s[i]) {
      if i < |Spell(ks)| { assert s[i] == Spell(ks)[i]; }
    }
    UpperUnchanged(s);
  }

  /** The fraction loop finds no glyph at the end of a non-empty spelling. */
  lemma SpellingNoGlyph(ks: seq<nat>)
    requires InTable(ks) && ks != []
    ensures TrailingFraction(Spell(ks), 0) == None
  {
    var s := Spell(ks);
    SymbolShape(ks[0]);
    SpellLetters(ks);
    assert IsRomanLetter(s[|s| - 1]);
    forall k | 0 <= k < |ValoresFracciones| ensures !EndsWith(s, Glyph(k)) {
      GlyphShape(k);
      var g := Glyph(k);
      assert !IsRomanLetter(g[|g| - 1]);
      if |g| <= |s| {
        assert s[|s| - |g|..][|g| - 1] == s[|s| - 1];
      }
    }
  }

  /** The fraction loop finds `S` or the single dot at the end of a spelling followed
      by that glyph. */
  lemma SpellingGlyph(ks: seq<nat>, f: nat)
    requires InTable(ks) && (f == 0 || f == 1)
    ensures TrailingFraction(Spell(ks) + Glyph(f), 0) == Some(f)
  {
    var s := Spell(ks) + Glyph(f);
    if f == 1 {
      assert s[|s| - 1] == Dot;
      assert !EndsWith(s, Glyph(0));
      assert EndsWith(s, Glyph(1)) by { assert s[|s| - 1..] == [Dot]; }
    } else {
      assert EndsWith(s, Glyph(0)) by { assert s[|s| - 1..] == "S"; }
    }
  }

  /** Proof step only: unfolds `ReadValidated` into its three stages, so that callers
      reason about the stages without the definition in view. */
  lemma ReadValidatedSteps(u: string)
    ensures ReadValidated(u) == Finish(u, Greedy(u, 0, 0), TrailingFraction(u, 0))
  {
  }

  /** The end check passes when the cursor, moved past the glyph, is at the end. */
  lemma FinishOk(u: string, pos: nat, total: nat, f: Option<nat>)
    requires f.Some? ==> f.value < |ValoresFracciones|
    requires pos + |GlyphOf(f)| == |u|
    ensures Finish(u, Scan(pos, total), f) == Ok(total as real + GlyphValue(f))
  {
  }

  /** `ReadValidated` from the outcome of its scan and of its fraction loop. */
  lemma ReadFrom(u: string, pos: nat, total: nat, f: Option<nat>)
    requires f.Some? ==> f.value < |ValoresFracciones|
    requires Greedy(u, 0, 0) == Scan(pos, total) && TrailingFraction(u, 0) == f
    requires pos + |GlyphOf(f)| == |u|
    ensures ReadValidated(u) == Ok(total as real + GlyphValue(f))
  {
    ReadValidatedSteps(u);
    FinishOk(u, pos, total, f);
  }

  /** `ReadFrom` for a numeral that ends in a glyph. */
  lemma ReadFromGlyph(u: string, pos: nat, total: nat, k: nat)
    requires k < |ValoresFracciones|
    requires Greedy(u, 0, 0) == Scan(pos, total) && TrailingFraction(u, 0) == Some(k)
    requires pos + |Glyph(k)| == |u|
    ensures ReadValidated(u) == Ok(total as real + FractionValue(k))
  {
    ReadFrom(u, pos, total, Some(k));
    assert total as real + GlyphValue(Some(k)) == total as real + FractionValue(k);
  }

  /** `ScanReads` from the start of the numeral. */
  lemma ScanFromStart(u: string, ks: seq<nat>, t: string)
    requires InTable(ks) && Ascending(ks, 0)
    requires u == Spell(ks) + t && Stops(t)
    ensures Greedy(u, 0, 0) == Scan(|Spell(ks)|, Sum(ks))
  {
    assert u[0..] == u;
    ScanReads(u, ks, t, 0, 0);
    assert Greedy(u, 0, 0).pos == |Spell(ks)|;
  }

  /** A non-empty spelling in table order is read as the sum of its entries. */
  lemma ReadOfSpelling(ks: seq<nat>, s: string, n: nat)
    requires InTable(ks) && Ascending(ks, 0) && ks != []
    requires s == Spell(ks) && n == Sum(ks)
    ensures ReadValidated(s) == Ok(n as real)
  {
    assert s == Spell(ks) + [];
    ScanFromStart(s, ks, []);
    SpellingNoGlyph(ks);
    ReadFrom(s, |Spell(ks)|, n, None);
  }

  /** A spelling in table order followed by `S` or by a single `·` is read as the sum
      of its entries plus the glyph's value. */
  lemma ReadOfGlyphSpelling(ks: seq<nat>, k: nat, s: string, n: nat)
    requires InTable(ks) && Ascending(ks, 0) && (k == 0 || k == 1)
    requires s == Spell(ks) + Glyph(k) && n == Sum(ks)
    ensures ReadValidated(s) == Ok(n as real + FractionValue(k))
  {
    ScanFromStart(s, ks, Glyph(k));
    SpellingGlyph(ks, k);
    ReadFromGlyph(s, |Spell(ks)|, n, k);
  }

  /** Proof step only: on an upper-case, valid, non-empty numeral `a_decimal` unfolds
      to `ReadValidated`. */
  lemma DecimalOfValid(s: string)
    requires s != [] && Upper(s) == s && Validation(s).Pass?
    ensures DecimalValue(s) == ReadValidated(s)
  {
  }

  /** Every non-empty spelling in table order that passes validation is read as the
      sum of its entries. */
  lemma DecimalOfSpelling(ks: seq<nat>, s: string, n: nat)
    requires InTable(ks) && Ascending(ks, 0) && ks != []
    requires s == Spell(ks) && n == Sum(ks) && Validation(s).Pass?
    ensures DecimalValue(s) == Ok(n as real)
  {
    SpellingUpper(ks, s);
    ReadOfSpelling(ks, s, n);
    DecimalOfValid(s);
  }

  /** Every spelling in table order followed by `S` or by a single `·` that passes
      validation is read as the sum of its entries plus the glyph's value. */
  lemma DecimalOfGlyphSpelling(ks: seq<nat>, k: nat, s: string, n: nat)
    requires InTable(ks) && Ascending(ks, 0) && (k == 0 || k == 1)
    requires s == Spell(ks) + Glyph(k) && n == Sum(ks) && Validation(s).Pass?
    ensures DecimalValue(s) == Ok(n as real + FractionValue(k))
  {
    assert s != [] by { assert |Glyph(k)| == 1; }
    GlyphSpellingUpper(ks, k, s);
    ReadOfGlyphSpelling(ks, k, s, n);
    DecimalOfValid(s);
  }

  // ---------------------------------------------------------------------------
  // Strings free of the invalid sequences
  // ---------------------------------------------------------------------------

  /** `s` contains none of the seven invalid sequences. */
  predicate Clean(s: string) {
    forall q | 0 <= q < |InvalidSequences| :: !Contains(s, InvalidSequences[q])
  }

  /** Each invalid sequence repeats one letter: four times for `I`, `X`, `C` and `M`,
      twice for `V`, `L` and `D`. */
  lemma InvalidShape(q: nat)
    requires q < |InvalidSequences|
    ensures var w := InvalidSequences[q];
      (|w| == 4 || (|w| == 2 && (w[0] == 'V' || w[0] == 'L' || w[0] == 'D'))) &&
      IsRomanLetter(w[0]) && forall j | 0 <= j < |w| :: w[j] == w[0]
  {
  }

  /** A run of one character holds that character as many times as it is long. */
  lemma {:induction false} RunCount(w: string)
    requires w != [] && forall j | 0 <= j < |w| :: w[j] == w[0]
    ensures multiset(w)[w[0]] == |w|
    decreases |w|
  {
    if |w| > 1 {
      var t := w[1..];
      assert t[0] == w[0];
      RunCount(t);
      assert w == [w[0]] + t;
    }
  }

  /** `s` does not contain a string that needs more copies of `c` than `s` has. */
  lemma AbsentByCount(s: string, w: string, c: char)
    requires multiset(w)[c] > multiset(s)[c]
    ensures !Contains(s, w)
  {
    if Contains(s, w) {
      ContainsCounts(s, w);
    }
  }

  /** A string in which no character occurs more than three times, and `V`, `L` and
      `D` at most once, is clean. */
  lemma CleanByCounts(s: string)
    requires forall x :: multiset(s)[x] <= 3
    requires multiset(s)['V'] <= 1 && multiset(s)['L'] <= 1 && multiset(s)['D'] <= 1
    ensures Clean(s)
  {
    forall q | 0 <= q < |InvalidSequences| ensures !Contains(s, InvalidSequences[q]) {
      var w := InvalidSequences[q];
      InvalidShape(q);
      RunCount(w);
      AbsentByCount(s, w, w[0]);
    }
  }

  /** A run of one character does not straddle a join of two different characters. */
  lemma RunNotAcross(w: string, x: char, y: char)
    requires x != y && forall j | 0 <= j < |w| :: w[j] == w[0]
    ensures !exists j | 0 <= j < |w| - 1 :: w[j] == x && w[j + 1] == y
  {
    forall j | 0 <= j < |w| - 1 ensures !(w[j] == x && w[j + 1] == y) {
      assert w[j] == w[0] && w[j + 1] == w[0];
    }
  }

  /** Two clean strings whose join puts two different characters side by side, or
      one of which is empty, make a clean string. */
  lemma CleanJoin(a: string, b: string)
    requires Clean(a) && Clean(b) && (a == [] || b == [] || a[|a| - 1] != b[0])
    ensures Clean(a + b)
  {
    forall q | 0 <= q < |InvalidSequences| ensures !Contains(a + b, InvalidSequences[q]) {
      var w := InvalidSequences[q];
      InvalidShape(q);
      if a != [] && b != [] {
        RunNotAcross(w, a[|a| - 1], b[0]);
      }
      if Contains(a + b, w) {
        ContainsConcat(a, b, w);
      }
    }
  }

  /** A string of `S` and `·` only is clean. */
  lemma FractionCharsClean(g: string)
    requires forall i | 0 <= i < |g| :: IsFractionChar(g[i])
    ensures Clean(g)
  {
    forall q | 0 <= q < |InvalidSequences| ensures !Contains(g, InvalidSequences[q]) {
      var w := InvalidSequences[q];
      InvalidShape(q);
      RunCount(w);
      assert w[0] !in g;
      AbsentByCount(g, w, w[0]);
    }
  }

  /** A clean upper-case string without `S` or `·` passes validation. */
  lemma CleanValid(s: string)
    requires Clean(s) && Upper(s) == s && forall i | 0 <= i < |s| :: !IsFractionChar(s[i])
    ensures Validation(s) == Pass
  {
    ValidationMeaning(s);
  }

  /** The spelling of two entries `CM`. */
  lemma DoubleNinehundredSpelling(s: string)
    requires s == Spell([1, 1])
    ensures s == "CMCM"
  {
  }

  lemma DoubleNinehundredClean(s: string)
    requires s == "CMCM"
    ensures Clean(s)
  {
    var h := "CM";
    assert s == h + h;
    assert forall x :: multiset(h)[x] <= 1;
    CleanByCounts(s);
  }

  /** `CMCM` passes validation. */
  lemma DoubleNinehundredValid(s: string)
    requires s == Spell([1, 1])
    ensures s == "CMCM" && Validation(s) == Pass
  {
    DoubleNinehundredSpelling(s);
    DoubleNinehundredClean(s);
    SpellingUpper([1, 1], s);
    SpellLetters([1, 1]);
    CleanValid(s);
  }

  lemma DoubleNinehundredRead()
    ensures DecimalValue("CMCM") == Ok(1800.0)
  {
    var s := Spell([1, 1]);
    DoubleNinehundredValid(s);
    DecimalOfSpelling([1, 1], s, 1800);
  }

  /** The non-canonical numeral `CMCM` (900 twice) is read as 1800, in either case. */
  lemma DoubleNinehundredAccepted()
    ensures DecimalValue("CMCM") == Ok(1800.0) && DecimalValue("cmcm") == Ok(1800.0)
  {
    DoubleNinehundredRead();
    LowerDoubleNinehundred();
    CaseInsensitive("CMCM");
  }

  lemma LowerDoubleNinehundred()
    ensures Lower("CMCM") == "cmcm"
  {
  }
}
