/** ASCII case mapping and the substring tests of Python's `str` that PyRomano uses. */
module Text {

  predicate IsLower(c: char) { 'a' <= c <= 'z' }

  predicate IsUpper(c: char) { 'A' <= c <= 'Z' }

  function UpperChar(c: char): char {
    if IsLower(c) then (c as int - 32) as char else c
  }

  function LowerChar(c: char): char {
    if IsUpper(c) then (c as int + 32) as char else c
  }

  /** `str.upper()` on ASCII letters; every other character is kept. */
  function Upper(s: string): string {
    seq(|s|, i requires 0 <= i < |s| => UpperChar(s[i]))
  }

  /** `str.lower()` on ASCII letters; every other character is kept. */
  function Lower(s: string): string {
    seq(|s|, i requires 0 <= i < |s| => LowerChar(s[i]))
  }

  /** `s.startswith(sub, i)` for a cursor `i` inside the string. */
  predicate StartsAt(s: string, sub: string, i: nat) {
    i + |sub| <= |s| && s[i..i + |sub|] == sub
  }

  /** `s.endswith(sub)`. */
  predicate EndsWith(s: string, sub: string) {
    |sub| <= |s| && s[|s| - |sub|..] == sub
  }

  /** `sub in s`. */
  predicate Contains(s: string, sub: string) {
    exists i: nat | i <= |s| :: StartsAt(s, sub, i)
  }

  lemma UpperOfLower(s: string)
    ensures Upper(Lower(s)) == Upper(s)
  {
  }

  lemma UpperOfUpper(s: string)
    ensures Upper(Upper(s)) == Upper(s)
  {
  }

  lemma LowerOfLower(s: string)
    ensures Lower(Lower(s)) == Lower(s)
  {
  }

  lemma LowerOfUpper(s: string)
    ensures Lower(Upper(s)) == Lower(s)
  {
  }

  /** A string with no lower-case ASCII letter is its own upper-case form. */
  lemma UpperUnchanged(s: string)
    requires forall i | 0 <= i < |s| :: !IsLower(s[i])
    ensures Upper(s) == s
  {
  }

  /** A string with no upper-case ASCII letter is its own lower-case form. */
  lemma LowerUnchanged(s: string)
    requires forall i | 0 <= i < |s| :: !IsUpper(s[i])
    ensures Lower(s) == s
  {
  }

  /** An occurrence of `sub` uses at least as many of each character as `sub` has. */
  lemma {:induction false} ContainsCounts(s: string, sub: string)
    requires Contains(s, sub)
    ensures multiset(sub) <= multiset(s)
  {
    var i: nat :| i <= |s| && StartsAt(s, sub, i);
    assert s == s[..i] + sub + s[i + |sub|..];
    assert multiset(s) == multiset(s[..i]) + multiset(sub) + multiset(s[i + |sub|..]);
  }

  /** An occurrence of `sub` in `a + b` lies in `a`, lies in `b`, or straddles the
      join, so that two adjacent characters of `sub` are the last of `a` and the first of `b`. */
  lemma {:induction false} ContainsConcat(a: string, b: string, sub: string)
    requires Contains(a + b, sub)
    ensures Contains(a, sub) || Contains(b, sub) ||
            (a != [] && b != [] &&
             exists j | 0 <= j < |sub| - 1 :: sub[j] == a[|a| - 1] && sub[j + 1] == b[0])
  {
    var s := a + b;
    var i: nat :| i <= |s| && StartsAt(s, sub, i);
    if i + |sub| <= |a| {
      assert a[i..i + |sub|] == s[i..i + |sub|];
      assert StartsAt(a, sub, i);
    } else if i >= |a| {
      assert b[i - |a|..i - |a| + |sub|] == s[i..i + |sub|];
      assert StartsAt(b, sub, i - |a|);
    } else {
      var j := |a| - 1 - i;
      assert s[i..i + |sub|][j] == sub[j] && s[i..i + |sub|][j + 1] == sub[j + 1];
      assert sub[j] == a[|a| - 1] && sub[j + 1] == b[0];
    }
  }
}
