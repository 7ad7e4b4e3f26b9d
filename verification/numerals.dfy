/** What a decimal numeral is, apart from how one is produced. */
module Numerals {

  predicate AllDigits(s: string) { forall i :: 0 <= i < |s| ==> '0' <= s[i] <= '9' }

  /** The value of a string of digits by position. */
  function ValueOf(s: string): int {
    if s == [] then 0 else 10 * ValueOf(s[..|s| - 1]) + (s[|s| - 1] as int - '0' as int)
  }

  /** Digits only, without leading zeros, of value `n`. */
  predicate Numeral(s: string, n: nat) {
    AllDigits(s) && ValueOf(s) == n && s != [] && (s[0] == '0' ==> s == "0")
  }

  /** A name made of a text and the numeral of `n` behind it. */
  predicate Numbered(name: string, text: string, n: nat) {
    |text| <= |name| && name[..|text|] == text && Numeral(name[|text|..], n)
  }

  lemma {:induction false} ValueAtLeast(s: string)
    requires AllDigits(s)
    ensures ValueOf(s) >= 0
    ensures s != [] && s[0] != '0' ==> ValueOf(s) > 0
  {
    if s != [] {
      var front := s[..|s| - 1];
      ValueAtLeast(front);
      if front != [] {
        assert front[0] == s[0];
      }
    }
  }

  /** A number has one numeral. */
  lemma {:induction false} NumeralIsUnique(a: string, b: string, n: nat)
    requires Numeral(a, n) && Numeral(b, n)
    ensures a == b
  {
    var x, y := a[..|a| - 1], b[..|b| - 1];
    ValueAtLeast(x);
    ValueAtLeast(y);
    assert ValueOf(x) == ValueOf(y) && a[|a| - 1] == b[|b| - 1];
    assert a == x + [a[|a| - 1]] && b == y + [b[|b| - 1]];
    assert (x != [] ==> x[0] == a[0]) && (y != [] ==> y[0] == b[0]);
    if x != [] {
      NumeralIsUnique(x, y, ValueOf(x));
    }
  }

  lemma NumberedIs(name: string, text: string, digits: string, n: nat)
    requires name == text + digits && Numeral(digits, n)
    ensures Numbered(name, text, n)
  {
    assert name[|text|..] == digits;
  }

  /** Two names with different numbers are equal only if one text is the other with digits behind it. */
  lemma NamesDiffer(a: string, p: string, m: nat, b: string, q: string, n: nat)
    requires Numbered(a, p, m) && Numbered(b, q, n) && m != n && |q| <= |p|
    ensures a == b ==> |q| < |p| && p[..|q|] == q && AllDigits(p[|q|..])
  {
    if a == b {
      assert p[..|q|] == a[..|p|][..|q|] == a[..|q|] == q;
      assert |p| != |q|;
      var d := b[|q|..];
      assert forall i :: |q| <= i < |p| ==> p[i] == a[i] == d[i - |q|];
    }
  }
}
