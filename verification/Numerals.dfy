/** Numerals, and the numbers they stand for. */
module Numerals {
  function DigitChar(n: nat): char
    requires n < 16
  {
    if n >= 10 then 'a' - 10 as char + n as char else '0' + n as char
  }

  // The numeral of `v` without superfluous digits.
  function Numeral(v: nat, base: nat): (s: string)
    requires 2 <= base <= 16
    ensures s != []
  {
    if v < base then [DigitChar(v)]
    else
      Shrinks(v, base);
      Numeral(v / base, base) + [DigitChar(v % base)]
  }

  lemma Shrinks(v: nat, base: nat)
    requires 2 <= base <= 16 && v >= base
    ensures 0 < v / base < v && v % base < base
  {
    match base
    case 2 => case 3 => case 4 => case 5 => case 6 => case 7 => case 8 => case 9 =>
    case 10 => case 11 => case 12 => case 13 => case 14 => case 15 => case 16 =>
  }

  function DigitValue(c: char): int {
    if '0' <= c <= '9' then c as int - '0' as int
    else if 'a' <= c <= 'f' then c as int - 'a' as int + 10
    else -1
  }

  predicate AllDigits(s: string, base: nat) {
    forall i :: 0 <= i < |s| ==> 0 <= DigitValue(s[i]) < base
  }

  // The number a string of digits stands for.
  function Parse(s: string, base: nat): nat
    requires AllDigits(s, base)
  {
    if s == [] then 0
    else
      assert AllDigits(s[..|s| - 1], base);
      Parse(s[..|s| - 1], base) * base + DigitValue(s[|s| - 1])
  }

  lemma DigitRoundTrip(n: nat)
    requires n < 16
    ensures DigitValue(DigitChar(n)) == n
    ensures DigitChar(n) == '0' <==> n == 0
  {
  }

  lemma Euclid(v: nat, base: nat)
    requires 2 <= base <= 16
    ensures v == v / base * base + v % base
  {
  }

  // A numeral reads back as its number, and has no superfluous leading digit.
  lemma {:induction false} NumeralReadsBack(v: nat, base: nat)
    requires 2 <= base <= 16
    ensures AllDigits(Numeral(v, base), base) && Parse(Numeral(v, base), base) == v
    ensures Numeral(v, base)[0] == '0' ==> v == 0 && |Numeral(v, base)| == 1
    decreases v
  {
    var s := Numeral(v, base);
    if v < base {
      DigitRoundTrip(v);
      assert s[..0] == [];
    } else {
      Shrinks(v, base);
      Euclid(v, base);
      NumeralReadsBack(v / base, base);
      DigitRoundTrip(v % base);
      var head := Numeral(v / base, base);
      assert s[..|s| - 1] == head;
      assert s[0] == head[0];
    }
  }

  // Leading zeros do not change the number.
  lemma {:induction false} ZerosInFront(n: nat, s: string, base: nat)
    requires base >= 2 && AllDigits(s, base)
    ensures AllDigits(Fill(n, '0') + s, base) && Parse(Fill(n, '0') + s, base) == Parse(s, base)
    decreases |s| + n
  {
    var all := Fill(n, '0') + s;
    if s == [] {
      if n > 0 {
        assert all[..|all| - 1] == Fill(n - 1, '0') + [];
        ZerosInFront(n - 1, [], base);
      }
    } else {
      assert all[..|all| - 1] == Fill(n, '0') + s[..|s| - 1];
      ZerosInFront(n, s[..|s| - 1], base);
    }
  }

  function Fill(n: nat, c: char): (s: string)
    ensures |s| == n && forall i :: 0 <= i < n ==> s[i] == c
  {
    seq(n, _ => c)
  }
}
