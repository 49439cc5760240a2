/** The bit stream of a GLZ blob and the two variable-length codes in it: the
    Golomb-Rice code of the symbols and the group code of reference offsets.
    Bits are numbered from the most significant bit of the first byte. */
module GlzBits {
  import opened Arithmetic

  const EINVAL := 22

  type Bit = b: nat | b < 2
  type Byte = b: nat | b < 256

  datatype Read<+T> = NoRead | Read(value: T, next: nat)

  // Division by repeated subtraction, for divisors that are no literals.
  ghost function Quot(v: nat, d: nat): nat
    requires d > 0
  {
    if v < d then 0 else 1 + Quot(v - d, d)
  }

  ghost function Rem(v: nat, d: nat): (r: nat)
    requires d > 0
    ensures r < d
  {
    if v < d then v else Rem(v - d, d)
  }

  lemma {:induction false} QuotRem(q: nat, d: nat, r: nat)
    requires r < d
    ensures q * d + r >= 0 && Quot(q * d + r, d) == q && Rem(q * d + r, d) == r
  {
    if q > 0 {
      QuotRem(q - 1, d, r);
      assert q * d + r == ((q - 1) * d + r) + d;
    } else {
      assert q * d + r == r;
    }
  }

  lemma {:induction false} QuotRemIs(v: nat, d: nat)
    requires d > 0
    ensures v == Quot(v, d) * d + Rem(v, d)
  {
    if v < d {
      assert Quot(v, d) == 0;
    } else {
      QuotRemIs(v - d, d);
      assert (1 + Quot(v - d, d)) * d == d + Quot(v - d, d) * d;
    }
  }

  // The `n` bits of `s` from `off` on as a number, first bit most significant.
  ghost function Value(s: seq<Bit>, off: nat, n: nat): (v: nat)
    requires off + n <= |s|
    ensures v < Pow2(n)
  {
    if n == 0 then 0 else 2 * Value(s, off, n - 1) + s[off + n - 1]
  }

  // Such a number written out again as `n` bits.
  ghost function Digits(v: nat, n: nat): (d: seq<Bit>)
    ensures |d| == n
  {
    if n == 0 then [] else Digits(v / 2, n - 1) + [v % 2]
  }

  ghost predicate CodeAt(s: seq<Bit>, off: nat, code: seq<Bit>) {
    off + |code| <= |s| && s[off..off + |code|] == code
  }

  lemma CodeConcat(s: seq<Bit>, off: nat, a: seq<Bit>, b: seq<Bit>)
    ensures CodeAt(s, off, a + b) <==> CodeAt(s, off, a) && CodeAt(s, off + |a|, b)
  {
    if off + |a| + |b| <= |s| {
      var c := s[off..off + |a| + |b|];
      assert c == s[off..off + |a|] + s[off + |a|..off + |a| + |b|];
      assert c[..|a|] == s[off..off + |a|];
      assert c[|a|..] == s[off + |a|..off + |a| + |b|];
      assert (a + b)[..|a|] == a && (a + b)[|a|..] == b;
    }
  }

  lemma {:induction false} ValueOfDigits(s: seq<Bit>, off: nat, v: nat, n: nat)
    requires v < Pow2(n) && CodeAt(s, off, Digits(v, n))
    ensures Value(s, off, n) == v
  {
    if n > 0 {
      CodeConcat(s, off, Digits(v / 2, n - 1), [v % 2]);
      assert s[off + n - 1] == s[off + n - 1..off + n][0];
      ValueOfDigits(s, off, v / 2, n - 1);
    }
  }

  lemma {:induction false} DigitsOfValue(s: seq<Bit>, off: nat, n: nat)
    requires off + n <= |s|
    ensures Digits(Value(s, off, n), n) == s[off..off + n]
    ensures CodeAt(s, off, Digits(Value(s, off, n), n))
  {
    if n > 0 {
      DigitsOfValue(s, off, n - 1);
      assert s[off..off + n] == s[off..off + (n - 1)] + [s[off + n - 1]];
    }
  }

  lemma {:induction false} ValueConcat(s: seq<Bit>, off: nat, m: nat, n: nat)
    requires off + m + n <= |s|
    ensures Value(s, off, m + n) == Value(s, off, m) * Pow2(n) + Value(s, off + m, n)
  {
    if n > 0 {
      ValueConcat(s, off, m, n - 1);
      assert off + (m + n) - 1 == off + m + n - 1;
      Distribute(Value(s, off, m), Pow2(n - 1));
    } else {
      assert Value(s, off, m) * Pow2(0) == Value(s, off, m);
    }
  }

  lemma Distribute(a: nat, b: nat)
    ensures 2 * (a * b) == a * (2 * b)
  {
  }

  // -------------------- Golomb-Rice --------------------

  // The first zero bit at or after `off`, or the length of `s`.
  ghost function FirstZero(s: seq<Bit>, off: nat): (z: nat)
    requires off <= |s|
    ensures off <= z <= |s|
    ensures forall i :: off <= i < z ==> s[i] == 1
    ensures z < |s| ==> s[z] == 0
    decreases |s| - off
  {
    if off == |s| || s[off] == 0 then off else FirstZero(s, off + 1)
  }

  lemma FirstZeroIs(s: seq<Bit>, off: nat, z: nat)
    requires off <= z < |s| && s[z] == 0
    requires forall i :: off <= i < z ==> s[i] == 1
    ensures FirstZero(s, off) == z
  {
  }

  // A quotient in unary, a zero, and `k` bits of remainder.
  ghost function ReadRice(s: seq<Bit>, k: nat, off: nat): Read<nat> {
    if off > |s| then NoRead
    else
      var z := FirstZero(s, off);
      if z + 1 + k > |s| then NoRead
      else Read((z - off) * Pow2(k) + Value(s, z + 1, k), z + 1 + k)
  }

  ghost function Ones(n: nat): (d: seq<Bit>)
    ensures |d| == n && forall i :: 0 <= i < n ==> d[i] == 1
  {
    seq(n, _ => 1)
  }

  ghost function RiceCode(k: nat, v: nat): seq<Bit> {
    Ones(Quot(v, Pow2(k))) + [0] + Digits(Rem(v, Pow2(k)), k)
  }

  // Reading finds every number that was written, and stops right behind it.
  lemma ReadRiceOfCode(s: seq<Bit>, k: nat, off: nat, v: nat)
    requires CodeAt(s, off, RiceCode(k, v))
    ensures ReadRice(s, k, off) == Read(v, off + |RiceCode(k, v)|)
  {
    hide Value, Digits, Pow2, Quot, Rem, FirstZero;
    var q, r := Quot(v, Pow2(k)), Rem(v, Pow2(k));
    QuotRemIs(v, Pow2(k));
    var z := off + q;
    CodeConcat(s, off, Ones(q) + [0], Digits(r, k));
    CodeConcat(s, off, Ones(q), [0]);
    forall i | off <= i < z
      ensures s[i] == 1
    {
      assert s[i] == s[off..off + q][i - off];
    }
    assert s[z] == s[z..z + 1][0];
    FirstZeroIs(s, off, z);
    ValueOfDigits(s, z + 1, r, k);
  }

  // What reading finds is what is written there: the code has no second spelling.
  lemma CodeOfReadRice(s: seq<Bit>, k: nat, off: nat)
    requires ReadRice(s, k, off).Read?
    ensures CodeAt(s, off, RiceCode(k, ReadRice(s, k, off).value))
    ensures ReadRice(s, k, off).next == off + |RiceCode(k, ReadRice(s, k, off).value)|
  {
    hide Value, Digits, Pow2, Quot, Rem, FirstZero;
    var z := FirstZero(s, off);
    var q, r := z - off, Value(s, z + 1, k);
    QuotRem(q, Pow2(k), r);
    DigitsOfValue(s, z + 1, k);
    assert s[off..z] == Ones(q);
    assert s[z..z + 1] == [s[z]];
    CodeConcat(s, off, Ones(q), [0]);
    CodeConcat(s, off, Ones(q) + [0], Digits(r, k));
  }

  // -------------------- reference offsets --------------------

  const GROUP := 16

  // Five-bit groups, most significant first; the top bit of a group says that
  // another follows. Each group adds one before the digit, so no offset has two
  // spellings, and the final result is one too large.
  ghost function ReadGroups(s: seq<Bit>, off: nat, acc: nat): Read<nat>
    decreases |s| - off
  {
    if off + 5 > |s| then NoRead
    else
      var n := Value(s, off, 5);
      var acc' := acc * GROUP + 1 + n % GROUP;
      if n < GROUP then Read(acc', off + 5) else ReadGroups(s, off + 5, acc')
  }

  ghost function ReadOffset(s: seq<Bit>, off: nat): Read<nat> {
    var r := ReadGroups(s, off, 0);
    GroupsPositive(s, off, 0);
    if r.Read? then Read(r.value - 1, r.next) else NoRead
  }

  lemma {:induction false} GroupsPositive(s: seq<Bit>, off: nat, acc: nat)
    ensures var r := ReadGroups(s, off, acc);
            r.Read? ==> r.value > acc && off + 5 <= r.next <= |s|
    decreases |s| - off
  {
    if off + 5 <= |s| {
      var n := Value(s, off, 5);
      if n >= GROUP {
        GroupsPositive(s, off + 5, acc * GROUP + 1 + n % GROUP);
      }
    }
  }

  // The digits of m in bijective base 16, each lowered by one.
  ghost function OffsetDigits(m: nat): (d: seq<nat>)
    ensures forall i :: 0 <= i < |d| ==> d[i] < GROUP
    ensures m > 0 ==> d != []
  {
    if m == 0 then [] else OffsetDigits((m - 1) / GROUP) + [(m - 1) % GROUP]
  }

  ghost function Fold(d: seq<nat>, acc: nat): nat {
    if d == [] then acc else Fold(d[1..], acc * GROUP + 1 + d[0])
  }

  ghost function GroupCode(d: seq<nat>): (c: seq<Bit>)
    ensures |c| == 5 * |d|
  {
    if d == [] then []
    else Digits(if |d| > 1 then GROUP + d[0] else d[0], 5) + GroupCode(d[1..])
  }

  ghost function OffsetCode(v: nat): seq<Bit> {
    GroupCode(OffsetDigits(v + 1))
  }

  lemma {:induction false} FoldLast(d: seq<nat>, x: nat, acc: nat)
    ensures Fold(d + [x], acc) == Fold(d, acc) * GROUP + 1 + x
    decreases |d|
  {
    if d == [] {
      assert (d + [x])[1..] == [];
    } else {
      assert (d + [x])[1..] == d[1..] + [x];
      FoldLast(d[1..], x, acc * GROUP + 1 + d[0]);
    }
  }

  lemma {:induction false} FoldOfDigits(m: nat)
    ensures Fold(OffsetDigits(m), 0) == m
  {
    if m > 0 {
      FoldLast(OffsetDigits((m - 1) / GROUP), (m - 1) % GROUP, 0);
      FoldOfDigits((m - 1) / GROUP);
    }
  }

  lemma {:induction false} DigitsOfFold(d: seq<nat>)
    requires forall i :: 0 <= i < |d| ==> d[i] < GROUP
    ensures OffsetDigits(Fold(d, 0)) == d
    decreases |d|
  {
    if d != [] {
      var n := |d| - 1;
      assert d == d[..n] + [d[n]];
      FoldLast(d[..n], d[n], 0);
      DigitsOfFold(d[..n]);
    }
  }

  lemma SmallPowers()
    ensures Pow2(5) == 32 && Pow2(8) == 256 && Pow2(9) == 512
  {
    assert Pow2(3) == 8 && Pow2(6) == 64;
  }

  lemma {:induction false} ReadGroupsOfCode(s: seq<Bit>, off: nat, d: seq<nat>, acc: nat)
    requires d != [] && forall i :: 0 <= i < |d| ==> d[i] < GROUP
    requires CodeAt(s, off, GroupCode(d))
    ensures ReadGroups(s, off, acc) == Read(Fold(d, acc), off + 5 * |d|)
    decreases |d|
  {
    hide Value, Digits, Pow2;
    var n := if |d| > 1 then GROUP + d[0] else d[0];
    CodeConcat(s, off, Digits(n, 5), GroupCode(d[1..]));
    SmallPowers();
    ValueOfDigits(s, off, n, 5);
    if |d| > 1 {
      ReadGroupsOfCode(s, off + 5, d[1..], acc * GROUP + 1 + d[0]);
    } else {
      assert d[1..] == [];
    }
  }

  // The digits a successful read goes through.
  lemma {:induction false} CodeOfReadGroups(s: seq<Bit>, off: nat, acc: nat) returns (d: seq<nat>)
    requires ReadGroups(s, off, acc).Read?
    ensures d != [] && forall i :: 0 <= i < |d| ==> d[i] < GROUP
    ensures CodeAt(s, off, GroupCode(d)) && ReadGroups(s, off, acc) == Read(Fold(d, acc), off + 5 * |d|)
    decreases |s| - off
  {
    hide Value, Digits, Pow2;
    var n := Value(s, off, 5);
    SmallPowers();
    DigitsOfValue(s, off, 5);
    if n < GROUP {
      d := [n];
      assert d[1..] == [];
      CodeConcat(s, off, Digits(n, 5), []);
    } else {
      var rest := CodeOfReadGroups(s, off + 5, acc * GROUP + 1 + (n - GROUP));
      d := [n - GROUP] + rest;
      assert d[1..] == rest;
      CodeConcat(s, off, Digits(n, 5), GroupCode(rest));
    }
  }

  lemma ReadOffsetOfCode(s: seq<Bit>, off: nat, v: nat)
    requires CodeAt(s, off, OffsetCode(v))
    ensures ReadOffset(s, off) == Read(v, off + |OffsetCode(v)|)
  {
    FoldOfDigits(v + 1);
    ReadGroupsOfCode(s, off, OffsetDigits(v + 1), 0);
  }

  lemma CodeOfReadOffset(s: seq<Bit>, off: nat)
    requires ReadOffset(s, off).Read?
    ensures CodeAt(s, off, OffsetCode(ReadOffset(s, off).value))
    ensures ReadOffset(s, off).next == off + |OffsetCode(ReadOffset(s, off).value)|
  {
    GroupsPositive(s, off, 0);
    var d := CodeOfReadGroups(s, off, 0);
    DigitsOfFold(d);
  }
}
