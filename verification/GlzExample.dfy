/** A blob for which one slot is not enough: the decoder returns 0 with too few bytes. */
module GlzExample {
  import opened Arithmetic
  import opened GlzBits
  import opened GlzMeaning
  import opened GlzBlob

  // Three table entries - the byte 0 and references of three and of two bytes - and,
  // from bit 27 on, with k = 0: a reference of three bytes, behind it one of two bytes,
  // and zeros, each of which is the byte 0.
  ghost const Short: seq<Byte> := [0, 64, 96, 16, 48, 0]

  ghost const OneBits: set<nat> := {9, 17, 18, 27, 34, 35}

  lemma NextDigit(v: nat, n: nat)
    ensures Digits(2 * v, n + 1) == Digits(v, n) + [0] && Digits(2 * v + 1, n + 1) == Digits(v, n) + [1]
  {
  }

  // A few bits with zeros behind them.
  lemma {:induction false} ShiftedDigits(v: nat, n: nat, k: nat)
    ensures Digits(Pow2(k) * v, n + k) == Digits(v, n) + seq<Bit>(k, _ => 0)
  {
    if k == 0 {
      assert Pow2(k) * v == v;
    } else {
      var w := Pow2(k - 1) * v;
      assert Pow2(k) * v == 2 * w by { Doubled(Pow2(k - 1), v); }
      ShiftedDigits(v, n, k - 1);
      NextDigit(w, n + (k - 1));
      assert seq<Bit>(k - 1, _ => 0) + [0] == seq<Bit>(k, _ => 0);
    }
  }

  lemma Doubled(a: nat, v: nat)
    ensures (2 * a) * v == 2 * (a * v)
  {
  }

  lemma BytesInBits()
    ensures Digits(0, 8) == [0, 0, 0, 0, 0, 0, 0, 0]
    ensures Digits(64, 8) == [0, 1, 0, 0, 0, 0, 0, 0]
    ensures Digits(96, 8) == [0, 1, 1, 0, 0, 0, 0, 0]
    ensures Digits(16, 8) == [0, 0, 0, 1, 0, 0, 0, 0]
    ensures Digits(48, 8) == [0, 0, 1, 1, 0, 0, 0, 0]
  {
    hide Digits, Pow2;
    SmallPowers();
    FewDigits();
    ShiftedDigits(0, 4, 4);
    ShiftedDigits(4, 4, 4);
    ShiftedDigits(6, 4, 4);
    ShiftedDigits(1, 4, 4);
    ShiftedDigits(3, 4, 4);
  }

  lemma FewDigits()
    ensures Pow2(4) == 16
    ensures Digits(0, 4) == [0, 0, 0, 0] && Digits(4, 4) == [0, 1, 0, 0] && Digits(6, 4) == [0, 1, 1, 0]
    ensures Digits(1, 4) == [0, 0, 0, 1] && Digits(3, 4) == [0, 0, 1, 1]
  {
    assert Digits(0, 2) == [0, 0] && Digits(1, 2) == [0, 1];
    assert Pow2(3) == 8;
  }

  lemma BitOfShort(i: nat)
    requires i < 48
    ensures BlobBits(Short)[i] == if i in OneBits then 1 else 0
  {
    hide Digits;
    BytesInBits();
    var j, m := i / 8, i % 8;
    assert i == 8 * j + m;
    assert BlobBits(Short)[i] == Digits(Short[j], 8)[m];
    assert j == 0 || j == 1 || j == 2 || j == 3 || j == 4 || j == 5;
  }

  // Its bits, all zero but six.
  ghost predicate Bits(s: seq<Bit>) {
    |s| == 48 && forall i :: 0 <= i < 48 ==> s[i] == if i in OneBits then 1 else 0
  }

  lemma ShortHasBits()
    ensures Bits(BlobBits(Short))
  {
    hide BlobBits;
    forall i | 0 <= i < 48
      ensures BlobBits(Short)[i] == if i in OneBits then 1 else 0
    {
      BitOfShort(i);
    }
  }

  lemma Unary(s: seq<Bit>, off: nat, n: nat)
    requires off + n < |s| && s[off + n] == 0 && forall i :: off <= i < off + n ==> s[i] == 1
    ensures ReadRice(s, 0, off) == Read(n, off + n + 1)
  {
    hide FirstZero;
    FirstZeroIs(s, off, off + n);
    assert Pow2(0) == 1;
  }

  lemma {:induction false} ZerosValue(s: seq<Bit>, off: nat, n: nat)
    requires off + n <= |s| && forall i :: off <= i < off + n ==> s[i] == 0
    ensures Value(s, off, n) == 0
  {
    if n > 0 {
      ZerosValue(s, off, n - 1);
    }
  }

  lemma {:induction false} LeadingOne(s: seq<Bit>, off: nat, n: nat)
    requires 0 < n && off + n <= |s| && s[off] == 1 && forall i :: off < i < off + n ==> s[i] == 0
    ensures 2 * Value(s, off, n) == Pow2(n)
  {
    if n > 1 {
      LeadingOne(s, off, n - 1);
    } else {
      assert Value(s, off, 1) == 2 * Value(s, off, 0) + s[off];
    }
  }

  // The entries of the table.
  lemma Entries(s: seq<Bit>)
    requires Bits(s)
    ensures TableAt(s, 0) == Read(0, 9) && TableAt(s, 1) == Read(0x101, 18) && TableAt(s, 2) == Read(0x100, 27)
  {
    hide Pow2;
    SmallPowers();
    ZerosValue(s, 0, 9);
    LeadingOne(s, 9, 8);
    LeadingOne(s, 18, 9);
    assert Value(s, 9, 9) == 2 * Value(s, 9, 8) + s[17];
  }

  lemma NoSkip(s: seq<Bit>, off: nat)
    requires off + 5 <= |s| && forall i :: off <= i < off + 5 ==> s[i] == 0
    ensures ReadOffset(s, off) == Read(0, off + 5)
  {
    hide Value;
    ZerosValue(s, off, 5);
  }

  lemma ShortTokens(s: seq<Bit>)
    requires Bits(s)
    ensures ReadToken(s, 0, 27) == Read(Reference(3, 0), 34)
    ensures ReadToken(s, 0, 34) == Read(Reference(2, 0), 42)
    ensures ReadToken(s, 0, 42) == Read(Literal(0), 43)
    ensures ReadToken(s, 0, 43) == Read(Literal(0), 44)
  {
    hide ReadRice, TableAt, ReadOffset;
    Unary(s, 27, 1);
    Unary(s, 34, 2);
    Unary(s, 42, 0);
    Unary(s, 43, 0);
    Entries(s);
    NoSkip(s, 29);
    NoSkip(s, 37);
  }

  // A reference of three bytes, wanted for four, with one of two right behind it: the
  // pending byte of the first is given up for that of the second.
  lemma Overwritten(s: seq<Bit>, k: nat, a: nat, b: nat, c: nat, d: nat, e: nat,
                    none: nat, one: nat, two: nat, three: nat, four: nat)
    requires none == 0 && one == 1 && two == 2 && three == 3 && four == 4
    requires ReadToken(s, k, a) == Read(Reference(three, none), b)
    requires ReadToken(s, k, b) == Read(Reference(two, none), c)
    requires ReadToken(s, k, c) == Read(Literal(0), d) && ReadToken(s, k, d) == Read(Literal(0), e)
    ensures Loop(s, k, a, four, 0, 0) == (true, [0, 0, 0])
    ensures Expand(s, k, a, four) == Bytes([0, 0, 0, 0])
    ensures !OneDeep(s, k, a, four, false)
  {
    hide ReadToken;
    TokenAdvances(s, k, a);
    TokenAdvances(s, k, b);
    TokenAdvances(s, k, c);
    TokenAdvances(s, k, d);
    assert Loop(s, k, c, one, 0, 0) == (true, [0] + []);
    assert [0] + [] == [0] && [0] + [0] == [0, 0] && [0] + [0, 0] == [0, 0, 0];
    assert Loop(s, k, d, one, c, one) == (true, [0] + [0]);
    assert Loop(s, k, c, two, c, one) == (true, [0] + [0, 0]);
    assert Loop(s, k, b, three, b, one) == Loop(s, k, c, two, c, one);
    assert Loop(s, k, a, four, 0, 0) == Loop(s, k, b, three, b, one);
    assert Expand(s, k, c, one) == Bytes([0] + []);
    assert Expand(s, k, d, one) == Bytes([0] + []);
    assert Expand(s, k, c, two) == Bytes([0] + [0]);
    assert Expand(s, k, b, three) == Bytes([0, 0] + [0]);
    assert Expand(s, k, b, one) == Expand(s, k, c, one);
    assert Expand(s, k, a, four) == Bytes([0, 0, 0] + [0]);
    assert !OneDeep(s, k, b, three, true);
  }

  // The decoder returns 0 with three bytes, where the blob means four.
  lemma ShortOutputExample()
    ensures Loop(BlobBits(Short), 0, 27, 4, 0, 0) == (true, [0, 0, 0])
    ensures Expand(BlobBits(Short), 0, 27, 4) == Bytes([0, 0, 0, 0])
    ensures !OneDeep(BlobBits(Short), 0, 27, 4, false)
  {
    hide ReadToken, BlobBits, Loop, Expand, OneDeep, Bits;
    ShortHasBits();
    ShortTokens(BlobBits(Short));
    Overwritten(BlobBits(Short), 0, 27, 34, 42, 43, 44, 0, 1, 2, 3, 4);
  }
}
