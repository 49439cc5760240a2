/** The bits of a blob of bytes, and the shift-and-mask reads the decoder uses. */
module GlzBlob {
  import opened Arithmetic
  import opened GlzBits

  ghost function BlobBits(blob: seq<Byte>): (s: seq<Bit>)
    ensures |s| == 8 * |blob|
  {
    seq(8 * |blob|, i requires 0 <= i < 8 * |blob| => Digits(blob[i / 8], 8)[i % 8])
  }

  // `1 & (blob[i/8] >> (7-i%8))`.
  function BitAt(blob: seq<Byte>, i: nat): Bit
    requires i / 8 < |blob|
  {
    ShiftRight(blob[i / 8], 7 - i % 8) % 2
  }

  // `0x1ff & ((blob[i/8] << 8) | blob[i/8+1]) >> (7-i%8)`, the shift first.
  function NineBitsAt(blob: seq<Byte>, i: nat): nat
    requires i / 8 + 1 < |blob|
  {
    ShiftRight((blob[i / 8] as nat) * 256 + blob[i / 8 + 1], 7 - i % 8) % 512
  }

  lemma {:induction false} DigitAt(v: nat, n: nat, i: nat)
    requires i < n
    ensures Digits(v, n)[i] == ShiftRight(v, n - 1 - i) % 2
  {
    if i < n - 1 {
      DigitAt(v / 2, n - 1, i);
    }
  }

  lemma BitAtIsBit(blob: seq<Byte>, i: nat)
    requires i / 8 < |blob|
    ensures i < |BlobBits(blob)| && BitAt(blob, i) == BlobBits(blob)[i]
  {
    DigitAt(blob[i / 8], 8, i % 8);
  }

  lemma ByteAt(blob: seq<Byte>, j: nat)
    requires j < |blob|
    ensures Value(BlobBits(blob), 8 * j, 8) == blob[j]
  {
    hide Value, Digits;
    var s := BlobBits(blob);
    assert s[8 * j..8 * j + 8] == Digits(blob[j], 8);
    SmallPowers();
    ValueOfDigits(s, 8 * j, blob[j], 8);
  }

  lemma {:induction false} ShiftValue(s: seq<Bit>, off: nat, m: nat, n: nat)
    requires off + m + n <= |s|
    ensures ShiftRight(Value(s, off, m + n), n) == Value(s, off, m)
  {
    if n > 0 {
      assert Value(s, off, m + n) / 2 == Value(s, off, m + (n - 1));
      ShiftValue(s, off, m, n - 1);
    }
  }

  // The two-byte shift-and-mask is the nine-bit slice that starts at bit `i`.
  lemma NineBitsAreSlice(blob: seq<Byte>, i: nat)
    requires i / 8 + 1 < |blob|
    ensures i + 9 <= |BlobBits(blob)| && NineBitsAt(blob, i) == Value(BlobBits(blob), i, 9)
  {
    hide Value, ShiftRight, BlobBits;
    var s, base, m := BlobBits(blob), 8 * (i / 8), i % 8;
    TwoBytes(blob, i / 8);
    SliceOfTwoBytes(s, base, m);
  }

  lemma TwoBytes(blob: seq<Byte>, j: nat)
    requires j + 1 < |blob|
    ensures Value(BlobBits(blob), 8 * j, 16) == (blob[j] as nat) * 256 + blob[j + 1]
  {
    hide Value, BlobBits;
    ByteAt(blob, j);
    ByteAt(blob, j + 1);
    SmallPowers();
    ValueConcat(BlobBits(blob), 8 * j, 8, 8);
  }

  lemma SliceOfTwoBytes(s: seq<Bit>, base: nat, m: nat)
    requires base + 16 <= |s| && m < 8
    ensures ShiftRight(Value(s, base, 16), 7 - m) % 512 == Value(s, base + m, 9)
  {
    hide Value, ShiftRight;
    SmallPowers();
    ShiftValue(s, base, m + 9, 7 - m);
    ValueConcat(s, base, m, 9);
  }

  lemma {:induction false} NoZero(s: seq<Bit>, off: nat)
    requires off <= |s| && forall i :: off <= i < |s| ==> s[i] == 1
    ensures FirstZero(s, off) == |s|
  {
    var z := FirstZero(s, off);
    if z < |s| {
      assert false;
    }
  }
}

/** The decoder as written: nested loops over bit offsets, output bytes stored in
    place. The blob is read only; offsets are natural numbers. */
module GlzDecoder {
  import opened Arithmetic
  import opened GlzBits
  import opened GlzMeaning
  import opened GlzBlob

  // Reading a Rice code, from where its zero is.
  lemma RiceIs(s: seq<Bit>, k: nat, off: nat)
    ensures off > |s| ==> ReadRice(s, k, off).NoRead?
    ensures off <= |s| ==>
              var z := FirstZero(s, off);
              ReadRice(s, k, off) ==
              if z + 1 + k > |s| then NoRead else Read((z - off) * Pow2(k) + Value(s, z + 1, k), z + 1 + k)
  {
  }

  method DecodeRice(blob: seq<Byte>, k: nat, start: nat) returns (r: Read<nat>)
    ensures r == ReadRice(BlobBits(blob), k, start)
  {
    hide BlobBits, Value, FirstZero, Pow2, BitAt, ReadRice;
    ghost var s := BlobBits(blob);
    RiceIs(s, k, start);
    var off: nat, rice: nat := start, 0;
    while true
      invariant start <= off && rice == off - start
      invariant off <= |s| || off == start
      invariant forall i :: start <= i < off ==> s[i] == 1
      decreases |s| - off
    {
      if off / 8 >= |blob| {
        if start <= |s| {
          NoZero(s, start);
        }
        return NoRead;
      }
      BitAtIsBit(blob, off);
      if BitAt(blob, off) == 0 {
        off := off + 1;
        break;
      }
      rice := rice + 1;
      off := off + 1;
    }
    ghost var q, z := rice, off - 1;
    FirstZeroIs(s, start, z);
    UnitPow(s, q, off);
    for i := 0 to k
      invariant off == z + 1 + i <= |s|
      invariant rice == q * Pow2(i) + Value(s, z + 1, i)
    {
      if off / 8 >= |blob| {
        return NoRead;
      }
      BitAtIsBit(blob, off);
      AppendBit(s, q, z + 1, i);
      rice := 2 * rice + BitAt(blob, off);
      off := off + 1;
    }
    return Read(rice, off);
  }

  lemma UnitPow(s: seq<Bit>, q: nat, off: nat)
    requires off <= |s|
    ensures q * Pow2(0) + Value(s, off, 0) == q
  {
  }

  lemma AppendBit(s: seq<Bit>, q: nat, off: nat, i: nat)
    requires off + i < |s|
    ensures q * Pow2(i + 1) + Value(s, off, i + 1) == 2 * (q * Pow2(i) + Value(s, off, i)) + s[off + i]
  {
    Distribute(q, Pow2(i));
  }

  method DecodeOffset(blob: seq<Byte>, start: nat) returns (r: Read<nat>)
    ensures r == ReadOffset(BlobBits(blob), start)
  {
    hide BlobBits, Value, BitAt;
    ghost var s := BlobBits(blob);
    var off: nat, noff: nat := start, 0;
    while true
      invariant ReadGroups(s, off, noff) == ReadGroups(s, start, 0)
      decreases |s| - off
    {
      GroupsPositive(s, off, noff);
      var n: nat := 0;
      ghost var group := off;
      ValueZero(s, group);
      for i := 0 to 5
        invariant off == group + i && (i > 0 ==> off <= |s|)
        invariant off <= |s| ==> n == Value(s, group, i)
      {
        if off / 8 >= |blob| {
          return NoRead;
        }
        BitAtIsBit(blob, off);
        ValueAppend(s, group, i);
        n := 2 * n + BitAt(blob, off);
        off := off + 1;
      }
      SmallPowers();
      noff := noff * GROUP + 1 + n % GROUP;
      if n < GROUP {
        break;
      }
    }
    return Read(noff - 1, off);
  }

  lemma ValueZero(s: seq<Bit>, off: nat)
    ensures off <= |s| ==> Value(s, off, 0) == 0
  {
  }

  lemma ValueAppend(s: seq<Bit>, off: nat, i: nat)
    requires off + i < |s|
    ensures Value(s, off, i + 1) == 2 * Value(s, off, i) + s[off + i]
  {
  }

  method DecodeSymbol(blob: seq<Byte>, rice: nat) returns (r: Read<nat>)
    ensures r == TableAt(BlobBits(blob), rice)
    ensures r.Read? ==> r.value < 512
  {
    if 9 * rice / 8 + 1 >= |blob| {
      return NoRead;
    }
    NineBitsAreSlice(blob, 9 * rice);
    return Read(NineBitsAt(blob, 9 * rice), 9 * rice + 9);
  }

  // A result with the bytes already written in front.
  ghost function After(done: seq<Byte>, r: (bool, seq<Byte>)): (bool, seq<Byte>) {
    (r.0, done + r.1)
  }

  lemma AfterSteps(done: seq<Byte>, c: Byte, r: (bool, seq<Byte>))
    ensures After([], r) == r
    ensures After(done, (r.0, [c] + r.1)) == After(done + [c], r)
  {
    assert [] + r.1 == r.1;
    assert done + ([c] + r.1) == (done + [c]) + r.1;
  }

  // The output holds these bytes, and behind them what it held before.
  ghost predicate Wrote(output: seq<Byte>, was: seq<Byte>, bytes: seq<Byte>) {
    |bytes| <= |was| && output == bytes + was[|bytes|..]
  }

  lemma WriteNothing(was: seq<Byte>)
    ensures Wrote(was, was, [])
  {
    assert was == [] + was[0..];
  }

  lemma WriteNext(output: seq<Byte>, was: seq<Byte>, done: seq<Byte>, c: Byte)
    requires Wrote(output, was, done) && |done| < |was|
    ensures Wrote(output[|done| := c], was, done + [c])
  {
  }

  lemma WroteBelow(output: seq<Byte>, was: seq<Byte>, done: seq<Byte>, wanted: nat)
    requires Wrote(output, was, done) && |done| <= wanted <= |was|
    ensures |output| == |was| && output[wanted..] == was[wanted..]
  {
  }

  // The loop has written `done` in so many turns, and what is left will do the rest.
  ghost predicate Midway(s: seq<Bit>, k: nat, start: nat, wanted: nat, done: seq<Byte>, turns: nat,
                         off: nat, n: nat, poff: nat, pn: nat)
  {
    && (n == 0 ==> pn == 0)
    && Loop(s, k, start, wanted, 0, 0) == After(done, Loop(s, k, off, n, poff, pn))
    && Turns(s, k, start, wanted, 0, 0) == turns + Turns(s, k, off, n, poff, pn)
  }

  lemma MidwayStart(s: seq<Bit>, k: nat, start: nat, wanted: nat)
    ensures Midway(s, k, start, wanted, [], 0, start, wanted, 0, 0)
  {
    hide Loop, Turns;
    AfterSteps([], 0, Loop(s, k, start, wanted, 0, 0));
  }

  lemma MidwayEnd(s: seq<Bit>, k: nat, start: nat, wanted: nat, done: seq<Byte>, turns: nat, off: nat, poff: nat)
    requires Midway(s, k, start, wanted, done, turns, off, 0, poff, 0)
    ensures Loop(s, k, start, wanted, 0, 0) == (true, done) && Turns(s, k, start, wanted, 0, 0) == turns
  {
    assert done + [] == done;
  }

  // One token: what is written already is a beginning of the whole, and what comes next
  // depends on the token.
  lemma MidwayStep(s: seq<Bit>, k: nat, start: nat, wanted: nat, done: seq<Byte>, turns: nat,
                   off: nat, n: nat, poff: nat, pn: nat)
    requires n > 0 && Midway(s, k, start, wanted, done, turns, off, n, poff, pn)
    ensures done <= Loop(s, k, start, wanted, 0, 0).1
    ensures var t := ReadToken(s, k, off);
            if t.NoRead? then
              Loop(s, k, start, wanted, 0, 0) == (false, done) && Turns(s, k, start, wanted, 0, 0) == turns + 1
            else
              match t.value
              case Literal(c) =>
                if n == 1 then Midway(s, k, start, wanted, done + [c], turns + 1, poff, pn, 0, 0)
                else Midway(s, k, start, wanted, done + [c], turns + 1, t.next, n - 1, poff, pn)
              case Reference(size, skip) =>
                if size >= n then Midway(s, k, start, wanted, done, turns + 1, t.next + skip, n, poff, pn)
                else size > 0 && Midway(s, k, start, wanted, done, turns + 1, t.next + skip, size, t.next, n - size)
  {
    hide ReadToken;
    var t := ReadToken(s, k, off);
    if t.Read? {
      TokenAdvances(s, k, off);
    }
    if t.Read? && t.value.Literal? {
      AfterSteps(done, t.value.value,
                 if n == 1 then Loop(s, k, poff, pn, 0, 0) else Loop(s, k, t.next, n - 1, poff, pn));
    } else {
      assert done + [] == done;
    }
  }

  // __box_glz_decode. The return code, the bytes written and the number of turns are
  // those of the loop's specification; nothing behind the bytes written is touched.
  method Decode(k: nat, blob: seq<Byte>, start: nat, output: array<Byte>, wanted: nat)
      returns (err: int, ghost turns: nat)
    requires wanted <= output.Length
    modifies output
    ensures var r := Loop(BlobBits(blob), k, start, wanted, 0, 0);
            && err == (if r.0 then 0 else -EINVAL)
            && Wrote(output[..], old(output[..]), r.1)
    ensures turns == Turns(BlobBits(blob), k, start, wanted, 0, 0)
  {
    hide BlobBits, ReadRice, ReadOffset, TableAt, Loop, Turns, Midway, Wrote;
    ghost var s := BlobBits(blob);
    ghost var was := output[..];
    ghost var done: seq<Byte> := [];
    err, turns := -EINVAL, 0;
    var off: nat, size: nat, poff: nat, psize: nat := start, wanted, 0, 0;
    var out: nat := 0;
    WriteNothing(was);
    MidwayStart(s, k, start, wanted);
    while size > 0
      invariant out + size + psize <= wanted && (size == 0 ==> psize == 0)
      invariant |done| == out && Wrote(output[..], was, done)
      invariant Midway(s, k, start, wanted, done, turns, off, size, poff, psize)
      decreases size + psize, |s| - off
    {
      MidwayStep(s, k, start, wanted, done, turns, off, size, poff, psize);
      turns := turns + 1;
      var rice := DecodeRice(blob, k, off);
      if rice.NoRead? {
        return;
      }
      var symbol := DecodeSymbol(blob, rice.value);
      if symbol.NoRead? {
        return;
      }
      if symbol.value < 0x100 {
        off := rice.next;
        var c: Byte := symbol.value;
        ghost var now := output[..];
        WriteNext(now, was, done, c);
        output[out] := c;
        assert output[..] == now[out := c];
        done := done + [c];
        out := out + 1;
        size := size - 1;
      } else {
        var noff := DecodeOffset(blob, rice.next);
        if noff.NoRead? {
          return;
        }
        var nsize := symbol.value % 0x100 + 2;
        TokenAdvances(s, k, off);
        if nsize >= size {
          off := noff.next + noff.value;
        } else {
          poff := noff.next;
          psize := size - nsize;
          off := noff.next + noff.value;
          size := nsize;
        }
      }
      if size == 0 {
        off, size, poff, psize := poff, psize, 0, 0;
      }
    }
    MidwayEnd(s, k, start, wanted, done, turns, off, poff);
    err := 0;
  }
}
