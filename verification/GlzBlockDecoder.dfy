/** The decoder that reads its blob bit by bit and table entry by table entry
    through the block device cache. */
module GlzBlockDecoder {
  import opened Arithmetic
  import opened GlzBits
  import opened GlzMeaning
  import opened GlzBlob
  import opened BlockDevice
  import opened GlzDecoder
  import E = GlzEncoder

  // The blob that starts at `ctx` and runs to the end of the region.
  ghost function BlobOf(r: Reader, ctx: nat): (blob: seq<Byte>)
    requires Sized(r.g)
    ensures |blob| == if ctx <= r.g.regionSize then r.g.regionSize - ctx else 0
  {
    if ctx <= r.g.regionSize then Direct(r.g, r.device, ctx, r.g.regionSize - ctx) else []
  }

  ghost function BitsOf(r: Reader, ctx: nat): seq<Bit>
    requires Sized(r.g)
  {
    BlobBits(BlobOf(r, ctx))
  }

  // The table entry of the token at `off` does not lie across two cache windows.
  ghost predicate EntryInWindow(g: Geometry, ctx: nat, s: seq<Bit>, k: nat, off: nat)
    requires Sized(g)
  {
    var rice := ReadRice(s, k, off);
    rice.Read? && TableAt(s, rice.value).Read? ==> InWindow(g, ctx + 9 * rice.value / 8, 2)
  }

  // No table entry met on the way does.
  ghost predicate RunsInWindow(g: Geometry, ctx: nat, s: seq<Bit>, k: nat, off: nat, n: nat, poff: nat, pn: nat)
    requires Sized(g) && (n == 0 ==> pn == 0)
    decreases n + pn, |s| - off
  {
    if n == 0 then true
    else if !EntryInWindow(g, ctx, s, k, off) then false
    else
      var t := ReadToken(s, k, off);
      if t.NoRead? then true
      else
        TokenAdvances(s, k, off);
        match t.value
        case Literal(c) =>
          if n == 1 then RunsInWindow(g, ctx, s, k, poff, pn, 0, 0)
          else RunsInWindow(g, ctx, s, k, t.next, n - 1, poff, pn)
        case Reference(size, skip) =>
          if size >= n then RunsInWindow(g, ctx, s, k, t.next + skip, n, poff, pn)
          else RunsInWindow(g, ctx, s, k, t.next + skip, size, t.next, n - size)
  }

  // One token of such a run, and what is left of it.
  lemma RunStep(g: Geometry, ctx: nat, s: seq<Bit>, k: nat, off: nat, n: nat, poff: nat, pn: nat)
    requires Sized(g) && n > 0 && RunsInWindow(g, ctx, s, k, off, n, poff, pn)
    ensures EntryInWindow(g, ctx, s, k, off)
    ensures var t := ReadToken(s, k, off);
            t.Read? ==>
              match t.value
              case Literal(_) =>
                if n == 1 then RunsInWindow(g, ctx, s, k, poff, pn, 0, 0)
                else RunsInWindow(g, ctx, s, k, t.next, n - 1, poff, pn)
              case Reference(size, skip) =>
                if size >= n then RunsInWindow(g, ctx, s, k, t.next + skip, n, poff, pn)
                else size > 0 && RunsInWindow(g, ctx, s, k, t.next + skip, size, t.next, n - size)
  {
    hide ReadToken, EntryInWindow;
    if ReadToken(s, k, off).Read? {
      TokenAdvances(s, k, off);
    }
  }

  method ReadBit(r: Reader, ctx: nat, x: array<Byte>, off: nat) returns (err: int, bit: Bit)
    requires r.Valid() && r.Cached() && x.Length == 2 && x != r.buffer
    modifies r`accesses, r`block, r`off, r.buffer, x
    ensures r.Valid()
    ensures err == 0 ==>
              && r.Cached() && FineSince(r.Hw(), old(r.accesses), r.accesses)
              && off / 8 < |BlobOf(r, ctx)| && bit == BitAt(BlobOf(r, ctx), off)
    ensures err != 0 ==>
              if off / 8 >= |BlobOf(r, ctx)| then err == -EINVAL && r.accesses == old(r.accesses)
              else FailedSince(r.Hw(), old(r.accesses), r.accesses, err)
  {
    hide BufferAfter, ByteOf, BitAt, ReadCached;
    bit := 0;
    CachedReadFacts(r.Hw(), r.View(), ctx + off / 8, 1, x[..]);
    err := r.Read(ctx, off / 8, x, 1);
    if err != 0 {
      return;
    }
    OneByte(r.g, ctx + off / 8);
    InWindowReads(r.g, r.device, ctx + off / 8, 1, old(x[..]));
    assert x[0] == Direct(r.g, r.device, ctx + off / 8, 1)[0] == BlobOf(r, ctx)[off / 8];
    BitOfByte(BlobOf(r, ctx), off);
    bit := ShiftRight(x[0], 7 - off % 8) % 2;
  }

  lemma BitOfByte(blob: seq<Byte>, off: nat)
    requires off / 8 < |blob|
    ensures BitAt(blob, off) == ShiftRight(blob[off / 8], 7 - off % 8) % 2
  {
  }

  // The read of an entry that crosses into another window of its block.
  ghost predicate Crosses(g: Geometry, ctx: nat, i: nat)
    requires Sized(g)
  {
    !InWindow(g, EntryAt(ctx, i), 2) && EntryAt(ctx, i) % g.blockSize + 1 < g.blockSize
  }

  ghost function EntryAt(ctx: nat, i: nat): nat {
    ctx + 9 * i / 8
  }

  // Two bytes of the table and the nine bits in them. Across windows the second byte
  // takes the place of the first, and the last bit of the entry that of its first.
  method ReadSymbol(r: Reader, ctx: nat, x: array<Byte>, rice: nat) returns (err: int, symbol: nat)
    requires r.Valid() && r.Cached() && x.Length == 2 && x != r.buffer
    modifies r`accesses, r`block, r`off, r.buffer, x
    ensures r.Valid() && symbol < 512
    ensures err == 0 ==>
              && r.Cached() && FineSince(r.Hw(), old(r.accesses), r.accesses)
              && TableAt(BitsOf(r, ctx), rice).Read?
              && (InWindow(r.g, EntryAt(ctx, rice), 2) ==> symbol == TableAt(BitsOf(r, ctx), rice).value)
              && (Crosses(r.g, ctx, rice) ==> symbol / 0x100 == TableAt(BitsOf(r, ctx), rice).value % 2)
    ensures err != 0 ==>
              if TableAt(BitsOf(r, ctx), rice).NoRead? then err == -EINVAL && r.accesses == old(r.accesses)
              else FailedSince(r.Hw(), old(r.accesses), r.accesses, err)
  {
    hide BufferAfter, ByteOf, BlobBits, Value, ReadCached, InWindow;
    symbol := 0;
    ghost var blob, i := BlobOf(r, ctx), 9 * rice;
    CachedReadFacts(r.Hw(), r.View(), ctx + i / 8, 2, x[..]);
    err := r.Read(ctx, 9 * rice / 8, x, 2);
    if err != 0 {
      return;
    }
    symbol := ShiftRight((x[0] as nat) * 256 + x[1], 7 - 9 * rice % 8) % 512;
    if Crosses(r.g, ctx, rice) {
      SecondByte(r.g, r.device, ctx + i / 8, old(x[..]));
      assert x[0] == blob[i / 8 + 1];
      LastBitFirst(blob, i, x[0], x[1]);
    }
    if InWindow(r.g, ctx + i / 8, 2) {
      InWindowReads(r.g, r.device, ctx + i / 8, 2, old(x[..]));
      assert x[0] == Direct(r.g, r.device, ctx + i / 8, 2)[0] == blob[i / 8];
      assert x[1] == Direct(r.g, r.device, ctx + i / 8, 2)[1] == blob[i / 8 + 1];
      NineBitsAreSlice(blob, i);
    }
  }

  lemma SecondByte(g: Geometry, dev: Device, addr: nat, d: seq<Byte>)
    requires Sized(g) && |d| >= 2 && !InWindow(g, addr, 2) && addr % g.blockSize + 1 < g.blockSize
    ensures BufferAfter(g, dev, addr, 2, d)[0] == ByteOf(g, dev, addr + 1)
  {
    var off := addr % g.blockSize;
    SameBlock(g, addr, 1);
    Euclid(off, g.bufferSize);
    CopiedFirst(g, dev, addr / g.blockSize, off, 2, d);
    assert Chunk(g, off, 2) == 1;
    NextPart(g, off);
  }

  lemma NextPart(g: Geometry, off: nat)
    requires g.bufferSize > 0 && Chunk(g, off, 2) == 1
    ensures LastPart(g, off, 2) == off + 1
  {
    assert LastPart(g, off, 2) == LastPart(g, off + 1, 1);
  }

  lemma {:induction false} ShiftSplit(b: nat, x: nat, n: nat)
    requires x < 256
    ensures ShiftRight(b * 256 + x, n) / 256 == ShiftRight(b, n)
  {
    if n > 0 {
      var y := (b % 2 * 256 + x) / 2;
      assert (b * 256 + x) / 2 == b / 2 * 256 + y;
      ShiftSplit(b / 2, y, n - 1);
    }
  }

  lemma LastBitFirst(blob: seq<Byte>, i: nat, b: Byte, x: Byte)
    requires i / 8 + 1 < |blob| && b == blob[i / 8 + 1]
    ensures i + 9 <= |BlobBits(blob)|
    ensures ShiftRight((b as nat) * 256 + x, 7 - i % 8) % 512 / 256 == Value(BlobBits(blob), i, 9) % 2
  {
    hide BlobBits, ShiftRight, Value;
    var y := ShiftRight((b as nat) * 256 + x, 7 - i % 8);
    ShiftSplit(b, x, 7 - i % 8);
    HighBit(y);
    NextByte(i);
    BitAtIsBit(blob, i + 8);
    BlobSize(blob);
    LastBit(BlobBits(blob), i);
  }

  lemma HighBit(y: nat)
    ensures y % 512 / 256 == y / 256 % 2
  {
  }

  lemma NextByte(i: nat)
    ensures (i + 8) / 8 == i / 8 + 1 && (i + 8) % 8 == i % 8
  {
  }

  lemma LastBit(s: seq<Bit>, i: nat)
    requires i + 9 <= |s|
    ensures Value(s, i, 9) % 2 == s[i + 8]
  {
  }

  lemma BlobSize(blob: seq<Byte>)
    ensures |BlobBits(blob)| == 8 * |blob|
  {
  }

  method ReadRiceCode(r: Reader, ctx: nat, x: array<Byte>, k: nat, start: nat) returns (err: int, rice: nat, off: nat)
    requires r.Valid() && r.Cached() && x.Length == 2 && x != r.buffer
    modifies r`accesses, r`block, r`off, r.buffer, x
    ensures r.Valid()
    ensures err != 0 ==>
              || FailedSince(r.Hw(), old(r.accesses), r.accesses, err)
              || (FineSince(r.Hw(), old(r.accesses), r.accesses) && err == -EINVAL
                  && ReadRice(BitsOf(r, ctx), k, start).NoRead?)
    ensures err == 0 ==>
              && r.Cached() && FineSince(r.Hw(), old(r.accesses), r.accesses)
              && ReadRice(BitsOf(r, ctx), k, start) == Read(rice, off)
  {
    hide BlobBits, Value, FirstZero, Pow2, BitAt, ReadRice;
    ghost var s := BitsOf(r, ctx);
    RiceIs(s, k, start);
    off, rice := start, 0;
    var bit: Bit;
    while true
      invariant r.Valid() && r.Cached() && FineSince(r.Hw(), old(r.accesses), r.accesses)
      invariant start <= off && rice == off - start
      invariant off <= |s| || off == start
      invariant forall i :: start <= i < off ==> s[i] == 1
      decreases |s| - off
    {
      err, bit := ReadBit(r, ctx, x, off);
      if err != 0 {
        if start <= |s| && off / 8 >= |BlobOf(r, ctx)| {
          NoZero(s, start);
        }
        return;
      }
      BitAtIsBit(BlobOf(r, ctx), off);
      if bit == 0 {
        off := off + 1;
        break;
      }
      rice := rice + 1;
      off := off + 1;
    }
    ghost var q, z := rice, off - 1;
    FirstZeroIs(s, start, z);
    UnitPow(s, q, off);
    for i := 0 to k
      invariant r.Valid() && r.Cached() && FineSince(r.Hw(), old(r.accesses), r.accesses)
      invariant off == z + 1 + i <= |s|
      invariant rice == q * Pow2(i) + Value(s, z + 1, i)
    {
      err, bit := ReadBit(r, ctx, x, off);
      if err != 0 {
        return;
      }
      BitAtIsBit(BlobOf(r, ctx), off);
      AppendBit(s, q, z + 1, i);
      rice := 2 * rice + bit;
      off := off + 1;
    }
    err := 0;
  }

  method ReadOffsetCode(r: Reader, ctx: nat, x: array<Byte>, start: nat) returns (err: int, noff: nat, off: nat)
    requires r.Valid() && r.Cached() && x.Length == 2 && x != r.buffer
    modifies r`accesses, r`block, r`off, r.buffer, x
    ensures r.Valid()
    ensures err != 0 ==>
              || FailedSince(r.Hw(), old(r.accesses), r.accesses, err)
              || (FineSince(r.Hw(), old(r.accesses), r.accesses) && err == -EINVAL
                  && ReadOffset(BitsOf(r, ctx), start).NoRead?)
    ensures err == 0 ==>
              && r.Cached() && FineSince(r.Hw(), old(r.accesses), r.accesses)
              && ReadOffset(BitsOf(r, ctx), start) == Read(noff, off)
  {
    hide BlobBits, Value, BitAt;
    ghost var s := BitsOf(r, ctx);
    off, noff := start, 0;
    while true
      invariant r.Valid() && r.Cached() && FineSince(r.Hw(), old(r.accesses), r.accesses)
      invariant ReadGroups(s, off, noff) == ReadGroups(s, start, 0)
      decreases |s| - off
    {
      GroupsPositive(s, off, noff);
      var n: nat := 0;
      ghost var group := off;
      ValueZero(s, group);
      for i := 0 to 5
        invariant r.Valid() && r.Cached() && FineSince(r.Hw(), old(r.accesses), r.accesses)
        invariant off == group + i && (i > 0 ==> off <= |s|)
        invariant off <= |s| ==> n == Value(s, group, i)
      {
        var bit: Bit;
        err, bit := ReadBit(r, ctx, x, off);
        if err != 0 {
          return;
        }
        BitAtIsBit(BlobOf(r, ctx), off);
        ValueAppend(s, group, i);
        n := 2 * n + bit;
        off := off + 1;
      }
      SmallPowers();
      noff := noff * GROUP + 1 + n % GROUP;
      if n < GROUP {
        break;
      }
    }
    err, noff := 0, noff - 1;
  }

  // The entry of the token at `off` crosses, its last bit makes a reference of it, and
  // no offset follows.
  ghost predicate Lost(g: Geometry, ctx: nat, s: seq<Bit>, k: nat, off: nat)
    requires Sized(g)
  {
    var rice := ReadRice(s, k, off);
    && rice.Read? && Crosses(g, ctx, rice.value)
    && TableAt(s, rice.value).Read? && TableAt(s, rice.value).value % 2 == 1
    && ReadOffset(s, rice.next).NoRead?
  }

  method NextToken(r: Reader, ctx: nat, x: array<Byte>, k: nat, off: nat) returns (err: int, token: Token, next: nat)
    requires r.Valid() && r.Cached() && x.Length == 2 && x != r.buffer
    modifies r`accesses, r`block, r`off, r.buffer, x
    ensures r.Valid()
    ensures err == 0 ==>
              && r.Cached() && FineSince(r.Hw(), old(r.accesses), r.accesses)
              && off < next <= |BitsOf(r, ctx)|
              && (token.Reference? ==> token.size >= 2)
              && (EntryInWindow(r.g, ctx, BitsOf(r, ctx), k, off) ==>
                    ReadToken(BitsOf(r, ctx), k, off) == Read(token, next))
              && !Lost(r.g, ctx, BitsOf(r, ctx), k, off)
    ensures err != 0 ==>
              || FailedSince(r.Hw(), old(r.accesses), r.accesses, err)
              || (FineSince(r.Hw(), old(r.accesses), r.accesses) && err == -EINVAL
                  && (EntryInWindow(r.g, ctx, BitsOf(r, ctx), k, off) ==> ReadToken(BitsOf(r, ctx), k, off).NoRead?))
  {
    hide BlobBits, BlobOf, ReadRice, ReadOffset, TableAt, InWindow;
    ghost var s := BitsOf(r, ctx);
    token, next := Literal(0), 0;
    var rice: nat, behind: nat, symbol: nat;
    err, rice, behind := ReadRiceCode(r, ctx, x, k, off);
    if err != 0 {
      return;
    }
    RiceAdvances(s, k, off);
    err, symbol := ReadSymbol(r, ctx, x, rice);
    if err != 0 {
      return;
    }
    if symbol < 0x100 {
      token, next := Literal(symbol), behind;
    } else {
      var noff: nat, after: nat;
      err, noff, after := ReadOffsetCode(r, ctx, x, behind);
      if err != 0 {
        return;
      }
      OffsetAdvances(s, behind);
      token, next := Reference(symbol % 0x100 + 2, noff), after;
    }
  }

  // __box_glz_bddecode. It never writes past the bytes asked for, and stops at the first
  // error of the device, with its code. With no table entry across windows it does what
  // the decoder of an addressable blob does, up to such an error.
  method Decode(r: Reader, ctx: nat, k: nat, start: nat, output: array<Byte>, wanted: nat)
      returns (err: int, ghost turns: nat)
    requires r.Valid() && r.Cached() && wanted <= output.Length && output != r.buffer
    modifies r`accesses, r`block, r`off, r.buffer, output
    ensures output[wanted..] == old(output[wanted..])
    ensures FineSince(r.Hw(), old(r.accesses), r.accesses) || FailedSince(r.Hw(), old(r.accesses), r.accesses, err)
    ensures FineSince(r.Hw(), old(r.accesses), r.accesses) ==> err == 0 || err == -EINVAL
    ensures RunsInWindow(r.g, ctx, BitsOf(r, ctx), k, start, wanted, 0, 0) ==>
              var l := Loop(BitsOf(r, ctx), k, start, wanted, 0, 0);
              && (exists done :: done <= l.1 && Wrote(output[..], old(output[..]), done))
              && (FineSince(r.Hw(), old(r.accesses), r.accesses) ==>
                    && err == (if l.0 then 0 else -EINVAL) && Wrote(output[..], old(output[..]), l.1)
                    && turns == Turns(BitsOf(r, ctx), k, start, wanted, 0, 0))
    ensures wanted > 0 && Lost(r.g, ctx, BitsOf(r, ctx), k, start) ==> err != 0 && output[..] == old(output[..])
  {
    hide BlobBits, BlobOf, ReadToken, EntryInWindow, RunsInWindow, Loop, Turns, Midway, Going, Lost, Wrote;
    ghost var s := BitsOf(r, ctx);
    ghost var was, whole := output[..], Loop(s, k, start, wanted, 0, 0);
    ghost var good := RunsInWindow(r.g, ctx, s, k, start, wanted, 0, 0);
    ghost var done: seq<Byte> := [];
    var off: nat, size: nat, poff: nat, psize: nat := start, wanted, 0, 0;
    var out: nat := 0;
    var x := new Byte[2];
    turns := 0;
    WriteNothing(was);
    if good {
      GoingStart(r.g, ctx, s, k, start, wanted);
    }
    while size > 0
      invariant r.Valid() && r.Cached() && FineSince(r.Hw(), old(r.accesses), r.accesses)
      invariant out + size + psize <= wanted && (size == 0 ==> psize == 0)
      invariant |done| == out && Wrote(output[..], was, done)
      invariant good ==> Going(r.g, ctx, s, k, start, wanted, done, turns, off, size, poff, psize)
      invariant wanted > 0 && Lost(r.g, ctx, s, k, start) ==> off == start && size > 0 && output[..] == was
      decreases size + psize, |s| - off
    {
      WroteBelow(output[..], was, done, wanted);
      if good {
        RunMidway(r.g, ctx, s, k, start, wanted, done, turns, off, size, poff, psize);
      }
      turns := turns + 1;
      ghost var now := output[..];
      var token: Token, next: nat;
      err, token, next := NextToken(r, ctx, x, k, off);
      assert output[..] == now;
      if err != 0 {
        return;
      }
      match token {
        case Literal(c) =>
          WriteNext(now, was, done, c);
          output[out] := c;
          assert output[..] == now[out := c];
          done := done + [c];
          off, out, size := next, out + 1, size - 1;
        case Reference(nsize, noff) =>
          if nsize >= size {
            off := next + noff;
          } else {
            poff := next;
            psize := size - nsize;
            off := next + noff;
            size := nsize;
          }
      }
      if size == 0 {
        off, size, poff, psize := poff, psize, 0, 0;
      }
    }
    WroteBelow(output[..], was, done, wanted);
    if good {
      GoingEnd(r.g, ctx, s, k, start, wanted, done, turns, off, poff);
    }
    err := 0;
  }

  // The decoder is midway in a run without entries across windows.
  ghost predicate Going(g: Geometry, ctx: nat, s: seq<Bit>, k: nat, start: nat, wanted: nat, done: seq<Byte>,
                        turns: nat, off: nat, n: nat, poff: nat, pn: nat)
    requires Sized(g)
  {
    && (n == 0 ==> pn == 0) && RunsInWindow(g, ctx, s, k, off, n, poff, pn)
    && Midway(s, k, start, wanted, done, turns, off, n, poff, pn)
  }

  lemma GoingStart(g: Geometry, ctx: nat, s: seq<Bit>, k: nat, start: nat, wanted: nat)
    requires Sized(g) && RunsInWindow(g, ctx, s, k, start, wanted, 0, 0)
    ensures Going(g, ctx, s, k, start, wanted, [], 0, start, wanted, 0, 0)
  {
    hide RunsInWindow, Midway;
    MidwayStart(s, k, start, wanted);
  }

  lemma GoingEnd(g: Geometry, ctx: nat, s: seq<Bit>, k: nat, start: nat, wanted: nat, done: seq<Byte>, turns: nat,
                 off: nat, poff: nat)
    requires Sized(g) && Going(g, ctx, s, k, start, wanted, done, turns, off, 0, poff, 0)
    ensures Loop(s, k, start, wanted, 0, 0) == (true, done) && Turns(s, k, start, wanted, 0, 0) == turns
  {
    hide RunsInWindow, Midway;
    MidwayEnd(s, k, start, wanted, done, turns, off, poff);
  }

  // One token of such a run: it is read as from the addressable blob.
  lemma RunMidway(g: Geometry, ctx: nat, s: seq<Bit>, k: nat, start: nat, wanted: nat, done: seq<Byte>, turns: nat,
                  off: nat, n: nat, poff: nat, pn: nat)
    requires Sized(g) && n > 0 && Going(g, ctx, s, k, start, wanted, done, turns, off, n, poff, pn)
    ensures EntryInWindow(g, ctx, s, k, off) && done <= Loop(s, k, start, wanted, 0, 0).1
    ensures var t := ReadToken(s, k, off);
            if t.NoRead? then
              Loop(s, k, start, wanted, 0, 0) == (false, done) && Turns(s, k, start, wanted, 0, 0) == turns + 1
            else
              match t.value
              case Literal(c) =>
                if n == 1 then Going(g, ctx, s, k, start, wanted, done + [c], turns + 1, poff, pn, 0, 0)
                else Going(g, ctx, s, k, start, wanted, done + [c], turns + 1, t.next, n - 1, poff, pn)
              case Reference(size, skip) =>
                if size >= n then Going(g, ctx, s, k, start, wanted, done, turns + 1, t.next + skip, n, poff, pn)
                else
                  && size > 0
                  && Going(g, ctx, s, k, start, wanted, done, turns + 1, t.next + skip, size, t.next, n - size)
  {
    hide ReadToken, EntryInWindow, RunsInWindow, Midway, Loop, Turns;
    RunStep(g, ctx, s, k, off, n, poff, pn);
    MidwayStep(s, k, start, wanted, done, turns, off, n, poff, pn);
  }

  lemma RiceAdvances(s: seq<Bit>, k: nat, off: nat)
    requires ReadRice(s, k, off).Read?
    ensures off < ReadRice(s, k, off).next <= |s|
  {
  }

  lemma OffsetAdvances(s: seq<Bit>, off: nat)
    requires ReadOffset(s, off).Read?
    ensures off < ReadOffset(s, off).next <= |s|
  {
    GroupsPositive(s, off, 0);
  }

  // -------------------- archives --------------------

  // No entry of the table lies across two cache windows. This depends on the size of
  // the table and where it lies, not on what is decoded.
  ghost predicate TableInWindows(g: Geometry, ctx: nat, entries: nat)
    requires Sized(g)
  {
    forall i: nat :: i < entries ==> InWindow(g, EntryAt(ctx, i), 2)
  }

  lemma {:induction false} StaysInWindows(g: Geometry, ctx: nat, entries: nat, s: seq<Bit>, k: nat,
                                          off: nat, n: nat, poff: nat, pn: nat)
    requires Sized(g) && TableInWindows(g, ctx, entries) && (n == 0 ==> pn == 0) && SlotFits(s, k, off, n, poff, pn)
    requires E.NumbersBelow(s, k, off, n, entries) && E.NumbersBelow(s, k, poff, pn, entries)
    ensures RunsInWindow(g, ctx, s, k, off, n, poff, pn)
    decreases n + pn, |s| - off
  {
    hide ReadToken, ReadRice, TableAt, InWindow;
    if n > 0 {
      NumberInWindow(g, ctx, entries, s, k, off);
      var t := ReadToken(s, k, off);
      if t.Read? {
        TokenAdvances(s, k, off);
        match t.value
        case Literal(c) =>
          if n == 1 {
            NothingWanted(s, k, 0, false);
            StaysInWindows(g, ctx, entries, s, k, poff, pn, 0, 0);
          } else {
            StaysInWindows(g, ctx, entries, s, k, t.next, n - 1, poff, pn);
          }
        case Reference(size, skip) =>
          if size >= n {
            StaysInWindows(g, ctx, entries, s, k, t.next + skip, n, poff, pn);
          } else {
            StaysInWindows(g, ctx, entries, s, k, t.next + skip, size, t.next, n - size);
          }
      }
    }
  }

  lemma NumberInWindow(g: Geometry, ctx: nat, entries: nat, s: seq<Bit>, k: nat, off: nat)
    requires Sized(g) && TableInWindows(g, ctx, entries)
    requires ReadRice(s, k, off).Read? ==> ReadRice(s, k, off).value < entries
    ensures EntryInWindow(g, ctx, s, k, off)
  {
    hide ReadRice, InWindow, TableAt;
    var rice := ReadRice(s, k, off);
    if rice.Read? {
      assert InWindow(g, EntryAt(ctx, rice.value), 2);
    }
  }

  // An archive whose table lies in the windows is decoded without ever meeting an entry
  // that does not.
  lemma ArchiveRunsInWindow(g: Geometry, ctx: nat, cfg: E.Config, slices: seq<seq<Byte>>, choices: seq<seq<E.Choice>>,
                            pad: seq<Bit>, s: seq<Bit>, i: nat)
    requires E.Archive(cfg, slices, choices, pad, s) && i < |slices|
    requires Sized(g) && TableInWindows(g, ctx, |cfg.table|)
    ensures var start := E.PlaceOf(cfg, slices, choices, i);
            && RunsInWindow(g, ctx, s, cfg.k, start, |slices[i]|, 0, 0)
            && Loop(s, cfg.k, start, |slices[i]|, 0, 0) == (true, slices[i])
  {
    hide E.LegalAll, E.EncodeAll, E.PackTable, E.PlaceOf, E.NumbersBelow, RunsInWindow, Loop, OneDeep, Expand;
    var start := E.PlaceOf(cfg, slices, choices, i);
    E.ArchiveReads(cfg, slices, choices, pad, s, i);
    E.GlzRoundTrip(cfg, slices, choices, pad, s, i);
    NothingWanted(s, cfg.k, 0, false);
    NothingBelow(s, cfg.k, |cfg.table|);
    StaysInWindows(g, ctx, |cfg.table|, s, cfg.k, start, |slices[i]|, 0, 0);
  }

  lemma NothingBelow(s: seq<Bit>, k: nat, limit: nat)
    ensures E.NumbersBelow(s, k, 0, 0, limit)
  {
  }

  // The round trip over the block device: of every archive on a device that reports no
  // error, with the table in the windows, every slice comes back, in at most two turns
  // a byte.
  method DecodeSlice(r: Reader, ctx: nat, k: nat, start: nat, output: array<Byte>, wanted: nat,
                     ghost cfg: E.Config, ghost slices: seq<seq<Byte>>, ghost choices: seq<seq<E.Choice>>,
                     ghost pad: seq<Bit>, ghost i: nat) returns (err: int, ghost turns: nat)
    requires r.Valid() && r.Cached() && r.NoFaults() && wanted <= output.Length && output != r.buffer
    requires E.Archive(cfg, slices, choices, pad, BitsOf(r, ctx)) && i < |slices|
    requires TableInWindows(r.g, ctx, |cfg.table|)
    requires k == cfg.k && start == E.PlaceOf(cfg, slices, choices, i) && wanted == |slices[i]|
    modifies r`accesses, r`block, r`off, r.buffer, output
    ensures err == 0 && output[..] == slices[i] + old(output[wanted..]) && turns <= 2 * wanted
  {
    hide E.Archive, E.PlaceOf, RunsInWindow, Loop, Turns, TableInWindows, BlobBits;
    ArchiveRunsInWindow(r.g, ctx, cfg, slices, choices, pad, BitsOf(r, ctx), i);
    E.ArchiveIsLinear(cfg, slices, choices, pad, BitsOf(r, ctx), i);
    err, turns := Decode(r, ctx, k, start, output, wanted);
  }
}
