/** How large a table may be for the decoder behind the block device cache: the exact
    bound, and an archive that is lost behind every larger one. */
module GlzTables {
  import opened Arithmetic
  import opened Basics
  import opened GlzBits
  import opened GlzMeaning
  import opened BlockDevice
  import opened GlzBlockDecoder
  import E = GlzEncoder

  // -------------------- the bound --------------------

  // Entries start at every byte of the table but the last of each nine.
  lemma ByteOfEntry(i: nat)
    ensures 9 * i / 8 == 9 * (i / 8) + i % 8 && 9 * i / 8 % 9 == i % 8
  {
    var q, t := i / 8, i % 8;
    assert 9 * i == 8 * (9 * q + t) + t;
    DivUnique(9 * i, 8, 9 * q + t, t);
    DivUnique(9 * q + t, 9, q, t);
  }

  function EntryOfByte(x: nat): nat {
    8 * (x / 9) + x % 9
  }

  lemma EntryStarts(x: nat)
    requires x % 9 != 8
    ensures 9 * EntryOfByte(x) / 8 == x
  {
    var q, t := x / 9, x % 9;
    assert 9 * (8 * q + t) == 8 * x + t;
    DivUnique(9 * EntryOfByte(x), 8, x, t);
  }

  // Entries in front of another start in front of it.
  lemma EntriesInOrder(i: nat, x: nat)
    requires x % 9 != 8
    ensures i < EntryOfByte(x) <==> 9 * i / 8 < x
  {
    ByteOfEntry(i);
  }

  // The first byte of the table that is the last of a window.
  function FirstEnd(g: Geometry, ctx: nat): nat
    requires g.bufferSize > 0
  {
    g.bufferSize - 1 - ctx % g.bufferSize
  }

  // How many entries there is room for: those in front of the first entry that starts
  // at the last byte of a window. With windows of a multiple of nine bytes there may be
  // no such entry.
  function Room(g: Geometry, ctx: nat): Option<nat>
    requires g.bufferSize > 0
  {
    var x := FirstEnd(g, ctx);
    if x % 9 != 8 then Some(EntryOfByte(x))
    else if g.bufferSize % 9 != 0 then Some(EntryOfByte(x + g.bufferSize))
    else None
  }

  lemma WindowEnds(g: Geometry, a: nat)
    requires Sized(g)
    ensures InWindow(g, a, 2) <==> a % g.bufferSize != g.bufferSize - 1
  {
    var b := g.bufferSize;
    Euclid(g.blockSize, b);
    Euclid(a, g.blockSize);
    var m, q, r := g.blockSize / b, a / g.blockSize, a % g.blockSize;
    Euclid(r, b);
    assert a == b * (m * q + r / b) + r % b by { Regroup(b, m, q, r / b); }
    NonNegative(m, q);
    DivUnique(a, b, m * q + r / b, r % b);
  }

  lemma Regroup(b: nat, m: nat, q: nat, z: nat)
    ensures (b * m) * q + b * z == b * (m * q + z)
  {
  }

  // The windows end at the first end, one window later, and nowhere in between.
  lemma EndsAt(g: Geometry, ctx: nat, x: nat)
    requires Sized(g) && x <= FirstEnd(g, ctx) + g.bufferSize
    ensures !InWindow(g, ctx + x, 2) <==> x == FirstEnd(g, ctx) || x == FirstEnd(g, ctx) + g.bufferSize
  {
    var b := g.bufferSize;
    WindowEnds(g, ctx + x);
    Euclid(ctx, b);
    var q, r := ctx / b, ctx % b;
    if r + x < b {
      DivUnique(ctx + x, b, q, r + x);
    } else if r + x < 2 * b {
      assert ctx + x == b * (q + 1) + (r + x - b);
      DivUnique(ctx + x, b, q + 1, r + x - b);
    }
  }

  // With windows of a multiple of nine bytes all their ends are alike.
  lemma EndsAlike(g: Geometry, ctx: nat, x: nat)
    requires Sized(g) && g.bufferSize % 9 == 0 && !InWindow(g, ctx + x, 2)
    ensures x % 9 == FirstEnd(g, ctx) % 9
  {
    hide InWindow;
    var b, y := g.bufferSize, FirstEnd(g, ctx);
    WindowEnds(g, ctx + x);
    Euclid(ctx, b);
    Euclid(ctx + x, b);
    var n, d := b / 9, (ctx + x) / b - ctx / b;
    Distributes(b, (ctx + x) / b, ctx / b);
    assert x == b * d + y;
    Ninefold(n, d);
    SameRemainder(x, y, n * d);
  }

  lemma SameRemainder(x: nat, y: nat, m: int)
    requires x == 9 * m + y
    ensures x % 9 == y % 9
  {
  }

  lemma Ninefold(n: nat, d: int)
    ensures (9 * n) * d == 9 * (n * d)
  {
  }

  // Every entry of a table lies in one window if and only if there is room for them.
  lemma TableFitsIff(g: Geometry, ctx: nat, entries: nat)
    requires Sized(g)
    ensures TableInWindows(g, ctx, entries) <==> Room(g, ctx).None? || entries <= Room(g, ctx).value
  {
    hide InWindow;
    var x, b, room := FirstEnd(g, ctx), g.bufferSize, Room(g, ctx);
    forall i: nat | room.None? || i < room.value
      ensures InWindow(g, EntryAt(ctx, i), 2)
    {
      EntryBefore(g, ctx, i);
    }
    if room.Some? {
      EntryCrosses(g, ctx);
    }
  }

  lemma EntryBefore(g: Geometry, ctx: nat, i: nat)
    requires Sized(g) && (Room(g, ctx).None? || i < Room(g, ctx).value)
    ensures InWindow(g, EntryAt(ctx, i), 2)
  {
    hide InWindow, EntryOfByte, FirstEnd;
    ByteOfEntry(i);
    var x, y, b := FirstEnd(g, ctx), 9 * i / 8, g.bufferSize;
    if x % 9 != 8 {
      EntriesInOrder(i, x);
      EndsAt(g, ctx, y);
    } else if b % 9 != 0 {
      BothEnds(x, b);
      EntriesInOrder(i, x + b);
      EndsAt(g, ctx, y);
    } else if !InWindow(g, ctx + y, 2) {
      EndsAlike(g, ctx, y);
    }
  }

  lemma BothEnds(x: nat, b: nat)
    requires x % 9 == 8 && b % 9 != 0
    ensures (x + b) % 9 != 8
  {
    var q, m := x / 9, b / 9;
    var t := b % 9;
    assert x + b == 9 * (q + m + 1) + (t - 1);
    DivUnique(x + b, 9, q + m + 1, t - 1);
  }

  lemma EntryCrosses(g: Geometry, ctx: nat)
    requires Sized(g) && Room(g, ctx).Some?
    ensures !InWindow(g, EntryAt(ctx, Room(g, ctx).value), 2)
  {
    hide InWindow, EntryOfByte, FirstEnd;
    var x, b := FirstEnd(g, ctx), g.bufferSize;
    if x % 9 != 8 {
      EntryStarts(x);
      EndsAt(g, ctx, x);
    } else {
      BothEnds(x, b);
      EntryStarts(x + b);
      EndsAt(g, ctx, x + b);
    }
  }

  // The default buffer of sixteen bytes has room for fourteen entries of an aligned
  // table. The next one crosses, unless the block ends there.
  lemma DefaultRoom(g: Geometry, ctx: nat)
    requires Sized(g) && g.bufferSize == 16 && ctx % 16 == 0
    ensures Room(g, ctx) == Some(14)
    ensures ctx % g.blockSize + 16 < g.blockSize ==> Crosses(g, ctx, 14)
  {
    EntryCrosses(g, ctx);
    if ctx % g.blockSize + 16 < g.blockSize {
      SameBlock(g, ctx, 15);
    }
  }

  // -------------------- beyond the bound --------------------

  // A table with 1 as entry `e`, and nothing else in the archive than that byte.
  ghost function OneByteConfig(entries: nat, e: nat): E.Config
    requires e < entries
  {
    E.Config(0, 0, map[1 := e], seq(entries, i => if i == e then 1 else 0))
  }

  // The archive with the slice of that one byte, filled up with ones.
  ghost function OneByteArchive(entries: nat, e: nat): seq<Bit>
    requires e < entries
  {
    E.PackTable(OneByteConfig(entries, e).table) + RiceCode(0, e) + Filling(entries, e)
  }

  ghost function Filling(entries: nat, e: nat): seq<Bit> {
    var n := 9 * entries + |RiceCode(0, e)|;
    Ones((8 - n % 8) % 8)
  }

  // If entry `e` crosses into another window of its block, no table that has it is good
  // enough: there is an archive whose only slice the decoder cannot find.
  lemma CrossingArchive(g: Geometry, ctx: nat, entries: nat, e: nat)
    requires Sized(g) && e < entries && Crosses(g, ctx, e)
    ensures var cfg, choices := OneByteConfig(entries, e), [[E.Immediate]];
            && |cfg.table| == entries
            && E.Archive(cfg, [[1]], choices, Filling(entries, e), OneByteArchive(entries, e))
            && Lost(g, ctx, OneByteArchive(entries, e), cfg.k, E.PlaceOf(cfg, [[1]], choices, 0))
  {
    hide E.PackTable, Crosses, RiceCode, E.LegalAll, E.EncodeAll, E.PlaceOf, ReadRice, ReadOffset, TableAt;
    var cfg, s, pad := OneByteConfig(entries, e), OneByteArchive(entries, e), Filling(entries, e);
    EncodesOne(cfg, e);
    assert |s| % 8 == 0;
    LostInOnes(cfg, s, RiceCode(0, e), pad, e);
  }

  // The decoder behind the cache, asked for that slice by its place and size, reports an
  // error and writes nothing, though the device does not fail and the decoder of an
  // addressable blob writes the byte.
  method LoseSlice(r: Reader, ctx: nat, output: array<Byte>, entries: nat, e: nat) returns (err: int)
    requires r.Valid() && r.Cached() && r.NoFaults() && output.Length > 0 && output != r.buffer
    requires e < entries && Crosses(r.g, ctx, e) && BitsOf(r, ctx) == OneByteArchive(entries, e)
    modifies r`accesses, r`block, r`off, r.buffer, output
    ensures err == -EINVAL && output[..] == old(output[..])
    ensures Loop(BitsOf(r, ctx), 0, 9 * entries, 1, 0, 0) == (true, [1])
  {
    hide Crosses, BitsOf, Lost, Loop, RunsInWindow, E.PackTable, RiceCode, E.Archive, E.PlaceOf;
    ghost var cfg := OneByteConfig(entries, e);
    CrossingArchive(r.g, ctx, entries, e);
    EncodesOne(cfg, e);
    E.GlzRoundTrip(cfg, [[1]], [[E.Immediate]], Filling(entries, e), BitsOf(r, ctx), 0);
    ghost var turns: nat;
    err, turns := Decode(r, ctx, 0, 9 * entries, output, 1);
  }

  lemma EncodesOne(cfg: E.Config, e: nat)
    requires cfg.rank == map[1 := e] && cfg.k == 0
    ensures E.LegalAll(cfg, [[1]], [], map[], [[E.Immediate]])
    ensures E.EncodeAll(cfg, [[1]], [], map[], [[E.Immediate]]).0 == RiceCode(0, e)
    ensures E.PlaceOf(cfg, [[1]], [[E.Immediate]], 0) == 9 * |cfg.table|
  {
    hide RiceCode, Pow2;
    var slice: seq<Byte>, choices: seq<E.Choice> := [1], [E.Immediate];
    var c := E.Start(slice, [], map[]);
    assert RiceCode(0, e) + [] == RiceCode(0, e);
    assert choices[1..] == [];
    var c' := E.Emit(cfg, slice, c, E.Immediate);
    assert E.Legal(cfg, slice, c', []);
    assert E.Legal(cfg, slice, c, choices);
    assert E.Encode(cfg, slice, c, choices) == c';
    assert [slice][1..] == [] && [choices][1..] == [];
    assert E.LegalAll(cfg, [], c'.bits, c'.history, []);
    assert E.EncodeAll(cfg, [], c'.bits, c'.history, []) == (c'.bits, []);
  }

  lemma LostInOnes(cfg: E.Config, s: seq<Bit>, code: seq<Bit>, pad: seq<Bit>, e: nat)
    requires e < |cfg.table| && cfg.table[e] == 1 && code == RiceCode(0, e) && |s| % 8 == 0
    requires s == E.PackTable(cfg.table) + code + pad && |pad| < 8 && forall i :: 0 <= i < |pad| ==> pad[i] == 1
    ensures ReadRice(s, 0, 9 * |cfg.table|) == Read(e, |s| - |pad|)
    ensures TableAt(s, e) == Read(1, 9 * e + 9)
    ensures ReadOffset(s, |s| - |pad|).NoRead?
  {
    hide E.PackTable, RiceCode, TableAt, ReadRice;
    var at := 9 * |cfg.table|;
    assert s[at..at + |code|] == code;
    ReadRiceOfCode(s, 0, at, e);
    assert E.PackTable(cfg.table) <= s;
    E.PackedEntry(s, cfg.table, e);
    NoOffset(s, |s| - |pad|);
  }

  // Too few ones for a last group of five bits.
  lemma NoOffset(s: seq<Bit>, off: nat)
    requires |s| - 8 < off <= |s| && forall i :: off <= i < |s| ==> s[i] == 1
    ensures ReadOffset(s, off).NoRead?
  {
    if off + 5 <= |s| {
      var n := Value(s, off, 5);
      assert n == 31 by { FiveOnes(s, off); }
      assert ReadGroups(s, off + 5, 1 + n % GROUP).NoRead?;
    }
  }

  lemma FiveOnes(s: seq<Bit>, off: nat)
    requires off + 5 <= |s| && forall i :: off <= i < |s| ==> s[i] == 1
    ensures Value(s, off, 5) == 31
  {
    assert Value(s, off, 1) == 1 && Value(s, off, 3) == 7;
  }
}
