/** Reading a blob through the one-window read cache of the block device loader,
    and the decoder that reads every bit through it. */
module BlockDevice {
  import opened Arithmetic
  import opened GlzBits

  const NO_BLOCK := 0xffff_ffff

  // A device gives the byte at an offset in a block.
  type Device = (nat, nat) -> Byte

  datatype Geometry = Geometry(blockSize: nat, bufferSize: nat, regionSize: nat)

  // What the loader's configuration checks, and a region a 32-bit address can name.
  predicate Sized(g: Geometry) {
    0 < g.bufferSize <= g.blockSize && g.blockSize % g.bufferSize == 0 && g.regionSize < NO_BLOCK
  }

  ghost function ByteOf(g: Geometry, dev: Device, addr: nat): Byte
    requires g.blockSize > 0
  {
    dev(addr / g.blockSize, addr % g.blockSize)
  }

  ghost function Direct(g: Geometry, dev: Device, addr: nat, size: nat): (d: seq<Byte>)
    requires g.blockSize > 0
    ensures |d| == size
  {
    seq<Byte>(size, i requires 0 <= i < size => ByteOf(g, dev, addr + i))
  }

  // How much of the window around `off` is left from `off` on, at most `size`.
  function Chunk(g: Geometry, off: nat, size: nat): (n: nat)
    requires g.bufferSize > 0
    ensures n <= size && (size > 0 ==> n > 0) && n <= g.bufferSize - off % g.bufferSize
  {
    if g.bufferSize - off % g.bufferSize < size then g.bufferSize - off % g.bufferSize else size
  }

  ghost function Window(dev: Device, block: nat, off: nat, n: nat): (d: seq<Byte>)
    ensures |d| == n
  {
    seq(n, i requires 0 <= i < n => dev(block, off + i))
  }

  // What the copy loop leaves in the caller's buffer `d`. Every window's part is
  // copied to the start of the buffer, not behind the part before it.
  ghost function Copied(g: Geometry, dev: Device, block: nat, off: nat, size: nat, d: seq<Byte>): (d': seq<Byte>)
    requires g.bufferSize > 0 && size <= |d|
    ensures |d'| == |d|
    decreases size
  {
    if size == 0 then d
    else
      var n := Chunk(g, off, size);
      Copied(g, dev, block, off + n, size - n, Window(dev, block, off, n) + d[n..])
  }

  // The read does not run over the end of a cache window.
  predicate InWindow(g: Geometry, addr: nat, size: nat)
    requires g.bufferSize > 0 && g.blockSize > 0
  {
    size == 0 || addr % g.blockSize % g.bufferSize + size <= g.bufferSize
  }

  ghost function BufferAfter(g: Geometry, dev: Device, addr: nat, size: nat, d: seq<Byte>): (d': seq<Byte>)
    requires Sized(g) && size <= |d|
    ensures |d'| == |d|
  {
    Copied(g, dev, addr / g.blockSize, addr % g.blockSize, size, d)
  }

  // A window never runs over the end of its block.
  lemma WindowInBlock(g: Geometry, off: nat)
    requires Sized(g) && off < g.blockSize
    ensures off - off % g.bufferSize + g.bufferSize <= g.blockSize
  {
    var b := g.bufferSize;
    Euclid(off, b);
    Euclid(g.blockSize, b);
    var q, m := off / b, g.blockSize / b;
    Distributes(b, m, q);
    if m <= q {
      NonNegative(b, q - m);
      Distributes(b, q, m);
    } else {
      MulAtLeast(b, m - q);
    }
  }

  lemma SameBlock(g: Geometry, addr: nat, i: nat)
    requires g.blockSize > 0 && addr % g.blockSize + i < g.blockSize
    ensures (addr + i) / g.blockSize == addr / g.blockSize
    ensures (addr + i) % g.blockSize == addr % g.blockSize + i
  {
    Euclid(addr, g.blockSize);
    DivUnique(addr + i, g.blockSize, addr / g.blockSize, addr % g.blockSize + i);
  }

  // Inside one window the caller gets the device's bytes.
  lemma InWindowReads(g: Geometry, dev: Device, addr: nat, size: nat, d: seq<Byte>)
    requires Sized(g) && size <= |d| && InWindow(g, addr, size)
    ensures BufferAfter(g, dev, addr, size, d) == Direct(g, dev, addr, size) + d[size..]
  {
    if size > 0 {
      var block, off := addr / g.blockSize, addr % g.blockSize;
      WindowIsDirect(g, dev, addr, size);
      OneChunk(g, dev, block, off, size, d);
    } else {
      assert Direct(g, dev, addr, 0) + d[0..] == d;
    }
  }

  lemma OneChunk(g: Geometry, dev: Device, block: nat, off: nat, size: nat, d: seq<Byte>)
    requires g.bufferSize > 0 && 0 < size <= |d| && off % g.bufferSize + size <= g.bufferSize
    ensures Copied(g, dev, block, off, size, d) == Window(dev, block, off, size) + d[size..]
  {
    assert Chunk(g, off, size) == size;
  }

  lemma WindowIsDirect(g: Geometry, dev: Device, addr: nat, size: nat)
    requires Sized(g) && size > 0 && InWindow(g, addr, size)
    ensures Window(dev, addr / g.blockSize, addr % g.blockSize, size) == Direct(g, dev, addr, size)
  {
    Euclid(addr, g.blockSize);
    WindowInBlock(g, addr % g.blockSize);
    forall i | 0 <= i < size
      ensures Window(dev, addr / g.blockSize, addr % g.blockSize, size)[i] == Direct(g, dev, addr, size)[i]
    {
      SameBlock(g, addr, i);
      assert Direct(g, dev, addr, size)[i] == ByteOf(g, dev, addr + i);
      assert Window(dev, addr / g.blockSize, addr % g.blockSize, size)[i] ==
             dev(addr / g.blockSize, addr % g.blockSize + i);
    }
  }

  // Where the last part that was copied to the start of the buffer came from.
  ghost function LastPart(g: Geometry, off: nat, size: nat): nat
    requires g.bufferSize > 0 && size > 0
    decreases size
  {
    var n := Chunk(g, off, size);
    if n == size then off else LastPart(g, off + n, size - n)
  }

  lemma {:induction false} CopiedFirst(g: Geometry, dev: Device, block: nat, off: nat, size: nat, d: seq<Byte>)
    requires g.bufferSize > 0 && 0 < size <= |d|
    ensures Copied(g, dev, block, off, size, d)[0] == dev(block, LastPart(g, off, size))
    ensures LastPart(g, off, size) >= off
    ensures LastPart(g, off, size) == off <==> off % g.bufferSize + size <= g.bufferSize
    decreases size
  {
    var n := Chunk(g, off, size);
    if n < size {
      CopiedFirst(g, dev, block, off + n, size - n, Window(dev, block, off, n) + d[n..]);
    }
  }

  // A read returns the bytes of every device exactly when it stays in one window;
  // across windows some device is read wrongly.
  lemma ReadsRightIff(g: Geometry, addr: nat, size: nat, d: seq<Byte>)
    requires Sized(g) && size <= |d|
    ensures InWindow(g, addr, size) <==>
            forall dev: Device :: BufferAfter(g, dev, addr, size, d)[..size] == Direct(g, dev, addr, size)
  {
    if InWindow(g, addr, size) {
      forall dev: Device
        ensures BufferAfter(g, dev, addr, size, d)[..size] == Direct(g, dev, addr, size)
      {
        InWindowReads(g, dev, addr, size, d);
      }
    } else {
      var dev: Device := (b: nat, o: nat) => if o == addr % g.blockSize then 1 else 0;
      CrossingReadsWrong(g, dev, addr, size, d);
      assert BufferAfter(g, dev, addr, size, d)[..size][0] != Direct(g, dev, addr, size)[0];
    }
  }

  lemma CrossingReadsWrong(g: Geometry, dev: Device, addr: nat, size: nat, d: seq<Byte>)
    requires Sized(g) && size <= |d| && !InWindow(g, addr, size)
    requires forall b: nat, o: nat :: dev(b, o) == if o == addr % g.blockSize then 1 else 0
    ensures BufferAfter(g, dev, addr, size, d)[0] == 0 && Direct(g, dev, addr, size)[0] == 1
  {
    hide Copied, LastPart;
    CopiedFirst(g, dev, addr / g.blockSize, addr % g.blockSize, size, d);
    assert addr + 0 == addr;
  }

  // One byte is always in one window.
  lemma OneByte(g: Geometry, addr: nat)
    requires Sized(g)
    ensures InWindow(g, addr, 1)
  {
    Euclid(addr % g.blockSize, g.bufferSize);
  }

  // -------------------- the cache --------------------

  // A device with its return code at each access, and what it leaves in the buffer
  // when that is an error.
  datatype Hardware = Hardware(g: Geometry, device: Device, fault: nat -> int, junk: (nat, nat) -> Byte)

  datatype Cache = Cache(accesses: nat, block: nat, off: nat, bytes: seq<Byte>)

  datatype Answer = Answer(err: int, cache: Cache, dst: seq<Byte>)

  ghost predicate CacheWf(g: Geometry, c: Cache) {
    Sized(g) && |c.bytes| == g.bufferSize && (c.block != NO_BLOCK ==> c.off % g.bufferSize == 0)
  }

  // The window holds the device's bytes at its place.
  ghost predicate Right(h: Hardware, c: Cache) {
    c.block != NO_BLOCK ==> c.bytes == Window(h.device, c.block, c.off, h.g.bufferSize)
  }

  ghost function Junk(h: Hardware, t: nat): (d: seq<Byte>)
    ensures |d| == h.g.bufferSize
  {
    seq(h.g.bufferSize, i requires 0 <= i < h.g.bufferSize => h.junk(t, i))
  }

  // The test for a hit.
  predicate InCache(g: Geometry, block: nat, off: nat, nblock: nat, noff: nat) {
    nblock == block && off <= noff < off + g.bufferSize
  }

  // The window at `off` of the block has all of the read.
  ghost predicate Covers(g: Geometry, block: nat, off: nat, addr: nat, size: nat)
    requires g.blockSize > 0
  {
    && size > 0 && addr / g.blockSize == block
    && off <= addr % g.blockSize && addr % g.blockSize + size <= off + g.bufferSize
  }

  // A miss: the window around `noff` is loaded, or the old one keeps its name.
  ghost function Refilled(h: Hardware, c: Cache, nblock: nat, noff: nat): (r: Cache)
    requires CacheWf(h.g, c)
    ensures CacheWf(h.g, r) && r.accesses == c.accesses + 1
    ensures h.fault(c.accesses) == 0 ==> Right(h, r) && InCache(h.g, r.block, r.off, nblock, noff)
  {
    AlignDown(noff, h.g.bufferSize);
    if h.fault(c.accesses) == 0 then
      var start := noff - noff % h.g.bufferSize;
      Cache(c.accesses + 1, nblock, start, Window(h.device, nblock, start, h.g.bufferSize))
    else c.(accesses := c.accesses + 1, bytes := Junk(h, c.accesses))
  }

  // How much of the rest of the read the window has.
  function Part(g: Geometry, off: nat, noff: nat, left: nat): (n: nat)
    requires off <= noff < off + g.bufferSize
    ensures n <= left && (left > 0 ==> n > 0) && noff - off + n <= g.bufferSize
  {
    if g.bufferSize - (noff - off) < left then g.bufferSize - (noff - off) else left
  }

  // The loop of the cached read.
  ghost function ReadFrom(h: Hardware, c: Cache, nblock: nat, noff: nat, left: nat, d: seq<Byte>): (r: Answer)
    requires CacheWf(h.g, c) && nblock != NO_BLOCK && left <= |d|
    ensures CacheWf(h.g, r.cache) && |r.dst| == |d|
    decreases left, !InCache(h.g, c.block, c.off, nblock, noff)
  {
    if left == 0 then Answer(0, c, d)
    else if InCache(h.g, c.block, c.off, nblock, noff) then
      var n, i := Part(h.g, c.off, noff, left), noff - c.off;
      ReadFrom(h, c, nblock, noff + n, left - n, c.bytes[i..i + n] + d[n..])
    else if h.fault(c.accesses) != 0 then Answer(h.fault(c.accesses), Refilled(h, c, nblock, noff), d)
    else ReadFrom(h, Refilled(h, c, nblock, noff), nblock, noff, left, d)
  }

  // One turn of that loop.
  lemma ReadTurn(h: Hardware, c: Cache, nblock: nat, noff: nat, left: nat, d: seq<Byte>)
    requires CacheWf(h.g, c) && nblock != NO_BLOCK && left <= |d|
    ensures left == 0 ==> ReadFrom(h, c, nblock, noff, left, d) == Answer(0, c, d)
    ensures left > 0 && InCache(h.g, c.block, c.off, nblock, noff) ==>
              var n, i := Part(h.g, c.off, noff, left), noff - c.off;
              ReadFrom(h, c, nblock, noff, left, d) ==
              ReadFrom(h, c, nblock, noff + n, left - n, c.bytes[i..i + n] + d[n..])
    ensures left > 0 && !InCache(h.g, c.block, c.off, nblock, noff) ==>
              ReadFrom(h, c, nblock, noff, left, d) ==
              if h.fault(c.accesses) != 0 then Answer(h.fault(c.accesses), Refilled(h, c, nblock, noff), d)
              else ReadFrom(h, Refilled(h, c, nblock, noff), nblock, noff, left, d)
  {
    hide Refilled;
  }

  ghost function ReadCached(h: Hardware, c: Cache, at: nat, size: nat, d: seq<Byte>): (r: Answer)
    requires CacheWf(h.g, c) && size <= |d|
    ensures CacheWf(h.g, r.cache) && |r.dst| == |d|
  {
    if at + size > h.g.regionSize then Answer(-EINVAL, c, d)
    else
      QuotientSmall(at, h.g.blockSize);
      Euclid(at, h.g.blockSize);
      ReadFrom(h, c, at / h.g.blockSize, at % h.g.blockSize, size, d)
  }

  // From a right window the bytes are those of the copy loop on the device.
  lemma {:induction false} RightReads(h: Hardware, c: Cache, nblock: nat, noff: nat, left: nat, d: seq<Byte>)
    requires CacheWf(h.g, c) && nblock != NO_BLOCK && left <= |d| && Right(h, c)
    ensures var r := ReadFrom(h, c, nblock, noff, left, d);
            r.err == 0 ==> Right(h, r.cache) && r.dst == Copied(h.g, h.device, nblock, noff, left, d)
    decreases left, !InCache(h.g, c.block, c.off, nblock, noff)
  {
    hide Copied, Refilled;
    if left == 0 {
      CopiedNothing(h.g, h.device, nblock, noff, d);
    } else if InCache(h.g, c.block, c.off, nblock, noff) {
      var n, i := Part(h.g, c.off, noff, left), noff - c.off;
      Offset(c.off, h.g.bufferSize, noff);
      CopiedStep(h.g, h.device, nblock, noff, left, d);
      assert c.bytes[i..i + n] == Window(h.device, nblock, noff, n);
      RightReads(h, c, nblock, noff + n, left - n, c.bytes[i..i + n] + d[n..]);
    } else if h.fault(c.accesses) == 0 {
      RightReads(h, Refilled(h, c, nblock, noff), nblock, noff, left, d);
    }
  }

  // The accesses since there were `t` of them have gone well, or the last one failed
  // with this code.
  ghost predicate FineSince(h: Hardware, t: nat, now: nat) {
    now >= t && (now > t ==> h.fault(now - 1) == 0)
  }

  ghost predicate FailedSince(h: Hardware, t: nat, now: nat, err: int) {
    now > t && err != 0 && h.fault(now - 1) == err
  }

  // Which accesses a read makes, and what they leave of the window. A read that comes
  // back with 0 and has accessed the device leaves a right window, whatever was there.
  lemma {:induction false} ReadAccesses(h: Hardware, c: Cache, nblock: nat, noff: nat, left: nat, d: seq<Byte>)
    requires CacheWf(h.g, c) && nblock != NO_BLOCK && left <= |d|
    ensures var r := ReadFrom(h, c, nblock, noff, left, d);
            && (r.err == 0 ==>
                  && FineSince(h, c.accesses, r.cache.accesses)
                  && (r.cache == c || (r.cache.accesses > c.accesses && Right(h, r.cache))))
            && (r.err != 0 ==>
                  && FailedSince(h, c.accesses, r.cache.accesses, r.err)
                  && r.cache.bytes == Junk(h, r.cache.accesses - 1))
    decreases left, !InCache(h.g, c.block, c.off, nblock, noff)
  {
    hide Junk, Window;
    if left > 0 {
      if InCache(h.g, c.block, c.off, nblock, noff) {
        var n, i := Part(h.g, c.off, noff, left), noff - c.off;
        ReadAccesses(h, c, nblock, noff + n, left - n, c.bytes[i..i + n] + d[n..]);
      } else if h.fault(c.accesses) == 0 {
        ReadAccesses(h, Refilled(h, c, nblock, noff), nblock, noff, left, d);
      }
    }
  }

  // What ReadCached does, for those who have no use for its body.
  lemma CachedReadFacts(h: Hardware, c: Cache, at: nat, size: nat, d: seq<Byte>)
    requires CacheWf(h.g, c) && size <= |d|
    ensures var r := ReadCached(h, c, at, size, d);
            && (at + size > h.g.regionSize ==> r == Answer(-EINVAL, c, d))
            && (r.err == 0 ==>
                  && at + size <= h.g.regionSize
                  && FineSince(h, c.accesses, r.cache.accesses)
                  && (r.cache == c || (r.cache.accesses > c.accesses && Right(h, r.cache)))
                  && (Right(h, c) ==> Right(h, r.cache) && r.dst == BufferAfter(h.g, h.device, at, size, d)))
            && (r.err != 0 && at + size <= h.g.regionSize ==>
                  && FailedSince(h, c.accesses, r.cache.accesses, r.err)
                  && r.cache.bytes == Junk(h, r.cache.accesses - 1))
  {
    hide ReadFrom, Junk, Copied, Right;
    if at + size <= h.g.regionSize {
      QuotientSmall(at, h.g.blockSize);
      Euclid(at, h.g.blockSize);
      ReadAccesses(h, c, at / h.g.blockSize, at % h.g.blockSize, size, d);
      if Right(h, c) {
        RightReads(h, c, at / h.g.blockSize, at % h.g.blockSize, size, d);
      }
    }
  }

  // -------------------- when the window is right --------------------

  // Reads one after the other, each into a buffer of its own size.
  datatype Request = Request(at: nat, dst: seq<Byte>)

  ghost function AfterReads(h: Hardware, c: Cache, rs: seq<Request>): (r: Cache)
    requires CacheWf(h.g, c)
    ensures CacheWf(h.g, r)
    decreases |rs|
  {
    if rs == [] then c
    else AfterReads(h, ReadCached(h, c, rs[0].at, |rs[0].dst|, rs[0].dst).cache, rs[1..])
  }

  // What the device leaves behind has no influence on where the window is.
  ghost predicate SamePlace(c: Cache, c': Cache) {
    c.accesses == c'.accesses && c.block == c'.block && c.off == c'.off
  }

  lemma {:induction false} ReadSamePlace(h: Hardware, h': Hardware, c: Cache, c': Cache, nblock: nat, noff: nat,
                                         left: nat, d: seq<Byte>, d': seq<Byte>)
    requires h' == h.(junk := h'.junk) && CacheWf(h.g, c) && CacheWf(h.g, c') && SamePlace(c, c')
    requires nblock != NO_BLOCK && left <= |d| && left <= |d'|
    ensures SamePlace(ReadFrom(h, c, nblock, noff, left, d).cache, ReadFrom(h', c', nblock, noff, left, d').cache)
    decreases left, !InCache(h.g, c.block, c.off, nblock, noff)
  {
    hide Junk, Window;
    if left > 0 {
      if InCache(h.g, c.block, c.off, nblock, noff) {
        var n, i := Part(h.g, c.off, noff, left), noff - c.off;
        ReadSamePlace(h, h', c, c', nblock, noff + n, left - n,
                      c.bytes[i..i + n] + d[n..], c'.bytes[i..i + n] + d'[n..]);
      } else if h.fault(c.accesses) == 0 {
        ReadSamePlace(h, h', Refilled(h, c, nblock, noff), Refilled(h', c', nblock, noff), nblock, noff, left, d, d');
      }
    }
  }

  lemma {:induction false} ReadsSamePlace(h: Hardware, h': Hardware, c: Cache, c': Cache, rs: seq<Request>)
    requires h' == h.(junk := h'.junk) && CacheWf(h.g, c) && CacheWf(h.g, c') && SamePlace(c, c')
    ensures SamePlace(AfterReads(h, c, rs), AfterReads(h', c', rs))
    decreases |rs|
  {
    hide ReadFrom, CacheWf;
    if rs != [] {
      var at, d := rs[0].at, rs[0].dst;
      OneReadSamePlace(h, h', c, c', at, d);
      ReadsSamePlace(h, h', ReadCached(h, c, at, |d|, d).cache, ReadCached(h', c', at, |d|, d).cache, rs[1..]);
    }
  }

  lemma OneReadSamePlace(h: Hardware, h': Hardware, c: Cache, c': Cache, at: nat, d: seq<Byte>)
    requires h' == h.(junk := h'.junk) && CacheWf(h.g, c) && CacheWf(h.g, c') && SamePlace(c, c')
    ensures SamePlace(ReadCached(h, c, at, |d|, d).cache, ReadCached(h', c', at, |d|, d).cache)
  {
    hide ReadFrom;
    if at + |d| <= h.g.regionSize {
      QuotientSmall(at, h.g.blockSize);
      Euclid(at, h.g.blockSize);
      ReadSamePlace(h, h', c, c', at / h.g.blockSize, at % h.g.blockSize, |d|, d, d);
    }
  }

  ghost predicate LastAccessFine(h: Hardware, c: Cache) {
    c.accesses > 0 && h.fault(c.accesses - 1) == 0
  }

  // A window with a name has been accessed: it is right, or holds what a failure left.
  ghost predicate Settled(h: Hardware, c: Cache) {
    c.block != NO_BLOCK ==>
      && c.accesses > 0
      && if LastAccessFine(h, c) then Right(h, c) else c.bytes == Junk(h, c.accesses - 1)
  }

  lemma {:induction false} ReadsSettle(h: Hardware, c: Cache, rs: seq<Request>)
    requires CacheWf(h.g, c) && Settled(h, c)
    ensures Settled(h, AfterReads(h, c, rs))
    decreases |rs|
  {
    hide ReadCached, Right, Junk;
    if rs != [] {
      CachedReadFacts(h, c, rs[0].at, |rs[0].dst|, rs[0].dst);
      ReadsSettle(h, ReadCached(h, c, rs[0].at, |rs[0].dst|, rs[0].dst).cache, rs[1..]);
    }
  }

  // After any reads from an empty cache: the window is right, whatever a failing device
  // leaves in the buffer, if and only if nothing is cached or the last access to the
  // device went well.
  lemma WindowRightIff(h: Hardware, c: Cache, rs: seq<Request>)
    requires CacheWf(h.g, c) && c.block == NO_BLOCK
    ensures (forall junk: (nat, nat) -> Byte ::
               Right(h.(junk := junk), AfterReads(h.(junk := junk), c, rs)))
            <==> var r := AfterReads(h, c, rs); r.block == NO_BLOCK || LastAccessFine(h, r)
  {
    hide AfterReads, CacheWf;
    var r := AfterReads(h, c, rs);
    forall junk: (nat, nat) -> Byte | r.block == NO_BLOCK || LastAccessFine(h, r)
      ensures Right(h.(junk := junk), AfterReads(h.(junk := junk), c, rs))
    {
      ReadsSamePlace(h, h.(junk := junk), c, c, rs);
      ReadsSettle(h.(junk := junk), c, rs);
    }
    if r.block != NO_BLOCK && !LastAccessFine(h, r) {
      var junk: (nat, nat) -> Byte := (t: nat, i: nat) => if h.device(r.block, r.off) == 0 then 1 else 0;
      var h' := h.(junk := junk);
      var r' := AfterReads(h', c, rs);
      ReadsSamePlace(h, h', c, c, rs);
      ReadsSettle(h', c, rs);
      assert r'.bytes == Junk(h', r'.accesses - 1);
      BufferNotEmpty(h.g, c);
      assert r'.bytes[0] != Window(h.device, r.block, r.off, h.g.bufferSize)[0];
      assert !Right(h', r');
    }
  }

  lemma BufferNotEmpty(g: Geometry, c: Cache)
    requires CacheWf(g, c)
    ensures g.bufferSize > 0
  {
  }

  // -------------------- reads of one window --------------------

  lemma CoversIff(g: Geometry, block: nat, off: nat, addr: nat, size: nat)
    requires Sized(g) && addr < NO_BLOCK && size > 0 && (block != NO_BLOCK ==> off % g.bufferSize == 0)
    ensures Covers(g, block, off, addr, size) <==>
            InWindow(g, addr, size) && InCache(g, block, off, addr / g.blockSize, addr % g.blockSize)
  {
    QuotientSmall(addr, g.blockSize);
    var first := addr % g.blockSize;
    if addr / g.blockSize == block && off <= first < off + g.bufferSize {
      Offset(off, g.bufferSize, first);
    }
  }

  // A hit returns what the window holds, whatever that is.
  lemma HitReads(h: Hardware, c: Cache, at: nat, size: nat, d: seq<Byte>)
    requires CacheWf(h.g, c) && size <= |d| && at + size <= h.g.regionSize && Covers(h.g, c.block, c.off, at, size)
    ensures 0 <= at % h.g.blockSize - c.off <= at % h.g.blockSize - c.off + size <= |c.bytes|
    ensures var i := at % h.g.blockSize - c.off;
            ReadCached(h, c, at, size, d) == Answer(0, c, c.bytes[i..i + size] + d[size..])
  {
    QuotientSmall(at, h.g.blockSize);
    OneWindow(h, c, at / h.g.blockSize, at % h.g.blockSize, size, d);
  }

  lemma OneWindow(h: Hardware, c: Cache, nblock: nat, noff: nat, left: nat, d: seq<Byte>)
    requires CacheWf(h.g, c) && nblock != NO_BLOCK && 0 < left <= |d|
    requires InCache(h.g, c.block, c.off, nblock, noff) && noff + left <= c.off + h.g.bufferSize
    ensures var i := noff - c.off;
            ReadFrom(h, c, nblock, noff, left, d) == Answer(0, c, c.bytes[i..i + left] + d[left..])
  {
  }

  // A miss within one window is one access.
  lemma MissReads(h: Hardware, c: Cache, at: nat, size: nat, d: seq<Byte>)
    requires CacheWf(h.g, c) && 0 < size <= |d| && at + size <= h.g.regionSize
    requires InWindow(h.g, at, size) && !Covers(h.g, c.block, c.off, at, size)
    ensures var r := ReadCached(h, c, at, size, d);
            && r.err == h.fault(c.accesses) && r.cache.accesses == c.accesses + 1
            && if r.err == 0 then Covers(h.g, r.cache.block, r.cache.off, at, size)
               else r.cache.block == c.block && r.cache.off == c.off
  {
    hide Junk, Window, InWindow, Covers;
    QuotientSmall(at, h.g.blockSize);
    Euclid(at, h.g.blockSize);
    var nblock, noff := at / h.g.blockSize, at % h.g.blockSize;
    CoversIff(h.g, c.block, c.off, at, size);
    if h.fault(c.accesses) == 0 {
      var c' := Refilled(h, c, nblock, noff);
      CoversIff(h.g, c'.block, c'.off, at, size);
      HitReads(h, c', at, size, d);
      assert ReadFrom(h, c, nblock, noff, size, d) == ReadFrom(h, c', nblock, noff, size, d);
    }
  }

  // A failed read of one byte, then one of a byte in the window: it succeeds with what
  // the failed one has left.
  lemma StaleReads(h: Hardware, c: Cache, cached: nat, other: nat, d: seq<Byte>)
    requires CacheWf(h.g, c) && |d| == 1 && cached < h.g.regionSize && other < h.g.regionSize
    requires Covers(h.g, c.block, c.off, cached, 1) && !Covers(h.g, c.block, c.off, other, 1)
    requires h.fault(c.accesses) != 0
    ensures var first, i := ReadCached(h, c, other, 1, d), cached % h.g.blockSize - c.off;
            && first.err == h.fault(c.accesses) && 0 <= i < h.g.bufferSize
            && ReadCached(h, first.cache, cached, 1, first.dst) == Answer(0, first.cache, [h.junk(c.accesses, i)])
            && first.cache.off == c.off
  {
    hide ReadCached, InWindow;
    OneByte(h.g, other);
    MissReads(h, c, other, 1, d);
    CachedReadFacts(h, c, other, 1, d);
    var first := ReadCached(h, c, other, 1, d);
    HitReads(h, first.cache, cached, 1, first.dst);
    var i := cached % h.g.blockSize - c.off;
    assert Junk(h, c.accesses)[i..i + 1] + first.dst[1..] == [h.junk(c.accesses, i)];
  }

  class Reader {
    const g: Geometry
    const device: Device
    const fault: nat -> int
    const junk: (nat, nat) -> Byte

    var accesses: nat
    var block: nat
    var off: nat
    const buffer: array<Byte>

    // A load starts with an empty cache.
    constructor (g: Geometry, device: Device, fault: nat -> int, junk: (nat, nat) -> Byte)
      requires Sized(g)
      ensures Valid() && Cached() && fresh(buffer)
      ensures this.g == g && this.device == device && this.fault == fault && this.junk == junk
      ensures block == NO_BLOCK && accesses == 0
    {
      this.g, this.device, this.fault, this.junk := g, device, fault, junk;
      accesses, block, off := 0, NO_BLOCK, 0;
      buffer := new Byte[g.bufferSize];
    }

    ghost function Hw(): Hardware {
      Hardware(g, device, fault, junk)
    }

    ghost function View(): Cache
      reads this, buffer
    {
      Cache(accesses, block, off, buffer[..])
    }

    ghost predicate Valid()
      reads this
    {
      Sized(g) && buffer.Length == g.bufferSize && (block != NO_BLOCK ==> off % g.bufferSize == 0)
    }

    ghost predicate Cached()
      reads this, buffer
    {
      Right(Hw(), View())
    }

    ghost predicate NoFaults() {
      forall t :: fault(t) == 0
    }

    // The user's block device read of one whole window.
    method Access(nblock: nat, noff: nat) returns (err: int)
      requires Valid()
      modifies this`accesses, buffer
      ensures err == fault(old(accesses)) && accesses == old(accesses) + 1
      ensures buffer[..] == if err == 0 then Window(device, nblock, noff, g.bufferSize) else Junk(Hw(), old(accesses))
    {
      err := fault(accesses);
      if err == 0 {
        forall i | 0 <= i < buffer.Length {
          buffer[i] := device(nblock, noff + i);
        }
      } else {
        forall i | 0 <= i < buffer.Length {
          buffer[i] := junk(accesses, i);
        }
      }
      accesses := accesses + 1;
    }

    // The copy out of the window, to the start of the caller's buffer.
    method CopyOut(dst: array<Byte>, noff: nat, n: nat)
      requires dst != buffer && n <= dst.Length && off <= noff && noff - off + n <= buffer.Length
      modifies dst
      ensures dst[..] == buffer[..][noff - off..noff - off + n] + old(dst[n..])
    {
      forall i | 0 <= i < n {
        dst[i] := buffer[noff - off + i];
      }
    }

    // A miss: the window around `noff` is loaded.
    method Refill(nblock: nat, noff: nat) returns (err: int)
      requires Valid()
      modifies this`accesses, this`block, this`off, buffer
      ensures Valid() && CacheWf(g, old(View()))
      ensures View() == Refilled(Hw(), old(View()), nblock, noff) && err == fault(old(accesses))
    {
      hide Window, Junk;
      var wanted := noff - noff % g.bufferSize;
      AlignDown(noff, g.bufferSize);
      err := Access(nblock, wanted);
      if err == 0 {
        block, off := nblock, wanted;
      }
    }

    // The cached read, for every size.
    method Read(ctx: nat, addr: nat, dst: array<Byte>, size: nat) returns (err: int)
      requires Valid() && size <= dst.Length && dst != buffer
      modifies this`accesses, this`block, this`off, buffer, dst
      ensures Valid() && CacheWf(g, old(View()))
      ensures Answer(err, View(), dst[..]) == ReadCached(Hw(), old(View()), ctx + addr, size, old(dst[..]))
    {
      hide Refilled, ReadFrom, Right;
      var at := addr + ctx;
      ghost var was, d := View(), dst[..];
      if at + size > g.regionSize {
        return -EINVAL;
      }
      var nblock: nat, noff: nat, left: nat := at / g.blockSize, at % g.blockSize, size;
      Euclid(at, g.blockSize);
      QuotientSmall(at, g.blockSize);
      while left > 0
        invariant Valid() && left <= size
        invariant ReadFrom(Hw(), View(), nblock, noff, left, dst[..]) == ReadCached(Hw(), was, at, size, d)
        decreases left, !InCache(g, block, off, nblock, noff)
      {
        ReadTurn(Hw(), View(), nblock, noff, left, dst[..]);
        if InCache(g, block, off, nblock, noff) {
          var delta := if g.bufferSize - (noff - off) < left then g.bufferSize - (noff - off) else left;
          CopyOut(dst, noff, delta);
          noff := noff + delta;
          left := left - delta;
          continue;
        }
        err := Refill(nblock, noff);
        if err != 0 {
          return err;
        }
      }
      ReadTurn(Hw(), View(), nblock, noff, 0, dst[..]);
      return 0;
    }
  }

  // A byte is cached, a read elsewhere fails, and the byte is read again: that read
  // succeeds, with what the failed one left in the place of the byte.
  method StaleHit(r: Reader, ctx: nat, cached: nat, other: nat, x: array<Byte>) returns (err: int, again: int)
    requires r.Valid() && x.Length == 1 && x != r.buffer
    requires ctx + cached < r.g.regionSize && ctx + other < r.g.regionSize
    requires Covers(r.g, r.block, r.off, ctx + cached, 1) && !Covers(r.g, r.block, r.off, ctx + other, 1)
    requires r.fault(r.accesses) != 0
    modifies r`accesses, r`block, r`off, r.buffer, x
    ensures err == r.fault(old(r.accesses)) && again == 0 && r.off == old(r.off)
    ensures 0 <= (ctx + cached) % r.g.blockSize - r.off < r.g.bufferSize
    ensures x[0] == r.junk(old(r.accesses), (ctx + cached) % r.g.blockSize - r.off)
  {
    hide ReadCached, Covers;
    StaleReads(r.Hw(), r.View(), ctx + cached, ctx + other, x[..]);
    err := r.Read(ctx, other, x, 1);
    again := r.Read(ctx, cached, x, 1);
  }

  // On a device of ones whose second access fails and leaves 99s.
  method StaleHitExample() returns (err: int, again: int, byte: Byte)
    ensures err == 5 && again == 0 && byte == 99
  {
    hide ReadCached;
    var ones: Device := (block: nat, off: nat) => 1;
    var r := new Reader(Geometry(16, 8, 16), ones, t => if t == 1 then 5 else 0, (t: nat, i: nat) => 99);
    var x := new Byte[1];
    OneByte(r.g, 0);
    MissReads(r.Hw(), r.View(), 0, 1, x[..]);
    var first := r.Read(0, 0, x, 1);
    err, again := StaleHit(r, 0, 0, 8, x);
    byte := x[0];
  }

  lemma CopiedStep(g: Geometry, dev: Device, block: nat, off: nat, size: nat, d: seq<Byte>)
    requires g.bufferSize > 0 && 0 < size <= |d|
    ensures var n := Chunk(g, off, size);
            Copied(g, dev, block, off, size, d) ==
            Copied(g, dev, block, off + n, size - n, Window(dev, block, off, n) + d[n..])
  {
  }

  lemma CopiedNothing(g: Geometry, dev: Device, block: nat, off: nat, d: seq<Byte>)
    requires g.bufferSize > 0
    ensures Copied(g, dev, block, off, 0, d) == d
  {
  }

  lemma QuotientSmall(x: nat, d: nat)
    requires d > 0
    ensures x / d <= x
  {
    Euclid(x, d);
    if x / d > 0 {
      NonNegative(d - 1, x / d);
      assert d * (x / d) == (d - 1) * (x / d) + x / d;
    }
  }

  // In an aligned window an offset is as far from its start as from alignment.
  lemma Offset(start: nat, d: nat, x: nat)
    requires d > 0 && start % d == 0 && start <= x < start + d
    ensures x % d == x - start
  {
    Euclid(start, d);
    DivUnique(x, d, start / d, x - start);
  }

  lemma AlignDown(x: nat, d: nat)
    requires d > 0
    ensures 0 <= x % d < d && 0 <= x - x % d && (x - x % d) % d == 0
  {
    Euclid(x, d);
    DivUnique(x - x % d, d, x / d, 0);
  }
}
