/** Box memories as MPU regions: the register values emitted for them, what the
    MPU makes of those values (section B3.5 of the ARMv7-M Architecture Reference
    Manual), and which accesses a box is left with after a switch. */
module MpuRegions {
  import opened Arithmetic

  datatype Memory = Memory(addr: nat, log2: nat, r: bool, w: bool, x: bool)

  datatype Access = ReadWord | WriteWord | Fetch

  function Size(m: Memory): nat {
    Pow2(m.log2)
  }

  // The checks made on every box memory: a power of two of at least 32 bytes that
  // the address is a multiple of, in a 32-bit address space.
  ghost predicate Checked(m: Memory) {
    5 <= m.log2 <= 32 && m.addr % Size(m) == 0 && m.addr + Size(m) <= 0x1_0000_0000
  }

  ghost predicate Contains(m: Memory, a: nat) {
    m.addr <= a < m.addr + Size(m)
  }

  // What the mode of a memory names.
  predicate Permits(m: Memory, access: Access) {
    match access
    case ReadWord => m.r
    case WriteWord => m.w
    case Fetch => m.x
  }

  // -------------------- register values --------------------

  function Rasr(m: Memory): nat
    requires 1 <= m.log2 <= 32
  {
    (if m.x then 0 else 0x1000_0000)
    + (if m.r && m.w then 0x0300_0000 else if m.r then 0x0200_0000 else 0)
    + 2 * (m.log2 - 1)
    + 1
  }

  // `base | 0x10 | number` for a base with its low five bits clear.
  function Rbar(base: nat, number: nat): nat
    requires base % 32 == 0 && number < 16
  {
    base + 0x10 + number
  }

  // The source writes these values with `|`; on fields that share no bit that is
  // addition.
  lemma OrAddsFields(xn: bv32, ap: bv32, size: bv32)
    requires xn == 0 || xn == 0x1000_0000
    requires ap == 0 || ap == 0x0200_0000 || ap == 0x0300_0000
    requires size < 32
    ensures xn | ap | (size << 1) | 1 == xn + ap + 2 * size + 1
  {
  }

  lemma OrAddsNumber(base: bv32, number: bv32)
    requires base & 0x1f == 0 && number < 16
    ensures base | 0x10 | number == base + 0x10 + number
  {
  }

  // -------------------- the MPU --------------------

  // One region as the MPU holds it: base address and attribute word.
  datatype Slot = Slot(base: nat, attr: nat)

  // Sixteen regions, and the one RASR writes go to.
  datatype Mpu = Mpu(slots: seq<Slot>, number: nat)

  ghost predicate Wf(mpu: Mpu) {
    |mpu.slots| == 16 && mpu.number < 16
  }

  // A write to RBAR: with bit 4 set, bits 3-0 select the region; bits 31-5 are the
  // base.
  function WriteRbar(mpu: Mpu, v: nat): (m: Mpu)
    requires Wf(mpu)
    ensures Wf(m)
  {
    var n := if v / 0x10 % 2 == 1 then v % 0x10 else mpu.number;
    Mpu(mpu.slots[n := mpu.slots[n].(base := v / 32 * 32)], n)
  }

  function WriteRasr(mpu: Mpu, v: nat): (m: Mpu)
    requires Wf(mpu)
    ensures Wf(m)
  {
    mpu.(slots := mpu.slots[mpu.number := mpu.slots[mpu.number].(attr := v)])
  }

  ghost predicate Enabled(s: Slot) {
    s.attr % 2 == 1
  }

  ghost function RegionSize(s: Slot): nat {
    Pow2(s.attr / 2 % 32 + 1)
  }

  ghost predicate Matches(s: Slot, a: nat) {
    Enabled(s) && s.base <= a < s.base + RegionSize(s)
  }

  // Unprivileged access under the attributes: the AP field is bits 26-24, execute
  // never is bit 28; fetching needs read access too.
  ghost predicate Grants(s: Slot, access: Access) {
    var ap, xn := s.attr / 0x100_0000 % 8, s.attr / 0x1000_0000 % 2;
    match access
    case ReadWord => ap == 2 || ap == 3
    case WriteWord => ap == 3
    case Fetch => (ap == 2 || ap == 3) && xn == 0
  }

  // The highest numbered region that matches decides; without one unprivileged
  // code has no access.
  ghost function Winner(slots: seq<Slot>, a: nat): (n: int)
    ensures -1 <= n < |slots|
    ensures n >= 0 ==> Matches(slots[n], a)
    ensures forall i :: n < i < |slots| ==> !Matches(slots[i], a)
  {
    if slots == [] then -1
    else if Matches(slots[|slots| - 1], a) then |slots| - 1
    else Winner(slots[..|slots| - 1], a)
  }

  ghost predicate Allows(slots: seq<Slot>, a: nat, access: Access) {
    var n := Winner(slots, a);
    n >= 0 && Grants(slots[n], access)
  }

  // -------------------- switching --------------------

  // Region 0 is the call region, which nothing may access.
  ghost function CallSlot(base: nat, log2: nat): Slot
    requires log2 >= 1
  {
    Slot(base, 0x1000_0001 + 2 * (log2 - 1))
  }

  // What the regions above 0 hold for a box with these memories, when `limit`
  // regions are managed.
  ghost function SlotFor(memories: seq<Memory>, i: nat): Slot
    requires forall m :: m in memories ==> Checked(m)
  {
    if 1 <= i <= |memories| then
      assert Checked(memories[i - 1]);
      Slot(memories[i - 1].addr, Rasr(memories[i - 1]))
    else Slot(0, 0)
  }

  ghost predicate Holds(slots: seq<Slot>, memories: seq<Memory>, limit: nat)
    requires forall m :: m in memories ==> Checked(m)
  {
    && |slots| == 16
    && limit < 16
    && forall i :: 1 <= i <= limit ==> slots[i] == SlotFor(memories, i)
  }

  lemma {:induction false} Pow2Splits(a: nat, b: nat)
    ensures Pow2(a + b) == Pow2(a) * Pow2(b)
  {
    if a > 0 {
      Pow2Splits(a - 1, b);
      assert Pow2(a + b) == 2 * Pow2(a - 1 + b);
      assert 2 * (Pow2(a - 1) * Pow2(b)) == (2 * Pow2(a - 1)) * Pow2(b);
    }
  }

  // A multiple of 2^k for some k of at least five is a multiple of 32.
  lemma AlignedLow(m: Memory)
    requires Checked(m)
    ensures m.addr % 32 == 0
  {
    hide Pow2;
    Pow2Splits(5, m.log2 - 5);
    ThirtyTwo();
    Multiple(m.addr, Pow2(m.log2 - 5));
  }

  lemma ThirtyTwo()
    ensures Pow2(5) == 32
  {
    assert Pow2(3) == 8;
  }

  lemma Multiple(a: nat, k: nat)
    requires k > 0 && a % (32 * k) == 0
    ensures a % 32 == 0
  {
    var q := a / (32 * k);
    assert a == (32 * k) * q;
    Associates(k, q);
  }

  lemma Associates(k: nat, q: nat)
    ensures (32 * k) * q == 32 * (k * q)
  {
  }

  // The emitted register pair reads back as the memory it was made from. It grants what
  // the mode names if that has reading in it, and otherwise nothing.
  lemma PairDecodes(m: Memory, mpu: Mpu, number: nat)
    requires Checked(m) && Wf(mpu) && number < 16
    ensures m.addr % 32 == 0
    ensures var mpu' := WriteRasr(WriteRbar(mpu, Rbar(m.addr, number)), Rasr(m));
            && mpu'.slots == mpu.slots[number := Slot(m.addr, Rasr(m))]
            && Enabled(mpu'.slots[number])
            && RegionSize(mpu'.slots[number]) == Size(m)
            && forall access :: Grants(mpu'.slots[number], access) <==> m.r && Permits(m, access)
  {
    hide Grants, RegionSize, Pow2;
    AlignedLow(m);
    AttrDecodes(m);
    RbarDecodes(m.addr, number);
  }

  lemma RbarDecodes(base: nat, number: nat)
    requires base % 32 == 0 && number < 16
    ensures var v := Rbar(base, number);
            v / 0x10 % 2 == 1 && v % 0x10 == number && v / 32 * 32 == base
  {
    var q, v := base / 32, Rbar(base, number);
    DivUnique(v, 32, q, 16 + number);
    DivUnique(v, 16, 2 * q + 1, number);
    DivUnique(2 * q + 1, 2, q, 1);
  }

  lemma AttrDecodes(m: Memory)
    requires Checked(m)
    ensures Enabled(Slot(m.addr, Rasr(m))) && RegionSize(Slot(m.addr, Rasr(m))) == Size(m)
    ensures forall access :: Grants(Slot(m.addr, Rasr(m)), access) <==> m.r && Permits(m, access)
  {
    hide Pow2;
    FieldsDecode(if m.x then 0 else 1, if m.r && m.w then 3 else if m.r then 2 else 0, m.log2 - 1, Rasr(m));
  }

  // Exactly the modes are granted if and only if none but reading stands alone.
  lemma ModesGrantedIff(m: Memory)
    requires Checked(m)
    ensures (forall access :: Grants(Slot(m.addr, Rasr(m)), access) <==> Permits(m, access))
            <==> (m.w || m.x ==> m.r)
  {
    hide Grants, Rasr, Pow2;
    AttrDecodes(m);
    if (m.w || m.x) && !m.r {
      var access := if m.w then WriteWord else Fetch;
      assert Permits(m, access) && !Grants(Slot(m.addr, Rasr(m)), access);
    }
  }

  lemma FieldsDecode(xn: nat, ap: nat, size: nat, v: nat)
    requires xn < 2 && ap < 4 && size < 32 && v == 0x1000_0000 * xn + 0x100_0000 * ap + 2 * size + 1
    ensures v % 2 == 1 && v / 2 % 32 == size && v / 0x100_0000 % 8 == ap && v / 0x1000_0000 % 2 == xn
  {
    assert v / 2 == 32 * (0x40_0000 * xn + 0x4_0000 * ap) + size by {
      assert v == 2 * (0x800_0000 * xn + 0x80_0000 * ap + size) + 1;
    }
    assert v / 0x100_0000 == 16 * xn + ap;
    assert v / 0x1000_0000 == xn;
  }

  lemma DisableDecodes(mpu: Mpu, number: nat)
    requires Wf(mpu) && number < 16
    ensures WriteRasr(WriteRbar(mpu, 0x10 + number), 0).slots == mpu.slots[number := Slot(0, 0)]
  {
  }

  // __box_mpu_switch: the loop over the managed regions. Each is either written
  // with the next memory or disabled.
  method Switch(before: Mpu, memories: seq<Memory>, limit: nat) returns (mpu: Mpu)
    requires Wf(before) && limit < 16
    requires forall m :: m in memories ==> Checked(m)
    ensures Wf(mpu) && Holds(mpu.slots, memories, limit)
    ensures forall i :: 0 <= i < 16 && (i == 0 || i > limit) ==> mpu.slots[i] == before.slots[i]
  {
    hide RegionSize, Pow2, Grants, Enabled, Rasr, Rbar, WriteRbar, WriteRasr;
    mpu := before;
    for i := 0 to limit
      invariant Wf(mpu)
      invariant forall j :: 1 <= j <= i ==> mpu.slots[j] == SlotFor(memories, j)
      invariant forall j :: 0 <= j < 16 && (j == 0 || j > i) ==> mpu.slots[j] == before.slots[j]
    {
      if i < |memories| {
        PairDecodes(memories[i], mpu, i + 1);
        mpu := WriteRbar(mpu, Rbar(memories[i].addr, i + 1));
        mpu := WriteRasr(mpu, Rasr(memories[i]));
      } else {
        DisableDecodes(mpu, i + 1);
        mpu := WriteRbar(mpu, 0x10 + (i + 1));
        mpu := WriteRasr(mpu, 0);
      }
    }
  }

  // A box's memories in the first regions above the call region, and no other region.
  ghost predicate Shows(slots: seq<Slot>, memories: seq<Memory>)
    requires forall m :: m in memories ==> Checked(m)
  {
    && |slots| == 16 && |memories| < 16
    && (forall i :: 1 <= i <= |memories| ==> slots[i] == SlotFor(memories, i))
    && forall i :: |memories| < i < 16 ==> !Enabled(slots[i])
  }

  lemma SwitchShows(slots: seq<Slot>, memories: seq<Memory>, limit: nat)
    requires forall m :: m in memories ==> Checked(m)
    requires Holds(slots, memories, limit) && |memories| <= limit
    requires forall i :: limit < i < 16 ==> !Enabled(slots[i])
    ensures Shows(slots, memories)
  {
    forall i | |memories| < i < 16
      ensures !Enabled(slots[i])
    {
      assert i <= limit ==> slots[i] == SlotFor(memories, i);
    }
  }

  lemma ShownAbove(slots: seq<Slot>, memories: seq<Memory>, limit: nat)
    requires forall m :: m in memories ==> Checked(m)
    requires Shows(slots, memories) && |memories| <= limit
    ensures forall i :: limit < i < 16 ==> !Enabled(slots[i])
  {
  }

  // What a box with these memories gets at an address: the last memory that contains it
  // decides.
  ghost predicate MayAccess(memories: seq<Memory>, a: nat, access: Access) {
    exists i :: Decides(memories, i, a) && memories[i].r && Permits(memories[i], access)
  }

  ghost predicate Decides(memories: seq<Memory>, i: int, a: nat) {
    && 0 <= i < |memories| && Contains(memories[i], a)
    && forall j :: i < j < |memories| ==> !Contains(memories[j], a)
  }

  // Where at most one memory contains the address and no mode lacks reading, that is any
  // of the memories in one of its modes.
  lemma ApartMayAccess(memories: seq<Memory>, a: nat, access: Access)
    requires forall i, j :: 0 <= i < j < |memories| ==> !(Contains(memories[i], a) && Contains(memories[j], a))
    requires forall m :: m in memories && (m.w || m.x) ==> m.r
    ensures MayAccess(memories, a, access) <==>
            exists m :: m in memories && Contains(m, a) && Permits(m, access)
  {
    hide Contains;
    if m :| m in memories && Contains(m, a) && Permits(m, access) {
      var i :| 0 <= i < |memories| && memories[i] == m;
      assert Decides(memories, i, a);
    }
  }

  // Isolation: with the call region in region 0 and a box's memories above it, the box
  // has no access but to words of its memories, and there what the last of them allows.
  lemma ShownIsolates(slots: seq<Slot>, memories: seq<Memory>, a: nat, access: Access, base: nat, log2: nat)
    requires forall m :: m in memories ==> Checked(m)
    requires Shows(slots, memories) && 1 <= log2 <= 32 && slots[0] == CallSlot(base, log2)
    ensures Allows(slots, a, access) <==> MayAccess(memories, a, access)
  {
    hide Pow2, Grants, RegionSize, Matches, Contains, Permits;
    forall i | 0 <= i < |memories|
      ensures Matches(slots[i + 1], a) <==> Contains(memories[i], a)
      ensures Grants(slots[i + 1], access) <==> memories[i].r && Permits(memories[i], access)
    {
      ShownMatches(slots, memories, i, a, access);
    }
    CallSlotDenies(base, log2, access);
    var n := Winner(slots, a);
    assert n <= |memories| by {
      NothingAbove(slots, memories, n, a);
    }
    if n >= 1 {
      forall j | n - 1 < j < |memories|
        ensures !Contains(memories[j], a)
      {
        assert !Matches(slots[j + 1], a);
      }
      assert Decides(memories, n - 1, a);
      forall i | Decides(memories, i, a)
        ensures i == n - 1
      {
        assert Matches(slots[i + 1], a);
      }
    } else {
      forall i | 0 <= i < |memories|
        ensures !Contains(memories[i], a)
      {
        assert !Matches(slots[i + 1], a);
      }
    }
  }

  lemma ShownMatches(slots: seq<Slot>, memories: seq<Memory>, i: nat, a: nat, access: Access)
    requires forall m :: m in memories ==> Checked(m)
    requires Shows(slots, memories) && i < |memories|
    ensures Matches(slots[i + 1], a) <==> Contains(memories[i], a)
    ensures Grants(slots[i + 1], access) <==> memories[i].r && Permits(memories[i], access)
  {
    hide Pow2, Grants, RegionSize, Rasr;
    assert memories[i] in memories;
    AttrDecodes(memories[i]);
    assert slots[i + 1] == SlotFor(memories, i + 1);
  }

  lemma NothingAbove(slots: seq<Slot>, memories: seq<Memory>, n: int, a: nat)
    requires forall m :: m in memories ==> Checked(m)
    requires Shows(slots, memories) && n < 16 && (n >= 0 ==> Matches(slots[n], a))
    ensures n <= |memories|
  {
  }

  // In particular after a switch.
  lemma SwitchIsolates(slots: seq<Slot>, memories: seq<Memory>, limit: nat, a: nat, access: Access,
                       base: nat, log2: nat)
    requires forall m :: m in memories ==> Checked(m)
    requires Holds(slots, memories, limit) && |memories| <= limit
    requires 1 <= log2 <= 32 && slots[0] == CallSlot(base, log2)
    requires forall i :: limit < i < 16 ==> !Enabled(slots[i])
    ensures Allows(slots, a, access) <==> MayAccess(memories, a, access)
  {
    hide Holds, Shows, Allows, MayAccess, Enabled;
    SwitchShows(slots, memories, limit);
    ShownIsolates(slots, memories, a, access, base, log2);
  }

  // The call region covers its range, with the access field for nobody, privileged code
  // included, and with execute never.
  lemma CallSlotCovers(base: nat, log2: nat, a: nat)
    requires 1 <= log2 <= 32
    ensures var s := CallSlot(base, log2);
            && (Matches(s, a) <==> base <= a < base + Pow2(log2))
            && s.attr / 0x1000_0000 % 2 == 1 && s.attr / 0x100_0000 % 8 == 0
  {
    hide Pow2;
    FieldsDecode(1, 0, log2 - 1, CallSlot(base, log2).attr);
  }

  // It decides wherever no memory does.
  lemma CallSlotWins(slots: seq<Slot>, memories: seq<Memory>, a: nat, base: nat, log2: nat)
    requires forall m :: m in memories ==> Checked(m)
    requires Shows(slots, memories) && 1 <= log2 <= 32 && slots[0] == CallSlot(base, log2)
    requires base <= a < base + Pow2(log2) && forall m :: m in memories ==> !Contains(m, a)
    ensures Winner(slots, a) == 0
  {
    hide Pow2, Grants, Matches, Contains;
    CallSlotCovers(base, log2, a);
    var n := Winner(slots, a);
    NothingAbove(slots, memories, n, a);
    if n >= 1 {
      ShownMatches(slots, memories, n - 1, a, ReadWord);
    }
  }

  lemma CallSlotDenies(base: nat, log2: nat, access: Access)
    requires 1 <= log2 <= 32
    ensures !Grants(CallSlot(base, log2), access)
  {
  }
}
