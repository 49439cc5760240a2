/** Which function a trapped jump into the call region stands for. */
module MpuDispatch {
  import opened Arithmetic

  const RETURN_OFFSET := 0
  const ABORT_OFFSET := 4

  // The offset the linker script gives import `j` of box `i`, of `n` boxes, and
  // the one a box's own script gives its import `i`. The thumb bit is not part of
  // the address the handler sees.
  function SystemOffset(n: nat, i: nat, j: nat, fallible: bool): nat {
    4 * (2 + n * j + i) + (if fallible then 2 else 0)
  }

  function BoxOffset(i: nat, fallible: bool): nat {
    4 * (2 + i) + (if fallible then 2 else 0)
  }

  // How the call handler takes an offset apart.
  function TargetBox(n: nat, op: nat): nat
    requires n > 0 && op >= 8
  {
    (op / 4 - 2) % n + 1
  }

  function TargetEntry(n: nat, op: nat): nat
    requires n > 0 && op >= 8
  {
    (op / 4 - 2) / n + 1
  }

  function SystemEntry(op: nat): nat
    requires op >= 8
  {
    op / 4 - 2
  }

  // The test of the fallible bit, made on the whole address.
  predicate FallibleBit(pc: nat) {
    pc / 2 % 2 == 1
  }

  lemma OffsetDecodes(n: nat, i: nat, j: nat, fallible: bool)
    requires i < n
    ensures var op := SystemOffset(n, i, j, fallible);
            && op >= 8
            && TargetBox(n, op) == i + 1
            && TargetEntry(n, op) == j + 1
            && FallibleBit(op) == fallible
            && op != RETURN_OFFSET && op != ABORT_OFFSET
  {
    NonNegative(n, j);
    var op := SystemOffset(n, i, j, fallible);
    assert op / 4 - 2 == n * j + i;
    DivUnique(op / 4 - 2, n, j, i);
  }

  // No two imports share an address.
  lemma OffsetInjective(n: nat, i: nat, j: nat, f: bool, i': nat, j': nat, f': bool)
    requires i < n && i' < n && SystemOffset(n, i, j, f) == SystemOffset(n, i', j', f')
    ensures i == i' && j == j' && f == f'
  {
    OffsetDecodes(n, i, j, f);
    OffsetDecodes(n, i', j', f');
  }

  lemma BoxOffsetDecodes(i: nat, fallible: bool)
    ensures var op := BoxOffset(i, fallible);
            && op >= 8 && SystemEntry(op) == i && FallibleBit(op) == fallible
            && op != RETURN_OFFSET && op != ABORT_OFFSET
  {
  }

  // And every even offset from 8 on is one that the linker scripts give.
  lemma OffsetEncodes(n: nat, op: nat)
    requires n > 0 && op >= 8 && op % 2 == 0
    ensures 1 <= TargetBox(n, op) <= n && TargetEntry(n, op) >= 1
    ensures op == SystemOffset(n, TargetBox(n, op) - 1, TargetEntry(n, op) - 1, FallibleBit(op))
    ensures op == BoxOffset(SystemEntry(op), FallibleBit(op))
  {
    Euclid(op / 4 - 2, n);
  }

  // The fault handler reads the bit from the stacked address, not from the offset;
  // an aligned call region leaves it in place.
  lemma FallibleInAddress(region: nat, op: nat)
    requires region % 32 == 0
    ensures FallibleBit(region + op) == FallibleBit(op)
  {
  }

  // -------------------- what a fault is taken for --------------------

  const ADDRESSES := 0x1_0000_0000

  datatype Cause = Returning | Aborting | Calling | Faulting

  // The fault handler's test of the stacked address. The bound it compares with is meant
  // to be the size of the call region and is its address.
  function CauseOf(region: nat, pc: nat): Cause {
    var op := (pc - region) % ADDRESSES;
    if op == RETURN_OFFSET then Returning
    else if op == ABORT_OFFSET then Aborting
    else if op < region then Calling
    else Faulting
  }

  // Inside the region the cause is the right one. Outside it should always be a fault, and
  // is one except for the addresses that the wrong bound lets in.
  lemma CauseIff(region: nat, size: nat, pc: nat)
    requires 8 <= size <= region && region + size <= ADDRESSES && pc < ADDRESSES
    ensures region <= pc < region + size ==>
              CauseOf(region, pc) ==
              if pc == region then Returning else if pc == region + 4 then Aborting else Calling
    ensures !(region <= pc < region + size) ==>
              (CauseOf(region, pc) == Faulting <==> pc >= 2 * region || 2 * region - ADDRESSES <= pc < region)
              && CauseOf(region, pc) in {Calling, Faulting}
  {
    if pc >= region {
      assert (pc - region) % ADDRESSES == pc - region;
    } else {
      assert (pc - region) % ADDRESSES == pc - region + ADDRESSES;
    }
  }

  // -------------------- the size of the call region --------------------

  function Sum(s: seq<nat>): nat {
    if s == [] then 0 else s[0] + Sum(s[1..])
  }

  function Max(a: nat, b: nat): nat {
    if a < b then b else a
  }

  function MaxOf(s: seq<nat>): (m: nat)
    ensures forall x :: x in s ==> x <= m
  {
    if s == [] then 0
    else
      assert forall x :: x in s ==> x == s[0] || x in s[1..];
      Max(s[0], MaxOf(s[1..]))
  }

  // `ceil(log2(x))`.
  function Log2Above(x: nat): (k: nat)
    ensures Pow2(k) >= x && (k > 0 ==> Pow2(k - 1) < x)
  {
    if x <= 1 then 0 else 1 + Log2Above((x + 1) / 2)
  }

  // The call region the runtime picks by itself, for boxes with so many exports and
  // imports each.
  function CallLog2(exports: seq<nat>, imports: seq<nat>): nat {
    var count := Max(3 + Sum(exports), if imports == [] then 0 else 4 + MaxOf(imports));
    Max(Log2Above(4 * count), 5)
  }

  lemma {:induction false} Pow2Grows(a: nat, b: nat)
    requires a <= b
    ensures Pow2(a) <= Pow2(b)
  {
    if a < b {
      Pow2Grows(a, b - 1);
    }
  }

  lemma WholeWords(k: nat)
    requires k >= 2
    ensures Pow2(k) % 4 == 0
  {
    assert Pow2(k) == 4 * Pow2(k - 2);
  }

  // A box calls its own imports, behind `__box_write` and `__box_flush`: they always fit.
  lemma BoxCallsFit(exports: seq<nat>, imports: seq<nat>, b: nat, i: nat, f: bool)
    requires b < |imports| && i < 2 + imports[b]
    ensures BoxOffset(i, f) < Pow2(CallLog2(exports, imports))
  {
    hide Pow2, Log2Above;
    var count := Max(3 + Sum(exports), 4 + MaxOf(imports));
    assert imports[b] in imports;
    Pow2Grows(Log2Above(4 * count), CallLog2(exports, imports));
  }

  // The system calls `linked[i]` functions of box i, the postinit function first. They fit
  // if and only if the last one of each box does: the count goes by the exports of all
  // boxes, the offsets by the box with the most.
  lemma SystemCallsFitIff(exports: seq<nat>, imports: seq<nat>, linked: seq<nat>)
    requires |exports| == |imports| == |linked| > 0 && forall i :: 0 <= i < |linked| ==> linked[i] > 0
    ensures var n, size := |linked|, Pow2(CallLog2(exports, imports));
            (forall i: nat, j: nat, f: bool :: i < n && j < linked[i] ==> SystemOffset(n, i, j, f) < size)
            <==> forall i: nat :: i < n ==> SystemOffset(n, i, linked[i] - 1, false) < size
  {
    hide CallLog2, Pow2;
    var n, size := |linked|, Pow2(CallLog2(exports, imports));
    WholeWords(CallLog2(exports, imports)) by { FiveAtLeast(exports, imports); }
    if forall i: nat :: i < n ==> SystemOffset(n, i, linked[i] - 1, false) < size {
      forall i: nat, j: nat, f: bool | i < n && j < linked[i]
        ensures SystemOffset(n, i, j, f) < size
      {
        NonNegative(n, linked[i] - 1 - j);
        Distributes(n, linked[i] - 1, j);
        assert SystemOffset(n, i, linked[i] - 1, false) < size;
      }
    }
  }

  lemma FiveAtLeast(exports: seq<nat>, imports: seq<nat>)
    ensures CallLog2(exports, imports) >= 5
  {
  }

  lemma Log2Is(x: nat, k: nat)
    requires k > 0 && Pow2(k - 1) < x <= Pow2(k)
    ensures Log2Above(x) == k
  {
    hide Pow2;
    if Log2Above(x) < k {
      Pow2Grows(Log2Above(x), k - 1);
    } else if Log2Above(x) > k {
      Pow2Grows(k, Log2Above(x) - 1);
    }
  }

  // Two boxes, one of which exports ten functions that the system imports: the calls to the
  // last of them lie outside the region.
  lemma CallOutsideExample()
    ensures Pow2(CallLog2([10, 0], [0, 0])) == 64 && SystemOffset(2, 0, 10, false) == 88
  {
    var exports, imports: seq<nat> := [10, 0], [0, 0];
    assert exports[1..] == [0] && imports[1..] == [0];
    assert Sum(exports) == 10 && MaxOf(imports) == 0;
    Log2Is(52, 6) by { assert Pow2(3) == 8; }
    assert Pow2(3) == 8;
  }
}
