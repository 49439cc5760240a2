/** Carving the memories of automatically placed children off the memories of their
    parent, from the top down. */
module Carving {
  import opened Basics

  datatype Region = Region(addr: nat, size: nat)

  // A slice of a parent memory, with the mode flags of that memory.
  datatype Slice = Slice(region: Region, mode: set<char>)

  datatype Request = Request(mode: set<char>, size: nat)

  function End(r: Region): nat {
    r.addr + r.size
  }

  predicate Holds(r: Region, a: nat) {
    r.addr <= a < End(r)
  }

  predicate Overlaps(r: Region, q: Region) {
    r.addr < End(q) && End(r) > q.addr
  }

  // -------------------- taking a region out of a slice --------------------

  // `slice - region`, as written. The size of what is left above the region adds
  // the region's size where it should take it off.
  function Minus(s: Region, r: Region): seq<Region> {
    if s.size == 0 then []
    else if r.addr >= End(s) || End(r) <= s.addr then [s]
    else
      (if r.addr > s.addr then [Region(s.addr, r.addr - s.addr)] else [])
      + (if End(s) > End(r) then [Region(End(r), End(s) - r.addr + r.size)] else [])
  }

  // How many of the regions hold an address.
  ghost function Count(rs: seq<Region>, a: nat): nat {
    if rs == [] then 0 else (if Holds(rs[0], a) then 1 else 0) + Count(rs[1..], a)
  }

  lemma {:induction false} CountConcat(p: seq<Region>, q: seq<Region>, a: nat)
    ensures Count(p + q, a) == Count(p, a) + Count(q, a)
  {
    if p == [] {
      assert p + q == q;
    } else {
      assert (p + q)[1..] == p[1..] + q;
      CountConcat(p[1..], q, a);
    }
  }

  lemma CountOne(r: Region, a: nat)
    ensures Count([r], a) == if Holds(r, a) then 1 else 0
  {
    assert [r][1..] == [];
  }

  // What may stay of `s` above `r` is none, or right because `r` is empty.
  ghost predicate TopReached(s: Region, r: Region) {
    !Overlaps(s, r) || End(s) <= End(r) || r.size == 0
  }

  lemma MinusParts(s: Region, r: Region, a: nat)
    ensures Count(Minus(s, r), a) ==
            if s.size == 0 then 0
            else if r.addr >= End(s) || End(r) <= s.addr then (if Holds(s, a) then 1 else 0)
            else
              (if r.addr > s.addr && s.addr <= a < r.addr then 1 else 0)
              + (if End(s) > End(r) && End(r) <= a < End(s) + 2 * r.size + (End(r) - r.size - r.addr) then 1 else 0)
  {
    var low := Region(s.addr, if r.addr > s.addr then r.addr - s.addr else 0);
    var high := Region(End(r), if End(s) > End(r) then End(s) - r.addr + r.size else 0);
    CountConcat([low], [high], a);
    CountOne(low, a);
    CountOne(high, a);
    CountOne(s, a);
    assert [low] + [] == [low] && [] + [high] == [high];
  }

  // The bytes that are left are those of the slice outside the region for exactly
  // the regions that reach the top of the slice, miss it, or are empty.
  lemma MinusExactIff(s: Region, r: Region)
    ensures TopReached(s, r) <==>
            forall a: nat :: Count(Minus(s, r), a) == if Holds(s, a) && !Holds(r, a) then 1 else 0
  {
    if TopReached(s, r) {
      forall a: nat
        ensures Count(Minus(s, r), a) == if Holds(s, a) && !Holds(r, a) then 1 else 0
      {
        MinusParts(s, r, a);
      }
    } else {
      MinusParts(s, r, End(s));
      assert Count(Minus(s, r), End(s)) == 1 && !Holds(s, End(s));
    }
  }

  // Nothing empty is left.
  lemma MinusNotEmpty(s: Region, r: Region)
    ensures forall q :: q in Minus(s, r) ==> q.size > 0
  {
  }

  // Sixteen bytes taken out of the middle of 64 should leave 32 above them. What is left
  // has 64, among them bytes behind the slice.
  lemma MinusExample()
    ensures var s, r := Region(0, 64), Region(16, 16);
            && Minus(s, r) == [Region(0, 16), Region(32, 64)]
            && !Holds(s, 64) && Count(Minus(s, r), 64) == 1
  {
    MinusParts(Region(0, 64), Region(16, 16), 64);
  }

  // -------------------- choosing a slice --------------------

  predicate Compatible(s: Slice, q: Request) {
    s.region.size != 0 && q.mode <= s.mode && q.size <= s.region.size
  }

  // Fewest flags beyond those asked for, then the highest address.
  predicate Better(s: Slice, t: Slice, q: Request) {
    var x, y := |s.mode - q.mode|, |t.mode - q.mode|;
    x < y || (x == y && s.region.addr > t.region.addr)
  }

  // The first of the best compatible slices, or |slices| if there is none.
  function Best(slices: seq<Slice>, q: Request): (i: nat)
    ensures i <= |slices|
    ensures i < |slices| ==> Compatible(slices[i], q)
    ensures i < |slices| ==>
              forall j :: 0 <= j < |slices| && Compatible(slices[j], q) ==> !Better(slices[j], slices[i], q)
    ensures i == |slices| ==> forall j :: 0 <= j < |slices| ==> !Compatible(slices[j], q)
  {
    if slices == [] then 0
    else
      var rest := Best(slices[1..], q);
      assert forall j :: 0 < j < |slices| ==> slices[j] == slices[1..][j - 1];
      if Compatible(slices[0], q) && (rest == |slices| - 1 || !Better(slices[1..][rest], slices[0], q)) then 0
      else rest + 1
  }

  // -------------------- carving --------------------

  function Place(s: Slice, size: nat): Region
    requires size <= s.region.size
  {
    Region(s.region.addr + (s.region.size - size), size)
  }

  function WithMode(rs: seq<Region>, mode: set<char>): (ss: seq<Slice>)
    ensures |ss| == |rs| && forall i :: 0 <= i < |rs| ==> ss[i] == Slice(rs[i], mode)
  {
    if rs == [] then [] else [Slice(rs[0], mode)] + WithMode(rs[1..], mode)
  }

  function MinusAll(slices: seq<Slice>, r: Region): seq<Slice> {
    if slices == [] then []
    else WithMode(Minus(slices[0].region, r), slices[0].mode) + MinusAll(slices[1..], r)
  }

  function Regions(slices: seq<Slice>): (rs: seq<Region>)
    ensures |rs| == |slices| && forall i :: 0 <= i < |rs| ==> rs[i] == slices[i].region
  {
    if slices == [] then [] else [slices[0].region] + Regions(slices[1..])
  }

  // All requests in order, each placed at the top of the best slice; None when one
  // finds no compatible slice.
  function Carve(slices: seq<Slice>, requests: seq<Request>): (r: Option<(seq<Region>, seq<Slice>)>)
    ensures r.Some? ==> |r.value.0| == |requests|
    decreases |requests|
  {
    if requests == [] then Some(([], slices))
    else
      var i := Best(slices, requests[0]);
      if i == |slices| then None
      else
        var placed := Place(slices[i], requests[0].size);
        var rest := Carve(MinusAll(slices, placed), requests[1..]);
        if rest.None? then None else Some(([placed] + rest.value.0, rest.value.1))
  }

  ghost predicate Disjoint(slices: seq<Slice>) {
    forall a: nat :: Count(Regions(slices), a) <= 1
  }

  lemma {:induction false} CountAt(rs: seq<Region>, a: nat, i: nat)
    requires i < |rs| && Holds(rs[i], a)
    ensures Count(rs, a) >= 1
  {
    if i > 0 {
      CountAt(rs[1..], a, i - 1);
    }
  }

  lemma {:induction false} CountTwo(rs: seq<Region>, a: nat, i: nat, j: nat)
    requires i < j < |rs| && Holds(rs[i], a) && Holds(rs[j], a)
    ensures Count(rs, a) >= 2
  {
    if i == 0 {
      CountAt(rs[1..], a, j - 1);
    } else {
      CountTwo(rs[1..], a, i - 1, j - 1);
    }
  }

  lemma RegionsConcat(p: seq<Slice>, q: seq<Slice>)
    ensures Regions(p + q) == Regions(p) + Regions(q)
  {
  }

  lemma WithModeRegions(rs: seq<Region>, mode: set<char>)
    ensures Regions(WithMode(rs, mode)) == rs
  {
  }

  // A region at the top of one slice, and disjoint from the others, comes out of
  // the slices byte for byte.
  lemma {:induction false} MinusAllCount(slices: seq<Slice>, r: Region, a: nat)
    requires forall i :: 0 <= i < |slices| ==> TopReached(slices[i].region, r)
    ensures Count(Regions(MinusAll(slices, r)), a) == if Holds(r, a) then 0 else Count(Regions(slices), a)
    decreases slices
  {
    if slices != [] {
      var s := slices[0];
      var head := WithMode(Minus(s.region, r), s.mode);
      MinusExactIff(s.region, r);
      assert forall i :: 0 <= i < |slices[1..]| ==> slices[1..][i] == slices[i + 1];
      MinusAllCount(slices[1..], r, a);
      RegionsConcat(head, MinusAll(slices[1..], r));
      WithModeRegions(Minus(s.region, r), s.mode);
      CountConcat(Regions(head), Regions(MinusAll(slices[1..], r)), a);
    }
  }

  lemma PlacedAtTop(slices: seq<Slice>, i: nat, size: nat, j: nat)
    requires Disjoint(slices) && i < |slices| && j < |slices| && 0 < size <= slices[i].region.size
    ensures TopReached(slices[j].region, Place(slices[i], size))
  {
    var r, s := Place(slices[i], size), slices[j].region;
    if j != i && Overlaps(s, r) && s.size > 0 {
      var a := if s.addr > r.addr then s.addr else r.addr;
      var rs := Regions(slices);
      assert Holds(rs[i], a) && Holds(rs[j], a);
      if i < j {
        CountTwo(rs, a, i, j);
      } else {
        CountTwo(rs, a, j, i);
      }
    }
  }

  // Conservation: at every address, what was free is now placed or still free, and
  // never both, however many children there are.
  lemma {:induction false} CarveConserves(slices: seq<Slice>, requests: seq<Request>, a: nat)
    requires Disjoint(slices) && Carve(slices, requests).Some?
    requires forall k :: 0 <= k < |requests| ==> requests[k].size > 0
    ensures var (placed, left) := Carve(slices, requests).value;
            && Count(Regions(slices), a) == Count(placed, a) + Count(Regions(left), a)
    decreases |requests|
  {
    if requests != [] {
      var i := Best(slices, requests[0]);
      var r := Place(slices[i], requests[0].size);
      var next := MinusAll(slices, r);
      CarveStep(slices, i, requests[0].size);
      CarveConserves(next, requests[1..], a);
      var placed := Carve(next, requests[1..]).value.0;
      CountConcat([r], placed, a);
      CountOne(r, a);
      StepCount(slices, i, requests[0].size, a);
    }
  }

  lemma StepCount(slices: seq<Slice>, i: nat, size: nat, a: nat)
    requires Disjoint(slices) && i < |slices| && 0 < size <= slices[i].region.size
    ensures var r := Place(slices[i], size);
            Count(Regions(slices), a) == (if Holds(r, a) then 1 else 0) + Count(Regions(MinusAll(slices, r)), a)
  {
    var r := Place(slices[i], size);
    forall j | 0 <= j < |slices|
      ensures TopReached(slices[j].region, r)
    {
      PlacedAtTop(slices, i, size, j);
    }
    MinusAllCount(slices, r, a);
    if Holds(r, a) {
      CountAt(Regions(slices), a, i);
    }
  }

  lemma CarveStep(slices: seq<Slice>, i: nat, size: nat)
    requires Disjoint(slices) && i < |slices| && 0 < size <= slices[i].region.size
    ensures Disjoint(MinusAll(slices, Place(slices[i], size)))
  {
    forall a: nat
      ensures Count(Regions(MinusAll(slices, Place(slices[i], size))), a) <= 1
    {
      StepCount(slices, i, size, a);
    }
  }

  // Said without counting: placed children do not overlap each other or what is
  // left.
  lemma {:induction false} PlacedDisjoint(slices: seq<Slice>, requests: seq<Request>, i: nat, j: nat)
    requires Disjoint(slices) && Carve(slices, requests).Some?
    requires forall k :: 0 <= k < |requests| ==> requests[k].size > 0
    requires i < j < |requests|
    ensures !Overlaps(Carve(slices, requests).value.0[i], Carve(slices, requests).value.0[j])
  {
    var (placed, left) := Carve(slices, requests).value;
    PlacedSize(slices, requests, i);
    PlacedSize(slices, requests, j);
    if Overlaps(placed[i], placed[j]) {
      var a := if placed[i].addr > placed[j].addr then placed[i].addr else placed[j].addr;
      CountTwo(placed, a, i, j);
      CarveConserves(slices, requests, a);
    }
  }

  lemma {:induction false} PlacedSize(slices: seq<Slice>, requests: seq<Request>, i: nat)
    requires Carve(slices, requests).Some? && i < |requests|
    ensures Carve(slices, requests).value.0[i].size == requests[i].size
    decreases |requests|
  {
    if i > 0 {
      var r := Place(slices[Best(slices, requests[0])], requests[0].size);
      PlacedSize(MinusAll(slices, r), requests[1..], i - 1);
    }
  }

  // -------------------- where children end up --------------------

  ghost predicate Inside(r: Region, s: Slice) {
    s.region.addr <= r.addr && End(r) <= End(s.region)
  }

  // Every slice of `parts` is part of one of `slices`, with its mode.
  ghost predicate PartsOf(parts: seq<Slice>, slices: seq<Slice>) {
    forall i :: 0 <= i < |parts| ==> PartOf(parts[i], slices)
  }

  ghost predicate PartOf(p: Slice, slices: seq<Slice>) {
    exists j :: 0 <= j < |slices| && Inside(p.region, slices[j]) && p.mode == slices[j].mode
  }

  lemma {:induction false} MinusAllParts(slices: seq<Slice>, r: Region)
    requires forall i :: 0 <= i < |slices| ==> TopReached(slices[i].region, r)
    ensures PartsOf(MinusAll(slices, r), slices)
    decreases slices
  {
    if slices != [] {
      var s, head, tail := slices[0], WithMode(Minus(slices[0].region, r), slices[0].mode), MinusAll(slices[1..], r);
      assert forall i :: 0 <= i < |slices[1..]| ==> slices[1..][i] == slices[i + 1];
      MinusAllParts(slices[1..], r);
      forall i | 0 <= i < |head + tail|
        ensures PartOf((head + tail)[i], slices)
      {
        if i < |head| {
          assert Inside(head[i].region, slices[0]);
        } else {
          assert PartOf(tail[i - |head|], slices[1..]);
          PartOfMore(tail[i - |head|], slices);
        }
      }
    }
  }

  lemma PartOfMore(p: Slice, slices: seq<Slice>)
    requires slices != [] && PartOf(p, slices[1..])
    ensures PartOf(p, slices)
  {
    var j :| 0 <= j < |slices[1..]| && Inside(p.region, slices[1..][j]) && p.mode == slices[1..][j].mode;
    assert Inside(p.region, slices[j + 1]);
  }

  // Each child lies in one of the parent's slices, of a mode that has all its flags.
  lemma {:induction false} PlacedInParent(slices: seq<Slice>, requests: seq<Request>, i: nat)
    requires Disjoint(slices) && Carve(slices, requests).Some? && i < |requests|
    requires forall k :: 0 <= k < |requests| ==> requests[k].size > 0
    ensures var r := Carve(slices, requests).value.0[i];
            exists s :: s in slices && requests[i].mode <= s.mode
                        && s.region.addr <= r.addr && r.addr + r.size <= s.region.addr + s.region.size
    decreases |requests|
  {
    hide MinusAll, Best;
    var b := Best(slices, requests[0]);
    var r := Place(slices[b], requests[0].size);
    if i == 0 {
      assert slices[b] in slices;
    } else {
      CarveStep(slices, b, requests[0].size);
      PlacedInParent(MinusAll(slices, r), requests[1..], i - 1);
      var placed := Carve(MinusAll(slices, r), requests[1..]).value.0[i - 1];
      PartInParent(slices, b, requests[0].size, placed, requests[i].mode);
    }
  }

  // What lies in one of the slices left lies in one of those there were.
  lemma PartInParent(slices: seq<Slice>, b: nat, size: nat, r: Region, mode: set<char>)
    requires Disjoint(slices) && b < |slices| && 0 < size <= slices[b].region.size
    requires exists s :: s in MinusAll(slices, Place(slices[b], size)) && mode <= s.mode
                         && s.region.addr <= r.addr && r.addr + r.size <= s.region.addr + s.region.size
    ensures exists s :: s in slices && mode <= s.mode
                        && s.region.addr <= r.addr && r.addr + r.size <= s.region.addr + s.region.size
  {
    hide MinusAll, Disjoint, TopReached, Place;
    var next := MinusAll(slices, Place(slices[b], size));
    forall j | 0 <= j < |slices|
      ensures TopReached(slices[j].region, Place(slices[b], size))
    {
      PlacedAtTop(slices, b, size, j);
    }
    MinusAllParts(slices, Place(slices[b], size));
    var t :| t in next && mode <= t.mode
             && t.region.addr <= r.addr && r.addr + r.size <= t.region.addr + t.region.size;
    var m :| 0 <= m < |next| && next[m] == t;
    assert PartOf(next[m], slices);
    var j :| 0 <= j < |slices| && Inside(t.region, slices[j]) && t.mode == slices[j].mode;
    assert slices[j] in slices;
  }

  lemma BestIsTightest(slices: seq<Slice>, q: Request)
    requires Best(slices, q) < |slices|
    ensures var b := slices[Best(slices, q)];
            && q.mode <= b.mode && 0 < b.region.size && q.size <= b.region.size
            && forall t :: t in slices && q.mode <= t.mode && 0 < t.region.size && q.size <= t.region.size ==>
                 && |b.mode - q.mode| <= |t.mode - q.mode|
                 && (|b.mode - q.mode| == |t.mode - q.mode| ==> t.region.addr <= b.region.addr)
  {
    hide Best;
    forall t | t in slices && Compatible(t, q)
      ensures !Better(t, slices[Best(slices, q)], q)
    {
      var j :| 0 <= j < |slices| && slices[j] == t;
    }
  }

  // Which slice a child is put into: of those left by the children before it that have its
  // flags and its size, one with the fewest flags beyond, and of these the one with the
  // highest address. The child lies at the top of it.
  lemma {:induction false} PlacedTightest(slices: seq<Slice>, requests: seq<Request>, k: nat) returns (i: nat)
    requires Carve(slices, requests).Some? && k < |requests|
    ensures Carve(slices, requests[..k]).Some?
    ensures Carve(slices, requests[..k]).value.0 == Carve(slices, requests).value.0[..k]
    ensures var at, q, r := Carve(slices, requests[..k]).value.1, requests[k], Carve(slices, requests).value.0[k];
            && i < |at| && q.mode <= at[i].mode && 0 < at[i].region.size && q.size <= at[i].region.size
            && r.size == q.size && r.addr + r.size == at[i].region.addr + at[i].region.size
            && forall t :: t in at && q.mode <= t.mode && 0 < t.region.size && q.size <= t.region.size ==>
                 && |at[i].mode - q.mode| <= |t.mode - q.mode|
                 && (|at[i].mode - q.mode| == |t.mode - q.mode| ==> t.region.addr <= at[i].region.addr)
    decreases |requests|
  {
    hide MinusAll, Best, Better, Compatible;
    var b := Best(slices, requests[0]);
    BestIsTightest(slices, requests[0]);
    if k == 0 {
      i := b;
      assert requests[..0] == [];
    } else {
      var next := MinusAll(slices, Place(slices[b], requests[0].size));
      i := PlacedTightest(next, requests[1..], k - 1);
      assert requests[..k][1..] == requests[1..][..k - 1];
    }
  }

  // Carving fails only when a child meets no slice that has its flags and its size.
  lemma {:induction false} CarveFails(slices: seq<Slice>, requests: seq<Request>) returns (k: nat, at: seq<Slice>)
    requires Carve(slices, requests).None?
    ensures k < |requests|
    ensures Carve(slices, requests[..k]).Some? && at == Carve(slices, requests[..k]).value.1
    ensures forall j :: 0 <= j < |at| && requests[k].mode <= at[j].mode && 0 < at[j].region.size ==>
                          at[j].region.size < requests[k].size
    decreases |requests|
  {
    hide MinusAll, Best;
    var b := Best(slices, requests[0]);
    if b == |slices| {
      k, at := 0, slices;
      assert requests[..0] == [];
    } else {
      var next := MinusAll(slices, Place(slices[b], requests[0].size));
      k, at := CarveFails(next, requests[1..]);
      assert requests[..k + 1][1..] == requests[1..][..k];
      k := k + 1;
    }
  }

  // -------------------- the loops --------------------

  // A parent box: `consume` and the update of its slices, child after child.
  class Parent {
    var slices: seq<Slice>

    constructor (slices: seq<Slice>)
      ensures this.slices == slices
    {
      this.slices := slices;
    }

    // `slice - region` for every slice.
    method Remove(r: Region)
      modifies this
      ensures slices == MinusAll(old(slices), r)
    {
      hide Minus, WithMode;
      var nslices: seq<Slice> := [];
      assert slices[0..] == slices;
      for i := 0 to |slices|
        invariant slices == old(slices)
        invariant nslices + MinusAll(slices[i..], r) == MinusAll(slices, r)
      {
        assert slices[i..][1..] == slices[i + 1..];
        var part := WithMode(Minus(slices[i].region, r), slices[i].mode);
        assert (nslices + part) + MinusAll(slices[i + 1..], r) == nslices + (part + MinusAll(slices[i + 1..], r));
        nslices := nslices + part;
      }
      assert slices[|slices|..] == [];
      slices := nslices;
    }

    // Places the children in order. The slices are left as they were after the last
    // child that could be placed.
    method PlaceAll(requests: seq<Request>) returns (placed: Option<seq<Region>>)
      modifies this
      ensures placed.Some? <==> Carve(old(slices), requests).Some?
      ensures placed.Some? ==> Carve(old(slices), requests) == Some((placed.value, slices))
    {
      hide Best, MinusAll;
      var done: seq<Region> := [];
      AfterSteps([], Region(0, 0), Carve(slices, requests));
      assert requests[0..] == requests;
      for k := 0 to |requests|
        invariant Carve(old(slices), requests) == After(done, Carve(slices, requests[k..]))
      {
        var q := requests[k];
        var i := Best(slices, q);
        if i == |slices| {
          return None;
        }
        var r := Place(slices[i], q.size);
        assert requests[k..][1..] == requests[k + 1..];
        AfterSteps(done, r, Carve(MinusAll(slices, r), requests[k + 1..]));
        Remove(r);
        done := done + [r];
      }
      assert requests[|requests|..] == [] && done + [] == done;
      return Some(done);
    }
  }

  // A result with the regions already placed in front.
  ghost function After(done: seq<Region>, r: Option<(seq<Region>, seq<Slice>)>): Option<(seq<Region>, seq<Slice>)> {
    if r.None? then None else Some((done + r.value.0, r.value.1))
  }

  lemma AfterSteps(done: seq<Region>, x: Region, r: Option<(seq<Region>, seq<Slice>)>)
    ensures After([], r) == r
    ensures After(done, After([x], r)) == After(done + [x], r)
  {
    if r.Some? {
      assert [] + r.value.0 == r.value.0;
      assert done + ([x] + r.value.0) == (done + [x]) + r.value.0;
    }
  }
}
