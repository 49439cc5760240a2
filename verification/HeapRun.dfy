/** Whole runs of the allocator: what every malloc, free and client store keeps,
    and what a client may rely on between its own malloc and free. */
module HeapRun {
  import opened HeapBlocks
  import opened HeapOps

  ghost predicate NoneUsed(bs: seq<Block>) {
    forall i :: 0 <= i < |bs| ==> !bs[i].used
  }

  lemma LiveOne(b: Block, at: nat)
    ensures Live([b], at) == if b.used then map[at + 1 := b.size] else map[]
  {
    assert [b][1..] == [];
  }

  lemma {:induction false} LiveNone(bs: seq<Block>, at: nat)
    requires NoneUsed(bs)
    ensures Live(bs, at) == map[]
  {
    if bs != [] {
      LiveNone(bs[1..], at + bs[0].size + 2);
    }
  }

  // -------------------- malloc --------------------

  // malloc adds one live payload, at least as long as asked for, at an address
  // where nothing was live; every payload already live stays as it is.
  lemma MallocLive(bs: seq<Block>, w: nat)
    requires FirstFit(bs, w) < |bs|
    ensures var p := MallocAddress(bs, w);
            && p !in Live(bs, 0)
            && p in Live(MallocBlocks(bs, w), 0)
            && w <= Live(MallocBlocks(bs, w), 0)[p] <= w + 1
            && (!LeavesOneWord(bs, w) ==> Live(MallocBlocks(bs, w), 0)[p] == w)
            && Live(MallocBlocks(bs, w), 0) == Live(bs, 0)[p := Live(MallocBlocks(bs, w), 0)[p]]
  {
    hide Span, Live;
    var i := FirstFit(bs, w);
    var at, b, before, after := Span(bs[..i]), bs[i], bs[..i], bs[i + 1..];
    SplitAt(bs, i);
    SpanOne(b);
    CarveSpan(b, w);
    LiveThree(before, [b], after, at, at + b.size + 2);
    LiveThree(before, Carve(b, w), after, at, at + b.size + 2);
    LiveOne(b, at);
    CarveLive(b, w, at);
    LiveWithin(before, 0);
    LiveWithin(after, at + b.size + 2);
    MapInsert(Live(before, 0), Live(after, at + b.size + 2), at + 1, if b.size == w + 1 then b.size else w);
  }

  lemma MapInsert(a: map<nat, nat>, c: map<nat, nat>, p: nat, v: nat)
    requires p !in a && p !in c
    ensures a + map[p := v] + c == (a + map[] + c)[p := v]
  {
  }

  lemma MapRemove(a: map<nat, nat>, c: map<nat, nat>, p: nat, v: nat, m: map<nat, nat>, m': map<nat, nat>)
    requires p !in a && p !in c && m == a + map[p := v] + c && m' == a + map[] + c
    ensures m' == m - {p}
  {
  }

  lemma CarveSpan(b: Block, w: nat)
    requires b.size >= w
    ensures Span(Carve(b, w)) == b.size + 2
  {
    if b.size >= w + 2 {
      assert Carve(b, w) == [Block(w, true)] + [Block(b.size - (w + 2), false)];
      SpanConcat([Block(w, true)], [Block(b.size - (w + 2), false)]);
      SpanOne(Block(w, true));
      SpanOne(Block(b.size - (w + 2), false));
    } else {
      SpanOne(Block(b.size, true));
    }
  }

  lemma CarveLive(b: Block, w: nat, at: nat)
    requires b.size >= w
    ensures Live(Carve(b, w), at) == map[at + 1 := if b.size == w + 1 then b.size else w]
  {
    if b.size >= w + 2 {
      assert Carve(b, w)[1..] == [Block(b.size - (w + 2), false)];
      LiveOne(Block(b.size - (w + 2), false), at + w + 2);
    } else {
      LiveOne(Block(b.size, true), at);
    }
  }

  // Every word malloc writes lies in the free block it chose.
  lemma MallocFrames(s: seq<Word>, bs: seq<Block>, w: nat, p: nat, k: nat)
    requires Layout(s, bs) && FirstFit(bs, w) < |bs|
    requires p in Live(bs, 0) && p <= k < p + Live(bs, 0)[p]
    ensures var i := FirstFit(bs, w);
            && Span(bs[..i]) + bs[i].size + 2 <= |s|
            && k < |s|
            && MallocWords(s, Span(bs[..i]), bs[i].size, w)[k] == s[k]
  {
    var i := FirstFit(bs, w);
    var at, b := Span(bs[..i]), bs[i];
    Around(s, bs, i);
    LiveWithin(bs, 0);
    OutsideFree(bs, i, p);
  }

  // A live payload lies wholly on one side of any free block.
  lemma OutsideFree(bs: seq<Block>, i: nat, p: nat)
    requires i < |bs| && !bs[i].used && p in Live(bs, 0)
    ensures var at := Span(bs[..i]);
            p + Live(bs, 0)[p] <= at || at + bs[i].size + 2 <= p
  {
    hide Span, Live;
    SplitAt(bs, i);
    SpanOne(bs[i]);
    LiveThree(bs[..i], [bs[i]], bs[i + 1..], Span(bs[..i]), Span(bs[..i]) + bs[i].size + 2);
    LiveOne(bs[i], Span(bs[..i]));
    LiveWithin(bs[..i], 0);
    LiveWithin(bs[i + 1..], Span(bs[..i]) + bs[i].size + 2);
  }

  // malloc gives up only when no free block is large enough, and then no block
  // of that size could be made by it either.
  lemma MallocNull(bs: seq<Block>, w: nat)
    ensures MallocAddress(bs, w) == 0 <==> forall j :: 0 <= j < |bs| && !bs[j].used ==> bs[j].size < w
    ensures MallocAddress(bs, w) == 0 ==> MallocBlocks(bs, w) == bs
  {
    var i := FirstFit(bs, w);
    if i < |bs| {
      assert !bs[i].used && bs[i].size >= w;
    } else {
      forall j | 0 <= j < |bs| && !bs[j].used
        ensures bs[j].size < w
      {
        assert !Fits(bs[j], w);
      }
    }
  }

  lemma MallocCoalesced(bs: seq<Block>, w: nat)
    requires Coalesced(bs)
    ensures Coalesced(MallocBlocks(bs, w))
  {
    var i := FirstFit(bs, w);
    if i < |bs| {
      var bs' := MallocBlocks(bs, w);
      var d := |Carve(bs[i], w)|;
      forall j | 0 <= j < |bs'| - 1
        ensures bs'[j].used || bs'[j + 1].used
      {
        if j + 1 < i {
          assert bs'[j] == bs[j] && bs'[j + 1] == bs[j + 1];
        } else if j >= i + d {
          assert bs'[j] == bs[j - d + 1] && bs'[j + 1] == bs[j - d + 2];
        } else if j == i + 1 {
          assert bs'[j + 1] == bs[i + 1];
          assert bs[i].used || bs[i + 1].used;
        }
      }
    }
  }

  lemma MallocEven(bs: seq<Block>, w: nat)
    requires EvenSizes(bs) && w % 2 == 0
    ensures EvenSizes(MallocBlocks(bs, w)) && !LeavesOneWord(bs, w)
  {
  }

  // -------------------- free --------------------

  // The index of the used block whose payload starts at `p`.
  ghost function IndexOf(bs: seq<Block>, at: nat, p: nat): (i: nat)
    requires p in Live(bs, at)
    ensures i < |bs| && bs[i].used
    ensures at + Span(bs[..i]) + 1 == p && Live(bs, at)[p] == bs[i].size
    decreases bs
  {
    var rest := at + bs[0].size + 2;
    LiveWithin(bs[1..], rest);
    if p == at + 1 then
      assert bs[..0] == [];
      assert p !in Live(bs[1..], rest);
      0
    else
      var i := IndexOf(bs[1..], rest, p);
      assert bs[..i + 1][1..] == bs[1..][..i];
      i + 1
  }

  // free removes exactly the payload it was given from the live ones.
  lemma FreeLive(bs: seq<Block>, p: nat)
    requires p in Live(bs, 0)
    ensures Live(FreeBlocks(bs, IndexOf(bs, 0, p)), 0) == Live(bs, 0) - {p}
  {
    hide Span, Live, IndexOf, LeftEdge, RightEdge;
    var i := IndexOf(bs, 0, p);
    FreedRun(bs, i, LeftEdge(bs, i), RightEdge(bs, i), p);
  }

  lemma FreedRun(bs: seq<Block>, i: nat, l: nat, r: nat, p: nat)
    requires l <= i < r <= |bs| && bs[i].used && p == Span(bs[..i]) + 1
    requires forall j :: l <= j < r && j != i ==> !bs[j].used
    ensures Span(bs[l..r]) >= 2
    ensures Live(bs[..l] + [Block(Span(bs[l..r]) - 2, false)] + bs[r..], 0) == Live(bs, 0) - {p}
  {
    hide Span, Live;
    SpanPositive(bs[l..r]);
    var end, merged := Span(bs[..l]) + Span(bs[l..r]), Block(Span(bs[l..r]) - 2, false);
    MergedSplit(bs, i, l, r, p, end);
    MergedLive(bs[..l], merged, bs[r..], end);
    MapRemove(Live(bs[..l], 0), Live(bs[r..], end), p, bs[i].size, Live(bs, 0),
              Live(bs[..l] + [merged] + bs[r..], 0));
  }

  lemma MergedLive(before: seq<Block>, merged: Block, after: seq<Block>, end: nat)
    requires !merged.used && end == Span(before) + merged.size + 2
    ensures Live(before + [merged] + after, 0) == Live(before, 0) + map[] + Live(after, end)
  {
    hide Span, Live;
    SpanOne(merged);
    LiveThree(before, [merged], after, Span(before), end);
    LiveOne(merged, Span(before));
  }

  // The live payloads of a heap whose free run around block `i` is `l..r`.
  lemma MergedSplit(bs: seq<Block>, i: nat, l: nat, r: nat, p: nat, end: nat)
    requires l <= i < r <= |bs| && bs[i].used
    requires forall j :: l <= j < r && j != i ==> !bs[j].used
    requires p == Span(bs[..i]) + 1 && end == Span(bs[..l]) + Span(bs[l..r])
    ensures Live(bs, 0) == Live(bs[..l], 0) + map[p := bs[i].size] + Live(bs[r..], end)
    ensures Span(bs[..l]) < p && p + bs[i].size < end
    ensures p !in Live(bs[..l], 0) && p !in Live(bs[r..], end)
    ensures forall q :: q in Live(bs[..l], 0) ==> 0 < q && q + Live(bs[..l], 0)[q] < Span(bs[..l])
    ensures forall q :: q in Live(bs[r..], end) ==> end < q
  {
    hide Span, Live;
    assert bs == bs[..l] + bs[l..r] + bs[r..];
    LiveThree(bs[..l], bs[l..r], bs[r..], Span(bs[..l]), end);
    FreedRunLive(bs, i, l, r, p);
    SpanMid(bs, l, i, r);
    LiveWithin(bs[..l], 0);
    LiveWithin(bs[r..], end);
  }

  // In the run being merged only block `i` was live.
  lemma FreedRunLive(bs: seq<Block>, i: nat, l: nat, r: nat, p: nat)
    requires l <= i < r <= |bs| && bs[i].used && p == Span(bs[..i]) + 1
    requires forall j :: l <= j < r && j != i ==> !bs[j].used
    ensures Live(bs[l..r], Span(bs[..l])) == map[p := bs[i].size]
  {
    hide Span, Live;
    var at := Span(bs[..l]);
    var a, c := bs[l..i], bs[i + 1..r];
    assert bs[l..r] == a + ([bs[i]] + c);
    LiveConcat(a, [bs[i]] + c, at);
    LiveConcat([bs[i]], c, at + Span(a));
    LiveNone(a, at);
    SpanOne(bs[i]);
    LiveNone(c, at + Span(a) + bs[i].size + 2);
    LiveOne(bs[i], at + Span(a));
    assert bs[..i] == bs[..l] + a;
    SpanConcat(bs[..l], a);
  }

  lemma SpanMid(bs: seq<Block>, l: nat, i: nat, r: nat)
    requires l <= i < r <= |bs|
    ensures Span(bs[..l]) <= Span(bs[..i])
    ensures Span(bs[..i]) + bs[i].size + 2 <= Span(bs[..l]) + Span(bs[l..r])
  {
    assert bs[..i] == bs[..l] + bs[l..i];
    SpanConcat(bs[..l], bs[l..i]);
    assert bs[l..r] == bs[l..i] + [bs[i]] + bs[i + 1..r];
    SpanThree(bs[l..i], [bs[i]], bs[i + 1..r]);
    SpanOne(bs[i]);
  }

  // The words free writes are tags of the merged run: no payload that stays live
  // contains one of them.
  lemma FreeFrames(s: seq<Word>, bs: seq<Block>, p: nat, q: nat, k: nat)
    requires Layout(s, bs) && p in Live(bs, 0) && q in Live(bs, 0) && q != p
    requires q <= k < q + Live(bs, 0)[q]
    ensures var i := IndexOf(bs, 0, p);
            var l, r := LeftEdge(bs, i), RightEdge(bs, i);
            && Span(bs[l..r]) >= 2
            && Span(bs[..l]) + Span(bs[l..r]) <= |s|
            && k < |s|
            && FreeWords(s, Span(bs[..l]), Span(bs[l..r]) - 2)[k] == s[k]
  {
    hide Span, Live, Tiled, IndexOf, LeftEdge, RightEdge;
    var i := IndexOf(bs, 0, p);
    var l, r := LeftEdge(bs, i), RightEdge(bs, i);
    FreeTiles(s, bs, i);
    OutsideRun(bs, i, l, r, q);
    LiveWithin(bs, 0);
  }

  // Any other live payload lies wholly on one side of the merged run.
  lemma OutsideRun(bs: seq<Block>, i: nat, l: nat, r: nat, q: nat)
    requires l <= i < r <= |bs| && bs[i].used
    requires forall j :: l <= j < r && j != i ==> !bs[j].used
    requires q in Live(bs, 0) && q != Span(bs[..i]) + 1
    ensures q + Live(bs, 0)[q] < Span(bs[..l]) || Span(bs[..l]) + Span(bs[l..r]) < q
  {
    hide Span, Live;
    MergedSplit(bs, i, l, r, Span(bs[..i]) + 1, Span(bs[..l]) + Span(bs[l..r]));
  }

  lemma FreeCoalesced(bs: seq<Block>, i: nat)
    requires Coalesced(bs) && i < |bs|
    ensures Coalesced(FreeBlocks(bs, i))
  {
    var l, r := LeftEdge(bs, i), RightEdge(bs, i);
    var bs' := FreeBlocks(bs, i);
    forall j | 0 <= j < |bs'| - 1
      ensures bs'[j].used || bs'[j + 1].used
    {
      if j + 1 < l {
        assert bs'[j] == bs[j] && bs'[j + 1] == bs[j + 1];
      } else if j + 1 == l {
        assert bs'[j] == bs[l - 1];
      } else if j == l {
        assert bs'[j + 1] == bs[r];
      } else {
        assert bs'[j] == bs[j - l - 1 + r] && bs'[j + 1] == bs[j - l + r];
      }
    }
  }

  lemma {:induction false} EvenSpan(bs: seq<Block>)
    requires EvenSizes(bs)
    ensures Span(bs) % 2 == 0
  {
    if bs != [] {
      EvenSpan(bs[1..]);
    }
  }

  lemma FreeEven(bs: seq<Block>, i: nat)
    requires EvenSizes(bs) && i < |bs|
    ensures EvenSizes(FreeBlocks(bs, i))
  {
    var l, r := LeftEdge(bs, i), RightEdge(bs, i);
    EvenSpan(bs[l..r]);
  }

  // -------------------- runs --------------------

  datatype Op = Malloc(bytes: nat) | Free(ptr: nat) | Store(addr: nat, value: Word)

  datatype Heap = Heap(words: seq<Word>, blocks: seq<Block>)

  ghost predicate Good(h: Heap) {
    Layout(h.words, h.blocks) && Coalesced(h.blocks)
  }

  ghost function Payloads(h: Heap): map<nat, nat> {
    Live(h.blocks, 0)
  }

  // The heap after its first-use initialisation.
  ghost function Fresh(s: seq<Word>): Heap
    requires 2 <= |s| < 0x4000_0000
  {
    Heap(s[0 := |s| - 2][|s| - 1 := |s| - 2], [Block(|s| - 2, false)])
  }

  // What a client may do: ask for any number of bytes, free NULL or a live
  // payload, and store into live payloads.
  ghost predicate Proper(h: Heap, op: Op) {
    match op
    case Malloc(bytes) => bytes < ADDRESS_SPACE
    case Free(ptr) => ptr == 0 || ptr in Payloads(h)
    case Store(addr, _) => exists p :: p in Payloads(h) && p <= addr < p + Payloads(h)[p]
  }

  // The steps after which the heap is still readable.
  ghost predicate Allowed(h: Heap, op: Op) {
    Proper(h, op) && (op.Malloc? ==> !LeavesOneWord(h.blocks, RequestWords(op.bytes)))
  }

  ghost function MallocHeap(h: Heap, w: nat): Heap
    requires Layout(h.words, h.blocks)
  {
    var i := FirstFit(h.blocks, w);
    if i == |h.blocks| then h
    else
      Around(h.words, h.blocks, i);
      Heap(MallocWords(h.words, Span(h.blocks[..i]), h.blocks[i].size, w), MallocBlocks(h.blocks, w))
  }

  ghost function FreeHeap(h: Heap, ptr: nat): Heap
    requires Layout(h.words, h.blocks) && (ptr == 0 || ptr in Payloads(h))
  {
    if ptr == 0 then h
    else
      var i := IndexOf(h.blocks, 0, ptr);
      FreeTiles(h.words, h.blocks, i);
      var l, r := LeftEdge(h.blocks, i), RightEdge(h.blocks, i);
      Heap(FreeWords(h.words, Span(h.blocks[..l]), Span(h.blocks[l..r]) - 2), FreeBlocks(h.blocks, i))
  }

  ghost function Step(h: Heap, op: Op): Heap
    requires Good(h) && Allowed(h, op)
  {
    match op
    case Malloc(bytes) => MallocHeap(h, RequestWords(bytes))
    case Free(ptr) => FreeHeap(h, ptr)
    case Store(addr, value) =>
      LiveWithin(h.blocks, 0);
      Heap(h.words[addr := value], h.blocks)
  }

  lemma {:induction false} StoreTiles(s: seq<Word>, at: nat, bs: seq<Block>, p: nat, addr: nat, value: Word)
    requires Tiled(s, at, bs) && p in Live(bs, at) && p <= addr < p + Live(bs, at)[p] && addr < |s|
    ensures Tiled(s[addr := value], at, bs)
    decreases bs
  {
    var rest := at + bs[0].size + 2;
    LiveWithin(bs[1..], rest);
    if p in Live(bs[1..], rest) {
      StoreTiles(s, rest, bs[1..], p, addr, value);
    } else {
      TiledFrame(s, s[addr := value], rest, bs[1..]);
    }
  }

  lemma FreshGood(s: seq<Word>)
    requires 2 <= |s| < 0x4000_0000
    ensures Good(Fresh(s)) && Payloads(Fresh(s)) == map[]
  {
    var b := Block(|s| - 2, false);
    SpanOne(b);
    LiveOne(b, 0);
    TiledOne(Fresh(s).words, 0, b);
  }

  // Every allowed step keeps the heap tiled and coalesced.
  lemma StepKeepsGood(h: Heap, op: Op)
    requires Good(h) && Allowed(h, op)
    ensures Good(Step(h, op)) && |Step(h, op).words| == |h.words|
  {
    hide Span, Live, Tiled, FirstFit, IndexOf, LeftEdge, RightEdge;
    match op
    case Malloc(bytes) =>
      var w := RequestWords(bytes);
      MallocCoalesced(h.blocks, w);
      if FirstFit(h.blocks, w) < |h.blocks| {
        MallocTiles(h.words, h.blocks, w);
      }
    case Free(ptr) =>
      if ptr != 0 {
        var i := IndexOf(h.blocks, 0, ptr);
        FreeTiles(h.words, h.blocks, i);
        FreeCoalesced(h.blocks, i);
      }
    case Store(addr, value) =>
      var p :| p in Payloads(h) && p <= addr < p + Payloads(h)[p];
      LiveWithin(h.blocks, 0);
      StoreTiles(h.words, 0, h.blocks, p, addr, value);
  }

  // A payload that stays live keeps its length, and keeps its words except the
  // one a store names.
  lemma StepFrames(h: Heap, op: Op, p: nat)
    requires Good(h) && Allowed(h, op) && p in Payloads(h) && op != Free(p)
    ensures p in Payloads(Step(h, op)) && Payloads(Step(h, op))[p] == Payloads(h)[p]
  {
    LiveWithin(h.blocks, 0);
    StepKeepsGood(h, op);
    match op
    case Malloc(bytes) =>
      if FirstFit(h.blocks, RequestWords(bytes)) < |h.blocks| {
        MallocLive(h.blocks, RequestWords(bytes));
      }
    case Free(ptr) =>
      if ptr != 0 {
        FreeLive(h.blocks, ptr);
      }
    case Store(_, _) =>
  }

  lemma StepFramesWord(h: Heap, op: Op, p: nat, k: nat)
    requires Good(h) && Allowed(h, op) && p in Payloads(h) && op != Free(p)
    requires p <= k < p + Payloads(h)[p] && !(op.Store? && op.addr == k)
    ensures k < |h.words| == |Step(h, op).words| && Step(h, op).words[k] == h.words[k]
  {
    hide Span, Live, Tiled, IndexOf, LeftEdge, RightEdge, FirstFit;
    LiveWithin(h.blocks, 0);
    StepKeepsGood(h, op);
    match op
    case Malloc(bytes) =>
      if FirstFit(h.blocks, RequestWords(bytes)) < |h.blocks| {
        MallocFrames(h.words, h.blocks, RequestWords(bytes), p, k);
      }
    case Free(ptr) =>
      if ptr != 0 {
        FreeFrames(h.words, h.blocks, ptr, p, k);
      }
    case Store(_, _) =>
  }

  ghost predicate Runnable(h: Heap, ops: seq<Op>)
    decreases |ops|
  {
    Good(h) &&
    (ops != [] ==> Allowed(h, ops[0]) && Runnable(Step(h, ops[0]), ops[1..]))
  }

  ghost function Run(h: Heap, ops: seq<Op>): Heap
    requires Runnable(h, ops)
    decreases |ops|
  {
    if ops == [] then h else Run(Step(h, ops[0]), ops[1..])
  }

  // Whatever the client does, the heap stays an exact, coalesced tiling, so every
  // corruption check of every later walk passes.
  lemma {:induction false} RunKeepsGood(h: Heap, ops: seq<Op>)
    requires Runnable(h, ops)
    ensures Good(Run(h, ops)) && |Run(h, ops).words| == |h.words|
    ensures forall i :: 0 <= i < |Run(h, ops).blocks| ==> CheckPasses(Run(h, ops), i)
    decreases |ops|
  {
    if ops != [] {
      StepKeepsGood(h, ops[0]);
      RunKeepsGood(Step(h, ops[0]), ops[1..]);
    } else {
      forall i | 0 <= i < |h.blocks|
        ensures CheckPasses(h, i)
      {
        ChecksPass(h.words, h.blocks, i);
      }
    }
  }

  // Client steps whose requests all round to an even number of words.
  ghost predicate Disciplined(h: Heap, ops: seq<Op>)
    decreases |ops|
  {
    ops != [] ==>
      && Proper(h, ops[0])
      && (ops[0].Malloc? ==> RequestWords(ops[0].bytes) % 2 == 0)
      && (Good(h) && Allowed(h, ops[0]) ==> Disciplined(Step(h, ops[0]), ops[1..]))
  }

  // On an even heap even requests never meet the one-word case: parity is kept by
  // every step, so every disciplined run is allowed from end to end.
  lemma {:induction false} EvenRunsAreAllowed(h: Heap, ops: seq<Op>)
    requires Good(h) && EvenSizes(h.blocks) && Disciplined(h, ops)
    ensures Runnable(h, ops) && EvenSizes(Run(h, ops).blocks)
    decreases |ops|
  {
    if ops != [] {
      EvenStep(h, ops[0]);
      StepKeepsGood(h, ops[0]);
      EvenRunsAreAllowed(Step(h, ops[0]), ops[1..]);
    }
  }

  lemma EvenStep(h: Heap, op: Op)
    requires Good(h) && EvenSizes(h.blocks) && Proper(h, op)
    requires op.Malloc? ==> RequestWords(op.bytes) % 2 == 0
    ensures Allowed(h, op) && EvenSizes(Step(h, op).blocks)
  {
    hide Span, Live, Tiled, FirstFit, IndexOf, LeftEdge, RightEdge;
    match op
    case Malloc(bytes) => MallocEven(h.blocks, RequestWords(bytes));
    case Free(ptr) =>
      if ptr != 0 {
        FreeEven(h.blocks, IndexOf(h.blocks, 0, ptr));
      }
    case Store(_, _) =>
  }

  // A heap of an even number of words starts out even.
  lemma FreshEven(s: seq<Word>)
    requires 2 <= |s| < 0x4000_0000
    ensures EvenSizes(Fresh(s).blocks) <==> |s| % 2 == 0
  {
    assert Fresh(s).blocks[0].size == |s| - 2;
  }

  // After a malloc the words can be read as blocks in some way exactly when the
  // chosen block was not one word larger than the request.
  lemma MallocReadable(h: Heap, w: nat)
    requires Good(h)
    ensures (exists bs :: Layout(MallocHeap(h, w).words, bs)) <==> !LeavesOneWord(h.blocks, w)
  {
    if FirstFit(h.blocks, w) == |h.blocks| {
      assert Layout(MallocHeap(h, w).words, h.blocks);
    } else if LeavesOneWord(h.blocks, w) {
      forall bs
        ensures !Layout(MallocHeap(h, w).words, bs)
      {
        MallocBreaks(h.words, h.blocks, w, bs);
      }
    } else {
      MallocTiles(h.words, h.blocks, w);
      assert Layout(MallocHeap(h, w).words, MallocBlocks(h.blocks, w));
    }
  }

  // It happens: 17 to 20 bytes on a fresh heap of eight words.
  lemma OneWordExample(s: seq<Word>, bytes: nat)
    requires |s| == 8 && 17 <= bytes <= 20
    ensures Good(Fresh(s)) && LeavesOneWord(Fresh(s).blocks, RequestWords(bytes))
  {
    FreshGood(s);
  }

  // An empty heap of eight words has a payload for a caller who asks for all but three
  // bytes of the address space.
  lemma WrapExample(s: seq<Word>)
    requires |s| == 8
    ensures Good(Fresh(s)) && RequestWords(0xffff_fffd) == 0
    ensures MallocAddress(Fresh(s).blocks, RequestWords(0xffff_fffd)) != 0
  {
    FreshGood(s);
  }

  // What malloc gives its caller: NULL, or a payload that was not live before, is
  // live now, shares no word with any other, and holds the bytes asked for unless
  // rounding the request up wrapped around.
  lemma MallocServes(h: Heap, bytes: nat)
    requires Good(h) && Allowed(h, Malloc(bytes))
    ensures var p, h' := MallocAddress(h.blocks, RequestWords(bytes)), Step(h, Malloc(bytes));
            && (p == 0 ==> h' == h)
            && (p == 0 <==> forall j :: 0 <= j < |h.blocks| && !h.blocks[j].used ==>
                              h.blocks[j].size < RequestWords(bytes))
            && (p != 0 ==>
                  && p !in Payloads(h) && p in Payloads(h')
                  && Payloads(h') == Payloads(h)[p := RequestWords(bytes)]
                  && (4 * Payloads(h')[p] >= bytes <==> bytes <= 0xffff_fffc)
                  && forall q :: q in Payloads(h) ==>
                       q + Payloads(h)[q] + 2 <= p || p + Payloads(h')[p] + 2 <= q)
  {
    hide Span, Live, Tiled, FirstFit;
    var w := RequestWords(bytes);
    RequestCovers(bytes);
    MallocNull(h.blocks, w);
    if FirstFit(h.blocks, w) < |h.blocks| {
      MallocLive(h.blocks, w);
      var p, m := MallocAddress(h.blocks, w), Payloads(Step(h, Malloc(bytes)));
      forall q | q in Payloads(h)
        ensures q + Payloads(h)[q] + 2 <= p || p + m[p] + 2 <= q
      {
        if q < p {
          LiveDisjoint(MallocBlocks(h.blocks, w), 0, q, p);
        } else {
          LiveDisjoint(MallocBlocks(h.blocks, w), 0, p, q);
        }
      }
    }
  }

  // free takes exactly its argument away from the live payloads.
  lemma FreeReleases(h: Heap, p: nat)
    requires Good(h) && p in Payloads(h)
    ensures Payloads(Step(h, Free(p))) == Payloads(h) - {p}
  {
    LiveWithin(h.blocks, 0);
    FreeLive(h.blocks, p);
  }

  ghost predicate CheckPasses(h: Heap, i: nat)
    requires i < |h.blocks|
  {
    var at := Span(h.blocks[..i]);
    && at < |h.words|
    && at + Masked(h.words[at]) + 1 < |h.words|
    && h.words[at] == h.words[at + Masked(h.words[at]) + 1]
  }

  // Memory a client holds is its own: over any run that neither frees it nor
  // stores into it, it stays live at the same address with the same contents.
  lemma {:induction false} RunFrames(h: Heap, ops: seq<Op>, p: nat)
    requires Runnable(h, ops) && p in Payloads(h) && Free(p) !in ops
    requires forall op :: op in ops && op.Store? ==> !(p <= op.addr < p + Payloads(h)[p])
    ensures p in Payloads(Run(h, ops)) && Payloads(Run(h, ops))[p] == Payloads(h)[p]
    ensures p + Payloads(h)[p] <= |h.words| == |Run(h, ops).words|
    ensures Run(h, ops).words[p..p + Payloads(h)[p]] == h.words[p..p + Payloads(h)[p]]
    decreases |ops|
  {
    hide Span, Live, Tiled, Step;
    LiveWithin(h.blocks, 0);
    if ops != [] {
      var h', n := Step(h, ops[0]), Payloads(h)[p];
      assert ops[0] in ops;
      StepFrames(h, ops[0], p);
      StepKeepsGood(h, ops[0]);
      forall k | p <= k < p + n
        ensures h'.words[k] == h.words[k]
      {
        StepFramesWord(h, ops[0], p, k);
      }
      assert h'.words[p..p + n] == h.words[p..p + n];
      RunFrames(h', ops[1..], p);
    }
  }

  // A heap with nothing live is one free block, tagged as on first use.
  lemma EmptyIsFresh(h: Heap, s: seq<Word>)
    requires Good(h) && Payloads(h) == map[] && |s| == |h.words| >= 2
    ensures h.blocks == Fresh(s).blocks
    ensures h.words[0] == Fresh(s).words[0] && h.words[|s| - 1] == Fresh(s).words[|s| - 1]
  {
    forall i | 0 <= i < |h.blocks|
      ensures !h.blocks[i].used
    {
      if h.blocks[i].used {
        UsedIsLive(h.blocks, i);
      }
    }
    assert |h.blocks| <= 1 by {
      if |h.blocks| > 1 {
        NeighbourUsed(h.blocks);
      }
    }
    Around(h.words, h.blocks, 0);
    assert h.blocks == [h.blocks[0]];
    assert h.blocks[..0] == [];
    assert h.blocks[1..] == [];
  }

  lemma NeighbourUsed(bs: seq<Block>)
    requires Coalesced(bs) && |bs| > 1
    ensures exists i :: 0 <= i < |bs| && bs[i].used
  {
    assert bs[0].used || bs[0 + 1].used;
  }

  lemma UsedIsLive(bs: seq<Block>, i: nat)
    requires i < |bs| && bs[i].used
    ensures Live(bs, 0) != map[]
  {
    SplitAt(bs, i);
    SpanOne(bs[i]);
    LiveThree(bs[..i], [bs[i]], bs[i + 1..], Span(bs[..i]), Span(bs[..i]) + bs[i].size + 2);
    LiveOne(bs[i], Span(bs[..i]));
    LiveWithin(bs[i + 1..], Span(bs[..i]) + bs[i].size + 2);
    assert Span(bs[..i]) + 1 in Live(bs, 0);
  }

  // Freeing everything, in any order and after any history, undoes the history.
  lemma FreeAllRestores(s: seq<Word>, ops: seq<Op>)
    requires 2 <= |s| < 0x4000_0000
    requires Runnable(Fresh(s), ops) && Payloads(Run(Fresh(s), ops)) == map[]
    ensures Run(Fresh(s), ops).blocks == Fresh(s).blocks
    ensures |Run(Fresh(s), ops).words| == |s|
    ensures Run(Fresh(s), ops).words[0] == Run(Fresh(s), ops).words[|s| - 1] == |s| - 2
  {
    RunKeepsGood(Fresh(s), ops);
    EmptyIsFresh(Run(Fresh(s), ops), s);
  }
}
