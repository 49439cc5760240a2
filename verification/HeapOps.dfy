/** What one call of the allocator does, on the block view and on the words. */
module HeapOps {
  import opened HeapBlocks

  // `(size+3) / 4` in 32-bit unsigned arithmetic.
  function RequestWords(bytes: nat): nat
    requires bytes < ADDRESS_SPACE
  {
    (bytes + 3) % ADDRESS_SPACE / 4
  }

  ghost predicate Fits(b: Block, w: nat) {
    !b.used && b.size >= w
  }

  // The block the first-fit walk stops at, or |bs| when it runs off the end.
  ghost function FirstFit(bs: seq<Block>, w: nat): (i: nat)
    ensures i <= |bs|
    ensures forall j :: 0 <= j < i ==> !Fits(bs[j], w)
    ensures i < |bs| ==> Fits(bs[i], w)
  {
    if bs == [] || Fits(bs[0], w) then 0 else 1 + FirstFit(bs[1..], w)
  }

  // The block chosen for `w` words is one word too large: too small to split, yet
  // its last word is not the word the used-footer is written to.
  ghost predicate LeavesOneWord(bs: seq<Block>, w: nat) {
    var i := FirstFit(bs, w);
    i < |bs| && bs[i].size == w + 1
  }

  ghost function Carve(b: Block, w: nat): seq<Block>
    requires b.size >= w
  {
    if b.size >= w + 2
    then [Block(w, true), Block(b.size - (w + 2), false)]
    else [Block(b.size, true)]
  }

  ghost function MallocBlocks(bs: seq<Block>, w: nat): seq<Block> {
    var i := FirstFit(bs, w);
    if i == |bs| then bs else bs[..i] + Carve(bs[i], w) + bs[i + 1..]
  }

  // The payload address returned, 0 for NULL.
  ghost function MallocAddress(bs: seq<Block>, w: nat): nat {
    var i := FirstFit(bs, w);
    if i == |bs| then 0 else Span(bs[..i]) + 1
  }

  // The word writes of a successful malloc of `w` words at a free block of
  // `psize` words whose header is at `at`.
  ghost function MallocWords(s: seq<Word>, at: nat, psize: nat, w: nat): (s': seq<Word>)
    requires |s| < 0x4000_0000 && w <= psize && at + psize + 2 <= |s|
    ensures |s'| == |s|
  {
    if psize >= w + 2 then
      s[at + w + 2 := psize - (w + 2)]
       [at + psize + 1 := psize - (w + 2)]
       [at := w - USED_BIT]
       [at + w + 1 := w - USED_BIT]
    else
      s[at := psize - USED_BIT][at + w + 1 := psize - USED_BIT]
  }

  // Coalescing absorbs the whole run of free blocks around block `i`.
  ghost function LeftEdge(bs: seq<Block>, i: nat): (l: nat)
    requires i < |bs|
    ensures l <= i
    ensures forall j :: l <= j < i ==> !bs[j].used
    ensures l > 0 ==> bs[l - 1].used
  {
    if i > 0 && !bs[i - 1].used then LeftEdge(bs, i - 1) else i
  }

  ghost function RightEdge(bs: seq<Block>, i: nat): (r: nat)
    requires i < |bs|
    ensures i < r <= |bs|
    ensures forall j :: i < j < r ==> !bs[j].used
    ensures r < |bs| ==> bs[r].used
    decreases |bs| - i
  {
    if i + 1 < |bs| && !bs[i + 1].used then RightEdge(bs, i + 1) else i + 1
  }

  ghost function FreeBlocks(bs: seq<Block>, i: nat): seq<Block>
    requires i < |bs|
  {
    var l, r := LeftEdge(bs, i), RightEdge(bs, i);
    SpanPositive(bs[l..r]);
    bs[..l] + [Block(Span(bs[l..r]) - 2, false)] + bs[r..]
  }

  ghost function FreeWords(s: seq<Word>, at: nat, psize: nat): (s': seq<Word>)
    requires |s| < 0x4000_0000 && at + psize + 2 <= |s|
    ensures |s'| == |s|
  {
    s[at := psize][at + psize + 1 := psize]
  }

  lemma SpanPositive(bs: seq<Block>)
    ensures bs != [] ==> Span(bs) >= 2
  {
  }

  // Rounding a byte count up to words loses bytes for exactly the three largest
  // counts, where the sum wraps around.
  lemma RequestCovers(bytes: nat)
    requires bytes < ADDRESS_SPACE
    ensures 4 * RequestWords(bytes) >= bytes <==> bytes <= 0xffff_fffc
    ensures bytes <= 0xffff_fffc ==> 4 * RequestWords(bytes) < bytes + 4
    ensures bytes > 0xffff_fffc ==> RequestWords(bytes) == 0
  {
  }

  // Replacing the middle of a tiled heap leaves it tiled when the new middle is
  // tiled over the same words and nothing else was written.
  lemma Replace(s: seq<Word>, s': seq<Word>, at: nat, mid: nat, end: nat,
                before: seq<Block>, was: seq<Block>, now: seq<Block>, after: seq<Block>)
    requires Tiled(s, at, before + was + after) && |s| == |s'|
    requires mid == at + Span(before) && end == mid + Span(was) == mid + Span(now)
    requires Tiled(s', mid, now)
    requires forall k :: 0 <= k < |s| && !(mid <= k < end) ==> s[k] == s'[k]
    ensures Tiled(s', at, before + now + after)
  {
    TiledSplit(s, at, mid, end, before, was, after);
    TiledFrame(s, s', at, before);
    TiledFrame(s, s', end, after);
    TiledJoin(s', at, mid, end, before, now, after);
  }

  lemma SpanThree(a: seq<Block>, b: seq<Block>, c: seq<Block>)
    ensures Span(a + b + c) == Span(a) + Span(b) + Span(c)
  {
    SpanConcat(a + b, c);
    SpanConcat(a, b);
  }

  lemma TiledSplit(s: seq<Word>, at: nat, mid: nat, end: nat, a: seq<Block>, b: seq<Block>, c: seq<Block>)
    requires Tiled(s, at, a + b + c) && mid == at + Span(a) && end == mid + Span(b)
    ensures Tiled(s, at, a) && Tiled(s, mid, b) && Tiled(s, end, c)
  {
    SpanConcat(a, b);
    TiledConcat(s, at, a + b, c);
    TiledConcat(s, at, a, b);
  }

  lemma TiledJoin(s: seq<Word>, at: nat, mid: nat, end: nat, a: seq<Block>, b: seq<Block>, c: seq<Block>)
    requires mid == at + Span(a) && end == mid + Span(b)
    requires Tiled(s, at, a) && Tiled(s, mid, b) && Tiled(s, end, c)
    ensures Tiled(s, at, a + b + c)
  {
    SpanConcat(a, b);
    TiledConcat(s, at, a, b);
    TiledConcat(s, at, a + b, c);
  }

  lemma LiveThree(a: seq<Block>, b: seq<Block>, c: seq<Block>, mid: nat, end: nat)
    requires mid == Span(a) && end == mid + Span(b)
    ensures Live(a + b + c, 0) == Live(a, 0) + Live(b, mid) + Live(c, end)
  {
    hide Span, Live;
    SpanConcat(a, b);
    LiveConcat(a + b, c, 0);
    LiveConcat(a, b, 0);
  }

  // A malloc keeps the heap tiled, unless the chosen block is one word too large.
  lemma MallocTiles(s: seq<Word>, bs: seq<Block>, w: nat)
    requires Layout(s, bs) && FirstFit(bs, w) < |bs| && !LeavesOneWord(bs, w)
    ensures var i := FirstFit(bs, w);
            && Span(bs[..i]) + bs[i].size + 2 <= |s|
            && Layout(MallocWords(s, Span(bs[..i]), bs[i].size, w), MallocBlocks(bs, w))
  {
    var i := FirstFit(bs, w);
    Around(s, bs, i);
    var at, b := Span(bs[..i]), bs[i];
    var s' := MallocWords(s, at, b.size, w);
    CarveTiled(s', at, b, w);
    Replace(s, s', 0, at, at + b.size + 2, bs[..i], [b], Carve(b, w), bs[i + 1..]);
    SpanThree(bs[..i], [b], bs[i + 1..]);
    SpanThree(bs[..i], Carve(b, w), bs[i + 1..]);
  }

  lemma CarveTiled(s': seq<Word>, at: nat, b: Block, w: nat)
    requires b.size >= w && b.size != w + 1 && at + b.size + 2 <= |s'|
    requires b.size >= w + 2 ==>
               && s'[at] == s'[at + w + 1] == w - USED_BIT
               && s'[at + w + 2] == s'[at + b.size + 1] == b.size - (w + 2)
    requires b.size == w ==> s'[at] == s'[at + w + 1] == w - USED_BIT
    ensures Tiled(s', at, Carve(b, w)) && Span(Carve(b, w)) == Span([b]) == b.size + 2
  {
    SpanOne(b);
    if b.size >= w + 2 {
      var rest := Block(b.size - (w + 2), false);
      assert Carve(b, w)[1..] == [rest];
      assert [rest][1..] == [];
      SpanOne(rest);
    } else {
      assert Carve(b, w)[1..] == [];
    }
  }

  lemma TiledOne(s: seq<Word>, at: nat, b: Block)
    requires at + b.size + 2 <= |s| && s[at] == s[at + b.size + 1] == Tag(b)
    ensures Tiled(s, at, [b])
  {
    assert [b][1..] == [];
  }

  // In the one-word case no reading of the words as blocks is left at all.
  lemma MallocBreaks(s: seq<Word>, bs: seq<Block>, w: nat, bs': seq<Block>)
    requires Layout(s, bs) && LeavesOneWord(bs, w)
    ensures var i := FirstFit(bs, w);
            && Span(bs[..i]) + bs[i].size + 2 <= |s|
            && !Layout(MallocWords(s, Span(bs[..i]), bs[i].size, w), bs')
  {
    hide Tiled;
    var i := FirstFit(bs, w);
    Around(s, bs, i);
    var s' := MallocWords(s, Span(bs[..i]), bs[i].size, w);
    if Layout(s', bs') {
      SplitAt(bs, i);
      TiledAround(s, 0, bs[..i], bs[i], bs[i + 1..]);
      ReadingPrefix(s, s', 0, bs[..i], bs');
    }
  }

  // A reading of s' that agrees with s over the tiled blocks `a` starts with `a`
  // and has a checked block right behind them.
  lemma {:induction false} ReadingPrefix(s: seq<Word>, s': seq<Word>, at: nat, a: seq<Block>, b: seq<Block>)
    requires |s| == |s'| < 0x4000_0000 && Tiled(s, at, a) && Tiled(s', at, b)
    requires at + Span(a) < |s| && at + Span(b) == |s|
    requires forall k :: at <= k < at + Span(a) ==> s[k] == s'[k]
    ensures var h := at + Span(a);
            h + Masked(s'[h]) + 1 < |s| && s'[h] == s'[h + Masked(s'[h]) + 1]
    decreases a
  {
    if a != [] {
      TiledFits(s, at, a);
      assert s[at] == s'[at];
      assert a[0] == b[0];
      ReadingPrefix(s, s', at + a[0].size + 2, a[1..], b[1..]);
    }
  }

  lemma FreeTiles(s: seq<Word>, bs: seq<Block>, i: nat)
    requires Layout(s, bs) && i < |bs|
    ensures var l, r := LeftEdge(bs, i), RightEdge(bs, i);
            && Span(bs[l..r]) >= 2
            && Span(bs[..l]) + Span(bs[l..r]) <= |s|
            && Layout(FreeWords(s, Span(bs[..l]), Span(bs[l..r]) - 2), FreeBlocks(bs, i))
  {
    hide FreeWords, Tiled, Span, LeftEdge, RightEdge;
    var l, r := LeftEdge(bs, i), RightEdge(bs, i);
    assert bs == bs[..l] + bs[l..r] + bs[r..];
    SpanPositive(bs[l..r]);
    MergeTiles(s, bs[..l], bs[l..r], bs[r..]);
  }

  lemma MergeTiles(s: seq<Word>, before: seq<Block>, run: seq<Block>, after: seq<Block>)
    requires Layout(s, before + run + after) && Span(run) >= 2
    ensures var size := Span(run) - 2;
            && Span(before) + size + 2 <= |s|
            && Layout(FreeWords(s, Span(before), size), before + [Block(size, false)] + after)
  {
    hide Span, Tiled;
    var merged := Block(Span(run) - 2, false);
    var at := Span(before);
    SpanThree(before, run, after);
    SpanThree(before, [merged], after);
    SpanOne(merged);
    FreedWords(s, at, merged.size);
    hide FreeWords;
    var s' := FreeWords(s, at, merged.size);
    TiledOne(s', at, merged);
    Replace(s, s', 0, at, at + merged.size + 2, before, run, [merged], after);
  }

  lemma FreedWords(s: seq<Word>, at: nat, size: nat)
    requires |s| < 0x4000_0000 && at + size + 2 <= |s|
    ensures var s' := FreeWords(s, at, size);
            && |s'| == |s| && s'[at] == s'[at + size + 1] == Tag(Block(size, false))
            && forall k :: 0 <= k < |s| && k != at && k != at + size + 1 ==> s'[k] == s[k]
  {
  }
}
