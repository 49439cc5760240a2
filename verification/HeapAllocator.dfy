/** The allocator itself: malloc and free over one array of words, as written. */
module HeapAllocator {
  import opened HeapBlocks
  import opened HeapOps
  import opened HeapRun

  datatype MallocResult = Aborted | Address(ptr: nat)

  // Where malloc's walk stops: at two tags that differ, past the last block, or
  // at a free block of `size` words whose header is `at`.
  datatype Stop = Corrupt | PastEnd | Hit(at: nat, size: nat)

  class Allocator {
    const heap: array<Word>
    var started: bool
    ghost var blocks: seq<Block>

    // Before first use the heap is the one the first malloc sets up.
    ghost function View(): Heap
      reads this, heap
      requires 2 <= heap.Length < 0x4000_0000
    {
      if started then Heap(heap[..], blocks) else Fresh(heap[..])
    }

    ghost predicate Valid()
      reads this, heap
    {
      2 <= heap.Length < 0x4000_0000 && blocks == View().blocks && Layout(View().words, blocks)
    }

    constructor (words: nat)
      requires 2 <= words < 0x4000_0000
      ensures Valid() && fresh(heap) && heap.Length == words && !started
    {
      heap := new Word[words];
      started := false;
      blocks := [Block(words - 2, false)];
      new;
      FreshTiles(heap[..]);
    }

    method Start()
      requires Valid()
      modifies this, heap
      ensures Valid() && started && View() == old(View())
    {
      if !started {
        heap[0] := heap.Length - 2;
        heap[heap.Length - 1] := heap.Length - 2;
        started := true;
        assert heap[..] == Fresh(old(heap[..])).words;
      }
    }

    // The first-fit walk with its corruption check, which never fires.
    method Walk(size: nat) returns (stop: Stop)
      requires Layout(heap[..], blocks)
      ensures var i := FirstFit(blocks, size);
              stop == if i == |blocks| then PastEnd else Hit(Span(blocks[..i]), blocks[i].size)
    {
      hide Span, Tiled, FirstFit;
      var ptr := 0;
      ghost var j := 0;
      assert blocks[..0] == [] && blocks[0..] == blocks;
      SpanNil();
      while ptr < heap.Length
        invariant j <= |blocks| && ptr == Span(blocks[..j]) <= heap.Length
        invariant ptr + Span(blocks[j..]) == heap.Length
        invariant forall k :: 0 <= k < j ==> !Fits(blocks[k], size)
        decreases heap.Length - ptr
      {
        assert j < |blocks| by {
          assert blocks[|blocks|..] == [];
        }
        Around(heap[..], blocks, j);
        var psize := heap[ptr];
        if heap[ptr] != heap[ptr + Masked(psize) + 1] {
          return Corrupt;
        }
        if psize >= size {
          FirstFitIs(blocks, size, j);
          return Hit(ptr, psize);
        }
        ptr := ptr + Masked(psize) + 2;
        j := j + 1;
      }
      if j < |blocks| {
        Around(heap[..], blocks, j);
      }
      FirstFitIs(blocks, size, j);
      return PastEnd;
    }

    // The word writes of a malloc at the free block with header `ptr`: split when
    // two tags fit behind the request, then mark as used.
    method Take(ptr: nat, whole: nat, size: nat)
      requires heap.Length < 0x4000_0000 && size <= whole && ptr + whole + 2 <= heap.Length
      modifies heap
      ensures heap[..] == MallocWords(old(heap[..]), ptr, whole, size)
    {
      var psize := whole;
      if psize >= size + 2 {
        heap[ptr + size + 2] := psize - (size + 2);
        heap[ptr + psize + 1] := psize - (size + 2);
        heap[ptr] := size;
        heap[ptr + size + 1] := size;
        psize := size;
      }
      heap[ptr] := Marked(psize);
      heap[ptr + size + 1] := Marked(psize);
    }

    // __wrap_malloc. The word-level outcome is MallocHeap in every case; the heap
    // stays valid exactly when the chosen block is not one word too large.
    method Malloc(bytes: nat) returns (r: MallocResult)
      requires Valid() && bytes < ADDRESS_SPACE
      modifies this, heap
      ensures started
      ensures View() == MallocHeap(old(View()), RequestWords(bytes))
      ensures Valid() <==> !LeavesOneWord(old(blocks), RequestWords(bytes))
      ensures r == Address(MallocAddress(old(blocks), RequestWords(bytes)))
    {
      hide Span, Tiled, FirstFit;
      Start();
      var size := RequestWords(bytes);
      var stop := Walk(size);
      match stop
      case Corrupt =>
        return Aborted;
      case PastEnd =>
        return Address(0);
      case Hit(ptr, psize) =>
        Around(heap[..], blocks, FirstFit(blocks, size));
        Outcome(heap[..], blocks, size);
        Take(ptr, psize, size);
        blocks := MallocBlocks(blocks, size);
        return Address(ptr + 1);
    }

    // The coalescing loop, starting from the used block `i` at `first`. It stops
    // at the edges of the free run around that block.
    method Coalesce(first: nat, size: nat, ghost i: nat) returns (ptr: nat, psize: nat)
      requires Layout(heap[..], blocks) && i < |blocks| && blocks[i].used
      requires first == Span(blocks[..i]) && size == blocks[i].size
      ensures var l, r := LeftEdge(blocks, i), RightEdge(blocks, i);
              ptr == Span(blocks[..l]) && psize + 2 == Span(blocks[l..r])
    {
      hide Span, Tiled, LeftEdge, RightEdge;
      ghost var l: nat, r: nat := i, i + 1;
      ptr, psize := first, size;
      assert blocks[i..i + 1] == [blocks[i]];
      SpanOne(blocks[i]);
      Neighbours(heap[..], blocks, l, r);
      while true
        invariant l <= i < r <= |blocks|
        invariant ptr == Span(blocks[..l]) && psize + 2 == Span(blocks[l..r])
        invariant ptr + psize + 2 <= heap.Length
        invariant forall k :: l <= k < r && k != i ==> !blocks[k].used
        decreases heap.Length - psize
      {
        Neighbours(heap[..], blocks, l, r);
        if ptr - 1 > 0 && heap[ptr - 1] >= 0 {
          var merged: nat := heap[ptr - 1];
          psize := psize + merged + 2;
          ptr := ptr - (merged + 2);
          l := l - 1;
        } else if ptr + psize + 2 < heap.Length && heap[ptr + psize + 2] >= 0 {
          var merged: nat := heap[ptr + psize + 2];
          psize := psize + merged + 2;
          r := r + 1;
        } else {
          break;
        }
      }
      EdgesAre(blocks, i, l, r);
    }

    // __wrap_free. The result says whether the header and footer of the block
    // disagreed, in which case the source aborts.
    method Free(pptr: nat) returns (aborted: bool)
      requires Valid() && (pptr == 0 || pptr in Payloads(View()))
      modifies this, heap
      ensures Valid() && started == old(started) && !aborted
      ensures View() == FreeHeap(old(View()), pptr)
    {
      hide Span, Tiled, Live, IndexOf, LeftEdge, RightEdge;
      if pptr == 0 {
        return false;
      }
      if !started {
        LiveOne(blocks[0], 0);
      }
      ghost var i := IndexOf(blocks, 0, pptr);
      Around(heap[..], blocks, i);
      var ptr := pptr - 1;
      var psize := heap[ptr];
      if heap[ptr] != heap[ptr + Masked(psize) + 1] {
        return true;
      }
      var at, size := Coalesce(ptr, Masked(psize), i);
      FreeTiles(heap[..], blocks, i);
      heap[at] := size;
      heap[at + size + 1] := size;
      blocks := FreeBlocks(blocks, i);
      aborted := false;
    }
  }

  // Malloc's words are a tiled heap again exactly outside the one-word case.
  lemma Outcome(s: seq<Word>, bs: seq<Block>, w: nat)
    requires Layout(s, bs) && FirstFit(bs, w) < |bs|
    ensures var i := FirstFit(bs, w);
            && Span(bs[..i]) + bs[i].size + 2 <= |s|
            && (Layout(MallocWords(s, Span(bs[..i]), bs[i].size, w), MallocBlocks(bs, w))
                <==> !LeavesOneWord(bs, w))
  {
    hide *;
    if LeavesOneWord(bs, w) {
      MallocBreaks(s, bs, w, MallocBlocks(bs, w));
    } else {
      MallocTiles(s, bs, w);
    }
  }

  lemma FreshTiles(s: seq<Word>)
    requires 2 <= |s| < 0x4000_0000
    ensures Layout(Fresh(s).words, Fresh(s).blocks)
  {
    var b := Block(|s| - 2, false);
    SpanOne(b);
    TiledOne(Fresh(s).words, 0, b);
  }

  // The walk's stopping block is the first fit, and running off the end is none.
  lemma {:induction false} FirstFitIs(bs: seq<Block>, w: nat, j: nat)
    requires j <= |bs| && (j < |bs| ==> Fits(bs[j], w))
    requires forall k :: 0 <= k < j ==> !Fits(bs[k], w)
    ensures FirstFit(bs, w) == j
  {
  }

  lemma EdgesAre(bs: seq<Block>, i: nat, l: nat, r: nat)
    requires l <= i < r <= |bs| && bs[i].used
    requires forall k :: l <= k < r && k != i ==> !bs[k].used
    requires l > 0 ==> bs[l - 1].used
    requires r < |bs| ==> bs[r].used
    ensures LeftEdge(bs, i) == l && RightEdge(bs, i) == r
  {
    hide LeftEdge, RightEdge;
    var l', r' := LeftEdge(bs, i), RightEdge(bs, i);
    if l' < l || l < l' || r' < r || r < r' {
      assert false;
    }
  }

  // The words just outside a run of blocks are the footer of the block before it
  // and the header of the block after it.
  lemma Neighbours(s: seq<Word>, bs: seq<Block>, l: nat, r: nat)
    requires Layout(s, bs) && l < r <= |bs|
    ensures var at, end := Span(bs[..l]), Span(bs[..l]) + Span(bs[l..r]);
            && end <= |s|
            && (l == 0 <==> at < 2)
            && (l > 0 ==>
                  && s[at - 1] == Tag(bs[l - 1]) && at >= bs[l - 1].size + 2
                  && Span(bs[..l - 1]) == at - (bs[l - 1].size + 2)
                  && Span(bs[l - 1..r]) == Span(bs[l..r]) + bs[l - 1].size + 2)
            && (r == |bs| <==> end == |s|)
            && (r < |bs| ==>
                  && s[end] == Tag(bs[r]) && end + bs[r].size + 2 <= |s|
                  && Span(bs[l..r + 1]) == Span(bs[l..r]) + bs[r].size + 2)
  {
    hide Span, Tiled;
    assert bs == bs[..l] + bs[l..r] + bs[r..];
    SpanThree(bs[..l], bs[l..r], bs[r..]);
    if l > 0 {
      Around(s, bs, l - 1);
      assert bs[l - 1..r] == [bs[l - 1]] + bs[l..r];
      SpanConcat([bs[l - 1]], bs[l..r]);
      SpanOne(bs[l - 1]);
    } else {
      assert bs[..0] == [];
      SpanNil();
    }
    if r < |bs| {
      Around(s, bs, r);
      assert bs[..r] == bs[..l] + bs[l..r];
      SpanConcat(bs[..l], bs[l..r]);
      assert bs[l..r + 1] == bs[l..r] + [bs[r]];
      SpanConcat(bs[l..r], [bs[r]]);
      SpanOne(bs[r]);
    } else {
      assert bs[r..] == [];
      SpanNil();
    }
  }

  lemma SpanNil()
    ensures Span([]) == 0
  {
  }
}
