/** The word-level picture of the boundary-tag heap: a heap of 32-bit words read
    as a sequence of blocks. Each block is a header word, `size` payload words and
    a footer word; header and footer hold the same tag, whose sign bit is set
    exactly while the block is in use. Addresses are word indices from the start
    of the heap, so 0 can stand for NULL: no payload starts there. */
module HeapBlocks {

  const USED_BIT := 0x8000_0000
  const ADDRESS_SPACE := 0x1_0000_0000

  // One signed 32-bit machine word.
  type Word = x: int | -USED_BIT <= x < USED_BIT

  datatype Block = Block(size: nat, used: bool)

  // `word & 0x7fffffff` on a two's complement word.
  function Masked(word: Word): nat {
    if word < 0 then word + USED_BIT else word
  }

  // `word | 0x80000000` on a two's complement word.
  function Marked(word: Word): Word {
    if word < 0 then word else word - USED_BIT
  }

  ghost function Tag(b: Block): int {
    if b.used then b.size - USED_BIT else b.size
  }

  ghost function Span(bs: seq<Block>): nat {
    if bs == [] then 0 else bs[0].size + 2 + Span(bs[1..])
  }

  // The words of `s` from `at` on are exactly the blocks `bs`, side by side.
  ghost predicate Tiled(s: seq<Word>, at: nat, bs: seq<Block>)
    decreases bs
  {
    bs != [] ==>
      && at + bs[0].size + 2 <= |s|
      && s[at] == s[at + bs[0].size + 1] == Tag(bs[0])
      && Tiled(s, at + bs[0].size + 2, bs[1..])
  }

  // The blocks fill the heap from end to end. A 32-bit address space holds fewer
  // than 2^30 words, so no size reaches the sign bit.
  ghost predicate Layout(s: seq<Word>, bs: seq<Block>) {
    |s| < 0x4000_0000 && Span(bs) == |s| && Tiled(s, 0, bs)
  }

  ghost predicate Coalesced(bs: seq<Block>) {
    forall i :: 0 <= i < |bs| - 1 ==> bs[i].used || bs[i + 1].used
  }

  ghost predicate EvenSizes(bs: seq<Block>) {
    forall i :: 0 <= i < |bs| ==> bs[i].size % 2 == 0
  }

  // The live payloads: start address to number of words.
  ghost function Live(bs: seq<Block>, at: nat): map<nat, nat> {
    if bs == [] then map[]
    else
      (if bs[0].used then map[at + 1 := bs[0].size] else map[])
      + Live(bs[1..], at + bs[0].size + 2)
  }

  lemma {:induction false} SpanConcat(a: seq<Block>, b: seq<Block>)
    ensures Span(a + b) == Span(a) + Span(b)
  {
    if a == [] {
      assert a + b == b;
    } else {
      assert (a + b)[1..] == a[1..] + b;
      SpanConcat(a[1..], b);
    }
  }

  lemma {:induction false} TiledConcat(s: seq<Word>, at: nat, a: seq<Block>, b: seq<Block>)
    ensures Tiled(s, at, a + b) <==> Tiled(s, at, a) && Tiled(s, at + Span(a), b)
    decreases a
  {
    if a == [] {
      assert a + b == b;
    } else {
      assert (a + b)[1..] == a[1..] + b;
      TiledConcat(s, at + a[0].size + 2, a[1..], b);
    }
  }

  // Tiling looks at nothing outside the tiled segment.
  lemma {:induction false} TiledFrame(s: seq<Word>, s': seq<Word>, at: nat, bs: seq<Block>)
    requires |s| == |s'| && Tiled(s, at, bs)
    requires forall k :: at <= k < at + Span(bs) && k < |s| ==> s[k] == s'[k]
    ensures Tiled(s', at, bs)
    decreases bs
  {
    if bs != [] {
      TiledFrame(s, s', at + bs[0].size + 2, bs[1..]);
    }
  }

  lemma {:induction false} TiledFits(s: seq<Word>, at: nat, bs: seq<Block>)
    requires Tiled(s, at, bs) && at <= |s|
    ensures at + Span(bs) <= |s|
    decreases bs
  {
    if bs != [] {
      TiledFits(s, at + bs[0].size + 2, bs[1..]);
    }
  }

  lemma MapPlus(a: map<nat, nat>, b: map<nat, nat>, c: map<nat, nat>)
    ensures a + (b + c) == (a + b) + c
  {
  }

  lemma {:induction false} LiveConcat(a: seq<Block>, b: seq<Block>, at: nat)
    ensures Live(a + b, at) == Live(a, at) + Live(b, at + Span(a))
  {
    if a == [] {
      assert a + b == b;
    } else {
      assert (a + b)[1..] == a[1..] + b;
      var rest := at + a[0].size + 2;
      var head: map<nat, nat> := if a[0].used then map[at + 1 := a[0].size] else map[];
      calc {
        Live(a + b, at);
        head + Live(a[1..] + b, rest);
        { LiveConcat(a[1..], b, rest); }
        head + (Live(a[1..], rest) + Live(b, rest + Span(a[1..])));
        { MapPlus(head, Live(a[1..], rest), Live(b, rest + Span(a[1..]))); }
        (head + Live(a[1..], rest)) + Live(b, rest + Span(a[1..]));
      }
    }
  }

  lemma {:induction false} LiveWithin(bs: seq<Block>, at: nat)
    ensures forall p :: p in Live(bs, at) ==> at < p && p + Live(bs, at)[p] < at + Span(bs)
  {
    if bs != [] {
      LiveWithin(bs[1..], at + bs[0].size + 2);
    }
  }

  // Two live payloads never share a word: both tags of each lie between them.
  lemma {:induction false} LiveDisjoint(bs: seq<Block>, at: nat, p: nat, q: nat)
    requires p in Live(bs, at) && q in Live(bs, at) && p < q
    ensures p + Live(bs, at)[p] + 2 <= q
  {
    var rest := Live(bs[1..], at + bs[0].size + 2);
    LiveWithin(bs[1..], at + bs[0].size + 2);
    if p in rest {
      LiveDisjoint(bs[1..], at + bs[0].size + 2, p, q);
    }
  }

  lemma TiledHead(s: seq<Word>, at: nat, b: Block, after: seq<Block>)
    ensures Tiled(s, at, [b] + after) <==>
              at + b.size + 2 <= |s| && s[at] == s[at + b.size + 1] == Tag(b)
              && Tiled(s, at + b.size + 2, after)
  {
    var bs := [b] + after;
    assert bs[1..] == after;
  }

  lemma TiledAround(s: seq<Word>, at: nat, before: seq<Block>, b: Block, after: seq<Block>)
    ensures Tiled(s, at, before + [b] + after) <==>
              && Tiled(s, at, before)
              && at + Span(before) + b.size + 2 <= |s|
              && s[at + Span(before)] == s[at + Span(before) + b.size + 1] == Tag(b)
              && Tiled(s, at + Span(before) + b.size + 2, after)
  {
    assert before + [b] + after == before + ([b] + after);
    TiledConcat(s, at, before, [b] + after);
    TiledHead(s, at + Span(before), b, after);
  }

  lemma SpanOne(b: Block)
    ensures Span([b]) == b.size + 2
  {
    assert [b][1..] == [];
  }

  lemma SplitAt(bs: seq<Block>, i: nat)
    requires i < |bs|
    ensures bs == bs[..i] + [bs[i]] + bs[i + 1..]
    ensures bs[..i + 1] == bs[..i] + [bs[i]]
  {
  }

  lemma Around(s: seq<Word>, bs: seq<Block>, i: nat)
    requires Layout(s, bs) && i < |bs|
    ensures bs == bs[..i] + [bs[i]] + bs[i + 1..]
    ensures var at, b := Span(bs[..i]), bs[i];
            && at + b.size + 2 <= |s|
            && s[at] == s[at + b.size + 1] == Tag(b)
            && Masked(s[at]) == b.size
            && (s[at] >= 0 <==> !b.used)
            && Span(bs[..i + 1]) == at + b.size + 2
            && at + b.size + 2 + Span(bs[i + 1..]) == |s|
  {
    SplitAt(bs, i);
    TiledAround(s, 0, bs[..i], bs[i], bs[i + 1..]);
    SpanConcat(bs[..i] + [bs[i]], bs[i + 1..]);
    SpanConcat(bs[..i], [bs[i]]);
    SpanOne(bs[i]);
  }

  // The corruption check compares the two tags of a block; on a tiled heap it
  // passes at every block, whatever the payload words are.
  lemma ChecksPass(s: seq<Word>, bs: seq<Block>, i: nat)
    requires Layout(s, bs) && i < |bs|
    ensures var at := Span(bs[..i]);
            at < |s| && at + Masked(s[at]) + 1 < |s| && s[at] == s[at + Masked(s[at]) + 1]
  {
    Around(s, bs, i);
  }

  // A word sequence has at most one reading as blocks.
  lemma {:induction false} TilingUnique(s: seq<Word>, at: nat, a: seq<Block>, b: seq<Block>)
    requires |s| < 0x4000_0000
    requires Tiled(s, at, a) && Tiled(s, at, b) && at + Span(a) == |s| == at + Span(b)
    ensures a == b
    decreases a
  {
    if a != [] && b != [] {
      assert a[0] == b[0];
      TilingUnique(s, at + a[0].size + 2, a[1..], b[1..]);
      assert a == [a[0]] + a[1..];
      assert b == [b[0]] + b[1..];
    }
  }
}
