/** The encoder that writes such blobs, and the proof that the one-slot decoder
    gives back every slice it encoded.

    A slice is encoded from its end to its start, each token in front of what is
    there already, so places in the blob are counted in bits from its end. Which
    token to emit is a ratio heuristic in the source; here it is any choice among
    the tokens the source may emit, so the results hold for every heuristic. */
module GlzEncoder {
  import opened Arithmetic
  import opened GlzBits
  import opened GlzMeaning

  // `rank` gives each symbol its number in the Rice code, `table` the symbol of each
  // number; `width` is L, the number of bits for reference lengths.
  datatype Config = Config(k: nat, width: nat, rank: map<nat, nat>, table: seq<nat>)

  datatype Choice = Immediate | Refer(size: nat)

  // `at` is how much of the slice is still to do, `last` the end of the latest
  // reference, `history` the words known to be readable and where.
  datatype Coder = Coder(bits: seq<Bit>, at: nat, last: nat, forced: bool, history: map<seq<Byte>, nat>)

  function Start(slice: seq<Byte>, bits: seq<Bit>, history: map<seq<Byte>, nat>): Coder {
    Coder(bits, |slice|, |slice|, false, history)
  }

  ghost function Shortest(a: nat, b: nat): (m: nat)
    ensures m <= a && m <= b
  {
    if a < b then a else b
  }

  // The words added after an immediate at `i`: prefixes of what follows, up to the
  // end of the latest reference and to the longest reference there can be.
  ghost function NewWords(cfg: Config, slice: seq<Byte>, i: nat, last: nat): set<seq<Byte>>
    requires i <= last <= |slice|
  {
    set n: nat | 2 <= n <= Shortest(last - i, Pow2(cfg.width) + 1) :: Word(slice, i, n)
  }

  ghost function Word(slice: seq<Byte>, i: nat, n: nat): seq<Byte>
    requires i + n <= |slice|
  {
    slice[i..i + n]
  }

  ghost function Learn(history: map<seq<Byte>, nat>, words: set<seq<Byte>>, pos: nat): map<seq<Byte>, nat> {
    map w | w in history.Keys + words :: if w in words then pos else history[w]
  }

  ghost predicate Wf(slice: seq<Byte>, c: Coder) {
    c.at <= c.last <= |slice|
  }

  ghost predicate Possible(cfg: Config, slice: seq<Byte>, c: Coder, ch: Choice) {
    && Wf(slice, c) && c.at > 0
    && match ch
       case Immediate => slice[c.at - 1] as nat in cfg.rank
       case Refer(n) =>
         && !c.forced
         && 2 <= n <= c.at && n <= Pow2(cfg.width) + 1 && n < 0x102
         && 0x100 + (n - 2) in cfg.rank
         && slice[c.at - n..c.at] in c.history
         && c.history[slice[c.at - n..c.at]] <= |c.bits|
  }

  ghost function Emit(cfg: Config, slice: seq<Byte>, c: Coder, ch: Choice): Coder
    requires Possible(cfg, slice, c, ch)
  {
    match ch
    case Immediate =>
      var i := c.at - 1;
      var bits := RiceCode(cfg.k, cfg.rank[slice[i] as nat]) + c.bits;
      Coder(bits, i, c.last, false, Learn(c.history, NewWords(cfg, slice, i, c.last), |bits|))
    case Refer(n) =>
      var back := |c.bits| - c.history[slice[c.at - n..c.at]];
      var bits := RiceCode(cfg.k, cfg.rank[0x100 + (n - 2)]) + (OffsetCode(back) + c.bits);
      Coder(bits, c.at - n, c.at, true, c.history)
  }

  // A sequence of choices that takes the slice from its end to its start.
  ghost predicate Legal(cfg: Config, slice: seq<Byte>, c: Coder, choices: seq<Choice>)
    decreases |choices|
  {
    if choices == [] then Wf(slice, c) && c.at == 0
    else Possible(cfg, slice, c, choices[0]) && Legal(cfg, slice, Emit(cfg, slice, c, choices[0]), choices[1..])
  }

  ghost function Encode(cfg: Config, slice: seq<Byte>, c: Coder, choices: seq<Choice>): Coder
    requires Legal(cfg, slice, c, choices)
    decreases |choices|
  {
    if choices == [] then c else Encode(cfg, slice, Emit(cfg, slice, c, choices[0]), choices[1..])
  }

  // The encoder is never stuck: from any point there are choices that finish the
  // slice, as long as every byte of it has a rank.
  lemma {:induction false} CanFinish(cfg: Config, slice: seq<Byte>, c: Coder) returns (choices: seq<Choice>)
    requires Wf(slice, c) && forall b :: b in slice ==> b as nat in cfg.rank
    ensures Legal(cfg, slice, c, choices)
    decreases c.at
  {
    if c.at == 0 {
      choices := [];
    } else {
      assert slice[c.at - 1] in slice;
      var rest := CanFinish(cfg, slice, Emit(cfg, slice, c, Immediate));
      choices := [Immediate] + rest;
      assert choices[1..] == rest;
    }
  }

  // What an immediate adds to the history: every word that starts with it, ends at the
  // latest reference or before, and is not longer than a reference can be.
  lemma LearnedIff(cfg: Config, slice: seq<Byte>, c: Coder, w: seq<Byte>)
    requires Possible(cfg, slice, c, Immediate)
    ensures var i, c' := c.at - 1, Emit(cfg, slice, c, Immediate);
            var added := 2 <= |w| <= c.last - i && |w| <= Pow2(cfg.width) + 1 && w == slice[i..i + |w|];
            && (w in c'.history <==> added || w in c.history)
            && (w in c'.history ==> c'.history[w] == if added then |c'.bits| else c.history[w])
  {
    hide RiceCode, Pow2;
    var i := c.at - 1;
    var words := NewWords(cfg, slice, i, c.last);
    if 2 <= |w| <= c.last - i && |w| <= Pow2(cfg.width) + 1 && w == slice[i..i + |w|] {
      assert w == Word(slice, i, |w|);
    }
    if w in words {
      var n: nat :| 2 <= n <= Shortest(c.last - i, Pow2(cfg.width) + 1) && w == Word(slice, i, n);
    }
  }

  // When a reference can be written: at the end of a slice for every word of the history
  // that it ends with, and elsewhere not right in front of another reference.
  lemma ReferIff(cfg: Config, slice: seq<Byte>, bits: seq<Bit>, history: map<seq<Byte>, nat>, n: nat)
    requires 2 <= n <= |slice| && n <= Pow2(cfg.width) + 1 && n < 0x102 && 0xfe + n in cfg.rank
    ensures Possible(cfg, slice, Start(slice, bits, history), Refer(n)) <==>
            slice[|slice| - n..] in history && history[slice[|slice| - n..]] <= |bits|
  {
    assert slice[|slice| - n..|slice|] == slice[|slice| - n..];
  }

  lemma NoReferenceBeforeReference(cfg: Config, slice: seq<Byte>, c: Coder, n: nat, m: nat)
    requires Possible(cfg, slice, c, Refer(n))
    ensures !Possible(cfg, slice, Emit(cfg, slice, c, Refer(n)), Refer(m))
  {
  }

  // So a repetition can be referred to.
  lemma RepetitionExample(cfg: Config, a: Byte, b: Byte)
    requires {a as nat, b as nat, 0x100} <= cfg.rank.Keys
    ensures Legal(cfg, [a, b, a, b], Start([a, b, a, b], [], map[]), [Immediate, Immediate, Refer(2)])
  {
    hide RiceCode, Pow2, NewWords, OffsetCode;
    var slice, choices := [a, b, a, b], [Immediate, Immediate, Refer(2)];
    var c := Start(slice, [], map[]);
    assert slice[3] == b && slice[2] == a;
    var c' := Emit(cfg, slice, c, Immediate);
    var c'' := Emit(cfg, slice, c', Immediate);
    assert slice[2..4] == slice[0..2] == [a, b];
    LearnedIff(cfg, slice, c', [a, b]);
    var d := Emit(cfg, slice, c'', Refer(2));
    assert choices[1..] == [Immediate, Refer(2)] && choices[1..][1..] == [Refer(2)] && choices[1..][1..][1..] == [];
    assert Legal(cfg, slice, d, []);
    assert Legal(cfg, slice, c'', choices[1..][1..]);
    assert Legal(cfg, slice, c', choices[1..]);
  }

  // -------------------- reading back --------------------

  // The table of the blob `s` undoes `rank`.
  ghost predicate TableFor(cfg: Config, s: seq<Bit>) {
    forall x :: x in cfg.rank ==>
      cfg.rank[x] < |cfg.table| && TableAt(s, cfg.rank[x]).Read? && TableAt(s, cfg.rank[x]).value == x
  }

  // Every number in the Rice code that decoding `n` bytes at `off` meets is one of the
  // first `limit`.
  ghost predicate NumbersBelow(s: seq<Bit>, k: nat, off: nat, n: nat, limit: nat)
    decreases n, |s| - off
  {
    if n == 0 then true
    else
      var t := ReadToken(s, k, off);
      if t.NoRead? then ReadRice(s, k, off).Read? ==> ReadRice(s, k, off).value < limit
      else
        TokenAdvances(s, k, off);
        && ReadRice(s, k, off).value < limit
        && match t.value
           case Literal(_) => NumbersBelow(s, k, t.next, n - 1, limit)
           case Reference(size, skip) =>
             if size >= n then NumbersBelow(s, k, t.next + skip, n, limit)
             else NumbersBelow(s, k, t.next + skip, size, limit) && NumbersBelow(s, k, t.next, n - size, limit)
  }

  // Decoding |w| bytes at `off` gives `w`, never needing the slot if it is busy, and
  // stays inside the table.
  ghost predicate Reads(cfg: Config, s: seq<Bit>, off: nat, w: seq<Byte>, busy: bool) {
    && Expand(s, cfg.k, off, |w|) == Bytes(w)
    && OneDeep(s, cfg.k, off, |w|, busy)
    && NumbersBelow(s, cfg.k, off, |w|, |cfg.table|)
  }

  // The blob `s` carries `bits` right before position `end`.
  ghost predicate Carries(s: seq<Bit>, end: nat, bits: seq<Bit>) {
    |bits| <= end && CodeAt(s, end - |bits|, bits)
  }

  // Every beginning of the `n` bytes at `off` takes at most two tokens a byte.
  ghost predicate Brisk(s: seq<Bit>, k: nat, off: nat, n: nat) {
    forall m: nat :: m <= n ==> Tokens(s, k, off, m) <= 2 * m
  }

  // One token less: what starts with an immediate.
  ghost predicate Quick(s: seq<Bit>, k: nat, off: nat, n: nat) {
    forall m: nat :: 0 < m <= n ==> Tokens(s, k, off, m) < 2 * m
  }

  // The words of the history read back from where it says, all inside the last `n` bits.
  ghost predicate HistoryReads(cfg: Config, s: seq<Bit>, end: nat, n: nat, history: map<seq<Byte>, nat>) {
    && n <= end
    && forall w :: w in history ==>
         && history[w] <= n
         && Reads(cfg, s, end - history[w], w, true) && Quick(s, cfg.k, end - history[w], |w|)
  }

  // Everything emitted so far reads back: the words in the history and the stretch
  // up to the latest reference without the slot, the whole rest of the slice with it.
  ghost predicate Sound(cfg: Config, slice: seq<Byte>, s: seq<Bit>, end: nat, c: Coder) {
    && Wf(slice, c)
    && Carries(s, end, c.bits)
    && HistoryReads(cfg, s, end, |c.bits|, c.history)
    && Reads(cfg, s, end - |c.bits|, slice[c.at..c.last], true)
    && Reads(cfg, s, end - |c.bits|, slice[c.at..], false)
    && Brisk(s, cfg.k, end - |c.bits|, c.last - c.at)
    && Linear(s, cfg.k, end - |c.bits|, |slice| - c.at)
  }

  lemma {:induction false} PrefixReads(cfg: Config, s: seq<Bit>, off: nat, w: seq<Byte>, n: nat)
    requires Reads(cfg, s, off, w, true) && n <= |w|
    ensures Reads(cfg, s, off, w[..n], true)
    decreases |w|, |s| - off
  {
    hide ReadToken, ReadRice;
    if n == 0 {
      NothingWanted(s, cfg.k, off, true);
    } else {
      var t := ReadToken(s, cfg.k, off);
      TokenAdvances(s, cfg.k, off);
      match t.value
      case Literal(c) =>
        assert w == [c] + w[1..];
        PrefixReads(cfg, s, t.next, w[1..], n - 1);
        assert w[..n] == [c] + w[1..][..n - 1];
      case Reference(size, skip) =>
        PrefixReads(cfg, s, t.next + skip, w, n);
    }
  }

  lemma {:induction false} BusyIsFree(s: seq<Bit>, k: nat, off: nat, n: nat)
    requires OneDeep(s, k, off, n, true)
    ensures OneDeep(s, k, off, n, false)
    decreases n, |s| - off
  {
    hide ReadToken;
    var t := ReadToken(s, k, off);
    if n > 0 && t.Read? {
      TokenAdvances(s, k, off);
      match t.value
      case Literal(_) => BusyIsFree(s, k, t.next, n - 1);
      case Reference(_, skip) => BusyIsFree(s, k, t.next + skip, n);
    }
  }

  lemma ReadsOneDeep(cfg: Config, s: seq<Bit>, off: nat, w: seq<Byte>, busy: bool)
    requires Reads(cfg, s, off, w, busy)
    ensures OneDeep(s, cfg.k, off, |w|, busy)
  {
    hide OneDeep;
  }

  lemma BusyReads(cfg: Config, s: seq<Bit>, off: nat, w: seq<Byte>)
    requires Reads(cfg, s, off, w, true)
    ensures Reads(cfg, s, off, w, false)
  {
    hide Expand, NumbersBelow;
    BusyIsFree(s, cfg.k, off, |w|);
  }

  lemma LiteralReads(cfg: Config, s: seq<Bit>, off: nat, next: nat, c: Byte, w: seq<Byte>, busy: bool)
    requires ReadToken(s, cfg.k, off) == Read(Literal(c), next) && Reads(cfg, s, next, w, busy)
    requires ReadRice(s, cfg.k, off).Read? && ReadRice(s, cfg.k, off).value < |cfg.table|
    ensures Reads(cfg, s, off, [c] + w, busy)
  {
    hide ReadToken, ReadRice;
    TokenAdvances(s, cfg.k, off);
  }

  lemma ReferenceReads(cfg: Config, s: seq<Bit>, off: nat, next: nat, skip: nat, w: seq<Byte>, rest: seq<Byte>)
    requires ReadToken(s, cfg.k, off) == Read(Reference(|w|, skip), next) && |w| >= 2
    requires ReadRice(s, cfg.k, off).Read? && ReadRice(s, cfg.k, off).value < |cfg.table|
    requires Reads(cfg, s, next + skip, w, true) && Reads(cfg, s, next, rest, false)
    ensures Reads(cfg, s, off, w, true) && Reads(cfg, s, off, w + rest, false)
  {
    hide ReadToken, ReadRice;
    TokenAdvances(s, cfg.k, off);
    if rest == [] {
      assert w + rest == w;
      BusyIsFree(s, cfg.k, next + skip, |w|);
    }
  }

  lemma LiteralBrisk(s: seq<Bit>, k: nat, off: nat, next: nat, c: Byte, n: nat, rest: nat)
    requires ReadToken(s, k, off) == Read(Literal(c), next)
    requires Brisk(s, k, next, n) && Linear(s, k, next, rest)
    ensures Quick(s, k, off, n + 1) && Brisk(s, k, off, n + 1) && Linear(s, k, off, rest + 1)
  {
    hide ReadToken;
    forall m: nat | 0 < m <= n + 1
      ensures Tokens(s, k, off, m) < 2 * m
    {
      assert Tokens(s, k, off, m) == 1 + Tokens(s, k, next, m - 1);
    }
    assert Tokens(s, k, off, 0) == 0;
  }

  lemma ReferenceBrisk(s: seq<Bit>, k: nat, off: nat, next: nat, skip: nat, n: nat, rest: nat)
    requires ReadToken(s, k, off) == Read(Reference(n, skip), next) && n >= 2
    requires OneDeep(s, k, next + skip, n, true) && Quick(s, k, next + skip, n) && Linear(s, k, next, rest)
    ensures Brisk(s, k, off, n) && Linear(s, k, off, n + rest)
  {
    hide ReadToken, OneDeep;
    TokenAdvances(s, k, off);
    BusyIsLinear(s, k, next + skip, n);
    forall m: nat | m <= n
      ensures Tokens(s, k, off, m) <= 2 * m
    {
      if m > 0 {
        assert Tokens(s, k, off, m) == 1 + Tokens(s, k, next + skip, m);
      }
    }
    assert Tokens(s, k, next + skip, n) < 2 * n;
    if rest == 0 {
      assert Tokens(s, k, off, n) == 1 + Tokens(s, k, next + skip, n);
    } else {
      assert Tokens(s, k, off, n + rest) == 1 + Tokens(s, k, next + skip, n) + Tokens(s, k, next, rest);
    }
  }

  lemma ReadSymbol(cfg: Config, s: seq<Bit>, off: nat, x: nat)
    requires x in cfg.rank && TableFor(cfg, s) && CodeAt(s, off, RiceCode(cfg.k, cfg.rank[x]))
    ensures var next := off + |RiceCode(cfg.k, cfg.rank[x])|;
            && ReadRice(s, cfg.k, off) == Read(cfg.rank[x], next) && cfg.rank[x] < |cfg.table|
            && TableAt(s, cfg.rank[x]).Read? && TableAt(s, cfg.rank[x]).value == x
  {
    hide RiceCode, TableAt;
    ReadRiceOfCode(s, cfg.k, off, cfg.rank[x]);
  }

  lemma CarriesConcat(s: seq<Bit>, end: nat, a: seq<Bit>, b: seq<Bit>)
    requires Carries(s, end, a + b)
    ensures Carries(s, end, b) && CodeAt(s, end - |b| - |a|, a)
  {
    CodeConcat(s, end - |a + b|, a, b);
  }

  lemma NewWordIsPrefix(cfg: Config, slice: seq<Byte>, i: nat, last: nat, w: seq<Byte>)
    requires i <= last <= |slice| && w in NewWords(cfg, slice, i, last)
    ensures |w| <= last - i && w == slice[i..last][..|w|]
  {
    hide Pow2, Shortest;
    var n: nat :| 2 <= n <= Shortest(last - i, Pow2(cfg.width) + 1) && w == Word(slice, i, n);
  }

  lemma PrefixQuick(s: seq<Bit>, k: nat, off: nat, n: nat, m: nat)
    requires Quick(s, k, off, n) && m <= n
    ensures Quick(s, k, off, m)
  {
  }

  // Emitting an immediate.
  lemma ImmediateSound(cfg: Config, slice: seq<Byte>, s: seq<Bit>, end: nat, c: Coder)
    requires TableFor(cfg, s) && Possible(cfg, slice, c, Immediate) && Sound(cfg, slice, s, end, c)
    requires Carries(s, end, Emit(cfg, slice, c, Immediate).bits)
    ensures Sound(cfg, slice, s, end, Emit(cfg, slice, c, Immediate))
  {
    hide RiceCode, TableAt, Reads, TableFor, ReadRice, Pow2, NewWords, Brisk, Quick, Linear;
    var i, c' := c.at - 1, Emit(cfg, slice, c, Immediate);
    var code := RiceCode(cfg.k, cfg.rank[slice[i] as nat]);
    CarriesConcat(s, end, code, c.bits);
    var off := end - |c'.bits|;
    ReadSymbol(cfg, s, off, slice[i]);
    var b := slice[i];
    LiteralReads(cfg, s, off, end - |c.bits|, b, slice[c.at..c.last], true);
    LiteralReads(cfg, s, off, end - |c.bits|, b, slice[c.at..], false);
    LiteralBrisk(s, cfg.k, off, end - |c.bits|, b, c.last - c.at, |slice| - c.at);
    assert slice[i..c.last] == [b] + slice[c.at..c.last];
    assert slice[i..] == [b] + slice[c.at..];
    forall w | w in c'.history
      ensures c'.history[w] <= |c'.bits|
      ensures Reads(cfg, s, end - c'.history[w], w, true) && Quick(s, cfg.k, end - c'.history[w], |w|)
    {
      if w in NewWords(cfg, slice, i, c.last) {
        NewWordIsPrefix(cfg, slice, i, c.last, w);
        PrefixReads(cfg, s, off, slice[i..c.last], |w|);
        PrefixQuick(s, cfg.k, off, c.last - i, |w|);
      }
    }
  }

  // Emitting a reference.
  lemma ReferSound(cfg: Config, slice: seq<Byte>, s: seq<Bit>, end: nat, c: Coder, n: nat)
    requires TableFor(cfg, s) && Possible(cfg, slice, c, Refer(n)) && Sound(cfg, slice, s, end, c)
    requires Carries(s, end, Emit(cfg, slice, c, Refer(n)).bits)
    ensures Sound(cfg, slice, s, end, Emit(cfg, slice, c, Refer(n)))
  {
    hide RiceCode, TableAt, Reads, TableFor, ReadRice, ReadOffset, OffsetCode, Pow2, Brisk, Quick, Linear;
    var c' := Emit(cfg, slice, c, Refer(n));
    var w := slice[c.at - n..c.at];
    var back := |c.bits| - c.history[w];
    var code := RiceCode(cfg.k, cfg.rank[0x100 + (n - 2)]);
    CarriesConcat(s, end, code, OffsetCode(back) + c.bits);
    CarriesConcat(s, end, OffsetCode(back), c.bits);
    var off, next := end - |c'.bits|, end - |c.bits|;
    ReadSymbol(cfg, s, off, 0x100 + (n - 2));
    ReadOffsetOfCode(s, off + |code|, back);
    assert ReadToken(s, cfg.k, off) == Read(Reference(n, back), next);
    ReferenceReads(cfg, s, off, next, back, w, slice[c.at..]);
    ReferenceBrisk(s, cfg.k, off, next, back, n, |slice| - c.at) by { ReadsOneDeep(cfg, s, next + back, w, true); }
    assert slice[c'.at..c'.last] == w;
    assert slice[c'.at..] == w + slice[c.at..];
  }

  lemma {:induction false} EncodeExtends(cfg: Config, slice: seq<Byte>, c: Coder, choices: seq<Choice>)
      returns (front: seq<Bit>)
    requires Legal(cfg, slice, c, choices)
    ensures Encode(cfg, slice, c, choices).bits == front + c.bits
    decreases |choices|
  {
    hide Emit;
    if choices == [] {
      front := [];
      assert [] + c.bits == c.bits;
    } else {
      var c' := Emit(cfg, slice, c, choices[0]);
      var more := EncodeExtends(cfg, slice, c', choices[1..]);
      var code :| c'.bits == code + c.bits by {
        EmitExtends(cfg, slice, c, choices[0]);
      }
      front := more + code;
      assert more + (code + c.bits) == (more + code) + c.bits;
    }
  }

  lemma EmitExtends(cfg: Config, slice: seq<Byte>, c: Coder, ch: Choice)
    requires Possible(cfg, slice, c, ch)
    ensures exists code :: Emit(cfg, slice, c, ch).bits == code + c.bits
  {
    hide RiceCode, OffsetCode, Pow2;
    match ch
    case Immediate =>
      assert Emit(cfg, slice, c, ch).bits == RiceCode(cfg.k, cfg.rank[slice[c.at - 1] as nat]) + c.bits;
    case Refer(n) =>
      var back := |c.bits| - c.history[slice[c.at - n..c.at]];
      var a, b := RiceCode(cfg.k, cfg.rank[0x100 + (n - 2)]), OffsetCode(back);
      assert a + (b + c.bits) == (a + b) + c.bits;
  }

  // Encoding a slice, from any sound state and by any choices, ends in one from
  // which the whole slice reads back with the single slot.
  lemma {:induction false} EncodeSound(cfg: Config, slice: seq<Byte>, s: seq<Bit>, end: nat, c: Coder,
                                       choices: seq<Choice>)
    requires TableFor(cfg, s) && Legal(cfg, slice, c, choices) && Sound(cfg, slice, s, end, c)
    requires Carries(s, end, Encode(cfg, slice, c, choices).bits)
    ensures Sound(cfg, slice, s, end, Encode(cfg, slice, c, choices))
    ensures Encode(cfg, slice, c, choices).at == 0
    decreases |choices|
  {
    hide Emit, Sound, TableFor, RiceCode;
    if choices != [] {
      var c' := Emit(cfg, slice, c, choices[0]);
      var front := EncodeExtends(cfg, slice, c', choices[1..]);
      CarriesConcat(s, end, front, c'.bits);
      match choices[0] {
        case Immediate => ImmediateSound(cfg, slice, s, end, c);
        case Refer(n) => ReferSound(cfg, slice, s, end, c, n);
      }
      EncodeSound(cfg, slice, s, end, c', choices[1..]);
    }
  }

  // -------------------- whole blobs --------------------

  // One slice of the archive: the words of the history serve as they are, others
  // are encoded in front. The result says where the slice starts.
  ghost predicate LegalAll(cfg: Config, slices: seq<seq<Byte>>, bits: seq<Bit>, history: map<seq<Byte>, nat>,
                           choices: seq<seq<Choice>>)
    decreases |slices|
  {
    && |choices| == |slices|
    && (slices != [] ==>
          if slices[0] in history then LegalAll(cfg, slices[1..], bits, history, choices[1..])
          else
            && Legal(cfg, slices[0], Start(slices[0], bits, history), choices[0])
            && var c := Encode(cfg, slices[0], Start(slices[0], bits, history), choices[0]);
               LegalAll(cfg, slices[1..], c.bits, c.history, choices[1..]))
  }

  ghost function EncodeAll(cfg: Config, slices: seq<seq<Byte>>, bits: seq<Bit>, history: map<seq<Byte>, nat>,
                           choices: seq<seq<Choice>>): (r: (seq<Bit>, seq<nat>))
    requires LegalAll(cfg, slices, bits, history, choices)
    ensures |r.1| == |slices|
    decreases |slices|
  {
    if slices == [] then (bits, [])
    else if slices[0] in history then
      var rest := EncodeAll(cfg, slices[1..], bits, history, choices[1..]);
      (rest.0, [history[slices[0]]] + rest.1)
    else
      var c := Encode(cfg, slices[0], Start(slices[0], bits, history), choices[0]);
      var rest := EncodeAll(cfg, slices[1..], c.bits, c.history, choices[1..]);
      (rest.0, [|c.bits|] + rest.1)
  }

  // The finished blob: table, then the encoded bits, then padding to whole bytes.
  ghost function PackTable(table: seq<nat>): (p: seq<Bit>)
    ensures |p| == 9 * |table|
  {
    if table == [] then [] else Digits(table[0], 9) + PackTable(table[1..])
  }

  lemma {:induction false} PackedAt(s: seq<Bit>, off: nat, table: seq<nat>, i: nat, at: nat)
    requires CodeAt(s, off, PackTable(table)) && i < |table| && table[i] < 512 && at == off + 9 * i
    ensures at + 9 <= |s| && Value(s, at, 9) == table[i]
    decreases |table|
  {
    hide Value, Digits;
    SmallPowers();
    CodeConcat(s, off, Digits(table[0], 9), PackTable(table[1..]));
    if i == 0 {
      ValueOfDigits(s, off, table[0], 9);
    } else {
      PackedAt(s, off + 9, table[1..], i - 1, at);
    }
  }

  ghost predicate TableUndoes(cfg: Config) {
    forall x :: x in cfg.rank ==> x < 512 && cfg.rank[x] < |cfg.table| && cfg.table[cfg.rank[x]] == x
  }

  // A packed table undoes the ranks it was made from.
  lemma PackedTableFor(cfg: Config, s: seq<Bit>)
    requires |s| % 8 == 0 && PackTable(cfg.table) <= s && TableUndoes(cfg)
    ensures TableFor(cfg, s)
  {
    hide TableAt;
    forall x | x in cfg.rank
      ensures cfg.rank[x] < |cfg.table| && TableAt(s, cfg.rank[x]).Read? && TableAt(s, cfg.rank[x]).value == x
    {
      PackedEntry(s, cfg.table, cfg.rank[x]);
    }
  }

  lemma PackedEntry(s: seq<Bit>, table: seq<nat>, i: nat)
    requires |s| % 8 == 0 && PackTable(table) <= s && i < |table| && table[i] < 512
    ensures TableAt(s, i) == Read(table[i], 9 * i + 9)
  {
    hide Value, Digits, PackTable;
    var p := PackTable(table);
    assert s[0..|p|] == p;
    PackedAt(s, 0, table, i, 9 * i);
    WholeBytes(|s|, i);
  }

  // In whole bytes, nine bits that are there are in two bytes that are there.
  lemma WholeBytes(length: nat, i: nat)
    requires length % 8 == 0 && 9 * i + 9 <= length
    ensures 8 * (9 * i / 8 + 2) <= length
  {
  }

  // Every slice of the archive reads back from its place.
  lemma {:induction false} EncodeAllReads(cfg: Config, slices: seq<seq<Byte>>, bits: seq<Bit>,
                                          history: map<seq<Byte>, nat>,
                                          choices: seq<seq<Choice>>, s: seq<Bit>, end: nat, i: nat)
    requires LegalAll(cfg, slices, bits, history, choices) && TableFor(cfg, s) && i < |slices|
    requires Carries(s, end, EncodeAll(cfg, slices, bits, history, choices).0)
    requires HistoryReads(cfg, s, end, |bits|, history)
    ensures var at := EncodeAll(cfg, slices, bits, history, choices).1[i];
            && at <= end
            && Reads(cfg, s, end - at, slices[i], false) && Linear(s, cfg.k, end - at, |slices[i]|)
    decreases |slices|
  {
    hide Encode, Legal, TableFor, Reads, Linear, HistoryReads, Sound;
    var c0 := Start(slices[0], bits, history);
    if slices[0] in history {
      if i == 0 {
        LearnedReads(cfg, s, end, |bits|, history, slices[0]);
      } else {
        EncodeAllReads(cfg, slices[1..], bits, history, choices[1..], s, end, i - 1);
      }
    } else {
      var c := Encode(cfg, slices[0], c0, choices[0]);
      var front := EncodeAllExtends(cfg, slices[1..], c.bits, c.history, choices[1..]);
      CarriesConcat(s, end, front, c.bits);
      var more := EncodeExtends(cfg, slices[0], c0, choices[0]);
      CarriesConcat(s, end, more, bits);
      StartSound(cfg, slices[0], s, end, c0);
      EncodeSound(cfg, slices[0], s, end, c0, choices[0]);
      if i == 0 {
        SoundReads(cfg, slices[0], s, end, c);
      } else {
        SoundHistory(cfg, slices[0], s, end, c);
        EncodeAllReads(cfg, slices[1..], c.bits, c.history, choices[1..], s, end, i - 1);
      }
    }
  }

  // A word of the history reads back, with a slot to spare.
  lemma LearnedReads(cfg: Config, s: seq<Bit>, end: nat, n: nat, history: map<seq<Byte>, nat>, w: seq<Byte>)
    requires HistoryReads(cfg, s, end, n, history) && w in history
    ensures history[w] <= end
    ensures Reads(cfg, s, end - history[w], w, false) && Linear(s, cfg.k, end - history[w], |w|)
  {
    hide Reads, Quick, Linear;
    BusyReads(cfg, s, end - history[w], w);
    QuickIsLinear(cfg, s, end - history[w], w);
  }

  lemma QuickIsLinear(cfg: Config, s: seq<Bit>, off: nat, w: seq<Byte>)
    requires Reads(cfg, s, off, w, true) && Quick(s, cfg.k, off, |w|)
    ensures Linear(s, cfg.k, off, |w|)
  {
    hide Expand, OneDeep, NumbersBelow, LinearBelow;
    BusyIsLinear(s, cfg.k, off, |w|);
  }

  // A finished slice reads back.
  lemma SoundReads(cfg: Config, slice: seq<Byte>, s: seq<Bit>, end: nat, c: Coder)
    requires Sound(cfg, slice, s, end, c) && c.at == 0
    ensures Reads(cfg, s, end - |c.bits|, slice, false) && Linear(s, cfg.k, end - |c.bits|, |slice|)
  {
    assert slice[0..] == slice;
  }

  lemma SoundHistory(cfg: Config, slice: seq<Byte>, s: seq<Bit>, end: nat, c: Coder)
    requires Sound(cfg, slice, s, end, c)
    ensures HistoryReads(cfg, s, end, |c.bits|, c.history)
  {
    hide HistoryReads, Reads, Brisk, Linear;
  }

  lemma {:induction false} EncodeAllExtends(cfg: Config, slices: seq<seq<Byte>>, bits: seq<Bit>,
                                            history: map<seq<Byte>, nat>,
                                            choices: seq<seq<Choice>>) returns (front: seq<Bit>)
    requires LegalAll(cfg, slices, bits, history, choices)
    ensures EncodeAll(cfg, slices, bits, history, choices).0 == front + bits
    decreases |slices|
  {
    if slices == [] {
      front := [];
    } else if slices[0] in history {
      front := EncodeAllExtends(cfg, slices[1..], bits, history, choices[1..]);
    } else {
      var c0 := Start(slices[0], bits, history);
      var c := Encode(cfg, slices[0], c0, choices[0]);
      var more := EncodeAllExtends(cfg, slices[1..], c.bits, c.history, choices[1..]);
      var code := EncodeExtends(cfg, slices[0], c0, choices[0]);
      front := more + code;
      assert more + (code + bits) == (more + code) + bits;
    }
  }

  lemma StartSound(cfg: Config, slice: seq<Byte>, s: seq<Bit>, end: nat, c: Coder)
    requires c == Start(slice, c.bits, c.history) && Carries(s, end, c.bits)
    requires HistoryReads(cfg, s, end, |c.bits|, c.history)
    ensures Sound(cfg, slice, s, end, c)
  {
    assert slice[|slice|..] == [] == slice[|slice|..|slice|];
    NothingWanted(s, cfg.k, end - |c.bits|, true);
    NothingWanted(s, cfg.k, end - |c.bits|, false);
    assert Tokens(s, cfg.k, end - |c.bits|, 0) == 0;
  }

  // The finished archive, padded to whole bytes.
  ghost predicate Archive(cfg: Config, slices: seq<seq<Byte>>, choices: seq<seq<Choice>>, pad: seq<Bit>, s: seq<Bit>) {
    && TableUndoes(cfg) && LegalAll(cfg, slices, [], map[], choices)
    && s == PackTable(cfg.table) + EncodeAll(cfg, slices, [], map[], choices).0 + pad
    && |s| % 8 == 0
  }

  // Where slice `i` starts in it.
  ghost function PlaceOf(cfg: Config, slices: seq<seq<Byte>>, choices: seq<seq<Choice>>, i: nat): nat
    requires LegalAll(cfg, slices, [], map[], choices) && i < |slices|
  {
    PlacesInside(cfg, slices, [], map[], choices, i);
    var (bits, places) := EncodeAll(cfg, slices, [], map[], choices);
    9 * |cfg.table| + (|bits| - places[i])
  }

  lemma ArchiveReads(cfg: Config, slices: seq<seq<Byte>>, choices: seq<seq<Choice>>, pad: seq<Bit>, s: seq<Bit>, i: nat)
    requires Archive(cfg, slices, choices, pad, s) && i < |slices|
    ensures Reads(cfg, s, PlaceOf(cfg, slices, choices, i), slices[i], false)
    ensures Linear(s, cfg.k, PlaceOf(cfg, slices, choices, i), |slices[i]|)
  {
    hide PackTable, EncodeAll, LegalAll, TableFor, Expand, OneDeep, Loop, Reads, Linear;
    var (bits, places) := EncodeAll(cfg, slices, [], map[], choices);
    var end := 9 * |cfg.table| + |bits|;
    PackedTableFor(cfg, s);
    assert s[end - |bits|..end] == bits;
    EncodeAllReads(cfg, slices, [], map[], choices, s, end, i);
    PlacesInside(cfg, slices, [], map[], choices, i);
  }

  // The round trip. For any table, any slices and any choices the encoder may make,
  // the decoder started at the place given for a slice returns 0 and has written
  // exactly that slice.
  lemma GlzRoundTrip(cfg: Config, slices: seq<seq<Byte>>, choices: seq<seq<Choice>>, pad: seq<Bit>, s: seq<Bit>, i: nat)
    requires Archive(cfg, slices, choices, pad, s) && i < |slices|
    ensures Loop(s, cfg.k, PlaceOf(cfg, slices, choices, i), |slices[i]|, 0, 0) == (true, slices[i])
  {
    hide PlaceOf, Loop, EncodeAll, LegalAll, PackTable, Expand, OneDeep, NumbersBelow;
    ArchiveReads(cfg, slices, choices, pad, s, i);
    DecodeMeansExpand(s, cfg.k, PlaceOf(cfg, slices, choices, i), |slices[i]|);
  }

  // The decoder's running time on what the encoder wrote: for every slice it goes round
  // at most two times for each byte, and so in every place it is sent to on the way.
  lemma ArchiveIsLinear(cfg: Config, slices: seq<seq<Byte>>, choices: seq<seq<Choice>>, pad: seq<Bit>, s: seq<Bit>,
                        i: nat)
    requires Archive(cfg, slices, choices, pad, s) && i < |slices|
    ensures var start, n := PlaceOf(cfg, slices, choices, i), |slices[i]|;
            && Turns(s, cfg.k, start, n, 0, 0) == Tokens(s, cfg.k, start, n) <= 2 * n
            && LinearBelow(s, cfg.k, start, n)
  {
    hide PlaceOf, Loop, Turns, EncodeAll, LegalAll, PackTable, Expand, OneDeep, LinearBelow;
    var start, n := PlaceOf(cfg, slices, choices, i), |slices[i]|;
    ArchiveReads(cfg, slices, choices, pad, s, i);
    GlzRoundTrip(cfg, slices, choices, pad, s, i);
    NothingWanted(s, cfg.k, 0, false);
    TurnsAreTokens(s, cfg.k, start, n, 0, 0);
  }

  lemma {:induction false} PlacesInside(cfg: Config, slices: seq<seq<Byte>>, bits: seq<Bit>,
                                        history: map<seq<Byte>, nat>,
                                        choices: seq<seq<Choice>>, i: nat)
    requires LegalAll(cfg, slices, bits, history, choices) && i < |slices|
    requires Inside(history, |bits|)
    ensures var r := EncodeAll(cfg, slices, bits, history, choices);
            r.1[i] <= |r.0|
    decreases |slices|
  {
    if slices[0] in history {
      var front := EncodeAllExtends(cfg, slices[1..], bits, history, choices[1..]);
      if i > 0 {
        PlacesInside(cfg, slices[1..], bits, history, choices[1..], i - 1);
      }
    } else {
      var c0 := Start(slices[0], bits, history);
      var c := Encode(cfg, slices[0], c0, choices[0]);
      var front := EncodeAllExtends(cfg, slices[1..], c.bits, c.history, choices[1..]);
      HistoryInside(cfg, slices[0], c0, choices[0]);
      if i > 0 {
        PlacesInside(cfg, slices[1..], c.bits, c.history, choices[1..], i - 1);
      }
    }
  }

  lemma {:induction false} HistoryInside(cfg: Config, slice: seq<Byte>, c: Coder, choices: seq<Choice>)
    requires Legal(cfg, slice, c, choices)
    requires Inside(c.history, |c.bits|)
    ensures Inside(Encode(cfg, slice, c, choices).history, |Encode(cfg, slice, c, choices).bits|)
    decreases |choices|
  {
    hide Emit;
    if choices != [] {
      EmitInside(cfg, slice, c, choices[0]);
      HistoryInside(cfg, slice, Emit(cfg, slice, c, choices[0]), choices[1..]);
    }
  }

  lemma EmitInside(cfg: Config, slice: seq<Byte>, c: Coder, ch: Choice)
    requires Possible(cfg, slice, c, ch) && Inside(c.history, |c.bits|)
    ensures Inside(Emit(cfg, slice, c, ch).history, |Emit(cfg, slice, c, ch).bits|)
  {
    hide RiceCode, OffsetCode, NewWords;
  }

  ghost predicate Inside(history: map<seq<Byte>, nat>, n: nat) {
    forall w :: w in history ==> history[w] <= n
  }
}
