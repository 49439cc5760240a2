/** What a GLZ blob means, and what the decoder's one-slot loop does with it.

    The meaning is recursive: a reference stands for the first bytes of what is
    found at another place, and decoding then goes on behind the reference. The
    loop has no stack; it keeps one pending place and size, and jumps without
    returning when a reference covers all that is still wanted. */
module GlzMeaning {
  import opened GlzBits

  datatype Token = Literal(value: Byte) | Reference(size: nat, skip: nat)

  // The symbol table: nine bits each from the start of the blob. The last byte
  // of the two that are read has to be inside the blob.
  ghost function TableAt(s: seq<Bit>, index: nat): Read<nat> {
    if 8 * (9 * index / 8 + 2) > |s| then NoRead
    else Read(Value(s, 9 * index, 9), 9 * index + 9)
  }

  ghost function ReadToken(s: seq<Bit>, k: nat, off: nat): Read<Token> {
    var rice := ReadRice(s, k, off);
    if rice.NoRead? then NoRead
    else
      var symbol := TableAt(s, rice.value);
      if symbol.NoRead? then NoRead
      else if symbol.value < 0x100 then Read(Literal(symbol.value), rice.next)
      else
        var skip := ReadOffset(s, rice.next);
        if skip.NoRead? then NoRead
        else Read(Reference(symbol.value % 0x100 + 2, skip.value), skip.next)
  }

  lemma TokenAdvances(s: seq<Bit>, k: nat, off: nat)
    requires ReadToken(s, k, off).Read?
    ensures off < ReadToken(s, k, off).next <= |s|
    ensures ReadToken(s, k, off).value.Reference? ==> ReadToken(s, k, off).value.size >= 2
  {
    GroupsPositive(s, ReadRice(s, k, off).next, 0);
  }

  datatype Outcome = Failed | Bytes(bytes: seq<Byte>)

  ghost function Join(a: Outcome, b: Outcome): Outcome {
    if a.Failed? || b.Failed? then Failed else Bytes(a.bytes + b.bytes)
  }

  // The meaning of `n` bytes at bit `off`.
  ghost function Expand(s: seq<Bit>, k: nat, off: nat, n: nat): (r: Outcome)
    ensures r.Bytes? ==> |r.bytes| == n
    decreases n, |s| - off
  {
    if n == 0 then Bytes([])
    else
      var t := ReadToken(s, k, off);
      if t.NoRead? then Failed
      else
        TokenAdvances(s, k, off);
        match t.value
        case Literal(c) => Join(Bytes([c]), Expand(s, k, t.next, n - 1))
        case Reference(size, skip) =>
          if size >= n then Expand(s, k, t.next + skip, n)
          else Join(Expand(s, k, t.next + skip, size), Expand(s, k, t.next, n - size))
  }

  // The loop, from any of its states: `n` bytes wanted at `off`, and `pn` more at
  // `poff` afterwards. The result is the return code and the bytes written.
  ghost function Loop(s: seq<Bit>, k: nat, off: nat, n: nat, poff: nat, pn: nat): (r: (bool, seq<Byte>))
    requires n == 0 ==> pn == 0
    ensures |r.1| <= n + pn
    decreases n + pn, |s| - off
  {
    if n == 0 then (true, [])
    else
      var t := ReadToken(s, k, off);
      if t.NoRead? then (false, [])
      else
        TokenAdvances(s, k, off);
        match t.value
        case Literal(c) =>
          var rest := if n == 1 then Loop(s, k, poff, pn, 0, 0) else Loop(s, k, t.next, n - 1, poff, pn);
          (rest.0, [c] + rest.1)
        case Reference(size, skip) =>
          if size >= n then Loop(s, k, t.next + skip, n, poff, pn)
          else Loop(s, k, t.next + skip, size, t.next, n - size)
  }

  // No reference that has to come back is met while the slot is already in use.
  ghost predicate OneDeep(s: seq<Bit>, k: nat, off: nat, n: nat, busy: bool)
    decreases n, |s| - off
  {
    if n == 0 then true
    else
      var t := ReadToken(s, k, off);
      if t.NoRead? then true
      else
        TokenAdvances(s, k, off);
        match t.value
        case Literal(_) => OneDeep(s, k, t.next, n - 1, busy)
        case Reference(size, skip) =>
          if size >= n then OneDeep(s, k, t.next + skip, n, busy)
          else
            && !busy
            && OneDeep(s, k, t.next + skip, size, true)
            && OneDeep(s, k, t.next, n - size, false)
  }

  lemma JoinAssoc(a: Outcome, b: Outcome, c: Outcome)
    ensures Join(Join(a, b), c) == Join(a, Join(b, c))
  {
    if a.Bytes? && b.Bytes? && c.Bytes? {
      assert (a.bytes + b.bytes) + c.bytes == a.bytes + (b.bytes + c.bytes);
    }
  }

  lemma JoinEmpty(a: Outcome)
    ensures Join(a, Bytes([])) == a == Join(Bytes([]), a)
  {
    if a.Bytes? {
      assert a.bytes + [] == a.bytes == [] + a.bytes;
    }
  }

  lemma NothingWanted(s: seq<Bit>, k: nat, off: nat, busy: bool)
    ensures Expand(s, k, off, 0) == Bytes([]) && OneDeep(s, k, off, 0, busy)
  {
  }

  ghost predicate SlotFits(s: seq<Bit>, k: nat, off: nat, n: nat, poff: nat, pn: nat) {
    OneDeep(s, k, off, n, pn > 0) && OneDeep(s, k, poff, pn, false)
  }

  // Where one slot is enough the loop does exactly what the meaning says.
  lemma {:induction false} LoopExpands(s: seq<Bit>, k: nat, off: nat, n: nat, poff: nat, pn: nat)
    requires (n == 0 ==> pn == 0) && SlotFits(s, k, off, n, poff, pn)
    ensures var meaning := Join(Expand(s, k, off, n), Expand(s, k, poff, pn));
            && (meaning.Bytes? ==> Loop(s, k, off, n, poff, pn) == (true, meaning.bytes))
            && (meaning.Failed? ==> !Loop(s, k, off, n, poff, pn).0)
    decreases n + pn, |s| - off
  {
    hide ReadToken;
    var t := ReadToken(s, k, off);
    if n == 0 {
      JoinEmpty(Bytes([]));
    } else if t.Read? {
      TokenAdvances(s, k, off);
      match t.value
      case Literal(c) =>
        JoinAssoc(Bytes([c]), Expand(s, k, t.next, n - 1), Expand(s, k, poff, pn));
        if n == 1 {
          NothingWanted(s, k, t.next, pn > 0);
          NothingWanted(s, k, 0, false);
          JoinEmpty(Expand(s, k, poff, pn));
          LoopExpands(s, k, poff, pn, 0, 0);
        } else {
          LoopExpands(s, k, t.next, n - 1, poff, pn);
        }
      case Reference(size, skip) =>
        if size >= n {
          LoopExpands(s, k, t.next + skip, n, poff, pn);
        } else {
          NothingWanted(s, k, poff, false);
          JoinEmpty(Expand(s, k, off, n));
          LoopExpands(s, k, t.next + skip, size, t.next, n - size);
        }
    }
  }

  // A run that returns 0 wrote all it was asked for exactly when one slot was
  // enough; otherwise a pending part was dropped and the output is short.
  lemma {:induction false} LoopComplete(s: seq<Bit>, k: nat, off: nat, n: nat, poff: nat, pn: nat)
    requires (n == 0 ==> pn == 0) && Loop(s, k, off, n, poff, pn).0
    ensures |Loop(s, k, off, n, poff, pn).1| == n + pn <==> SlotFits(s, k, off, n, poff, pn)
    decreases n + pn, |s| - off
  {
    hide ReadToken;
    var t := ReadToken(s, k, off);
    if n > 0 && t.Read? {
      TokenAdvances(s, k, off);
      match t.value
      case Literal(c) =>
        if n == 1 {
          NothingWanted(s, k, t.next, pn > 0);
          NothingWanted(s, k, 0, false);
          LoopComplete(s, k, poff, pn, 0, 0);
        } else {
          LoopComplete(s, k, t.next, n - 1, poff, pn);
        }
      case Reference(size, skip) =>
        if size >= n {
          LoopComplete(s, k, t.next + skip, n, poff, pn);
        } else {
          LoopComplete(s, k, t.next + skip, size, t.next, n - size);
        }
    }
  }

  // The decoder started on `n` bytes: both directions, for every blob.
  lemma DecodeMeansExpand(s: seq<Bit>, k: nat, off: nat, n: nat)
    ensures var r := Loop(s, k, off, n, 0, 0);
            && (OneDeep(s, k, off, n, false) ==>
                  (r.0 <==> Expand(s, k, off, n).Bytes?) && (r.0 ==> Bytes(r.1) == Expand(s, k, off, n)))
            && (r.0 ==> (|r.1| == n <==> OneDeep(s, k, off, n, false)))
            && |r.1| <= n
  {
    if OneDeep(s, k, off, n, false) {
      LoopExpands(s, k, off, n, 0, 0);
      var e := Expand(s, k, off, n);
      if e.Bytes? {
        assert e.bytes + [] == e.bytes;
      }
    }
    if Loop(s, k, off, n, 0, 0).0 {
      LoopComplete(s, k, off, n, 0, 0);
    }
  }

  // -------------------- running time --------------------

  // How many tokens are read for `n` bytes at `off`, those of the places referred to
  // counted each time. A token that cannot be read counts too.
  ghost function Tokens(s: seq<Bit>, k: nat, off: nat, n: nat): nat
    decreases n, |s| - off
  {
    if n == 0 then 0
    else
      var t := ReadToken(s, k, off);
      if t.NoRead? then 1
      else
        TokenAdvances(s, k, off);
        match t.value
        case Literal(_) => 1 + Tokens(s, k, t.next, n - 1)
        case Reference(size, skip) =>
          if size >= n then 1 + Tokens(s, k, t.next + skip, n)
          else 1 + Tokens(s, k, t.next + skip, size) + Tokens(s, k, t.next, n - size)
  }

  // How often the loop goes round from a state.
  ghost function Turns(s: seq<Bit>, k: nat, off: nat, n: nat, poff: nat, pn: nat): nat
    requires n == 0 ==> pn == 0
    decreases n + pn, |s| - off
  {
    if n == 0 then 0
    else
      var t := ReadToken(s, k, off);
      if t.NoRead? then 1
      else
        TokenAdvances(s, k, off);
        match t.value
        case Literal(_) =>
          1 + if n == 1 then Turns(s, k, poff, pn, 0, 0) else Turns(s, k, t.next, n - 1, poff, pn)
        case Reference(size, skip) =>
          if size >= n then 1 + Turns(s, k, t.next + skip, n, poff, pn)
          else 1 + Turns(s, k, t.next + skip, size, t.next, n - size)
  }

  // Where one slot is enough each token takes one turn.
  lemma {:induction false} TurnsAreTokens(s: seq<Bit>, k: nat, off: nat, n: nat, poff: nat, pn: nat)
    requires (n == 0 ==> pn == 0) && SlotFits(s, k, off, n, poff, pn)
    ensures Turns(s, k, off, n, poff, pn) <= Tokens(s, k, off, n) + Tokens(s, k, poff, pn)
    ensures Loop(s, k, off, n, poff, pn).0 ==>
              Turns(s, k, off, n, poff, pn) == Tokens(s, k, off, n) + Tokens(s, k, poff, pn)
    decreases n + pn, |s| - off
  {
    hide ReadToken;
    var t := ReadToken(s, k, off);
    if n > 0 && t.Read? {
      TokenAdvances(s, k, off);
      match t.value
      case Literal(_) =>
        if n == 1 {
          NothingWanted(s, k, 0, false);
          TurnsAreTokens(s, k, poff, pn, 0, 0);
        } else {
          TurnsAreTokens(s, k, t.next, n - 1, poff, pn);
        }
      case Reference(size, skip) =>
        if size >= n {
          TurnsAreTokens(s, k, t.next + skip, n, poff, pn);
        } else {
          TurnsAreTokens(s, k, t.next + skip, size, t.next, n - size);
        }
    }
  }

  // At most two tokens for each byte, and so in every place that a reference sends the
  // decoder to and back.
  ghost predicate Linear(s: seq<Bit>, k: nat, off: nat, n: nat)
  {
    Tokens(s, k, off, n) <= 2 * n && LinearBelow(s, k, off, n)
  }

  ghost predicate LinearBelow(s: seq<Bit>, k: nat, off: nat, n: nat)
    decreases n, |s| - off
  {
    if n == 0 then true
    else
      var t := ReadToken(s, k, off);
      if t.NoRead? then true
      else
        TokenAdvances(s, k, off);
        match t.value
        case Literal(_) => LinearBelow(s, k, t.next, n - 1)
        case Reference(size, skip) =>
          if size >= n then LinearBelow(s, k, t.next + skip, n)
          else
            && Tokens(s, k, t.next + skip, size) <= 2 * size
            && LinearBelow(s, k, t.next + skip, size) && LinearBelow(s, k, t.next, n - size)
  }

  // Without coming back there is nothing below.
  lemma {:induction false} BusyIsLinear(s: seq<Bit>, k: nat, off: nat, n: nat)
    requires OneDeep(s, k, off, n, true)
    ensures LinearBelow(s, k, off, n)
    decreases n, |s| - off
  {
    hide ReadToken;
    var t := ReadToken(s, k, off);
    if n > 0 && t.Read? {
      TokenAdvances(s, k, off);
      match t.value
      case Literal(_) => BusyIsLinear(s, k, t.next, n - 1);
      case Reference(_, skip) => BusyIsLinear(s, k, t.next + skip, n);
    }
  }
}
