/** Number formatting in the minimal printf: the digit counts, the digit loops, the
    padding and the returned count. */
module PrintfNumbers {
  import opened Arithmetic
  import opened Basics
  import opened Numerals

  const UINT_RANGE := 0x1_0000_0000
  const INT_RANGE := 0x8000_0000

  datatype Kind = Signed | Unsigned | Hex

  // One parsed directive and its argument, as an unsigned 32-bit word.
  datatype Directive = Directive(kind: Kind, value: nat, width: nat, zero: bool, left: bool)

  ghost predicate Wf(d: Directive) {
    d.value < UINT_RANGE
  }

  function Base(k: Kind): nat {
    if k.Hex? then 16 else 10
  }

  // `(int32_t)value < 0` for the signed directive.
  predicate Negative(d: Directive) {
    d.kind.Signed? && d.value >= INT_RANGE
  }

  // What is printed in digits.
  function Magnitude(d: Directive): nat
    requires d.value < UINT_RANGE
  {
    if Negative(d) then UINT_RANGE - d.value else d.value
  }

  // -------------------- the whole directive --------------------

  function Body(d: Directive): (s: string)
    requires d.value < UINT_RANGE
  {
    (if Negative(d) then "-" else "") + Numeral(Magnitude(d), Base(d.kind))
  }

  function Padding(d: Directive, size: nat): nat {
    if d.width > size then d.width - size else 0
  }

  function Text(d: Directive): (s: string)
    requires d.value < UINT_RANGE
  {
    var body := Body(d);
    if d.left then body + Fill(Padding(d, |body|), ' ')
    else Fill(Padding(d, |body|), if d.zero then '0' else ' ') + body
  }

  lemma TextLength(d: Directive)
    requires Wf(d)
    ensures |Text(d)| == if d.width > |Body(d)| then d.width else |Body(d)|
  {
  }

  // -------------------- reading back --------------------

  function Strip(s: string): string {
    if s != [] && s[0] == ' ' then Strip(s[1..])
    else if s != [] && s[|s| - 1] == ' ' then Strip(s[..|s| - 1])
    else s
  }

  // A number as it would be read: spaces around it, a minus sign, then digits.
  ghost function ReadNumber(s: string, base: nat): Option<int> {
    ReadTrimmed(Strip(s), base)
  }

  ghost function ReadTrimmed(t: string, base: nat): Option<int> {
    if t != [] && t[0] == '-' then
      if |t| > 1 && AllDigits(t[1..], base) then Some(0 - Parse(t[1..], base) as int) else None
    else if t != [] && AllDigits(t, base) then Some(Parse(t, base))
    else None
  }

  // The number the argument stands for.
  function Meant(d: Directive): int
    requires d.value < UINT_RANGE
  {
    if Negative(d) then 0 - Magnitude(d) as int else Magnitude(d)
  }

  lemma {:induction false} StripLeft(n: nat, s: string)
    requires s != [] && s[0] != ' ' && s[|s| - 1] != ' '
    ensures Strip(Fill(n, ' ') + s) == s
  {
    if n > 0 {
      assert (Fill(n, ' ') + s)[1..] == Fill(n - 1, ' ') + s;
      StripLeft(n - 1, s);
    } else {
      assert Fill(0, ' ') + s == s;
    }
  }

  lemma {:induction false} StripRight(n: nat, s: string)
    requires s != [] && s[0] != ' ' && s[|s| - 1] != ' '
    ensures Strip(s + Fill(n, ' ')) == s
  {
    if n > 0 {
      var t := s + Fill(n, ' ');
      assert t[..|t| - 1] == s + Fill(n - 1, ' ');
      StripRight(n - 1, s);
    } else {
      assert s + Fill(0, ' ') == s;
    }
  }

  // What is printed between the paddings.
  lemma BodyEnds(d: Directive)
    requires Wf(d)
    ensures Body(d) != [] && Body(d)[0] != ' ' && Body(d)[|Body(d)| - 1] != ' '
    ensures Body(d)[0] == '-' <==> Negative(d)
    ensures ReadTrimmed(Body(d), Base(d.kind)) == Some(Meant(d))
  {
    hide Numeral, Parse;
    var body, n := Body(d), Numeral(Magnitude(d), Base(d.kind));
    NumeralReadsBack(Magnitude(d), Base(d.kind));
    assert DigitValue(n[|n| - 1]) >= 0 && DigitValue(n[0]) >= 0;
    if Negative(d) {
      assert body[1..] == n;
      assert body[|body| - 1] == n[|n| - 1];
    } else {
      assert body == n;
    }
  }

  // Whatever the width and the flags, what is printed reads back, in hexadecimal for `%x`
  // and in decimal otherwise, as the word that was passed, in two's complement for `%d`,
  // with one exception: zeros in front of a minus sign.
  lemma ReadsBackIff(d: Directive)
    requires d.value < 0x1_0000_0000
    ensures var negative := d.kind == Signed && d.value >= 0x8000_0000;
            var number := if negative then d.value - 0x1_0000_0000 else d.value;
            ReadNumber(Text(d), if d.kind == Hex then 16 else 10) == Some(number) <==>
            !(negative && d.zero && !d.left && d.width > 1 + |Numeral(0x1_0000_0000 - d.value, 10)|)
  {
    hide Body, ReadTrimmed, Strip, Fill, Numeral;
    var body := Body(d);
    var n := Padding(d, |body|);
    BodyEnds(d);
    BodySize(d);
    if d.left {
      StripRight(n, body);
    } else if !d.zero {
      StripLeft(n, body);
    } else {
      ZeroPadded(d, n);
    }
  }

  // Where the padding is: spaces behind the number, or spaces or zeros in front of it.
  lemma PaddingPlace(d: Directive)
    requires d.value < 0x1_0000_0000
    ensures var t, wide := Text(d), d.width > |Text(d.(width := 0))|;
            && (!wide ==> t == Text(d.(width := 0)) && t[0] != ' ' && t[|t| - 1] != ' ')
            && (d.left ==> t[0] != ' ' && (wide ==> t[|t| - 1] == ' '))
            && (!d.left ==> t[|t| - 1] != ' ' && (wide ==> t[0] == if d.zero then '0' else ' '))
  {
    hide Body, Fill;
    BodyEnds(d);
    SameBody(d, d.(width := 0));
  }

  lemma SameBody(d: Directive, d': Directive)
    requires Wf(d) && d'.kind == d.kind && d'.value == d.value
    ensures Body(d') == Body(d)
  {
  }

  // "%05d" of -42.
  lemma ZeroPaddedExample()
    ensures var d := Directive(Signed, UINT_RANGE - 42, 5, true, false);
            && d.value == 0xffff_ffd6 && Text(d) == "00-42" && ReadNumber(Text(d), 10).None?
  {
    var d := Directive(Signed, UINT_RANGE - 42, 5, true, false);
    assert Numeral(4, 10) == "4" && Numeral(42, 10) == "42";
    assert Body(d) == "-42";
    assert Text(d) == "00-42";
    assert Strip("00-42") == "00-42";
    assert "00-42"[2] == '-';
  }

  lemma ZeroPadded(d: Directive, n: nat)
    requires Wf(d)
    ensures ReadNumber(Fill(n, '0') + Body(d), Base(d.kind)) == Some(Meant(d)) <==> !(Negative(d) && n > 0)
  {
    hide Numeral, Parse, Strip, Fill;
    var body, base := Body(d), Base(d.kind);
    var text := Fill(n, '0') + body;
    BodyEnds(d);
    NumeralReadsBack(Magnitude(d), base);
    NoSpaces(text);
    if n == 0 {
      assert text == body;
    } else if Negative(d) {
      assert text[n] == '-';
      assert !AllDigits(text, base);
      assert text[0] == '0';
    } else {
      assert body == Numeral(Magnitude(d), base);
      ZerosInFront(n, body, base);
      assert text[0] == '0';
    }
  }

  lemma NoSpaces(s: string)
    requires s != [] && s[0] != ' ' && s[|s| - 1] != ' '
    ensures Strip(s) == s
  {
  }

  // -------------------- the loops --------------------

  // `v` divided by `base` again and again.
  ghost function DivTimes(v: nat, base: nat, i: nat): nat
    requires 2 <= base <= 16
  {
    if i == 0 then v else DivTimes(v, base, i - 1) / base
  }

  lemma {:induction false} HexShift(v: nat, i: nat)
    ensures ShiftRight(v, 4 * i) == DivTimes(v, 16, i)
  {
    if i > 0 {
      HexShift(v, i - 1);
      var n := 4 * (i - 1);
      assert ShiftRight(v, n + 4) == ShiftRight(v, n) / 2 / 2 / 2 / 2 by {
        ShiftOnce(v, n);
        ShiftOnce(v, n + 1);
        ShiftOnce(v, n + 2);
        ShiftOnce(v, n + 3);
      }
      assert 4 * i == n + 4;
    }
  }

  lemma {:induction false} DivFirst(v: nat, base: nat, i: nat)
    requires 2 <= base <= 16
    ensures v / base >= 0 && DivTimes(v, base, i + 1) == DivTimes(v / base, base, i)
  {
    if i > 0 {
      DivFirst(v, base, i - 1);
    }
  }

  // The digit that the loop computes for place `i`, counted from the right.
  lemma {:induction false} NumeralDigit(v: nat, base: nat, i: nat)
    requires 2 <= base <= 16 && i < |Numeral(v, base)|
    ensures DivTimes(v, base, i) % base < base
    ensures Numeral(v, base)[|Numeral(v, base)| - 1 - i] == DigitChar(DivTimes(v, base, i) % base)
    decreases v
  {
    SmallRemainder(DivTimes(v, base, i), base);
    if v < base {
      assert i == 0;
      Small(v, base);
    } else {
      Shrinks(v, base);
      if i > 0 {
        NumeralDigit(v / base, base, i - 1);
        DivFirst(v, base, i - 1);
      }
    }
  }

  lemma Small(v: nat, base: nat)
    requires 2 <= base <= 16 && v < base
    ensures v % base == v
  {
  }

  lemma SmallRemainder(v: nat, base: nat)
    requires 2 <= base <= 16
    ensures v % base < base
  {
  }

  // The characters the caller's writer has been given, and what it says to each.
  class Sink {
    var text: string
    var calls: nat
    const reply: (nat, nat) -> int

    constructor (reply: (nat, nat) -> int)
      ensures text == "" && this.reply == reply
    {
      text, calls, this.reply := "", 0, reply;
    }

    ghost predicate Accepting() {
      forall t: nat, n: nat :: reply(t, n) == n
    }

    method Write(buf: string) returns (n: int)
      modifies this
      ensures text == old(text) + buf && n == reply(old(calls), |buf|)
    {
      text := text + buf;
      n := reply(calls, |buf|);
      calls := calls + 1;
    }
  }

  // The loop that counts digits.
  method CountDigits(v: nat, base: nat) returns (size: nat)
    requires 2 <= base <= 16
    ensures size == |Numeral(v, base)|
  {
    hide Numeral;
    var t: nat := v;
    size := 0;
    while t > 0
      invariant t > 0 ==> size + |Numeral(t, base)| == |Numeral(v, base)|
      invariant t == 0 ==> size == if v == 0 then 0 else |Numeral(v, base)|
      decreases t
    {
      DropLast(t, base);
      t := t / base;
      size := size + 1;
    }
    OneDigit(v, base);
    if size == 0 {
      size := size + 1;
    }
  }

  // Dividing by the base takes one digit away.
  lemma DropLast(v: nat, base: nat)
    requires 2 <= base <= 16 && v > 0
    ensures 0 <= v / base < v
    ensures |Numeral(v, base)| == 1 + if v / base == 0 then 0 else |Numeral(v / base, base)|
  {
    if v >= base {
      Shrinks(v, base);
    } else {
      SmallQuotient(v, base);
    }
  }

  lemma OneDigit(v: nat, base: nat)
    requires 2 <= base <= 16
    ensures |Numeral(v, base)| >= 1 && (v < base ==> |Numeral(v, base)| == 1)
  {
  }

  lemma SmallQuotient(v: nat, base: nat)
    requires 2 <= base <= 16 && v < base
    ensures v / base == 0
  {
  }

  // What has been printed of `whole` when the next character goes out. A negative
  // reply ends the whole printf with that reply.
  ghost predicate Printed(sink: Sink, was: string, whole: string, k: nat, start: int, res: int)
    reads sink
  {
    k <= |whole| && sink.text == was + whole[..k] && (sink.Accepting() ==> res == start + k)
  }

  method Put(sink: Sink, c: char, ghost was: string, ghost whole: string, ghost k: nat, ghost start: int, res: int)
    returns (stop: bool, res': int)
    requires Printed(sink, was, whole, k, start, res) && k < |whole| && whole[k] == c
    modifies sink
    ensures Printed(sink, was, whole, k + 1, start, res') || stop
    ensures stop ==> res' < 0 && sink.text == was + whole[..k + 1] && !sink.Accepting()
  {
    var nres := sink.Write([c]);
    assert was + whole[..k] + [c] == was + whole[..k + 1];
    if nres < 0 {
      return true, nres;
    }
    return false, res + nres;
  }

  method Repeat(sink: Sink, c: char, n: nat, ghost was: string, ghost whole: string, ghost k: nat, ghost start: int,
                res: int)
    returns (stop: bool, res': int)
    requires Printed(sink, was, whole, k, start, res) && k + n <= |whole|
    requires forall i :: k <= i < k + n ==> whole[i] == c
    modifies sink
    ensures !stop ==> Printed(sink, was, whole, k + n, start, res')
    ensures stop ==> res' < 0 && !sink.Accepting() && exists j :: k < j <= k + n && sink.text == was + whole[..j]
  {
    stop, res' := false, res;
    for i: nat := 0 to n
      invariant !stop && Printed(sink, was, whole, k + i, start, res')
    {
      stop, res' := Put(sink, c, was, whole, k + i, start, res');
      if stop {
        return;
      }
    }
  }

  // The digit loop, most significant digit first.
  method PutDigits(sink: Sink, v: nat, base: nat, size: nat,
                   ghost was: string, ghost whole: string, ghost k: nat, ghost start: int, res: int)
    returns (stop: bool, res': int)
    requires base == 10 || base == 16
    requires Printed(sink, was, whole, k, start, res) && k + size <= |whole|
    requires size == |Numeral(v, base)| && whole[k..k + size] == Numeral(v, base)
    modifies sink
    ensures !stop ==> Printed(sink, was, whole, k + size, start, res')
    ensures stop ==> res' < 0 && !sink.Accepting() && exists j :: k < j <= k + size && sink.text == was + whole[..j]
  {
    hide Numeral;
    stop, res' := false, res;
    var i: nat := size;
    while i > 0
      invariant i <= size && !stop && Printed(sink, was, whole, k + (size - i), start, res')
    {
      i := i - 1;
      var digit: nat;
      if base == 16 {
        digit := ShiftRight(v, 4 * i) % 16;
        HexShift(v, i);
      } else {
        var temp := v;
        for j: nat := 0 to i
          invariant temp == DivTimes(v, 10, j)
        {
          temp := temp / 10;
        }
        digit := temp % 10;
      }
      NumeralDigit(v, base, i);
      assert whole[k + (size - 1 - i)] == whole[k..k + size][size - 1 - i];
      stop, res' := Put(sink, DigitChar(digit), was, whole, k + (size - 1 - i), start, res');
      if stop {
        return;
      }
    }
  }

  // The sign and the digits.
  method PutBody(sink: Sink, d: Directive, magnitude: nat, base: nat, digits: nat,
                 ghost was: string, ghost whole: string, ghost k: nat, ghost start: int, res: int)
    returns (stop: bool, res': int)
    requires Wf(d) && magnitude == Magnitude(d) && base == Base(d.kind) && digits == |Numeral(magnitude, base)|
    requires Printed(sink, was, whole, k, start, res)
    requires k + |Body(d)| <= |whole| && whole[k..k + |Body(d)|] == Body(d)
    modifies sink
    ensures !stop ==> Printed(sink, was, whole, k + |Body(d)|, start, res')
    ensures stop ==>
              && res' < 0 && !sink.Accepting()
              && exists j :: k < j <= k + |Body(d)| && sink.text == was + whole[..j]
  {
    hide Numeral, Magnitude, Body;
    BodyParts(d, whole, k);
    stop, res' := false, res;
    if d.kind.Signed? && d.value >= INT_RANGE {
      stop, res' := Put(sink, '-', was, whole, k, start, res');
      if stop {
        return;
      }
    }
    ghost var sign := if Negative(d) then 1 else 0;
    stop, res' := PutDigits(sink, magnitude, base, digits, was, whole, k + sign, start, res');
  }

  lemma BodyParts(d: Directive, whole: string, k: nat)
    requires Wf(d) && k + |Body(d)| <= |whole| && whole[k..k + |Body(d)|] == Body(d)
    ensures var sign, n := if Negative(d) then 1 else 0, Numeral(Magnitude(d), Base(d.kind));
            && |Body(d)| == sign + |n| && (sign == 1 ==> whole[k] == '-')
            && whole[k + sign..k + sign + |n|] == n
  {
    hide Numeral;
    assert whole[k..k + |Body(d)|][0] == whole[k];
  }

  // One number directive. With a writer that accepts everything the whole text goes
  // out and the count grows by its length; with any other, what went out is the
  // beginning of the text, and all of it unless the writer ended the printf.
  method Print(sink: Sink, d: Directive, res: int) returns (stop: bool, res': int)
    requires d.value < UINT_RANGE
    modifies sink
    ensures sink.Accepting() ==> !stop && res' == res + |Text(d)|
    ensures !stop ==> sink.text == old(sink.text) + Text(d)
    ensures stop ==> res' < 0 && exists j :: 0 < j <= |Text(d)| && sink.text == old(sink.text) + Text(d)[..j]
  {
    hide Numeral, Fill, Text, Body;
    var base := if d.kind.Hex? then 16 else 10;
    var magnitude := if d.kind.Signed? && d.value >= INT_RANGE then UINT_RANGE - d.value else d.value;
    var digits := CountDigits(magnitude, base);
    var size := if d.kind.Signed? && d.value >= INT_RANGE then 1 + digits else digits;
    ghost var was, whole := sink.text, Text(d);
    BodySize(d);
    TextParts(d);
    stop, res' := false, res;
    assert was + whole[..0] == was;
    if !d.left {
      var c := if d.zero then '0' else ' ';
      stop, res' := Repeat(sink, c, if d.width > size then d.width - size else 0, was, whole, 0, res, res');
      if stop {
        return;
      }
    }
    ghost var front := if d.left then 0 else Padding(d, size);
    stop, res' := PutBody(sink, d, magnitude, base, digits, was, whole, front, res, res');
    if stop {
      return;
    }
    if d.left {
      stop, res' := Repeat(sink, ' ', if d.width > size then d.width - size else 0, was, whole, size, res, res');
      if stop {
        return;
      }
    }
    assert whole[..|whole|] == whole;
  }

  lemma BodySize(d: Directive)
    requires Wf(d)
    ensures |Body(d)| == |Numeral(Magnitude(d), Base(d.kind))| + if Negative(d) then 1 else 0
  {
    hide Numeral;
  }

  // Where the parts of the text are.
  lemma TextParts(d: Directive)
    requires Wf(d)
    ensures var whole, size, n := Text(d), |Body(d)|, Padding(d, |Body(d)|);
            var front := if d.left then 0 else n;
            && |whole| == n + size && whole[front..front + size] == Body(d)
            && (!d.left ==> forall i :: 0 <= i < n ==> whole[i] == if d.zero then '0' else ' ')
            && (d.left ==> forall i :: size <= i < size + n ==> whole[i] == ' ')
  {
    hide Numeral, Fill;
  }
}
