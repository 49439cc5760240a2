/** Printing a function type and parsing it again. */
module FnRoundTrip {
  import opened Numerals
  import opened Basics
  import opened FnTypes

  // -------------------- what the parser yields --------------------

  ghost predicate ArgWf(a: Arg) {
    && ArgOk(a)
    && a.mod <= MODIFIERS
    && a.prim in PRIMITIVES
    && (a.name == [] || IsName(a.name))
    && (a.size.Of? ==> IsName(a.size.arg))
  }

  ghost predicate FnWf(f: Fn) {
    && (forall i :: 0 <= i < |f.args| ==> ArgWf(f.args[i]))
    && (forall i :: 0 <= i < |f.rets| ==> ArgWf(f.rets[i]))
    && (f.noreturn ==> f.rets == [])
  }

  ghost predicate Lexed(ts: seq<Token>) {
    forall i :: 0 <= i < |ts| ==> ts[i].Word? ==> IsName(ts[i].s)
  }

  lemma {:induction false} LexYieldsNames(s: string)
    ensures Lex(s).Some? ==> Lexed(Lex(s).value)
    decreases |s|
  {
    if s != [] {
      if Space(s[0]) {
        LexYieldsNames(s[1..]);
      } else if WordChar(s[0]) {
        var n := 1 + RunLength(s[1..]);
        forall i | 0 <= i < n ensures WordChar(s[..n][i]) {
          assert i > 0 ==> s[i] == s[1..][i - 1];
        }
        LexYieldsNames(s[n..]);
      } else if Marks(s[0]) {
        LexYieldsNames(s[1..]);
      } else if |s| > 1 && s[0] == '-' && s[1] == '>' {
        LexYieldsNames(s[2..]);
      }
    }
  }

  lemma {:induction false} PtrYieldsNames(ts: seq<Token>, stars: nat, name: string, num: string)
    requires Lexed(ts) && (name == [] || IsName(name))
    ensures var p := ParsePtr(ts, stars, name, num); Lexed(p.rest) && (p.name == [] || IsName(p.name))
    decreases |ts|
  {
    if ts != [] && ts[0] == Mark('*') {
      PtrYieldsNames(ts[1..], stars + 1, name, num);
    } else if |ts| >= 3 && ts[0] == Mark('[') && ts[2] == Mark(']') && ts[1].Word? {
      PtrYieldsNames(ts[3..], stars, ts[1].s, num);
    } else if |ts| >= 3 && ts[0] == Mark('[') && ts[2] == Mark(']') && ts[1].Num? && NumPattern(ts[1].s) {
      PtrYieldsNames(ts[3..], stars, name, ts[1].s);
    }
  }

  lemma NamedYieldsWf(ts: seq<Token>, front: string)
    requires Lexed(ts) && (front == [] || IsName(front))
    ensures ParseNamed(ts, front).Some? ==> ArgWf(ParseNamed(ts, front).value)
  {
    hide ReadInt, ArgOk, ParsePtr, IsName;
    var k := ModCount(ts);
    if k < |ts| {
      PtrYieldsNames(ts[k + 1..], 0, "", "");
      var p := ParsePtr(ts[k + 1..], 0, "", "");
      PtrYieldsNames(if p.rest != [] && p.rest[0].Word? then p.rest[1..] else p.rest, 0, "", "");
    }
  }

  lemma ArgYieldsWf(ts: seq<Token>)
    requires Lexed(ts)
    ensures ParseArg(ts).Some? ==> ArgWf(ParseArg(ts).value)
  {
    hide ParseNamed, ArgWf;
    if |ts| >= 2 && ts[0].Word? && ts[1] == Mark(':') {
      NamedYieldsWf(ts[2..], ts[0].s);
    } else {
      NamedYieldsWf(ts, "");
    }
  }

  lemma {:induction false} PiecesLexed(ts: seq<Token>)
    requires Lexed(ts)
    ensures forall i :: 0 <= i < |Pieces(ts)| ==> Lexed(Pieces(ts)[i])
  {
    if ts != [] {
      PiecesLexed(ts[1..]);
      assert Lexed(Pieces(ts[1..])[0]);
    }
  }

  lemma {:induction false} ArgsYieldWf(ps: seq<seq<Token>>)
    requires forall i :: 0 <= i < |ps| ==> Lexed(ps[i])
    ensures ParseArgs(ps).Some? ==> forall i :: 0 <= i < |ParseArgs(ps).value| ==> ArgWf(ParseArgs(ps).value[i])
  {
    hide ParseArg, ArgWf, Lexed;
    if ps != [] {
      ArgYieldsWf(ps[0]);
      ArgsYieldWf(ps[1..]);
    }
  }

  lemma ListLexed(ts: seq<Token>)
    requires Lexed(ts)
    ensures ParseList(ts).Some? ==> forall i :: 0 <= i < |ParseList(ts).value| ==> Lexed(ParseList(ts).value[i])
  {
    PiecesLexed(if ts != [] && ts[|ts| - 1] == Mark(',') then ts[..|ts| - 1] else ts);
  }

  // One side of the arrow.
  lemma SideYieldsWf(ts: seq<Token>, from: nat, to: nat)
    requires Lexed(ts) && from <= to <= |ts|
    ensures var side := ParseList(Unwrapped(ts[from..to]));
            side.Some? && ParseArgs(side.value).Some? ==>
              forall i :: 0 <= i < |ParseArgs(side.value).value| ==> ArgWf(ParseArgs(side.value).value[i])
  {
    hide ParseList, ArgWf, ParseArgs, IsName;
    var inner := Unwrapped(ts[from..to]);
    assert Lexed(ts[from..to]);
    assert Lexed(inner);
    ListLexed(inner);
    if ParseList(inner).Some? {
      ArgsYieldWf(ParseList(inner).value);
    }
  }

  // Everything that parses is well formed.
  lemma ParsedIsWf(s: string)
    ensures ParseType(s).Some? ==> FnWf(ParseType(s).value)
  {
    hide Lex, ParseList, Trimmed, ArgWf, ParseArg, Lexed, Unwrapped;
    if ParseType(s).Some? {
      var text := Trimmed(s)[2..];
      LexYieldsNames(text);
      var ts := Lex(text).value;
      var n := Find(ts, Arrow);
      SideYieldsWf(ts, 0, n);
      assert ts[0..n] == ts[..n];
      SideYieldsWf(ts, n + 1, |ts|);
      assert ts[n + 1..|ts|] == ts[n + 1..];
    }
  }

  // The characters of words, and the spaces between them, one by one.
  lemma WordCharIff(c: char)
    ensures WordChar(c) <==> c in "abcdefghijklmnopqrstuvwxyzABCDEFGHIJKLMNOPQRSTUVWXYZ_0123456789"
  {
    Letters(c);
    CapitalLetters(c);
  }

  lemma Letters(c: char)
    ensures 'a' <= c <= 'z' <==> c in "abcdefghijklmnopqrstuvwxyz"
  {
  }

  lemma CapitalLetters(c: char)
    ensures 'A' <= c <= 'Z' <==> c in "ABCDEFGHIJKLMNOPQRSTUVWXYZ"
  {
  }

  lemma SpaceIff(c: char)
    ensures Space(c) <==> c as int in {9, 10, 11, 12, 13, 28, 29, 30, 31, 32}
  {
  }

  // -------------------- the tokens of what is printed --------------------

  // A constant size of zero is not printed.
  function Normal(a: Arg): Arg {
    a.(size := if a.size == Const(0) then NoSize else a.size)
  }

  function Normals(args: seq<Arg>): (r: seq<Arg>)
    ensures |r| == |args| && forall i :: 0 <= i < |r| ==> r[i] == Normal(args[i])
  {
    seq(|args|, i requires 0 <= i < |args| => Normal(args[i]))
  }

  function NormalFn(f: Fn): Fn {
    Fn(Normals(f.args), Normals(f.rets), f.noreturn)
  }

  function Words(order: seq<string>): (ts: seq<Token>)
    ensures |ts| == |order| && forall i :: 0 <= i < |ts| ==> ts[i] == Word(order[i])
  {
    seq(|order|, i requires 0 <= i < |order| => Word(order[i]))
  }

  function StarTokens(n: nat): (ts: seq<Token>)
    ensures |ts| == n && forall i :: 0 <= i < n ==> ts[i] == Mark('*')
  {
    seq(n, _ => Mark('*'))
  }

  function SizeTokens(s: Size): seq<Token> {
    match s
    case Of(name) => [Mark('['), Word(name), Mark(']')]
    case Const(n) => if n > 0 then [Mark('['), Num(Numeral(n, 10)), Mark(']')] else []
    case NoSize => []
  }

  function Tail(a: Arg): seq<Token> {
    StarTokens(a.ptr) + (if a.name != [] then [Word(a.name)] else []) + SizeTokens(a.size)
  }

  function ArgTokens(a: Arg, order: seq<string>): seq<Token> {
    Words(order) + [Word(a.prim)] + Tail(a)
  }

  ghost function Before(ts: seq<Token>, rest: Option<seq<Token>>): Option<seq<Token>> {
    if rest.Some? then Some(ts + rest.value) else None
  }

  lemma BeforeBefore(ts: seq<Token>, us: seq<Token>, rest: Option<seq<Token>>)
    ensures Before(ts, Before(us, rest)) == Before(ts + us, rest)
  {
    if rest.Some? {
      assert ts + (us + rest.value) == ts + us + rest.value;
    }
  }

  lemma {:induction false} RunLengthOf(w: string, rest: string)
    requires (forall i :: 0 <= i < |w| ==> WordChar(w[i])) && Stops(rest)
    ensures RunLength(w + rest) == |w|
  {
    if w == [] {
      assert w + rest == rest;
    } else {
      assert (w + rest)[1..] == w[1..] + rest;
      RunLengthOf(w[1..], rest);
    }
  }

  lemma LexRun(w: string, rest: string)
    requires IsRun(w) && Stops(rest)
    ensures Lex(w + rest) == Before([if Digit(w[0]) then Num(w) else Word(w)], Lex(rest))
  {
    var s := w + rest;
    assert s[1..] == w[1..] + rest;
    RunLengthOf(w[1..], rest);
    assert s[..|w|] == w && s[|w|..] == rest;
    assert WordChar(s[0]) && !Space(s[0]);
  }

  lemma LexMark(c: char, rest: string)
    requires Marks(c)
    ensures Lex([c] + rest) == Before([Mark(c)], Lex(rest))
  {
    var s := [c] + rest;
    assert s[0] == c && s[1..] == rest;
  }

  lemma LexSpace(rest: string)
    ensures Lex(" " + rest) == Lex(rest)
  {
    var s := " " + rest;
    assert s[0] == ' ' && s[1..] == rest;
  }

  lemma LexArrow(rest: string)
    ensures Lex("->" + rest) == Before([Arrow], Lex(rest))
  {
    var s := "->" + rest;
    assert s[0] == '-' && s[1] == '>' && s[2..] == rest;
  }

  lemma ModifierIsName(w: string)
    requires w in MODIFIERS || w in PRIMITIVES
    ensures IsName(w)
  {
    if w in MODIFIERS {
      assert w == "const" || w == "mut" || w == "nullable";
    }
  }

  lemma {:induction false} LexMods(order: seq<string>, rest: string)
    requires forall m :: m in order ==> m in MODIFIERS
    ensures Lex(ModsText(order) + rest) == Before(Words(order), Lex(rest))
  {
    hide Lex;
    if order == [] {
      assert ModsText(order) + rest == rest;
      assert Lex(rest).Some? ==> [] + Lex(rest).value == Lex(rest).value;
    } else {
      var w, more := order[0], ModsText(order[1..]) + rest;
      assert ModsText(order) + rest == w + (" " + more);
      ModifierIsName(w);
      LexRun(w, " " + more);
      LexSpace(more);
      LexMods(order[1..], rest);
      BeforeBefore([Word(w)], Words(order[1..]), Lex(rest));
      assert [Word(w)] + Words(order[1..]) == Words(order);
    }
  }

  lemma {:induction false} LexStars(n: nat, rest: string)
    ensures Lex(Stars(n) + rest) == Before(StarTokens(n), Lex(rest))
  {
    hide Lex;
    if n == 0 {
      assert Stars(n) + rest == rest;
      assert Lex(rest).Some? ==> StarTokens(n) + Lex(rest).value == Lex(rest).value;
    } else {
      assert Stars(n) + rest == ['*'] + (Stars(n - 1) + rest);
      LexMark('*', Stars(n - 1) + rest);
      LexStars(n - 1, rest);
      BeforeBefore([Mark('*')], StarTokens(n - 1), Lex(rest));
      assert [Mark('*')] + StarTokens(n - 1) == StarTokens(n);
    }
  }

  lemma NumeralIsRun(n: nat)
    ensures IsRun(Numeral(n, 10)) && Digit(Numeral(n, 10)[0])
    ensures NumPattern(Numeral(n, 10)) && ReadInt(Numeral(n, 10)) == Some(n)
  {
    hide Parse;
    var w := Numeral(n, 10);
    NumeralReadsBack(n, 10);
    forall i | 0 <= i < |w| ensures Digit(w[i]) && HexValue(w[i]) >= 0 {
      assert 0 <= DigitValue(w[i]) < 10;
    }
    assert Lowered(w) == w;
    if |w| > 2 {
      assert Digit(w[1]);
    }
    assert w[0] == '0' ==> |w| == 1;
  }

  lemma LexBrackets(w: string, rest: string)
    requires IsRun(w)
    ensures Lex("[" + w + "]" + rest) ==
            Before([Mark('['), if Digit(w[0]) then Num(w) else Word(w), Mark(']')], Lex(rest))
  {
    hide Lex;
    var t := if Digit(w[0]) then Num(w) else Word(w);
    assert "[" + w + "]" + rest == ['['] + (w + ([']'] + rest));
    LexMark('[', w + ([']'] + rest));
    LexRun(w, [']'] + rest);
    LexMark(']', rest);
    BeforeBefore([t], [Mark(']')], Lex(rest));
    assert [t] + [Mark(']')] == [t, Mark(']')];
    BeforeBefore([Mark('[')], [t, Mark(']')], Lex(rest));
    assert [Mark('[')] + [t, Mark(']')] == [Mark('['), t, Mark(']')];
  }

  lemma LexSize(s: Size, rest: string)
    requires s.Of? ==> IsName(s.arg)
    ensures Lex(SizeText(s) + rest) == Before(SizeTokens(s), Lex(rest))
  {
    hide Lex, Numeral;
    if s.Of? {
      LexBrackets(s.arg, rest);
    } else if s.Const? && s.n > 0 {
      NumeralIsRun(s.n);
      LexBrackets(Numeral(s.n, 10), rest);
    } else {
      assert SizeText(s) + rest == rest;
      assert Lex(rest).Some? ==> SizeTokens(s) + Lex(rest).value == Lex(rest).value;
    }
  }

  lemma LexName(name: string, rest: string)
    requires name == [] || IsName(name)
    requires Stops(rest)
    ensures Lex(name + rest) == Before(if name != [] then [Word(name)] else [], Lex(rest))
  {
    if name == [] {
      assert name + rest == rest;
      assert Lex(rest).Some? ==> [] + Lex(rest).value == Lex(rest).value;
    } else {
      LexRun(name, rest);
    }
  }

  lemma LexTail(a: Arg, rest: string)
    requires ArgWf(a) && Stops(rest)
    ensures Lex(Stars(a.ptr) + a.name + SizeText(a.size) + rest) == Before(Tail(a), Lex(rest))
  {
    hide Lex, ArgOk;
    var size := SizeText(a.size) + rest;
    var name := if a.name != [] then [Word(a.name)] else [];
    assert Stops(size);
    assert Stars(a.ptr) + a.name + SizeText(a.size) + rest == Stars(a.ptr) + (a.name + size);
    LexStars(a.ptr, a.name + size);
    LexName(a.name, size);
    LexSize(a.size, rest);
    BeforeBefore(name, SizeTokens(a.size), Lex(rest));
    BeforeBefore(StarTokens(a.ptr), name + SizeTokens(a.size), Lex(rest));
    assert StarTokens(a.ptr) + (name + SizeTokens(a.size)) == Tail(a);
  }

  lemma LexArg(a: Arg, order: seq<string>, rest: string)
    requires ArgWf(a) && Lists(order, a.mod) && Stops(rest)
    ensures Lex(ArgText(a, order) + rest) == Before(ArgTokens(a, order), Lex(rest))
  {
    hide Lex, ArgOk, ModsText, Stars, SizeText, Tail;
    var tail := Stars(a.ptr) + a.name + SizeText(a.size) + rest;
    var gap := (if a.name != [] then " " else "") + tail;
    assert ArgText(a, order) + rest == ModsText(order) + (a.prim + gap);
    LexMods(order, a.prim + gap);
    ModifierIsName(a.prim);
    GapStops(a, rest);
    LexRun(a.prim, gap);
    LexTail(a, rest);
    if a.name != [] {
      LexSpace(tail);
    } else {
      assert gap == tail;
    }
    BeforeBefore([Word(a.prim)], Tail(a), Lex(rest));
    BeforeBefore(Words(order), [Word(a.prim)] + Tail(a), Lex(rest));
    assert Words(order) + ([Word(a.prim)] + Tail(a)) == ArgTokens(a, order);
  }

  lemma GapStops(a: Arg, rest: string)
    requires Stops(rest)
    ensures Stops((if a.name != [] then " " else "") + (Stars(a.ptr) + a.name + SizeText(a.size) + rest))
  {
    if a.name == [] && a.ptr == 0 {
      assert Stars(a.ptr) + a.name + SizeText(a.size) + rest == SizeText(a.size) + rest;
    }
  }

  // -------------------- parsing the tokens --------------------

  lemma {:induction false} CountMods(order: seq<string>, rest: seq<Token>)
    requires forall m :: m in order ==> m in MODIFIERS
    requires rest != [] && rest[0].Word? && rest[0].s !in MODIFIERS
    ensures ModCount(Words(order) + rest) == |order|
  {
    if order == [] {
      assert Words(order) + rest == rest;
    } else {
      assert (Words(order) + rest)[1..] == Words(order[1..]) + rest;
      assert order[0] in order;
      CountMods(order[1..], rest);
    }
  }

  lemma {:induction false} ParseStars(n: nat, rest: seq<Token>, stars: nat)
    ensures ParsePtr(StarTokens(n) + rest, stars, "", "") == ParsePtr(rest, stars + n, "", "")
    decreases n
  {
    if n == 0 {
      assert StarTokens(n) + rest == rest;
    } else {
      assert (StarTokens(n) + rest)[1..] == StarTokens(n - 1) + rest;
      ParseStars(n - 1, rest, stars + 1);
    }
  }

  // The size that a printed size is parsed as.
  function SizeOf(s: Size): (p: Ptr) {
    match s
    case Of(name) => Ptr(0, name, "", [])
    case Const(n) => Ptr(0, "", if n > 0 then Numeral(n, 10) else "", [])
    case NoSize => Ptr(0, "", "", [])
  }

  lemma ParseSizeTokens(s: Size, stars: nat)
    ensures ParsePtr(SizeTokens(s), stars, "", "") == SizeOf(s).(stars := stars)
  {
    hide Numeral, NumPattern;
    var ts := SizeTokens(s);
    if s.Of? || (s.Const? && s.n > 0) {
      assert ts[3..] == [];
      if s.Const? {
        NumeralIsRun(s.n);
      }
    }
  }

  lemma SizeReadsBack(s: Size, p: Ptr)
    requires s.Of? ==> s.arg != []
    requires p.name == "" && p.num == ""
    ensures var n := if s == Const(0) then NoSize else s;
            ParseSize(SizeOf(s), p) == Some(n) && ParseSize(p, SizeOf(s)) == Some(n)
  {
    hide Numeral, ReadInt;
    if s.Const? {
      NumeralIsRun(s.n);
    }
  }

  lemma ParseTail(a: Arg)
    requires Written(a)
    ensures var p := ParsePtr(Tail(a), 0, "", "");
            && (a.name != [] ==> p == Ptr(a.ptr, "", "", [Word(a.name)] + SizeTokens(a.size)))
            && (a.name == [] ==> p == SizeOf(a.size).(stars := a.ptr))
  {
    hide SizeTokens, SizeOf, ArgOk;
    var rest := (if a.name != [] then [Word(a.name)] else []) + SizeTokens(a.size);
    assert Tail(a) == StarTokens(a.ptr) + rest;
    ParseStars(a.ptr, rest, 0);
    if a.name == [] {
      assert rest == SizeTokens(a.size);
      ParseSizeTokens(a.size, a.ptr);
    }
  }

  lemma NormalIsOk(a: Arg)
    requires ArgOk(a)
    ensures ArgOk(Normal(a))
  {
  }

  // An argument as it can be written, whether or not it is one.
  ghost predicate Written(a: Arg) {
    && a.mod <= MODIFIERS && a.prim in PRIMITIVES
    && (a.name == [] || IsName(a.name)) && (a.size.Of? ==> IsName(a.size.arg))
  }

  lemma ParseArgTokens(a: Arg, order: seq<string>)
    requires ArgWf(a) && Lists(order, a.mod)
    ensures ParseArg(ArgTokens(a, order)) == Some(Normal(a))
  {
    hide ArgTokens, ParseArg;
    ParseWritten(a, order);
    NormalIsOk(a);
  }

  lemma ParseWritten(a: Arg, order: seq<string>)
    requires Written(a) && Lists(order, a.mod)
    ensures ParseArg(ArgTokens(a, order)) == if ArgOk(Normal(a)) then Some(Normal(a)) else None
  {
    hide ArgOk, SizeTokens, SizeOf, ParsePtr, ModCount, ParseSize, Tail;
    var ts := ArgTokens(a, order);
    var rest := [Word(a.prim)] + Tail(a);
    assert ts == Words(order) + rest;
    assert |ts| >= 2 ==> ts[1] != Mark(':') by {
      TailHead(a);
    }
    CountMods(order, rest);
    assert ts[|order| + 1..] == Tail(a);
    SameWords(order, ts, a.mod);
    ParseTail(a);
    if a.name == [] {
      NothingToParse(0);
      SizeReadsBack(a.size, Ptr(0, "", "", []));
      SameSize(a.size, a.ptr, Ptr(0, "", "", []));
    } else {
      var p := ParsePtr(Tail(a), 0, "", "");
      assert p.rest[1..] == SizeTokens(a.size);
      ParseSizeTokens(a.size, 0);
      SizeReadsBack(a.size, p);
      SameSize(a.size, 0, p);
    }
  }

  // What is refused: more than one star, modifiers on what is neither a pointer nor an
  // array, a pointer or array with neither const nor mut, and one with both.
  lemma RefusedIff(a: Arg, order: seq<string>)
    requires Written(a) && Lists(order, a.mod)
    ensures var points := a.ptr > 0 || a.size.Of? || (a.size.Const? && a.size.n != 0);
            ParseArg(ArgTokens(a, order)).None? <==>
            || a.ptr > 1
            || (!points && a.mod != {})
            || (points && "const" !in a.mod && "mut" !in a.mod)
            || ("const" in a.mod && "mut" in a.mod)
  {
    hide ArgTokens, ParseArg, Written;
    ParseWritten(a, order);
  }

  // The types there are.
  lemma PrimitiveIff(w: string)
    requires IsName(w)
    ensures ParseArg([Word(w)]).Some? <==>
            w in {"bool", "u8", "u16", "u32", "u64", "usize", "i8", "i16", "i32", "i64", "isize",
                  "f32", "f64", "err", "err32", "err64", "errsize"}
  {
    var ts := [Word(w)];
    if w in PRIMITIVES {
      assert ts[1..] == [];
      NothingToParse(0);
      assert ModCount(ts) == 0;
    }
  }

  // The name may come first, with a colon behind it, and means the same there. It may not
  // come in both places.
  lemma NameInFront(a: Arg, order: seq<string>, name: string)
    requires ArgWf(a) && Lists(order, a.mod) && name != []
    ensures ParseArg([Word(name), Mark(':')] + ArgTokens(a, order)) ==
            if a.name == [] then Some(Normal(a.(name := name))) else None
  {
    hide ArgTokens, ParseNamed, ArgWf;
    var ts := [Word(name), Mark(':')] + ArgTokens(a, order);
    assert ts[2..] == ArgTokens(a, order);
    NamedInFront(a, order, name);
  }

  lemma NamedInFront(a: Arg, order: seq<string>, name: string)
    requires ArgWf(a) && Lists(order, a.mod) && name != []
    ensures ParseNamed(ArgTokens(a, order), name) == if a.name == [] then Some(Normal(a.(name := name))) else None
  {
    hide ParseNamed;
    ParseArgTokens(a, order);
    var ts := ArgTokens(a, order);
    assert |ts| >= 2 ==> ts[1] != Mark(':') by {
      assert ts == Words(order) + ([Word(a.prim)] + Tail(a));
      TailHead(a);
    }
    FrontName(ts, name);
  }

  lemma FrontName(ts: seq<Token>, name: string)
    requires name != []
    ensures var a := ParseNamed(ts, "");
            ParseNamed(ts, name) == if a.Some? && a.value.name == [] then Some(a.value.(name := name)) else None
  {
    hide ParsePtr, ParseSize, ModCount;
  }

  // And as text: `name: type`.
  lemma NameInFrontText(a: Arg, order: seq<string>, name: string)
    requires ArgWf(a) && Lists(order, a.mod) && IsName(name)
    ensures var ts := Lex(name + ": " + ArgText(a, order));
            ts.Some? && ParseArg(ts.value) == if a.name == [] then Some(Normal(a.(name := name))) else None
  {
    hide Lex, ArgText, ArgTokens, ArgWf, Lists, ParseArg;
    var text, end := ArgText(a, order), "";
    assert text + end == text;
    LexArg(a, order, end);
    LexNothing(end);
    assert ArgTokens(a, order) + [] == ArgTokens(a, order);
    assert name + ": " + text == name + ([':'] + (" " + text));
    LexRun(name, [':'] + (" " + text));
    LexMark(':', " " + text);
    LexSpace(text);
    assert [Word(name)] + ([Mark(':')] + ArgTokens(a, order)) == [Word(name), Mark(':')] + ArgTokens(a, order);
    NameInFront(a, order, name);
  }

  // Stars and size may come in front of the name too.
  function EarlyTokens(a: Arg, order: seq<string>): seq<Token> {
    Words(order) + [Word(a.prim)] + (StarTokens(a.ptr) + (SizeTokens(a.size) + [Word(a.name)]))
  }

  lemma SizeInFront(a: Arg, order: seq<string>)
    requires ArgWf(a) && Lists(order, a.mod) && a.name != []
    ensures ParseArg(EarlyTokens(a, order)) == Some(Normal(a))
  {
    hide ArgOk, SizeTokens, SizeOf, ParsePtr, ModCount, ParseSize, Numeral;
    var ts, late := EarlyTokens(a, order), SizeTokens(a.size) + [Word(a.name)];
    var rest := [Word(a.prim)] + (StarTokens(a.ptr) + late);
    assert ts == Words(order) + rest;
    assert ts[|order|] == Word(a.prim);
    assert |ts| >= 2 ==> ts[1] != Mark(':') by {
      SizeHead(a);
    }
    CountMods(order, rest);
    assert ts[|order| + 1..] == StarTokens(a.ptr) + late;
    SameWords(order, ts, a.mod);
    ParseStars(a.ptr, late, 0);
    ParseEarlySize(a.size, a.name, a.ptr);
    NothingToParse(0);
    SizeReadsBack(a.size, Ptr(0, "", "", []));
    SameSize(a.size, a.ptr, Ptr(0, "", "", []));
    NormalIsOk(a);
    EarlyRest(a);
  }

  lemma SizeHead(a: Arg)
    ensures var t := StarTokens(a.ptr) + (SizeTokens(a.size) + [Word(a.name)]);
            t[0] != Mark(':')
  {
    hide Numeral;
  }

  lemma SameWords(order: seq<string>, ts: seq<Token>, mod: set<string>)
    requires Lists(order, mod) && |order| <= |ts| && ts[..|order|] == Words(order)
    ensures (set i | 0 <= i < |order| :: ts[i].s) == mod
  {
    assert forall i :: 0 <= i < |order| ==> ts[i] == ts[..|order|][i];
    forall m | m in mod ensures m in (set i | 0 <= i < |order| :: ts[i].s) {
      var i :| 0 <= i < |order| && order[i] == m;
      assert ts[i].s == m;
    }
  }

  lemma ParseEarlySize(s: Size, name: string, stars: nat)
    ensures ParsePtr(SizeTokens(s) + [Word(name)], stars, "", "") ==
            SizeOf(s).(stars := stars, rest := [Word(name)])
  {
    hide Numeral, NumPattern;
    var ts := SizeTokens(s) + [Word(name)];
    if s.Of? || (s.Const? && s.n > 0) {
      assert ts[3..] == [Word(name)];
      if s.Const? {
        NumeralIsRun(s.n);
      }
    } else {
      assert ts == [Word(name)];
    }
  }

  lemma EarlyRest(a: Arg)
    ensures var p := SizeOf(a.size).(stars := a.ptr, rest := [Word(a.name)]);
            p.rest[1..] == [] && ParseSize(p, Ptr(0, "", "", [])) == ParseSize(SizeOf(a.size), Ptr(0, "", "", []))
  {
  }

  // Sizes may be written in other bases; a number with zeros in front, or hexadecimal
  // digits without the prefix, is none.
  lemma SizeSpellings()
    ensures ReadInt("31") == ReadInt("0x1f") == ReadInt("0x1F") == ReadInt("0o37") == Some(31)
    ensures ReadInt("0b11") == Some(3) && ReadInt("00") == Some(0)
    ensures ReadInt("031") == ReadInt("1f") == None
    ensures forall s :: s in ["31", "1f", "1F", "0x1f", "0o37", "0b11", "0x1F"] ==> NumPattern(s)
    ensures forall s :: s in ["", "0x", "0z1", "1x1", "1g", "0x1g", "g1"] ==> !NumPattern(s)
  {
    hide Parse, Lowered;
    Patterns();
    TwoDigits("31", 10);
    TwoDigits("1f", 16);
    TwoDigits("1F", 16);
    TwoDigits("37", 8);
    TwoDigits("11", 2);
    TwoDigits("00", 10);
    assert "0x1f"[2..] == "1f" && "0x1F"[2..] == "1F" && "0o37"[2..] == "37" && "0b11"[2..] == "11";
    assert "031"[1] != '0';
    LetterIsNone("1f");
  }

  lemma Patterns()
    ensures forall s :: s in ["31", "1f", "1F", "0x1f", "0o37", "0b11", "0x1F"] ==> NumPattern(s)
    ensures forall s :: s in ["", "0x", "0z1", "1x1", "1g", "0x1g", "g1"] ==> !NumPattern(s)
  {
    assert "0x1f"[2..] == "1f" && "0x1F"[2..] == "1F" && "0o37"[2..] == "37" && "0b11"[2..] == "11";
    assert HexValue("1g"[1]) < 0 && HexValue("g1"[0]) < 0 && HexValue("0z1"[1]) < 0 && HexValue("1x1"[1]) < 0;
    assert HexValue("0x1g"[3]) < 0 && HexValue("0x"[1]) < 0 && "0x1g"[2..][1] == 'g';
  }

  lemma TwoDigits(s: string, base: nat)
    requires |s| == 2 && base >= 2 && 0 <= HexValue(s[0]) < base && 0 <= HexValue(s[1]) < base
    ensures InBase(s, base) == Some(HexValue(s[0]) * base + HexValue(s[1]))
  {
    var t := Lowered(s);
    assert t[..1] == [t[0]] && [t[0]][..0] == [];
    assert Parse(t[..1], base) == DigitValue(t[0]);
  }

  lemma LetterIsNone(s: string)
    requires |s| == 2 && DigitValue(s[1]) >= 10 && s[0] != '0'
    ensures ReadInt(s) == None
  {
    assert DigitValue(Lowered(s)[1]) >= 10;
  }

  lemma NothingToParse(stars: nat)
    ensures ParsePtr([], stars, "", "") == Ptr(stars, "", "", [])
  {
  }

  // The stars do not matter to the size.
  lemma SameSize(s: Size, stars: nat, q: Ptr)
    ensures var p := SizeOf(s);
            ParseSize(p.(stars := stars), q) == ParseSize(p, q) && p.rest == [] && p.stars == 0
  {
  }

  lemma TailHead(a: Arg)
    ensures Tail(a) != [] ==> Tail(a)[0] != Mark(':')
  {
    hide Numeral;
  }

  // -------------------- lists and whole functions --------------------

  ghost predicate ArgsWf(args: seq<Arg>, orders: seq<seq<string>>) {
    && |orders| == |args|
    && forall i :: 0 <= i < |args| ==> ArgWf(args[i]) && Lists(orders[i], args[i].mod)
  }

  ghost function ListTokens(args: seq<Arg>, orders: seq<seq<string>>): seq<Token>
    requires |orders| == |args|
  {
    if args == [] then []
    else if |args| == 1 then ArgTokens(args[0], orders[0])
    else ArgTokens(args[0], orders[0]) + [Mark(',')] + ListTokens(args[1..], orders[1..])
  }

  ghost function EachTokens(args: seq<Arg>, orders: seq<seq<string>>): (ps: seq<seq<Token>>)
    requires |orders| == |args|
    ensures |ps| == |args| && forall i :: 0 <= i < |ps| ==> ps[i] == ArgTokens(args[i], orders[i])
  {
    seq(|args|, i requires 0 <= i < |args| => ArgTokens(args[i], orders[i]))
  }

  lemma {:induction false} LexList(args: seq<Arg>, orders: seq<seq<string>>, rest: string)
    requires ArgsWf(args, orders) && Stops(rest)
    ensures Lex(ArgTexts(args, orders) + rest) == Before(ListTokens(args, orders), Lex(rest))
  {
    hide Lex, ArgText, ArgTokens, ArgWf, Lists;
    if args == [] {
      assert ArgTexts(args, orders) + rest == rest;
      assert Lex(rest).Some? ==> [] + Lex(rest).value == Lex(rest).value;
    } else if |args| == 1 {
      LexArg(args[0], orders[0], rest);
    } else {
      var more := ArgTexts(args[1..], orders[1..]) + rest;
      var first, others := ArgTokens(args[0], orders[0]), ListTokens(args[1..], orders[1..]);
      assert ArgTexts(args, orders) + rest == ArgText(args[0], orders[0]) + ([','] + (" " + more));
      LexArg(args[0], orders[0], [','] + (" " + more));
      LexMark(',', " " + more);
      LexSpace(more);
      LexList(args[1..], orders[1..], rest);
      BeforeBefore([Mark(',')], others, Lex(rest));
      BeforeBefore(first, [Mark(',')] + others, Lex(rest));
      assert first + ([Mark(',')] + others) == ListTokens(args, orders);
    }
  }

  // The tokens of an argument hold no comma, no parenthesis and no arrow, and end in no
  // list that stands for nothing.
  lemma ArgTokensPlain(a: Arg, order: seq<string>)
    requires ArgWf(a) && Lists(order, a.mod)
    ensures ArgTokens(a, order) != [] && forall t :: t in ArgTokens(a, order) ==> ArgToken(t)
    ensures ArgTokens(a, order) != [Word("void")] && ArgTokens(a, order) != [Word("noreturn")]
  {
    hide Numeral, ArgOk;
    var ts := ArgTokens(a, order);
    assert ts[|order|] == Word(a.prim);
    assert "void" !in PRIMITIVES && "noreturn" !in PRIMITIVES;
  }

  lemma {:induction false} ListTokensPlain(args: seq<Arg>, orders: seq<seq<string>>)
    requires ArgsWf(args, orders)
    ensures forall t :: t in ListTokens(args, orders) ==> ArgToken(t) || t == Mark(',')
    ensures args != [] ==>
              ListTokens(args, orders) != [] && ArgToken(ListTokens(args, orders)[|ListTokens(args, orders)| - 1])
  {
    hide ArgTokens, ArgWf, Lists, ArgToken;
    if args != [] {
      ArgTokensPlain(args[0], orders[0]);
      ListTokensPlain(args[1..], orders[1..]);
    }
  }

  lemma {:induction false} PiecesOfOne(ts: seq<Token>)
    requires Mark(',') !in ts
    ensures Pieces(ts) == [ts]
  {
    if ts != [] {
      PiecesOfOne(ts[1..]);
      assert [ts[0]] + ts[1..] == ts;
    }
  }

  lemma {:induction false} PiecesOfMore(ts: seq<Token>, rest: seq<Token>)
    requires Mark(',') !in ts
    ensures Pieces(ts + [Mark(',')] + rest) == [ts] + Pieces(rest)
  {
    var all := ts + [Mark(',')] + rest;
    if ts == [] {
      assert all[1..] == rest;
    } else {
      assert all[1..] == ts[1..] + [Mark(',')] + rest;
      PiecesOfMore(ts[1..], rest);
      assert [ts[0]] + ts[1..] == ts;
      assert ([ts[1..]] + Pieces(rest))[1..] == Pieces(rest);
    }
  }

  lemma {:induction false} PiecesOfList(args: seq<Arg>, orders: seq<seq<string>>)
    requires ArgsWf(args, orders) && args != []
    ensures Pieces(ListTokens(args, orders)) == EachTokens(args, orders)
  {
    hide ArgTokens, ArgWf, Lists, Pieces;
    var first := ArgTokens(args[0], orders[0]);
    ArgTokensPlain(args[0], orders[0]);
    assert Mark(',') !in first;
    if |args| == 1 {
      PiecesOfOne(first);
    } else {
      PiecesOfMore(first, ListTokens(args[1..], orders[1..]));
      PiecesOfList(args[1..], orders[1..]);
    }
  }

  lemma ParseListTokens(args: seq<Arg>, orders: seq<seq<string>>)
    requires ArgsWf(args, orders)
    ensures ParseList(ListTokens(args, orders)) == Some(EachTokens(args, orders))
    ensures EachTokens(args, orders) != [[Word("noreturn")]]
  {
    hide ArgTokens, ArgWf, Lists, Pieces;
    if args != [] {
      var ts := ListTokens(args, orders);
      ListTokensPlain(args, orders);
      PiecesOfList(args, orders);
      forall i | 0 <= i < |args|
        ensures EachTokens(args, orders)[i] !in [[], [Word("void")], [Word("noreturn")]]
      {
        ArgTokensPlain(args[i], orders[i]);
      }
    }
  }

  lemma {:induction false} ParseEach(args: seq<Arg>, orders: seq<seq<string>>)
    requires ArgsWf(args, orders)
    ensures ParseArgs(EachTokens(args, orders)) == Some(Normals(args))
  {
    hide ParseArg, ArgTokens, ArgWf, Lists, Normal;
    if args != [] {
      ParseArgTokens(args[0], orders[0]);
      assert EachTokens(args, orders)[1..] == EachTokens(args[1..], orders[1..]);
      ParseEach(args[1..], orders[1..]);
      assert [Normal(args[0])] + Normals(args[1..]) == Normals(args);
    }
  }

  ghost function RetTokens(f: Fn, orders: seq<seq<string>>): seq<Token>
    requires |orders| == |f.rets|
  {
    if f.noreturn then [Word("noreturn")] else if f.rets == [] then [Word("void")] else ListTokens(f.rets, orders)
  }

  ghost function FnTokens(f: Fn, orders: seq<seq<string>>, retOrders: seq<seq<string>>): seq<Token>
    requires |orders| == |f.args| && |retOrders| == |f.rets|
  {
    [Mark('(')] + ListTokens(f.args, orders) + [Mark(')'), Arrow] + RetTokens(f, retOrders)
  }

  lemma LexNothing(s: string)
    requires s == []
    ensures Lex(s) == Some([])
  {
  }

  lemma LexRet(f: Fn, orders: seq<seq<string>>)
    requires ArgsWf(f.rets, orders)
    ensures Lex(RetText(f, orders)) == Some(RetTokens(f, orders))
  {
    hide ArgTexts, ListTokens, ArgWf, Lists;
    var text, ts, end := RetText(f, orders), RetTokens(f, orders), "";
    assert text + end == text && ts + [] == ts;
    LexNothing(end);
    if f.noreturn || f.rets == [] {
      LexRun(text, end);
    } else {
      LexList(f.rets, orders, end);
    }
  }

  lemma LexFn(f: Fn, orders: seq<seq<string>>, retOrders: seq<seq<string>>)
    requires ArgsWf(f.args, orders) && ArgsWf(f.rets, retOrders)
    ensures Lex(FnText(f, orders, retOrders)[2..]) == Some(FnTokens(f, orders, retOrders))
  {
    hide Lex, ArgTexts, RetText, ListTokens, RetTokens, ArgWf, Lists;
    var ret := RetText(f, retOrders);
    var text := ArgTexts(f.args, orders) + ([')'] + (" " + ("->" + (" " + ret))));
    assert FnText(f, orders, retOrders)[2..] == ['('] + text;
    LexMark('(', text);
    LexList(f.args, orders, [')'] + (" " + ("->" + (" " + ret))));
    LexMark(')', " " + ("->" + (" " + ret)));
    LexSpace("->" + (" " + ret));
    LexArrow(" " + ret);
    LexSpace(ret);
    LexRet(f, retOrders);
    var list, r := ListTokens(f.args, orders), RetTokens(f, retOrders);
    assert [Mark('(')] + (list + ([Mark(')')] + ([Arrow] + r))) == FnTokens(f, orders, retOrders);
  }

  lemma {:induction false} FindFirst(ts: seq<Token>, t: Token, rest: seq<Token>)
    requires t !in ts
    ensures Find(ts + [t] + rest, t) == |ts|
  {
    var all := ts + [t] + rest;
    if ts != [] {
      assert all[1..] == ts[1..] + [t] + rest;
      FindFirst(ts[1..], t, rest);
    }
  }

  lemma ParseWord(ts: seq<Token>, w: string)
    requires ts == [Word(w)]
    ensures ParseList(ts) == Some(if w == "void" then [] else [ts])
  {
    hide Pieces;
    PiecesOfOne(ts);
    var ps, void := Pieces(ts), [[Word("void")]];
    assert [] !in ps;
    assert ArgToken(ts[0]);
    assert w == "void" ==> ps == void;
    assert ps == void ==> ps[0][0] == void[0][0];
  }

  lemma ParseRetTokens(f: Fn, orders: seq<seq<string>>)
    requires ArgsWf(f.rets, orders) && (f.noreturn ==> f.rets == [])
    ensures Unwrapped(RetTokens(f, orders)) == RetTokens(f, orders)
    ensures ParseList(RetTokens(f, orders)) ==
            Some(if f.noreturn then [[Word("noreturn")]] else EachTokens(f.rets, orders))
    ensures f.noreturn || EachTokens(f.rets, orders) != [[Word("noreturn")]]
  {
    hide ArgWf, Lists, ArgTokens;
    var ts := RetTokens(f, orders);
    if f.noreturn {
      ParseWord(ts, "noreturn");
    } else if f.rets == [] {
      ParseWord(ts, "void");
      assert EachTokens(f.rets, orders) == [];
    } else {
      ListTokensPlain(f.rets, orders);
      ParseListTokens(f.rets, orders);
      assert ts[0] in ts;
    }
  }

  lemma ParseFnTokens(f: Fn, orders: seq<seq<string>>, retOrders: seq<seq<string>>)
    requires ArgsWf(f.args, orders) && ArgsWf(f.rets, retOrders) && (f.noreturn ==> f.rets == [])
    ensures ParseTokens(FnTokens(f, orders, retOrders)) == Some(NormalFn(f))
  {
    hide ArgWf, Lists, ListTokens, RetTokens, ParseList, ParseArgs;
    var args := ListTokens(f.args, orders);
    var left, right := [Mark('(')] + args + [Mark(')')], RetTokens(f, retOrders);
    var ts := FnTokens(f, orders, retOrders);
    assert ts == left + [Arrow] + right;
    ListTokensPlain(f.args, orders);
    FindFirst(left, Arrow, right);
    assert ts[..|left|] == left && ts[|left| + 1..] == right;
    assert left[1..|left| - 1] == args;
    ParseListTokens(f.args, orders);
    ParseRetTokens(f, retOrders);
    ParseEach(f.args, orders);
    ParseEach(f.rets, retOrders);
    if f.noreturn {
      assert EachTokens(f.rets, retOrders) == [];
    }
  }

  // A printed function type parses as itself, whatever order its modifiers come out in,
  // except that constant sizes of zero are lost.
  lemma PrintedParses(f: Fn, orders: seq<seq<string>>, retOrders: seq<seq<string>>)
    requires FnWf(f) && ArgsWf(f.args, orders) && ArgsWf(f.rets, retOrders)
    ensures ParseType(FnText(f, orders, retOrders)) == Some(NormalFn(f))
    ensures ParseType(FnText(f, orders, retOrders)) == Some(f) <==>
            forall a :: a in f.args + f.rets ==> a.size != Const(0)
  {
    hide Lex, ArgTexts, RetText, FnTokens, ArgWf, Lists, ParseTokens;
    var text := FnText(f, orders, retOrders);
    assert text[..2] == "fn" && Trimmed(text) == text;
    LexFn(f, orders, retOrders);
    ParseFnTokens(f, orders, retOrders);
    NormalIff(f);
  }

  lemma NormalIff(f: Fn)
    ensures NormalFn(f) == f <==> forall a :: a in f.args + f.rets ==> a.size != Const(0)
  {
    if NormalFn(f) == f {
      forall a | a in f.args + f.rets ensures a.size != Const(0) {
        if a in f.args {
          var i :| 0 <= i < |f.args| && f.args[i] == a;
          assert Normals(f.args)[i] == a;
        } else {
          var i :| 0 <= i < |f.rets| && f.rets[i] == a;
          assert Normals(f.rets)[i] == a;
        }
      }
    }
    if forall a :: a in f.args + f.rets ==> a.size != Const(0) {
      assert forall i :: 0 <= i < |f.args| ==> f.args[i] in f.args + f.rets;
      assert forall i :: 0 <= i < |f.rets| ==> f.rets[i] in f.args + f.rets;
      assert Normals(f.args) == f.args && Normals(f.rets) == f.rets;
    }
  }

  // -------------------- other spellings --------------------

  // A list with or without parentheses, with or without a comma at its end.
  ghost predicate Side(side: seq<Token>, list: seq<Token>) {
    || side == list || side == list + [Mark(',')]
    || side == [Mark('(')] + list + [Mark(')')] || side == [Mark('(')] + list + [Mark(','), Mark(')')]
  }

  lemma SideUnwrapped(side: seq<Token>, list: seq<Token>)
    requires Side(side, list) && forall t :: t in list ==> ArgToken(t) || t == Mark(',')
    ensures Unwrapped(side) == list || Unwrapped(side) == list + [Mark(',')]
    ensures forall t :: t in side ==> t != Arrow
  {
    if side == [Mark('(')] + list + [Mark(')')] {
      assert side[1..|side| - 1] == list;
    } else if side == [Mark('(')] + list + [Mark(','), Mark(')')] {
      assert side[1..|side| - 1] == list + [Mark(',')];
    } else if list != [] {
      assert side[0] == list[0] && list[0] in list && !ArgToken(Mark('('));
    }
  }

  lemma CommaParses(list: seq<Token>)
    requires list != [] ==> list[|list| - 1] != Mark(',')
    ensures ParseList(list + [Mark(',')]) == ParseList(list)
  {
    hide ParseItems;
    var comma := list + [Mark(',')];
    assert comma[|comma| - 1] == Mark(',') && comma[..|comma| - 1] == list;
  }

  // A function type may be written in any of these ways on either side of the arrow, and
  // its results with void or noreturn where there are none.
  lemma SpellingsParse(f: Fn, orders: seq<seq<string>>, retOrders: seq<seq<string>>,
                       left: seq<Token>, right: seq<Token>)
    requires ArgsWf(f.args, orders) && ArgsWf(f.rets, retOrders) && (f.noreturn ==> f.rets == [])
    requires Side(left, ListTokens(f.args, orders)) && Side(right, RetTokens(f, retOrders))
    ensures ParseTokens(left + [Arrow] + right) == Some(NormalFn(f))
  {
    hide ArgWf, Lists, ListTokens, RetTokens, ParseList, ParseArgs, Side, Unwrapped;
    var ts := left + [Arrow] + right;
    ListTokensPlain(f.args, orders);
    RetTokensPlain(f, retOrders);
    ListEnd(f.args, orders);
    SideUnwrapped(left, ListTokens(f.args, orders));
    SideUnwrapped(right, RetTokens(f, retOrders));
    CommaParses(ListTokens(f.args, orders));
    CommaParses(RetTokens(f, retOrders));
    FindFirst(left, Arrow, right);
    assert ts[..|left|] == left && ts[|left| + 1..] == right;
    ParseListTokens(f.args, orders);
    ParseRetTokens(f, retOrders);
    ParseEach(f.args, orders);
    ParseEach(f.rets, retOrders);
    if f.noreturn {
      assert EachTokens(f.rets, retOrders) == [];
    }
  }

  lemma ListEnd(args: seq<Arg>, orders: seq<seq<string>>)
    requires ArgsWf(args, orders)
    ensures var list := ListTokens(args, orders); list != [] ==> list[|list| - 1] != Mark(',')
  {
    hide ArgWf, Lists, ArgTokens;
    ListTokensPlain(args, orders);
  }

  lemma RetTokensPlain(f: Fn, orders: seq<seq<string>>)
    requires ArgsWf(f.rets, orders) && (f.noreturn ==> f.rets == [])
    ensures forall t :: t in RetTokens(f, orders) ==> ArgToken(t) || t == Mark(',')
    ensures RetTokens(f, orders) != [] && RetTokens(f, orders)[|RetTokens(f, orders)| - 1] != Mark(',')
  {
    hide ArgWf, Lists;
    ListTokensPlain(f.rets, orders);
  }

  // What it looks like.
  function ExampleFn(): Fn {
    Fn([Arg({"const"}, "u8", 1, Of("n"), "buf"), Arg({}, "usize", 0, NoSize, "n")],
       [Arg({}, "err", 0, NoSize, "")], false)
  }

  lemma TextExample()
    ensures FnText(ExampleFn(), [["const"], []], [[]]) == "fn(const u8 *buf[n], usize n) -> err"
    ensures ParseType("fn(const u8 *buf[n], usize n) -> err") == Some(ExampleFn())
  {
    hide FnText, ParseType, FnWf, ArgsWf;
    ExampleText();
    ExampleWf();
    PrintedParses(ExampleFn(), [["const"], []], [[]]);
  }

  lemma ExampleText()
    ensures FnText(ExampleFn(), [["const"], []], [[]]) == "fn(const u8 *buf[n], usize n) -> err"
  {
    hide ArgText, ArgTexts;
    var f := ExampleFn();
    ArgExamples();
    PairText(f.args[0], f.args[1], ["const"], []);
    OneText(f.rets[0], []);
    var args := "const u8 *buf[n], usize n";
    assert "const u8 *buf[n]" + ", " + "usize n" == args;
    assert "fn(" + args + ") -> " + "err" == "fn(const u8 *buf[n], usize n) -> err";
  }

  lemma ExampleWf()
    ensures FnWf(ExampleFn()) && ArgsWf(ExampleFn().args, [["const"], []]) && ArgsWf(ExampleFn().rets, [[]])
  {
  }

  lemma ArgExamples()
    ensures ArgText(Arg({"const"}, "u8", 1, Of("n"), "buf"), ["const"]) == "const u8 *buf[n]"
    ensures ArgText(Arg({}, "usize", 0, NoSize, "n"), []) == "usize n"
    ensures ArgText(Arg({}, "err", 0, NoSize, ""), []) == "err"
  {
    assert ModsText(["const"]) == "const " && Stars(1) == "*" && Stars(0) == "";
  }

  lemma PairText(a: Arg, b: Arg, order: seq<string>, order': seq<string>)
    ensures ArgTexts([a, b], [order, order']) == ArgText(a, order) + ", " + ArgText(b, order')
  {
    hide ArgText;
    OneText(b, order');
    assert [a, b][1..] == [b] && [order, order'][1..] == [order'];
  }

  lemma OneText(a: Arg, order: seq<string>)
    ensures ArgTexts([a], [order]) == ArgText(a, order)
  {
    hide ArgText;
  }
}
