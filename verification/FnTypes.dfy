/** Function types: how they are printed, and how what is printed is parsed again. */
module FnTypes {
  import opened Basics
  import opened Numerals

  // A size `[n]` or `[name]` after an argument.
  datatype Size = NoSize | Const(n: nat) | Of(arg: string)

  // An argument or a return value; `name` is empty when there is none.
  datatype Arg = Arg(mod: set<string>, prim: string, ptr: nat, size: Size, name: string)

  datatype Fn = Fn(args: seq<Arg>, rets: seq<Arg>, noreturn: bool)

  const MODIFIERS: set<string> := {"const", "mut", "nullable"}

  const PRIMITIVES: set<string> := {
    "bool", "u8", "u16", "u32", "u64", "usize", "i8", "i16", "i32", "i64", "isize",
    "f32", "f64", "err", "err32", "err64", "errsize"}

  // -------------------- characters and words --------------------

  predicate Digit(c: char) {
    '0' <= c <= '9'
  }

  predicate WordChar(c: char) {
    'a' <= c <= 'z' || 'A' <= c <= 'Z' || c == '_' || Digit(c)
  }

  predicate Space(c: char) {
    c == ' ' || 9 <= c as int <= 13 || 28 <= c as int <= 31
  }

  predicate Marks(c: char) {
    c == '(' || c == ')' || c == '[' || c == ']' || c == ':' || c == '*' || c == ','
  }

  // A run of word characters that may be followed by `rest`.
  predicate IsRun(w: string) {
    w != [] && forall i :: 0 <= i < |w| ==> WordChar(w[i])
  }

  predicate IsName(w: string) {
    IsRun(w) && !Digit(w[0])
  }

  predicate Stops(rest: string) {
    rest == [] || !WordChar(rest[0])
  }

  // -------------------- tokens --------------------

  datatype Token = Word(s: string) | Num(s: string) | Mark(c: char) | Arrow

  function RunLength(s: string): (n: nat)
    ensures n <= |s| && (forall i :: 0 <= i < n ==> WordChar(s[i])) && Stops(s[n..])
  {
    if Stops(s) then 0 else 1 + RunLength(s[1..])
  }

  function Then(t: Token, ts: Option<seq<Token>>): Option<seq<Token>> {
    if ts.Some? then Some([t] + ts.value) else None
  }

  function Lex(s: string): Option<seq<Token>> {
    if s == [] then Some([])
    else if Space(s[0]) then Lex(s[1..])
    else if WordChar(s[0]) then
      var n := 1 + RunLength(s[1..]);
      Then(if Digit(s[0]) then Num(s[..n]) else Word(s[..n]), Lex(s[n..]))
    else if Marks(s[0]) then Then(Mark(s[0]), Lex(s[1..]))
    else if |s| > 1 && s[0] == '-' && s[1] == '>' then Then(Arrow, Lex(s[2..]))
    else None
  }

  // -------------------- parsing an argument --------------------

  function HexValue(c: char): int {
    DigitValue(if 'A' <= c <= 'F' then c - 'A' + 'a' else c)
  }

  predicate HexRun(s: string) {
    s != [] && forall i :: 0 <= i < |s| ==> HexValue(s[i]) >= 0
  }

  predicate Prefixed(s: string) {
    |s| > 2 && s[0] == '0' && s[1] in "oxb"
  }

  // Hexadecimal digits, maybe behind 0o, 0x or 0b.
  predicate NumPattern(s: string) {
    HexRun(s) || (Prefixed(s) && HexRun(s[2..]))
  }

  function Lowered(s: string): (r: string)
    ensures |r| == |s|
  {
    seq(|s|, i requires 0 <= i < |s| => if 'A' <= s[i] <= 'F' then s[i] - 'A' + 'a' else s[i])
  }

  function InBase(s: string, base: nat): Option<nat>
    requires base >= 2
  {
    if s != [] && AllDigits(Lowered(s), base) then Some(Parse(Lowered(s), base)) else None
  }

  // Python's `int(s, 0)` on a string with the pattern above: a decimal number has no
  // zeros in front, unless it is all zeros.
  function ReadInt(s: string): Option<nat> {
    if |s| > 2 && s[0] == '0' && s[1] == 'x' then InBase(s[2..], 16)
    else if |s| > 2 && s[0] == '0' && s[1] == 'o' then InBase(s[2..], 8)
    else if |s| > 2 && s[0] == '0' && (s[1] == 'b' || s[1] == 'B') then InBase(s[2..], 2)
    else if s != [] && s[0] == '0' && exists i :: 0 <= i < |s| && s[i] != '0' then None
    else InBase(s, 10)
  }

  // The stars and sizes in front of or after a name: the number of stars, and the last
  // name and the last number between brackets.
  datatype Ptr = Ptr(stars: nat, name: string, num: string, rest: seq<Token>)

  function ParsePtr(ts: seq<Token>, stars: nat, name: string, num: string): (p: Ptr)
    ensures |p.rest| <= |ts|
    decreases |ts|
  {
    if ts != [] && ts[0] == Mark('*') then ParsePtr(ts[1..], stars + 1, name, num)
    else if |ts| >= 3 && ts[0] == Mark('[') && ts[2] == Mark(']') && ts[1].Word? then
      ParsePtr(ts[3..], stars, ts[1].s, num)
    else if |ts| >= 3 && ts[0] == Mark('[') && ts[2] == Mark(']') && ts[1].Num? && NumPattern(ts[1].s) then
      ParsePtr(ts[3..], stars, name, ts[1].s)
    else Ptr(stars, name, num, ts)
  }

  function ParseSize(p: Ptr, q: Ptr): Option<Size> {
    if p.name != [] then Some(Of(p.name))
    else if p.num != [] then SizeNumber(p.num)
    else if q.name != [] then Some(Of(q.name))
    else if q.num != [] then SizeNumber(q.num)
    else Some(NoSize)
  }

  function SizeNumber(s: string): Option<Size> {
    var n := ReadInt(s);
    if n.Some? then Some(Const(n.value)) else None
  }

  function ModCount(ts: seq<Token>): (n: nat)
    ensures n <= |ts| && forall i :: 0 <= i < n ==> ts[i].Word? && ts[i].s in MODIFIERS
  {
    if ts != [] && ts[0].Word? && ts[0].s in MODIFIERS then 1 + ModCount(ts[1..]) else 0
  }

  predicate Sized(s: Size) {
    s.Of? || (s.Const? && s.n > 0)
  }

  predicate Points(a: Arg) {
    a.ptr > 0 || Sized(a.size)
  }

  // What the constructor of an argument insists on.
  predicate ArgOk(a: Arg) {
    && a.ptr <= 1
    && (a.mod != {} ==> Points(a))
    && (Points(a) ==> "const" in a.mod || "mut" in a.mod)
    && !("const" in a.mod && "mut" in a.mod)
  }

  // A name with a colon behind it may come first.
  function ParseArg(ts: seq<Token>): Option<Arg> {
    if |ts| >= 2 && ts[0].Word? && ts[1] == Mark(':') then ParseNamed(ts[2..], ts[0].s) else ParseNamed(ts, "")
  }

  function ParseNamed(ts: seq<Token>, front: string): Option<Arg> {
    var k := ModCount(ts);
    if k == |ts| || !ts[k].Word? || ts[k].s !in PRIMITIVES then None
    else
      var p := ParsePtr(ts[k + 1..], 0, "", "");
      var name := if p.rest != [] && p.rest[0].Word? then p.rest[0].s else "";
      var q := ParsePtr(if p.rest != [] && p.rest[0].Word? then p.rest[1..] else p.rest, 0, "", "");
      var size := ParseSize(p, q);
      if q.rest != [] || (front != [] && name != []) || size.None? then None
      else
        var a := Arg(set i | 0 <= i < k :: ts[i].s, ts[k].s, p.stars + q.stars, size.value,
                     if front != [] then front else name);
        if ArgOk(a) then Some(a) else None
  }

  // -------------------- parsing a function --------------------

  predicate ArgToken(t: Token) {
    t.Word? || t.Num? || t in [Mark(':'), Mark('*'), Mark('['), Mark(']')]
  }

  // What is between the commas.
  function Pieces(ts: seq<Token>): (ps: seq<seq<Token>>)
    ensures ps != []
  {
    if ts == [] then [[]]
    else
      var ps := Pieces(ts[1..]);
      if ts[0] == Mark(',') then [[]] + ps else [[ts[0]] + ps[0]] + ps[1..]
  }

  // A list of arguments or return values, maybe with a comma behind it.
  function ParseList(ts: seq<Token>): Option<seq<seq<Token>>> {
    ParseItems(if ts != [] && ts[|ts| - 1] == Mark(',') then ts[..|ts| - 1] else ts)
  }

  function ParseItems(inner: seq<Token>): Option<seq<seq<Token>>> {
    if inner == [] then Some([])
    else if exists i :: 0 <= i < |inner| && !ArgToken(inner[i]) && inner[i] != Mark(',') then None
    else if [] in Pieces(inner) then None
    else if Pieces(inner) == [[Word("void")]] then Some([])
    else Some(Pieces(inner))
  }

  // A list in parentheses, or one without.
  function Unwrapped(ts: seq<Token>): seq<Token> {
    if |ts| >= 2 && ts[0] == Mark('(') && ts[|ts| - 1] == Mark(')') then ts[1..|ts| - 1] else ts
  }

  function Find(ts: seq<Token>, t: Token): (n: nat)
    ensures n <= |ts| && (n < |ts| ==> ts[n] == t) && forall i :: 0 <= i < n ==> ts[i] != t
  {
    if ts == [] || ts[0] == t then 0 else 1 + Find(ts[1..], t)
  }

  function ParseArgs(ps: seq<seq<Token>>): Option<seq<Arg>> {
    if ps == [] then Some([])
    else
      var a := ParseArg(ps[0]);
      var rest := ParseArgs(ps[1..]);
      if a.Some? && rest.Some? then Some([a.value] + rest.value) else None
  }

  function ParseTokens(ts: seq<Token>): Option<Fn> {
    var n := Find(ts, Arrow);
    if n == |ts| then None
    else
      var left := ParseList(Unwrapped(ts[..n]));
      var right := ParseList(Unwrapped(ts[n + 1..]));
      if left.None? || right.None? then None
      else
        var noreturn := right.value == [[Word("noreturn")]];
        var args := ParseArgs(left.value);
        var rets := ParseArgs(if noreturn then [] else right.value);
        if args.None? || rets.None? then None else Some(Fn(args.value, rets.value, noreturn))
  }

  function Trimmed(s: string): string {
    if s != [] && Space(s[0]) then Trimmed(s[1..]) else s
  }

  function ParseType(s: string): Option<Fn> {
    var t := Trimmed(s);
    if |t| >= 2 && t[..2] == "fn" then
      var ts := Lex(t[2..]);
      if ts.Some? then ParseTokens(ts.value) else None
    else None
  }

  // -------------------- printing --------------------

  // The modifiers are a set, and come out in any order.
  ghost predicate Lists(order: seq<string>, mod: set<string>) {
    forall m :: m in order <==> m in mod
  }

  function ModsText(order: seq<string>): string {
    if order == [] then "" else order[0] + " " + ModsText(order[1..])
  }

  function Stars(n: nat): (s: string)
    ensures |s| == n && forall i :: 0 <= i < n ==> s[i] == '*'
  {
    seq(n, _ => '*')
  }

  function SizeText(s: Size): string {
    match s
    case Of(name) => if name != [] then "[" + name + "]" else ""
    case Const(n) => if n > 0 then "[" + Numeral(n, 10) + "]" else ""
    case NoSize => ""
  }

  function ArgText(a: Arg, order: seq<string>): string {
    ModsText(order) + a.prim + (if a.name != [] then " " else "") + Stars(a.ptr) + a.name + SizeText(a.size)
  }

  function ArgTexts(args: seq<Arg>, orders: seq<seq<string>>): string
    requires |orders| == |args|
  {
    if args == [] then ""
    else if |args| == 1 then ArgText(args[0], orders[0])
    else ArgText(args[0], orders[0]) + ", " + ArgTexts(args[1..], orders[1..])
  }

  function RetText(f: Fn, orders: seq<seq<string>>): string
    requires |orders| == |f.rets|
  {
    if f.noreturn then "noreturn" else if f.rets == [] then "void" else ArgTexts(f.rets, orders)
  }

  function FnText(f: Fn, orders: seq<seq<string>>, retOrders: seq<seq<string>>): string
    requires |orders| == |f.args| && |retOrders| == |f.rets|
  {
    "fn(" + ArgTexts(f.args, orders) + ") -> " + RetText(f, retOrders)
  }
}
