/** Building a function description again with some arguments bound, and when two
    descriptions count as the same type. */
module FnBinding {
  import opened Basics
  import opened FnTypes
  import opened FnRoundTrip

  // -------------------- what the constructor checks --------------------

  ghost predicate DistinctNames(all: seq<Arg>) {
    forall i, j :: 0 <= i < j < |all| ==> all[i].name == [] || all[i].name != all[j].name
  }

  ghost predicate Named(args: seq<Arg>, name: string) {
    exists i :: 0 <= i < |args| && args[i].name == name
  }

  ghost predicate Checks(f: Fn) {
    && DistinctNames(f.args + f.rets)
    && (forall i :: 0 <= i < |f.args| ==> f.args[i].size.Of? ==> Named(f.args, f.args[i].size.arg))
    && (forall i :: 0 <= i < |f.rets| ==> !f.rets[i].size.Of?)
  }

  ghost function Construct(s: string): Option<Fn> {
    var f := ParseType(s);
    if f.Some? && Checks(f.value) then f else None
  }

  lemma ChecksNormal(f: Fn)
    ensures Checks(NormalFn(f)) <==> Checks(f)
  {
    var n := NormalFn(f);
    assert forall i :: 0 <= i < |f.args + f.rets| ==> (n.args + n.rets)[i].name == (f.args + f.rets)[i].name;
    assert forall name :: Named(n.args, name) <==> Named(f.args, name) by {
      forall name ensures Named(n.args, name) <==> Named(f.args, name) {
        if Named(n.args, name) {
          var i :| 0 <= i < |n.args| && n.args[i].name == name;
          assert f.args[i].name == name;
        }
        if Named(f.args, name) {
          var i :| 0 <= i < |f.args| && f.args[i].name == name;
          assert n.args[i].name == name;
        }
      }
    }
    if Checks(f) {
      assert DistinctNames(n.args + n.rets);
    }
    if Checks(n) {
      assert forall i :: 0 <= i < |f.args| ==> n.args[i].size.Of? == f.args[i].size.Of?;
      assert forall i :: 0 <= i < |f.rets| ==> n.rets[i].size.Of? == f.rets[i].size.Of?;
      assert DistinctNames(f.args + f.rets);
    }
  }

  // -------------------- binding arguments --------------------

  // The arguments that are still passed once those in `bound` have a fixed value.
  ghost function Unbound(args: seq<Arg>, bound: set<string>): (r: seq<Arg>)
    ensures forall a :: a in r <==> a in args && (a.name == [] || a.name !in bound)
  {
    if args == [] then []
    else (if args[0].name == [] || args[0].name !in bound then [args[0]] else []) + Unbound(args[1..], bound)
  }

  ghost function Bound(f: Fn, bound: set<string>): Fn {
    f.(args := Unbound(f.args, bound))
  }

  ghost predicate HeadDistinct(a: Arg, more: seq<Arg>) {
    a.name == [] || forall b :: b in more ==> b.name != a.name
  }

  lemma DistinctSplit(a: Arg, more: seq<Arg>)
    ensures DistinctNames([a] + more) <==> HeadDistinct(a, more) && DistinctNames(more)
  {
    var all := [a] + more;
    assert forall i :: 0 <= i < |more| ==> all[i + 1] == more[i];
    if DistinctNames(all) {
      forall b | b in more ensures a.name == [] || b.name != a.name {
        var i :| 0 <= i < |more| && more[i] == b;
        assert all[0].name == [] || all[0].name != all[i + 1].name;
      }
      forall i, j | 0 <= i < j < |more| ensures more[i].name == [] || more[i].name != more[j].name {
        assert all[i + 1].name == [] || all[i + 1].name != all[j + 1].name;
      }
    }
  }

  lemma HeadStays(a: Arg, all: seq<Arg>, some: seq<Arg>, rets: seq<Arg>)
    requires HeadDistinct(a, all + rets) && forall b :: b in some ==> b in all
    ensures HeadDistinct(a, some + rets)
  {
  }

  lemma {:induction false} UnboundDistinct(args: seq<Arg>, rets: seq<Arg>, bound: set<string>)
    requires DistinctNames(args + rets)
    ensures DistinctNames(Unbound(args, bound) + rets)
  {
    hide DistinctNames, HeadDistinct;
    if args == [] {
      assert Unbound(args, bound) == args;
    } else {
      var left := Unbound(args[1..], bound);
      var more := left + rets;
      assert args + rets == [args[0]] + (args[1..] + rets);
      DistinctSplit(args[0], args[1..] + rets);
      UnboundDistinct(args[1..], rets, bound);
      HeadStays(args[0], args[1..], left, rets);
      DistinctSplit(args[0], more);
      if args[0].name == [] || args[0].name !in bound {
        assert Unbound(args, bound) == [args[0]] + left;
        assert [args[0]] + left + rets == [args[0]] + more;
      } else {
        assert Unbound(args, bound) == left;
      }
    }
  }

  lemma NamedIn(args: seq<Arg>, name: string)
    ensures Named(args, name) <==> exists a :: a in args && a.name == name
  {
    if a :| a in args && a.name == name {
      var i :| 0 <= i < |args| && args[i] == a;
    }
  }

  lemma BoundChecks(f: Fn, bound: set<string>)
    requires FnWf(f) && Checks(f)
    ensures Checks(Bound(f, bound)) <==> forall a :: a in Unbound(f.args, bound) && a.size.Of? ==> a.size.arg !in bound
  {
    var g := Bound(f, bound);
    UnboundDistinct(f.args, f.rets, bound);
    forall a | a in g.args && a.size.Of?
      ensures Named(g.args, a.size.arg) <==> a.size.arg !in bound
    {
      var i :| 0 <= i < |f.args| && f.args[i] == a;
      assert Named(f.args, a.size.arg) && IsName(a.size.arg);
      NamedIn(f.args, a.size.arg);
      NamedIn(g.args, a.size.arg);
    }
    if Checks(g) {
      forall a | a in g.args && a.size.Of? ensures a.size.arg !in bound {
        var i :| 0 <= i < |g.args| && g.args[i] == a;
      }
    }
  }

  // Building the description again from its own text, with some arguments bound, works
  // exactly when no argument that is left takes its size from one that is bound.
  lemma RebuiltIff(f: Fn, bound: set<string>, orders: seq<seq<string>>, retOrders: seq<seq<string>>)
    requires FnWf(f) && Checks(f)
    requires ArgsWf(Unbound(f.args, bound), orders) && ArgsWf(f.rets, retOrders)
    ensures Construct(FnText(Bound(f, bound), orders, retOrders)) ==
            if forall a :: a in Unbound(f.args, bound) && a.size.Of? ==> a.size.arg !in bound
            then Some(NormalFn(Bound(f, bound))) else None
    ensures bound == {} ==> Bound(f, bound) == f
  {
    hide FnText, ParseType, Checks, NormalFn, ArgWf, Lists;
    var g := Bound(f, bound);
    BoundIsWf(f, bound);
    PrintedParses(g, orders, retOrders);
    ChecksNormal(g);
    BoundChecks(f, bound);
    NothingBound(f.args, bound);
  }

  // What the constructor refuses of the types that can be written: a name used twice, a
  // size that no argument has as its name, and a result with the size of an argument.
  lemma ConstructedIff(f: Fn, orders: seq<seq<string>>, retOrders: seq<seq<string>>)
    requires FnWf(f) && ArgsWf(f.args, orders) && ArgsWf(f.rets, retOrders)
    ensures var all := f.args + f.rets;
            Construct(FnText(f, orders, retOrders)).Some? <==>
            && (forall i, j :: 0 <= i < j < |all| && all[i].name != [] ==> all[i].name != all[j].name)
            && (forall a :: a in f.args && a.size.Of? ==> exists b :: b in f.args && b.name == a.size.arg)
            && (forall a :: a in f.rets ==> !a.size.Of?)
  {
    hide FnText, ParseType, NormalFn, ArgWf, Lists, DistinctNames, Named;
    PrintedParses(f, orders, retOrders);
    ChecksNormal(f);
    DistinctIff(f.args + f.rets);
    forall name
      ensures Named(f.args, name) <==> exists b :: b in f.args && b.name == name
    {
      NamedIn(f.args, name);
    }
    assert forall i :: 0 <= i < |f.args| ==> f.args[i] in f.args;
    assert forall i :: 0 <= i < |f.rets| ==> f.rets[i] in f.rets;
  }

  lemma DistinctIff(all: seq<Arg>)
    ensures DistinctNames(all) <==>
            forall i, j :: 0 <= i < j < |all| && all[i].name != [] ==> all[i].name != all[j].name
  {
  }

  // With nothing bound it always works, and gives the same description exactly when no
  // constant size is zero.
  lemma RebuiltUnbound(f: Fn, orders: seq<seq<string>>, retOrders: seq<seq<string>>)
    requires FnWf(f) && Checks(f) && ArgsWf(f.args, orders) && ArgsWf(f.rets, retOrders)
    ensures var again := Construct(FnText(f, orders, retOrders));
            again.Some? && (again.value == f <==> forall a :: a in f.args + f.rets ==> a.size != Const(0))
  {
    hide FnText, ParseType, Checks, NormalFn, ArgWf, Lists;
    PrintedParses(f, orders, retOrders);
    ChecksNormal(f);
  }

  lemma BoundIsWf(f: Fn, bound: set<string>)
    requires FnWf(f)
    ensures FnWf(Bound(f, bound))
  {
    hide ArgWf;
    var g := Bound(f, bound);
    forall i | 0 <= i < |g.args| ensures ArgWf(g.args[i]) {
      assert g.args[i] in f.args;
    }
  }

  lemma {:induction false} NothingBound(args: seq<Arg>, bound: set<string>)
    ensures bound == {} ==> Unbound(args, bound) == args
  {
    if args != [] {
      NothingBound(args[1..], bound);
    }
  }

  // `fn(mut u8 buf[len], usize len) -> void` with `len` bound cannot be rebuilt.
  lemma BoundSizeExample()
    ensures var f := Fn([Arg({"mut"}, "u8", 0, Of("len"), "buf"), Arg({}, "usize", 0, NoSize, "len")], [], false);
            FnWf(f) && Checks(f) && Construct(FnText(Bound(f, {"len"}), [["mut"]], [])) == None
  {
    var buf, len := Arg({"mut"}, "u8", 0, Of("len"), "buf"), Arg({}, "usize", 0, NoSize, "len");
    var f := Fn([buf, len], [], false);
    assert f.args[1].name == "len";
    assert "buf"[0] != "len"[0];
    assert Unbound([len], {"len"}) == [] + Unbound([], {"len"});
    assert Unbound(f.args, {"len"}) == [buf] + Unbound([len], {"len"});
    assert buf in Unbound(f.args, {"len"});
    RebuiltIff(f, {"len"}, [["mut"]], []);
  }

  // -------------------- compatible types --------------------

  // Where the argument called `name` stands.
  function IndexOf(args: seq<Arg>, name: string): Option<nat> {
    if args == [] then None
    else if args[|args| - 1].name == name && name != [] then Some(|args| - 1)
    else IndexOf(args[..|args| - 1], name)
  }

  // It is the last argument of that name, and as names are distinct the only one.
  lemma {:induction false} IndexOfIff(args: seq<Arg>, name: string, i: nat)
    ensures IndexOf(args, name) == Some(i) <==>
            && name != [] && i < |args| && args[i].name == name
            && forall j :: i < j < |args| ==> args[j].name != name
    decreases |args|
  {
    if args != [] {
      var front := args[..|args| - 1];
      IndexOfIff(front, name, i);
      assert forall j :: 0 <= j < |front| ==> front[j] == args[j];
    }
  }

  // `a == b` of two arguments: a size is compared only when both are numbers.
  predicate SameArg(a: Arg, b: Arg) {
    && a.mod == b.mod && a.prim == b.prim && a.ptr == b.ptr
    && (a.size.Const? <==> b.size.Const?) && (a.size.Const? ==> a.size == b.size)
  }

  // The check of one pair; a lookup that fails counts as not compatible, since either
  // way linking stops.
  predicate Fits(f: Fn, g: Fn, a: Arg, b: Arg) {
    && SameArg(a, b)
    && (a.size.Of? ==>
          && b.size.Of?
          && IndexOf(f.args, a.size.arg).Some?
          && IndexOf(f.args, a.size.arg) == IndexOf(g.args, b.size.arg))
  }

  // The pairs are those of the shorter of the two lists.
  predicate Compatible(f: Fn, g: Fn) {
    var all, all' := f.args + f.rets, g.args + g.rets;
    forall i :: 0 <= i < |all| && i < |all'| ==> Fits(f, g, all[i], all'[i])
  }

  // A size as the caller of the function sees it.
  datatype Extent = Flat | Number(n: nat) | At(arg: Option<nat>)

  // An argument without its names.
  datatype Shape = Shape(mod: set<string>, prim: string, ptr: nat, extent: Extent)

  ghost function ShapeOf(f: Fn, a: Arg): Shape {
    Shape(a.mod, a.prim, a.ptr,
          match a.size
          case NoSize => Flat
          case Const(n) => Number(n)
          case Of(name) => At(IndexOf(f.args, name)))
  }

  ghost predicate SameType(f: Fn, g: Fn) {
    && |f.args| == |g.args| && |f.rets| == |g.rets| && f.noreturn == g.noreturn
    && (forall i :: 0 <= i < |f.args| ==> ShapeOf(f, f.args[i]) == ShapeOf(g, g.args[i]))
    && (forall i :: 0 <= i < |f.rets| ==> ShapeOf(f, f.rets[i]) == ShapeOf(g, g.rets[i]))
  }

  lemma {:induction false} IndexOfNamed(args: seq<Arg>, name: string)
    requires name != [] && Named(args, name)
    ensures IndexOf(args, name).Some?
  {
    if args[|args| - 1].name != name {
      var i :| 0 <= i < |args| && args[i].name == name;
      assert args[..|args| - 1][i].name == name;
      IndexOfNamed(args[..|args| - 1], name);
    }
  }

  // Wherever the import `g` takes a size from an argument, so does the export `f`.
  ghost predicate KeepsSizes(f: Fn, g: Fn)
    requires |f.args| == |g.args|
  {
    forall i :: 0 <= i < |f.args| && g.args[i].size.Of? ==> f.args[i].size.Of?
  }

  // The check that linking makes is of the export `f` against the import `g`. They are
  // the same type, up to the names of arguments, exactly when they pass it and also
  // have as many arguments and results, agree on whether they return, and the export
  // has a size wherever the import names one. None of these is part of the check.
  lemma SameTypeIff(f: Fn, g: Fn)
    requires FnWf(f) && FnWf(g) && Checks(f) && Checks(g)
    ensures SameType(f, g) <==>
            && Compatible(f, g)
            && |f.args| == |g.args| && |f.rets| == |g.rets|
            && f.noreturn == g.noreturn
            && KeepsSizes(f, g)
  {
    hide ShapeOf, SameArg, IndexOf, FnWf, DistinctNames, Named;
    var all, all' := f.args + f.rets, g.args + g.rets;
    if |f.args| == |g.args| && |f.rets| == |g.rets| {
      forall i | 0 <= i < |all|
        ensures ShapeOf(f, all[i]) == ShapeOf(g, all'[i]) <==>
                Fits(f, g, all[i], all'[i]) && (all'[i].size.Of? ==> all[i].size.Of?)
      {
        ShapesMatch(f, g, i);
      }
      if SameType(f, g) {
        assert forall i :: 0 <= i < |all| ==> ShapeOf(f, all[i]) == ShapeOf(g, all'[i]);
      }
      if Compatible(f, g) && KeepsSizes(f, g) {
        forall i | 0 <= i < |f.args| ensures ShapeOf(f, f.args[i]) == ShapeOf(g, g.args[i]) {
          assert all[i] == f.args[i] && all'[i] == g.args[i];
        }
        forall i | 0 <= i < |f.rets| ensures ShapeOf(f, f.rets[i]) == ShapeOf(g, g.rets[i]) {
          assert all[|f.args| + i] == f.rets[i] && all'[|f.args| + i] == g.rets[i];
        }
      }
      if SameType(f, g) {
        forall i | 0 <= i < |f.args| && g.args[i].size.Of? ensures f.args[i].size.Of? {
          ShapesMatch(f, g, i);
          assert all[i] == f.args[i] && all'[i] == g.args[i];
        }
      }
    }
  }

  lemma ShapesMatch(f: Fn, g: Fn, i: nat)
    requires FnWf(f) && FnWf(g) && Checks(f) && Checks(g) && i < |f.args + f.rets| && i < |g.args + g.rets|
    ensures var a, b := (f.args + f.rets)[i], (g.args + g.rets)[i];
            ShapeOf(f, a) == ShapeOf(g, b) <==> Fits(f, g, a, b) && (b.size.Of? ==> a.size.Of?)
  {
    hide FnWf, Checks, IndexOf;
    SizesFound(f, i);
    SizesFound(g, i);
  }

  lemma SizesFound(f: Fn, i: nat)
    requires FnWf(f) && Checks(f) && i < |f.args + f.rets|
    ensures (f.args + f.rets)[i].size.Of? ==> IndexOf(f.args, (f.args + f.rets)[i].size.arg).Some?
  {
    var a := (f.args + f.rets)[i];
    if i < |f.args| && a.size.Of? {
      assert ArgWf(f.args[i]);
      IndexOfNamed(f.args, a.size.arg);
    }
  }

  // A function with no arguments and no return values is compatible with every one,
  // both ways, so the counts really do matter.
  lemma NothingFitsAll(g: Fn, noreturn: bool)
    ensures Compatible(Fn([], [], noreturn), g) && Compatible(g, Fn([], [], noreturn))
    ensures SameType(Fn([], [], noreturn), g) <==> g.args == [] && g.rets == [] && g.noreturn == noreturn
  {
  }

  // An export that returns is compatible with an import that must not.
  lemma NoreturnExample()
    ensures var back, never := Fn([], [], false), Fn([], [], true);
            FnWf(back) && FnWf(never) && Compatible(back, never) && !SameType(back, never)
  {
  }

  // A pointer `mut u8 *p` is compatible with one whose size another argument gives,
  // `mut u8 *p[n]`, but not the other way round.
  ghost function Pointer(size: Size): Fn {
    Fn([Arg({"mut"}, "u8", 1, size, "p"), Arg({}, "usize", 0, NoSize, "n")], [], false)
  }

  lemma PointerIsWf(size: Size)
    requires size == NoSize || size == Of("n")
    ensures FnWf(Pointer(size)) && Checks(Pointer(size))
  {
    var f := Pointer(size);
    assert f.args[1].name == "n" && "p"[0] != "n"[0];
  }

  lemma DroppedSizeExample()
    ensures var plain, sized := Pointer(NoSize), Pointer(Of("n"));
            && FnWf(plain) && Checks(plain) && FnWf(sized) && Checks(sized)
            && Compatible(plain, sized) && !Compatible(sized, plain) && !SameType(plain, sized)
  {
    hide FnWf, Checks, SameType, IndexOf;
    PointerIsWf(NoSize);
    PointerIsWf(Of("n"));
    var plain, sized := Pointer(NoSize), Pointer(Of("n"));
    assert (sized.args + sized.rets)[0] == sized.args[0] && (plain.args + plain.rets)[0] == plain.args[0];
    assert !Fits(sized, plain, sized.args[0], plain.args[0]);
    SameTypeIff(plain, sized);
  }
}
