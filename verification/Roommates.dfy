/** Boxes that share memory, and bringing them up one at a time. */
module Roommates {
  import opened Basics
  import opened Carving

  // A child box: its memories, whether it may lose its state, and the roommates it
  // names itself.
  datatype Child = Child(memories: seq<Region>, idempotent: bool, named: seq<nat>)

  ghost predicate Share(a: Child, b: Child) {
    exists i, j :: 0 <= i < |a.memories| && 0 <= j < |b.memories| && Overlaps(b.memories[j], a.memories[i])
  }

  lemma ShareIsSymmetric(a: Child, b: Child)
    ensures Share(a, b) <==> Share(b, a)
  {
    if Share(a, b) {
      var i, j :| 0 <= i < |a.memories| && 0 <= j < |b.memories| && Overlaps(b.memories[j], a.memories[i]);
      assert Overlaps(a.memories[i], b.memories[j]);
    }
    if Share(b, a) {
      var i, j :| 0 <= i < |b.memories| && 0 <= j < |a.memories| && Overlaps(a.memories[j], b.memories[i]);
      assert Overlaps(b.memories[i], a.memories[j]);
    }
  }

  // Two positive regions overlap exactly when they share a byte.
  lemma OverlapIsSharedByte(r: Region, q: Region)
    requires r.size > 0 && q.size > 0
    ensures Overlaps(r, q) <==> exists a: nat :: Holds(r, a) && Holds(q, a)
  {
    if Overlaps(r, q) {
      var a := if r.addr > q.addr then r.addr else q.addr;
      assert Holds(r, a) && Holds(q, a);
    }
  }

  ghost predicate Names(boxes: seq<Child>, c: nat, d: nat)
    requires c < |boxes|
  {
    d in boxes[c].named
  }

  // What has to hold of the children for their configuration to be accepted.
  ghost predicate Acceptable(boxes: seq<Child>) {
    && (forall c: nat, d: nat :: 0 <= c < |boxes| && Names(boxes, c, d) ==>
          boxes[c].idempotent && d < |boxes| && Names(boxes, d, c))
    && (forall c: nat, d: nat :: 0 <= c < |boxes| && 0 <= d < |boxes| && c != d && Share(boxes[c], boxes[d]) ==>
          boxes[c].idempotent && boxes[d].idempotent)
  }

  ghost predicate Mates(boxes: seq<Child>, c: nat, d: nat)
    requires c < |boxes|
  {
    d < |boxes| && (Names(boxes, c, d) || (c != d && Share(boxes[c], boxes[d])))
  }

  // -------------------- finding roommates --------------------

  method Append(s: seq<nat>, x: nat) returns (t: seq<nat>)
    requires NoRepeats(s)
    ensures NoRepeats(t) && forall y: nat :: y in t <==> y in s || y == x
  {
    t := if x in s then s else s + [x];
  }

  // The declared roommates of child `c`.
  method Declared(boxes: seq<Child>, c: nat) returns (ok: bool, mates: seq<nat>)
    requires c < |boxes|
    ensures ok <==> forall d: nat :: Names(boxes, c, d) ==> boxes[c].idempotent && d < |boxes| && Names(boxes, d, c)
    ensures ok ==> NoRepeats(mates) && forall d: nat :: d in mates <==> Names(boxes, c, d)
  {
    ok, mates := true, [];
    for k := 0 to |boxes[c].named|
      invariant ok && NoRepeats(mates)
      invariant forall d: nat :: d in mates <==> d in boxes[c].named[..k]
      invariant forall d: nat :: d in boxes[c].named[..k] ==> boxes[c].idempotent && d < |boxes| && Names(boxes, d, c)
    {
      var d := boxes[c].named[k];
      assert boxes[c].named[..k + 1] == boxes[c].named[..k] + [d];
      if !boxes[c].idempotent || d >= |boxes| || c !in boxes[d].named {
        ok := false;
        assert Names(boxes, c, d);
        return;
      }
      mates := Append(mates, d);
    }
    assert boxes[c].named[..|boxes[c].named|] == boxes[c].named;
  }

  ghost predicate SharesPart(boxes: seq<Child>, c: nat, m: nat, d: nat)
    requires c < |boxes| && m <= |boxes[c].memories|
  {
    && d < |boxes| && d != c
    && exists i, j :: 0 <= i < m && 0 <= j < |boxes[d].memories| && Overlaps(boxes[d].memories[j], boxes[c].memories[i])
  }

  ghost predicate MemoryShared(boxes: seq<Child>, r: Region, c: nat, d: nat) {
    d < |boxes| && d != c && exists j :: 0 <= j < |boxes[d].memories| && Overlaps(boxes[d].memories[j], r)
  }

  // The overlap check of one memory of child `c` against all other children.
  method CheckMemory(boxes: seq<Child>, c: nat, r: Region, mates: seq<nat>) returns (ok: bool, mates': seq<nat>)
    requires c < |boxes| && NoRepeats(mates)
    ensures ok <==> forall d: nat :: MemoryShared(boxes, r, c, d) ==> boxes[c].idempotent && boxes[d].idempotent
    ensures ok ==> NoRepeats(mates') && forall d: nat :: d in mates' <==> d in mates || MemoryShared(boxes, r, c, d)
  {
    ok, mates' := true, mates;
    for d: nat := 0 to |boxes|
      invariant ok && NoRepeats(mates')
      invariant forall e: nat :: e in mates' <==> e in mates || (e < d && MemoryShared(boxes, r, c, e))
      invariant forall e: nat :: e < d && MemoryShared(boxes, r, c, e) ==> boxes[c].idempotent && boxes[e].idempotent
    {
      if d == c {
        continue;
      }
      var memories := boxes[d].memories;
      for j := 0 to |memories|
        invariant ok && NoRepeats(mates')
        invariant forall e: nat :: e in mates' <==>
                    || e in mates
                    || (e < d && MemoryShared(boxes, r, c, e))
                    || (e == d && exists i :: 0 <= i < j && Overlaps(memories[i], r))
        invariant (exists i :: 0 <= i < j && Overlaps(memories[i], r)) ==> boxes[c].idempotent && boxes[d].idempotent
      {
        if Overlaps(memories[j], r) {
          if !(boxes[c].idempotent && boxes[d].idempotent) {
            ok := false;
            assert MemoryShared(boxes, r, c, d);
            return;
          }
          mates' := Append(mates', d);
        }
      }
    }
  }

  // The check of all memories of child `c`.
  method CheckChild(boxes: seq<Child>, c: nat, mates: seq<nat>) returns (ok: bool, mates': seq<nat>)
    requires c < |boxes| && NoRepeats(mates)
    ensures ok <==> forall d: nat :: 0 <= d < |boxes| && d != c && Share(boxes[c], boxes[d]) ==>
                      boxes[c].idempotent && boxes[d].idempotent
    ensures ok ==> NoRepeats(mates') &&
                   forall d: nat :: d in mates' <==> d in mates || (d < |boxes| && d != c && Share(boxes[c], boxes[d]))
  {
    ok, mates' := true, mates;
    for m := 0 to |boxes[c].memories|
      invariant ok && NoRepeats(mates')
      invariant forall d: nat :: d in mates' <==> d in mates || SharesPart(boxes, c, m, d)
      invariant forall d: nat :: SharesPart(boxes, c, m, d) ==> boxes[c].idempotent && boxes[d].idempotent
    {
      ghost var was := mates';
      var r := boxes[c].memories[m];
      ok, mates' := CheckMemory(boxes, c, r, mates');
      forall d: nat
        ensures SharesPart(boxes, c, m + 1, d) <==> SharesPart(boxes, c, m, d) || MemoryShared(boxes, r, c, d)
      {
        NextMemory(boxes, c, m, d);
      }
      if !ok {
        ghost var d: nat :| MemoryShared(boxes, r, c, d) && !(boxes[c].idempotent && boxes[d].idempotent);
        AllMemories(boxes, c, m + 1, d);
        return;
      }
    }
    forall d: nat
      ensures SharesPart(boxes, c, |boxes[c].memories|, d) <==> d < |boxes| && d != c && Share(boxes[c], boxes[d])
    {
      AllMemories(boxes, c, |boxes[c].memories|, d);
    }
  }

  lemma NextMemory(boxes: seq<Child>, c: nat, m: nat, d: nat)
    requires c < |boxes| && m < |boxes[c].memories|
    ensures SharesPart(boxes, c, m + 1, d) <==>
            SharesPart(boxes, c, m, d) || MemoryShared(boxes, boxes[c].memories[m], c, d)
  {
    if SharesPart(boxes, c, m + 1, d) {
      var i, j :| 0 <= i < m + 1 && 0 <= j < |boxes[d].memories|
                  && Overlaps(boxes[d].memories[j], boxes[c].memories[i]);
      if i == m {
        assert MemoryShared(boxes, boxes[c].memories[m], c, d);
      }
    }
  }

  lemma AllMemories(boxes: seq<Child>, c: nat, m: nat, d: nat)
    requires c < |boxes| && m <= |boxes[c].memories|
    ensures SharesPart(boxes, c, m, d) ==> d < |boxes| && d != c && Share(boxes[c], boxes[d])
    ensures m == |boxes[c].memories| && d < |boxes| && d != c && Share(boxes[c], boxes[d]) ==>
              SharesPart(boxes, c, m, d)
  {
    if SharesPart(boxes, c, m, d) {
      var i, j :| 0 <= i < m && 0 <= j < |boxes[d].memories| && Overlaps(boxes[d].memories[j], boxes[c].memories[i]);
      assert Share(boxes[c], boxes[d]);
    }
    if m == |boxes[c].memories| && d < |boxes| && d != c && Share(boxes[c], boxes[d]) {
      var i, j :| 0 <= i < |boxes[c].memories| && 0 <= j < |boxes[d].memories|
                  && Overlaps(boxes[d].memories[j], boxes[c].memories[i]);
      assert SharesPart(boxes, c, m, d);
    }
  }

  // The roommates of every child, for children that all have explicit addresses:
  // first those declared, then those found to overlap. It succeeds exactly for
  // acceptable configurations.
  method FindRoommates(boxes: seq<Child>) returns (ok: bool, mates: seq<seq<nat>>)
    ensures ok <==> Acceptable(boxes)
    ensures ok ==> Found(boxes, mates)
  {
    mates := [];
    for c := 0 to |boxes|
      invariant |mates| == c
      invariant forall i: nat, d: nat :: 0 <= i < c && Names(boxes, i, d) ==>
                  boxes[i].idempotent && d < |boxes| && Names(boxes, d, i)
      invariant forall i: nat :: i < c ==> NoRepeats(mates[i])
      invariant forall i: nat, d: nat :: 0 <= i < c ==> (d in mates[i] <==> Names(boxes, i, d))
    {
      var m: seq<nat>;
      ok, m := Declared(boxes, c);
      if !ok {
        return;
      }
      mates := mates + [m];
    }
    for c := 0 to |boxes|
      invariant |mates| == |boxes|
      invariant forall i: nat, d: nat :: 0 <= i < c && 0 <= d < |boxes| && i != d && Share(boxes[i], boxes[d]) ==>
                  boxes[i].idempotent && boxes[d].idempotent
      invariant forall i: nat :: i < |boxes| ==> NoRepeats(mates[i])
      invariant forall i: nat, d: nat :: 0 <= i < c ==> (d in mates[i] <==> Mates(boxes, i, d))
      invariant forall i: nat, d: nat :: c <= i < |boxes| ==> (d in mates[i] <==> Names(boxes, i, d))
    {
      var m: seq<nat>;
      ok, m := CheckChild(boxes, c, mates[c]);
      if !ok {
        return;
      }
      mates := mates[c := m];
    }
    ok := true;
  }

  ghost predicate Found(boxes: seq<Child>, mates: seq<seq<nat>>) {
    && |mates| == |boxes|
    && forall c: nat :: c < |boxes| ==> NoRepeats(mates[c]) && forall d: nat :: d in mates[c] <==> Mates(boxes, c, d)
  }

  // The two boxes have a byte of memory in common.
  ghost predicate CommonByte(c: Child, d: Child) {
    exists r, q, a: nat :: r in c.memories && q in d.memories && Holds(r, a) && Holds(q, a)
  }

  ghost predicate NoneEmpty(boxes: seq<Child>) {
    forall c, r :: 0 <= c < |boxes| && r in boxes[c].memories ==> r.size > 0
  }

  lemma ShareIsByte(c: Child, d: Child)
    requires (forall r :: r in c.memories ==> r.size > 0) && forall r :: r in d.memories ==> r.size > 0
    ensures Share(c, d) <==> CommonByte(c, d)
  {
    if Share(c, d) {
      var i, j :| 0 <= i < |c.memories| && 0 <= j < |d.memories| && Overlaps(d.memories[j], c.memories[i]);
      OverlapIsSharedByte(d.memories[j], c.memories[i]);
      var a: nat :| Holds(d.memories[j], a) && Holds(c.memories[i], a);
      assert c.memories[i] in c.memories && d.memories[j] in d.memories;
    }
    if CommonByte(c, d) {
      var r, q, a: nat :| r in c.memories && q in d.memories && Holds(r, a) && Holds(q, a);
      var i, j :| 0 <= i < |c.memories| && c.memories[i] == r && 0 <= j < |d.memories| && d.memories[j] == q;
      OverlapIsSharedByte(q, r);
    }
  }

  // Said in bytes: the configuration is accepted if and only if boxes that name others are
  // named by them and may lose their state, and so may any two that have a byte in common.
  lemma AcceptableIff(boxes: seq<Child>)
    requires NoneEmpty(boxes)
    ensures Acceptable(boxes) <==>
            && (forall c: nat, d: nat :: c < |boxes| && d in boxes[c].named ==>
                  boxes[c].idempotent && d < |boxes| && c in boxes[d].named)
            && (forall c: nat, d: nat :: c < |boxes| && d < |boxes| && c != d && CommonByte(boxes[c], boxes[d]) ==>
                  boxes[c].idempotent && boxes[d].idempotent)
  {
    hide Share, CommonByte;
    forall c, d | 0 <= c < |boxes| && 0 <= d < |boxes|
      ensures Share(boxes[c], boxes[d]) <==> CommonByte(boxes[c], boxes[d])
    {
      ShareIsByte(boxes[c], boxes[d]);
    }
    assert forall c: nat, d: nat :: c < |boxes| ==> (Names(boxes, c, d) <==> d in boxes[c].named);
  }

  // And the roommates found for a box are those it names and those it has a byte in common
  // with, each once.
  lemma FoundIff(boxes: seq<Child>, mates: seq<seq<nat>>, c: nat, d: nat)
    requires NoneEmpty(boxes) && Found(boxes, mates) && c < |boxes|
    ensures |mates| == |boxes| && forall i, j :: 0 <= i < j < |mates[c]| ==> mates[c][i] != mates[c][j]
    ensures d in mates[c] <==>
            d < |boxes| && (d in boxes[c].named || (c != d && CommonByte(boxes[c], boxes[d])))
  {
    hide Share, CommonByte;
    if d < |boxes| {
      ShareIsByte(boxes[c], boxes[d]);
    }
    assert Mates(boxes, c, d) <==> d in mates[c];
  }

  // With all addresses explicit the relation goes both ways, which is what lets
  // either of two roommates take the other down.
  lemma MatesAreMutual(boxes: seq<Child>, mates: seq<seq<nat>>, c: nat, d: nat)
    requires Acceptable(boxes) && Found(boxes, mates) && c < |boxes| && d < |boxes|
    ensures d in mates[c] <==> c in mates[d]
  {
    assert Mates(boxes, c, d) <==> Mates(boxes, d, c) by {
      ShareIsSymmetric(boxes[c], boxes[d]);
      assert Names(boxes, c, d) ==> Names(boxes, d, c);
      assert Names(boxes, d, c) ==> Names(boxes, c, d);
    }
  }

  // -------------------- bringing boxes up --------------------

  // Which boxes are marked initialised.
  type Up = seq<bool>

  ghost predicate Safe(boxes: seq<Child>, up: Up) {
    && |up| == |boxes|
    && forall i, j :: 0 <= i < |up| && 0 <= j < |up| && i != j && up[i] && up[j] ==> !Share(boxes[i], boxes[j])
  }

  // __box_<b>_init takes the roommates down, loads and starts the box, and marks it
  // at the end; `loaded` says whether loading and starting succeeded.
  ghost function Down(mates: seq<nat>, up: Up): (u: Up)
    ensures |u| == |up|
    ensures forall i :: 0 <= i < |up| ==> (u[i] <==> up[i] && i !in mates)
  {
    seq<bool>(|up|, i requires 0 <= i < |up| => up[i] && i !in mates)
  }

  ghost function Init(mates: seq<seq<nat>>, up: Up, b: nat, loaded: bool): (u: Up)
    requires |mates| == |up| && b < |up|
    ensures |u| == |up|
  {
    if up[b] then up else if loaded then Down(mates[b], up)[b := true] else Down(mates[b], up)
  }

  ghost function Clobber(up: Up, b: nat): Up
    requires b < |up|
  {
    up[b := false]
  }

  datatype Event = BringUp(box: nat, loaded: bool) | TakeDown(box: nat) | Fault(box: nat)

  ghost function After(mates: seq<seq<nat>>, up: Up, e: Event): (u: Up)
    requires |mates| == |up| && e.box < |up|
    ensures |u| == |up|
  {
    match e
    case BringUp(b, loaded) => Init(mates, up, b, loaded)
    case TakeDown(b) => Clobber(up, b)
    case Fault(b) => Clobber(up, b)
  }

  ghost function AfterAll(mates: seq<seq<nat>>, up: Up, es: seq<Event>): (u: Up)
    requires |mates| == |up| && forall e :: e in es ==> e.box < |up|
    ensures |u| == |up|
    decreases |es|
  {
    if es == [] then up else AfterAll(mates, After(mates, up, es[0]), es[1..])
  }

  lemma AfterSafe(boxes: seq<Child>, mates: seq<seq<nat>>, up: Up, e: Event)
    requires Acceptable(boxes) && Found(boxes, mates) && Safe(boxes, up) && e.box < |up|
    ensures Safe(boxes, After(mates, up, e))
  {
    var b := e.box;
    forall j | 0 <= j < |boxes| && j != b && j !in mates[b]
      ensures !Share(boxes[b], boxes[j]) && !Share(boxes[j], boxes[b])
    {
      assert !Mates(boxes, b, j);
      ShareIsSymmetric(boxes[b], boxes[j]);
    }
  }

  // In every sequence of bring-ups, successful or not, take-downs and faults, no two
  // boxes that share memory are ever both marked initialised.
  lemma {:induction false} NeverBothUp(boxes: seq<Child>, mates: seq<seq<nat>>, up: Up, es: seq<Event>)
    requires Acceptable(boxes) && Found(boxes, mates) && Safe(boxes, up)
    requires forall e :: e in es ==> e.box < |up|
    ensures Safe(boxes, AfterAll(mates, up, es))
    decreases |es|
  {
    if es != [] {
      assert es[0] in es;
      AfterSafe(boxes, mates, up, es[0]);
      NeverBothUp(boxes, mates, After(mates, up, es[0]), es[1..]);
    }
  }

  // -------------------- bring-ups inside bring-ups --------------------

  // While a box is being started its loader and its own init run, and these may bring
  // up or take down others. So a bring-up is two moments: it begins, once the box has
  // been found not to be marked, by taking its roommates down; it finishes by setting
  // the mark, or by failing.
  datatype Moment = Begin(box: nat) | Finish(box: nat, ok: bool) | Lose(box: nat)

  ghost function At(mates: seq<seq<nat>>, up: Up, e: Moment): (u: Up)
    requires |mates| == |up| && e.box < |up|
    ensures |u| == |up|
  {
    match e
    case Begin(b) => Down(mates[b], up)
    case Finish(b, ok) => if ok then up[b := true] else up
    case Lose(b) => Clobber(up, b)
  }

  // A bring-up that nothing interrupts is the one above.
  lemma InitIsBothMoments(mates: seq<seq<nat>>, up: Up, b: nat, loaded: bool)
    requires |mates| == |up| && b < |up|
    ensures Init(mates, up, b, loaded) == if up[b] then up else At(mates, At(mates, up, Begin(b)), Finish(b, loaded))
  {
  }

  // Any interleaving in which what finishes has begun.
  ghost predicate Run(mates: seq<seq<nat>>, up: Up, es: seq<Moment>) {
    && |mates| == |up|
    && (forall k :: 0 <= k < |es| ==> es[k].box < |up|)
    && forall k :: 0 <= k < |es| && es[k].Finish? ==> Begun(es, es[k].box, k)
  }

  ghost predicate Begun(es: seq<Moment>, b: nat, k: nat)
    requires k <= |es|
  {
    exists j :: 0 <= j < k && es[j] == Begin(b)
  }

  ghost function UpAt(mates: seq<seq<nat>>, up: Up, es: seq<Moment>, n: nat): (u: Up)
    requires Run(mates, up, es) && n <= |es|
    ensures |u| == |up|
  {
    if n == 0 then up else At(mates, UpAt(mates, up, es, n - 1), es[n - 1])
  }

  // Box `d` loses its mark.
  ghost predicate Lowers(mates: seq<seq<nat>>, e: Moment, d: nat) {
    match e
    case Begin(b) => b < |mates| && d in mates[b]
    case Finish(_, _) => false
    case Lose(b) => b == d
  }

  ghost predicate Undisturbed(mates: seq<seq<nat>>, es: seq<Moment>, from: nat, to: nat, d: nat)
    requires to <= |es|
  {
    forall m :: from <= m < to ==> !Lowers(mates, es[m], d)
  }

  lemma MarkAt(mates: seq<seq<nat>>, up: Up, e: Moment, d: nat)
    requires |mates| == |up| && e.box < |up| && d < |up|
    ensures At(mates, up, e)[d] <==> e == Finish(d, true) || (up[d] && !Lowers(mates, e, d))
  {
  }

  ghost predicate MarkedAt(mates: seq<seq<nat>>, es: seq<Moment>, i: nat, n: nat, d: nat)
    requires n <= |es|
  {
    i < n && es[i] == Finish(d, true) && Undisturbed(mates, es, i + 1, n, d)
  }

  // A box is marked when it has been since the start, or since it finished.
  lemma {:induction false} MarkHistory(mates: seq<seq<nat>>, up: Up, es: seq<Moment>, n: nat, d: nat)
    requires Run(mates, up, es) && n <= |es| && d < |up|
    ensures UpAt(mates, up, es, n)[d] <==>
            || (up[d] && Undisturbed(mates, es, 0, n, d))
            || exists i :: MarkedAt(mates, es, i, n, d)
  {
    hide At, Lowers, Run;
    if n > 0 {
      var m: nat := n - 1;
      MarkHistory(mates, up, es, m, d);
      BoxInside(mates, up, es, m);
      MarkAt(mates, UpAt(mates, up, es, m), es[m], d);
      assert es[m] == Finish(d, true) ==> MarkedAt(mates, es, m, n, d);
      assert Undisturbed(mates, es, 0, n, d) <==> Undisturbed(mates, es, 0, m, d) && !Lowers(mates, es[m], d);
      if i: nat :| MarkedAt(mates, es, i, m, d) {
        assert !Lowers(mates, es[m], d) ==> MarkedAt(mates, es, i, n, d);
      }
      if i: nat :| MarkedAt(mates, es, i, n, d) {
        assert i < m ==> MarkedAt(mates, es, i, m, d) && !Lowers(mates, es[m], d);
      }
    }
  }

  lemma BoxInside(mates: seq<seq<nat>>, up: Up, es: seq<Moment>, k: nat)
    requires Run(mates, up, es) && k < |es|
    ensures es[k].box < |up| && |mates| == |up|
    ensures es[k].Finish? ==> Begun(es, es[k].box, k)
  {
  }

  // `d` is brought up inside the bring-up of `b`, shares memory with it, and is still
  // up when `b` finishes.
  ghost predicate Overtaken(boxes: seq<Child>, mates: seq<seq<nat>>, es: seq<Moment>, j: nat, i: nat, k: nat) {
    && j < i < k < |es| && es[i].Finish? && es[k].Finish? && es[i].ok && es[k].ok
    && var b, d := es[k].box, es[i].box;
       && es[j] == Begin(b) && b != d && b < |boxes| && d < |boxes| && Share(boxes[b], boxes[d])
       && Undisturbed(mates, es, i + 1, k, d)
  }

  ghost predicate SafeThroughout(boxes: seq<Child>, mates: seq<seq<nat>>, up: Up, es: seq<Moment>)
    requires Run(mates, up, es)
  {
    forall n :: 0 <= n <= |es| ==> Safe(boxes, UpAt(mates, up, es, n))
  }

  // A finish keeps the marks safe exactly when no mark of a box that shares memory is
  // set then.
  lemma FinishSafeIff(boxes: seq<Child>, up: Up, b: nat)
    requires Safe(boxes, up) && b < |up|
    ensures Safe(boxes, up[b := true]) <==>
            forall j :: 0 <= j < |up| && j != b && up[j] ==> !Share(boxes[b], boxes[j])
  {
    var u := up[b := true];
    if forall j :: 0 <= j < |up| && j != b && up[j] ==> !Share(boxes[b], boxes[j]) {
      forall i, j | 0 <= i < |u| && 0 <= j < |u| && i != j && u[i] && u[j]
        ensures !Share(boxes[i], boxes[j])
      {
        ShareIsSymmetric(boxes[i], boxes[j]);
      }
    } else {
      var j :| 0 <= j < |up| && j != b && up[j] && Share(boxes[b], boxes[j]);
      assert u[b] && u[j];
    }
  }

  // A moment that breaks safety is a finish that was overtaken.
  lemma BreakIsOvertaken(boxes: seq<Child>, mates: seq<seq<nat>>, up: Up, es: seq<Moment>, k: nat)
      returns (j: nat, i: nat)
    requires Acceptable(boxes) && Found(boxes, mates) && Run(mates, up, es) && k < |es|
    requires Safe(boxes, UpAt(mates, up, es, k)) && !Safe(boxes, UpAt(mates, up, es, k + 1))
    ensures Overtaken(boxes, mates, es, j, i, k)
  {
    hide Run, Share, Acceptable;
    var u := UpAt(mates, up, es, k);
    BoxInside(mates, up, es, k);
    assert es[k].Finish? && es[k].ok by {
      FewerMarksSafe(boxes, u, UpAt(mates, up, es, k + 1));
    }
    var b := es[k].box;
    FinishSafeIff(boxes, u, b);
    var d :| 0 <= d < |u| && d != b && u[d] && Share(boxes[b], boxes[d]);
    MarkHistory(mates, up, es, k, d);
    j :| 0 <= j < k && es[j] == Begin(b);
    assert Mates(boxes, b, d);
    assert Lowers(mates, es[j], d);
    i :| MarkedAt(mates, es, i, k, d);
  }

  lemma FewerMarksSafe(boxes: seq<Child>, up: Up, fewer: Up)
    requires Safe(boxes, up) && |fewer| == |up|
    ensures (forall i :: 0 <= i < |up| && fewer[i] ==> up[i]) ==> Safe(boxes, fewer)
  {
  }

  lemma OvertakenBreaks(boxes: seq<Child>, mates: seq<seq<nat>>, up: Up, es: seq<Moment>, j: nat, i: nat, k: nat)
    requires |boxes| == |up| && Run(mates, up, es) && Overtaken(boxes, mates, es, j, i, k)
    ensures !Safe(boxes, UpAt(mates, up, es, k + 1))
  {
    hide Run, Share;
    var b, d := es[k].box, es[i].box;
    assert MarkedAt(mates, es, i, k, d);
    MarkHistory(mates, up, es, k, d);
    var u := UpAt(mates, up, es, k + 1);
    BoxInside(mates, up, es, k);
    assert u[b] && u[d];
  }

  lemma {:induction false} FirstBreak(boxes: seq<Child>, mates: seq<seq<nat>>, up: Up, es: seq<Moment>, n: nat)
      returns (k: nat)
    requires Run(mates, up, es) && n <= |es| && Safe(boxes, up) && !Safe(boxes, UpAt(mates, up, es, n))
    ensures k < n && Safe(boxes, UpAt(mates, up, es, k)) && !Safe(boxes, UpAt(mates, up, es, k + 1))
  {
    hide Safe, Run, At;
    if n == 0 {
      assert false;
    } else if Safe(boxes, UpAt(mates, up, es, n - 1)) {
      k := n - 1;
    } else {
      k := FirstBreak(boxes, mates, up, es, n - 1);
    }
  }

  // In every interleaving of bring-ups, failures, take-downs and faults, no two boxes
  // that share memory are ever both marked, if and only if none is brought up inside
  // the bring-up of the other and left up until that finishes.
  lemma SafeThroughoutIff(boxes: seq<Child>, mates: seq<seq<nat>>, up: Up, es: seq<Moment>)
    requires Acceptable(boxes) && Found(boxes, mates) && Safe(boxes, up) && Run(mates, up, es)
    ensures SafeThroughout(boxes, mates, up, es) <==> !exists j, i, k :: Overtaken(boxes, mates, es, j, i, k)
  {
    hide Acceptable, Found, Safe, Run, Overtaken;
    if !SafeThroughout(boxes, mates, up, es) {
      var n :| 0 <= n <= |es| && !Safe(boxes, UpAt(mates, up, es, n));
      var k := FirstBreak(boxes, mates, up, es, n);
      var j, i := BreakIsOvertaken(boxes, mates, up, es, k);
    }
    if j, i, k :| Overtaken(boxes, mates, es, j, i, k) {
      SameCount(boxes, up);
      OvertakenBreaks(boxes, mates, up, es, j, i, k);
      OvertakenInside(boxes, mates, es, j, i, k);
    }
  }

  lemma SameCount(boxes: seq<Child>, up: Up)
    requires Safe(boxes, up)
    ensures |up| == |boxes|
  {
  }

  lemma OvertakenInside(boxes: seq<Child>, mates: seq<seq<nat>>, es: seq<Moment>, j: nat, i: nat, k: nat)
    requires Overtaken(boxes, mates, es, j, i, k)
    ensures k < |es|
  {
  }

  // Two boxes in the same memory, the second brought up while the first is being
  // started: a run that ends with both marked.
  lemma NestedBringUp(r: Region)
    requires r.size > 0
    ensures var boxes, mates := [Child([r], true, []), Child([r], true, [])], [[1], [0]];
            var es := [Begin(0), Begin(1), Finish(1, true), Finish(0, true)];
            && Acceptable(boxes) && Found(boxes, mates) && Safe(boxes, [false, false])
            && Run(mates, [false, false], es)
            && Overtaken(boxes, mates, es, 0, 2, 3)
            && UpAt(mates, [false, false], es, 4) == [true, true]
            && !SafeThroughout(boxes, mates, [false, false], es)
  {
    var boxes, mates := [Child([r], true, []), Child([r], true, [])], [[1], [0]];
    var es := [Begin(0), Begin(1), Finish(1, true), Finish(0, true)];
    var down := [false, false];
    assert Overlaps(boxes[1].memories[0], boxes[0].memories[0]);
    assert Overlaps(boxes[0].memories[0], boxes[1].memories[0]);
    assert Share(boxes[0], boxes[1]) && Share(boxes[1], boxes[0]);
    assert Mates(boxes, 0, 1) && Mates(boxes, 1, 0);
    assert Begun(es, 1, 2) && Begun(es, 0, 3) by {
      assert es[1] == Begin(1) && es[0] == Begin(0);
    }
    assert UpAt(mates, down, es, 1) == down;
    assert UpAt(mates, down, es, 2) == down;
    assert UpAt(mates, down, es, 3) == [false, true];
    assert Overtaken(boxes, mates, es, 0, 2, 3);
    OvertakenBreaks(boxes, mates, down, es, 0, 2, 3);
  }

  // The generated code: a mark per box, in place.
  class Marks {
    const up: array<bool>
    const mates: seq<seq<nat>>

    constructor (mates: seq<seq<nat>>)
      ensures this.mates == mates && fresh(up) && up.Length == |mates|
      ensures up[..] == seq(|mates|, i => false)
    {
      this.mates := mates;
      up := new bool[|mates|](i => false);
    }

    method TakeDownBox(b: nat)
      requires b < up.Length
      modifies up
      ensures up[..] == old(up[..])[b := false] == Clobber(old(up[..]), b)
    {
      up[b] := false;
    }

    // The first part of the generated init: the roommates are taken down.
    method BeginBox(b: nat)
      requires b < up.Length == |mates| && forall k :: 0 <= k < |mates[b]| ==> mates[b][k] < up.Length
      modifies up
      ensures up[..] == At(mates, old(up[..]), Begin(b))
    {
      for k := 0 to |mates[b]|
        invariant up[..] == Down(mates[b][..k], old(up[..]))
      {
        TakeDownBox(mates[b][k]);
        assert mates[b][..k + 1] == mates[b][..k] + [mates[b][k]];
      }
      assert mates[b][..|mates[b]|] == mates[b];
    }

    // `load` and `start` are the return codes of the loader and of the box's own
    // init function.
    method InitBox(b: nat, load: int, start: int) returns (err: int)
      requires b < up.Length == |mates| && forall k :: 0 <= k < |mates[b]| ==> mates[b][k] < up.Length
      modifies up
      ensures up[..] == Init(mates, old(up[..]), b, load == 0 && start == 0)
      ensures forall d :: 0 <= d < up.Length ==>
                (up[d] <==> if old(up[b]) then old(up[d])
                            else if d == b then load == 0 && start == 0
                            else old(up[d]) && d !in mates[b])
      ensures err == if old(up[b]) then 0 else if load != 0 then load else start
    {
      if up[b] {
        return 0;
      }
      BeginBox(b);
      if load != 0 {
        return load;
      }
      if start != 0 {
        return start;
      }
      up[b] := true;
      return 0;
    }
  }
}
