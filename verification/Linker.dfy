/** Linking the imports of a whole tree of boxes. */
module Linker {
  import opened Basics
  import opened FnBinding
  import opened Linking

  datatype Tree = Tree(id: nat, name: string, children: seq<Tree>)

  // A box and the box around it.
  datatype Place = Place(box: Tree, parent: Option<Tree>)

  type Exports = map<nat, seq<Export>>
  type Imports = map<nat, seq<Import>>

  function ListOf<T>(m: map<nat, seq<T>>, id: nat): seq<T> {
    if id in m then m[id] else []
  }

  ghost function Ids(t: Tree): set<nat> {
    {t.id} + set j, x | 0 <= j < |t.children| && x in Ids(t.children[j]) :: x
  }

  // No box is in two places.
  ghost predicate Wf(t: Tree) {
    && (forall j :: 0 <= j < |t.children| ==> Wf(t.children[j]) && t.id !in Ids(t.children[j]))
    && (forall j, k :: 0 <= j < k < |t.children| ==> Ids(t.children[j]) !! Ids(t.children[k]))
  }

  ghost predicate Within(p: Place, t: Tree, parent: Option<Tree>) {
    || p == Place(t, parent)
    || exists j :: 0 <= j < |t.children| && Within(p, t.children[j], Some(t))
  }

  lemma {:induction false} WithinIds(p: Place, t: Tree, parent: Option<Tree>)
    requires Within(p, t, parent)
    ensures p.box.id in Ids(t) && (p.parent == parent || (p.parent.Some? && p.parent.value.id in Ids(t)))
    ensures forall c :: c in p.box.children ==> c.id in Ids(t)
    decreases t
  {
    if p == Place(t, parent) {
      forall c | c in t.children ensures c.id in Ids(t) {
        var j :| 0 <= j < |t.children| && t.children[j] == c;
        assert c.id in Ids(t.children[j]);
      }
    } else {
      var j :| 0 <= j < |t.children| && Within(p, t.children[j], Some(t));
      WithinIds(p, t.children[j], Some(t));
    }
  }

  // Every export and every import belongs to one box.
  ghost predicate Owned<T(!new)>(m: map<nat, seq<T>>) {
    && (forall b :: NoRepeats(ListOf(m, b)))
    && (forall b, c, x :: b != c && x in ListOf(m, b) ==> x !in ListOf(m, c))
  }

  // The boxes whose exports a box can import, and how many of them are linked first.
  function Near(p: Place): seq<Tree> {
    [p.box] + (if p.parent.Some? then [p.parent.value] else []) + p.box.children
  }

  function FirstChild(p: Place): nat {
    if p.parent.Some? then 2 else 1
  }

  // The exports an import can be linked to: what is left of those of its own box and
  // the box around it, and all of those of the boxes inside it, which come later.
  ghost function Targets(i: Import, p: Place, was: Exports): set<Export> {
    set n, e | 0 <= n < |Near(p)| && e in TargetsAt(i, p, was, n) :: e
  }

  ghost function TargetsAt(i: Import, p: Place, was: Exports, n: nat): set<Export>
    requires n < |Near(p)|
  {
    var list := ListOf(was, Near(p)[n].id);
    set e | e in LinkableIn(i, list, Near(p)[n].name, p.box.name) && (n < FirstChild(p) ==> Survives(list, e))
  }

  predicate ScopeFound(p: Place, e: Export) {
    e.key.scope.Some? ==> exists n :: 0 <= n < |Near(p)| && Near(p)[n].name == e.key.scope.value
  }

  // The import that stands for `k`: the first, or the last one the box itself declares.
  ghost function ImportEntry(list: seq<Import>, k: Key, own: string): Option<Import> {
    if list == [] then None
    else
      var i, last := ImportEntry(list[..|list| - 1], k, own), list[|list| - 1];
      if last.key == k && (i.None? || last.source == own) then Some(last) else i
  }

  ghost predicate ImportsAgree(list: seq<Import>, own: string) {
    forall n :: 0 <= n < |list| ==> ImportAgrees(list, n, own)
  }

  ghost predicate ImportAgrees(list: seq<Import>, n: nat, own: string)
    requires n < |list|
  {
    var i := ImportEntry(list[..n], list[n].key, own);
    i.Some? ==> Compatible(i.value.fn, list[n].fn)
  }

  // The import of a name that others are compared with: the last one that the box itself
  // declares, or else the first.
  lemma {:induction false} ImportEntryIs(list: seq<Import>, n: nat, own: string)
    requires n < |list|
    requires if list[n].source == own then
               forall m :: n < m < |list| && list[m].key == list[n].key ==> list[m].source != own
             else
               && (forall m :: 0 <= m < n ==> list[m].key != list[n].key)
               && (forall m :: n < m < |list| && list[m].key == list[n].key ==> list[m].source != own)
    ensures ImportEntry(list, list[n].key, own) == Some(list[n])
    decreases |list|
  {
    var front := list[..|list| - 1];
    if n < |front| {
      assert front[n] == list[n];
      ImportEntryIs(front, n, own);
    } else {
      NoImportYet(front, list[n].key, own);
      assert list[n].source != own ==> forall i :: i in front ==> i.key != list[n].key;
    }
  }

  lemma {:induction false} NoImportYet(list: seq<Import>, k: Key, own: string)
    ensures ImportEntry(list, k, own).None? <==> forall i :: i in list ==> i.key != k
    decreases |list|
  {
    if list != [] {
      var front, last := list[..|list| - 1], list[|list| - 1];
      NoImportYet(front, k, own);
      assert forall i :: i in list <==> i in front || i == last;
    }
  }

  // The next import of the name has to fit it.
  lemma ImportsAgreeNext(list: seq<Import>, i: Import, own: string)
    ensures ImportsAgree(list + [i], own) <==>
            && ImportsAgree(list, own)
            && (ImportEntry(list, i.key, own).Some? ==> Compatible(ImportEntry(list, i.key, own).value.fn, i.fn))
  {
    hide Compatible, ImportEntry;
    var all := list + [i];
    assert all[..|list|] == list;
    assert forall n :: 0 <= n < |list| ==> all[..n] == list[..n] && all[n] == list[n];
    assert forall n :: 0 <= n < |list| ==> (ImportAgrees(all, n, own) <==> ImportAgrees(list, n, own));
    assert ImportsAgree(all, own) ==> ImportAgrees(all, |list|, own);
  }

  // What has to hold of a box for linking it to go through.
  ghost predicate BoxOk(p: Place, was: Exports, imports: Imports) {
    var list := ListOf(was, p.box.id);
    && ImportsAgree(ListOf(imports, p.box.id), p.box.name)
    && Accepted(list)
    && (forall e :: e in list && Survives(list, e) ==> ScopeFound(p, e))
    && (forall i :: i in ListOf(imports, p.box.id) ==> !Resolves(i, Targets(i, p, was), Fails))
  }

  // A linked export is left in its box, whether that box is linked before or after the
  // one that imports it.
  lemma LinkedSurvives(i: Import, p: Place, was: Exports, e: Export)
    requires forall n :: 0 <= n < |Near(p)| ==> Accepted(ListOf(was, Near(p)[n].id))
    requires Resolves(i, Targets(i, p, was), Linked(e))
    ensures exists n :: 0 <= n < |Near(p)| && Survives(ListOf(was, Near(p)[n].id), e)
                        && Linkable(i, e, Near(p)[n].name, p.box.name)
  {
    hide Survives, Accepted, Compatible;
    var targets := Targets(i, p, was);
    PickIsTarget(targets, e);
    var n :| 0 <= n < |Near(p)| && e in TargetsAt(i, p, was, n);
    var list := ListOf(was, Near(p)[n].id);
    if n >= FirstChild(p) {
      forall f | f in list && Linkable(i, f, Near(p)[n].name, p.box.name) ensures f in targets {
        assert f in TargetsAt(i, p, was, n);
      }
      ChosenSurvives(i, targets, e, list, Near(p)[n].name, p.box.name);
    }
  }

  // -------------------- sorting by name --------------------

  predicate Leq(a: string, b: string) {
    a == [] || (b != [] && (a[0] < b[0] || (a[0] == b[0] && Leq(a[1..], b[1..]))))
  }

  // It is the order of a dictionary: the first difference decides, and a beginning comes
  // first.
  lemma {:induction false} LeqIff(a: string, b: string, k: nat)
    requires k <= |a| && k <= |b| && a[..k] == b[..k] && (k < |a| && k < |b| ==> a[k] != b[k])
    ensures Leq(a, b) <==> k == |a| || (k < |b| && a[k] < b[k])
    decreases k
  {
    if k > 0 {
      assert a[0] == a[..k][0] == b[0];
      assert a[1..][..k - 1] == a[..k][1..] == b[1..][..k - 1];
      LeqIff(a[1..], b[1..], k - 1);
    }
  }

  lemma {:induction false} LeqTotal(a: string, b: string)
    ensures Leq(a, b) || Leq(b, a)
  {
    if a != [] && b != [] && a[0] == b[0] {
      LeqTotal(a[1..], b[1..]);
    }
  }

  lemma {:induction false} LeqTransitive(a: string, b: string, c: string)
    requires Leq(a, b) && Leq(b, c)
    ensures Leq(a, c)
  {
    if a != [] && a[0] == b[0] && b[0] == c[0] {
      LeqTransitive(a[1..], b[1..], c[1..]);
    }
  }

  ghost predicate Sorted<T(!new)>(s: seq<T>, name: T -> string) {
    forall i, j :: 0 <= i < j < |s| ==> Leq(name(s[i]), name(s[j]))
  }

  function ExportName(e: Export): string {
    e.key.name
  }

  method Insert<T(!new)>(s: seq<T>, x: T, name: T -> string) returns (r: seq<T>)
    requires Sorted(s, name) && NoRepeats(s) && x !in s
    ensures Sorted(r, name) && NoRepeats(r)
    ensures forall y :: y in r <==> y in s || y == x
  {
    var n: nat := |s|;
    while n > 0 && !Leq(name(s[n - 1]), name(x))
      invariant n <= |s| && forall j :: n <= j < |s| ==> Leq(name(x), name(s[j]))
    {
      LeqTotal(name(s[n - 1]), name(x));
      n := n - 1;
    }
    r := s[..n] + [x] + s[n..];
    forall i | 0 <= i < n ensures Leq(name(s[i]), name(x)) {
      if i < n - 1 {
        LeqTransitive(name(s[i]), name(s[n - 1]), name(x));
      }
    }
    assert forall i :: 0 <= i < n ==> s[i] in s;
  }

  // -------------------- the linker --------------------

  // Where an import of a linked box has ended up.
  ghost predicate Settled(i: Import, p: Place, was: Exports, link: map<Import, Export>) {
    Resolves(i, Targets(i, p, was), if i in link then Linked(link[i]) else Unlinked)
  }

  // A link is recorded once with the import and once with the export.
  ghost predicate BothEnds(link: map<Import, Export>, links: map<Export, seq<Import>>) {
    && (forall i, e :: (i in link && link[i] == e) <==> (e in links && i in links[e]))
    && (forall e :: e in links ==> NoRepeats(links[e]))
  }

  // The exports near `p`, when it is its turn: those of its own box and of the box
  // around it have been reduced.
  ghost predicate Current(p: Place, was: Exports, now: Exports) {
    forall n :: 0 <= n < |Near(p)| ==>
      if n < FirstChild(p) then Reduced(ListOf(was, Near(p)[n].id), ListOf(now, Near(p)[n].id))
      else ListOf(now, Near(p)[n].id) == ListOf(was, Near(p)[n].id)
  }

  ghost predicate NearDistinct(p: Place) {
    forall m, n :: 0 <= m < n < |Near(p)| ==> Near(p)[m].id != Near(p)[n].id
  }

  // The dictionary of exports, and its keys in the order in which they were put in.
  method Entries(list: seq<Export>) returns (ok: bool, entries: map<Key, Export>, keys: seq<Key>)
    ensures ok <==> Accepted(list)
    ensures ok ==> NoRepeats(keys) && forall k :: k in keys <==> k in entries
    ensures ok ==> forall k :: Entry(list, k) == if k in entries then Some(entries[k]) else None
  {
    hide Compatible;
    entries, keys := map[], [];
    for n: nat := 0 to |list|
      invariant forall m :: 0 <= m < n ==> AcceptedAt(list, m)
      invariant forall k :: Entry(list[..n], k) == if k in entries then Some(entries[k]) else None
      invariant NoRepeats(keys) && forall k :: k in keys <==> k in entries
    {
      var e := list[n];
      assert list[..n + 1][..n] == list[..n];
      if e.key in entries {
        var met := entries[e.key];
        if !(e.weak || met.weak) || !Compatible(met.fn, e.fn) {
          assert !AcceptedAt(list, n);
          return false, entries, keys;
        }
      }
      if e.key !in entries || entries[e.key].weak {
        if e.key !in entries {
          keys := keys + [e.key];
        }
        entries := entries[e.key := e];
      }
    }
    assert list[..|list|] == list;
    ok := true;
  }

  method SortedEntries(ghost list: seq<Export>, entries: map<Key, Export>, keys: seq<Key>) returns (out: seq<Export>)
    requires NoRepeats(keys) && forall k :: k in keys <==> k in entries
    requires forall k :: Entry(list, k) == if k in entries then Some(entries[k]) else None
    ensures Reduced(list, out) && Sorted(out, ExportName)
  {
    hide Entry, Leq;
    out := [];
    for n: nat := 0 to |keys|
      invariant NoRepeats(out) && Sorted(out, ExportName)
      invariant forall e :: e in out <==> Survives(list, e) && e.key in keys[..n]
    {
      var k := keys[n];
      EntryIsThere(list, k);
      assert k in keys && k !in keys[..n];
      out := Insert(out, entries[k], ExportName);
      assert keys[..n + 1] == keys[..n] + [k];
    }
    assert keys[..|keys|] == keys;
  }

  // The exports of one box that an import may be linked to.
  method Linkables(i: Import, list: seq<Export>, exporter: string, importer: string) returns (r: seq<Export>)
    requires NoRepeats(list)
    ensures NoRepeats(r) && forall e :: e in r <==> e in list && Linkable(i, e, exporter, importer)
  {
    r := [];
    for n: nat := 0 to |list|
      invariant NoRepeats(r) && forall e :: e in r <==> e in list[..n] && Linkable(i, e, exporter, importer)
    {
      assert list[n] !in list[..n] && list[..n + 1] == list[..n] + [list[n]];
      if Linkable(i, list[n], exporter, importer) {
        r := r + [list[n]];
      }
    }
    assert list[..|list|] == list;
  }

  method StrongOnes(list: seq<Export>) returns (r: seq<Export>)
    requires NoRepeats(list)
    ensures NoRepeats(r) && forall e :: e in r <==> e in list && !e.weak
  {
    r := [];
    for n: nat := 0 to |list|
      invariant NoRepeats(r) && forall e :: e in r <==> e in list[..n] && !e.weak
    {
      assert list[n] !in list[..n] && list[..n + 1] == list[..n] + [list[n]];
      if !list[n].weak {
        r := r + [list[n]];
      }
    }
    assert list[..|list|] == list;
  }

  // Weak targets are dropped as long as there is more than one target; what is left
  // decides.
  method Resolve(i: Import, found: seq<Export>) returns (r: Outcome)
    requires NoRepeats(found)
    ensures Resolves(i, (set e | e in found), r)
  {
    hide Compatible;
    ghost var all := set e | e in found;
    if found == [] && !i.weak {
      return Fails;
    }
    var targets := found;
    while |targets| > 1 && exists n :: 0 <= n < |targets| && targets[n].weak
      invariant NoRepeats(targets)
      invariant targets == found || (|found| > 1 && forall e :: e in targets <==> e in Strong(all))
      decreases if exists n :: 0 <= n < |targets| && targets[n].weak then 1 else 0
    {
      assert forall e :: e in targets ==> e in found;
      targets := StrongOnes(targets);
    }
    if |found| > 1 {
      assert found[0] in all && found[1] in all;
    }
    if |targets| > 1 {
      assert targets[0] in Strong(all) && targets[1] in Strong(all);
      return Fails;
    }
    if targets == [] {
      return Unlinked;
    }
    assert forall e :: e in targets <==> e == targets[0];
    assert Picks(all, targets[0]) by {
      if targets == found {
        assert all == {targets[0]};
      } else {
        assert Strong(all) == {targets[0]};
      }
    }
    return if Compatible(targets[0].fn, i.fn) then Linked(targets[0]) else Fails;
  }

  class Linker {
    var exports: Exports
    var imports: Imports
    var link: map<Import, Export>
    var links: map<Export, seq<Import>>

    // One export of each name stays.
    method Reduce(box: nat) returns (ok: bool)
      requires box in exports
      modifies this`exports
      ensures ok <==> Accepted(old(exports[box]))
      ensures ok ==> box in exports && Reduced(old(exports[box]), exports[box]) && Sorted(exports[box], ExportName)
      ensures exports.Keys == old(exports.Keys)
      ensures forall b :: b != box ==> ListOf(exports, b) == old(ListOf(exports, b))
    {
      hide Accepted, Reduced, Sorted;
      var entries, keys;
      ok, entries, keys := Entries(exports[box]);
      if ok {
        var out := SortedEntries(exports[box], entries, keys);
        exports := exports[box := out];
      }
    }

    // The targets of an import, box by box.
    method FindTargets(i: Import, p: Place, ghost was: Exports) returns (found: seq<Export>)
      requires Current(p, was, exports) && NearDistinct(p) && Owned(was)
      ensures NoRepeats(found) && (set e | e in found) == Targets(i, p, was)
    {
      hide Linkable, Survives;
      found := [];
      for n: nat := 0 to |Near(p)|
        invariant NoRepeats(found)
        invariant forall e :: e in found <==> exists m :: 0 <= m < n && e in TargetsAt(i, p, was, m)
      {
        var list := ListOf(exports, Near(p)[n].id);
        ghost var before := ListOf(was, Near(p)[n].id);
        forall e ensures Survives(before, e) ==> e in before {
          SurvivorIsThere(before, e);
        }
        var r := Linkables(i, list, Near(p)[n].name, p.box.name);
        assert forall e :: e in r <==> e in TargetsAt(i, p, was, n);
        assert forall e :: e in r ==> e !in found;
        AppendDistinct(found, r);
        found := found + r;
      }
    }

    // Every import of a box finds its export, or the linking stops.
    method LinkImports(p: Place, ghost was: Exports) returns (ok: bool)
      requires Current(p, was, exports) && NearDistinct(p) && Owned(was)
      requires BothEnds(link, links) && NoRepeats(ListOf(imports, p.box.id))
      requires forall i :: i in ListOf(imports, p.box.id) ==> i !in link
      modifies this`link, this`links
      ensures BothEnds(link, links)
      ensures ok <==> forall i :: i in ListOf(imports, p.box.id) ==> !Resolves(i, Targets(i, p, was), Fails)
      ensures ok ==> forall i :: i in ListOf(imports, p.box.id) ==> Settled(i, p, was, link)
      ensures SameElsewhere(old(link), link, ListOf(imports, p.box.id))
    {
      hide Resolves, Targets, Current, Owned, NearDistinct, BothEnds;
      var list := ListOf(imports, p.box.id);
      for n: nat := 0 to |list|
        invariant BothEnds(link, links)
        invariant forall m :: 0 <= m < n ==> Settled(list[m], p, was, link)
        invariant forall m :: n <= m < |list| ==> list[m] !in link
        invariant SameElsewhere(old(link), link, list)
      {
        var i := list[n];
        var found := FindTargets(i, p, was);
        var r := Resolve(i, found);
        if r.Fails? {
          return false;
        }
        if r.Linked? {
          ghost var link', links' := link, links;
          link := link[i := r.to];
          links := links[r.to := (if r.to in links then links[r.to] else []) + [i]];
          Recorded(link', links', link, links, i, r.to);
        }
      }
      NoneFails(list, p, was, link);
      ok := true;
    }

    // An import may be declared more than once, but not with different types.
    method SortImports(box: nat, own: string) returns (ok: bool)
      requires box in imports && NoRepeats(imports[box])
      modifies this`imports
      ensures ok <==> ImportsAgree(old(imports[box]), own)
      ensures ok ==> NoRepeats(ListOf(imports, box)) && Sorted(ListOf(imports, box), ImportName)
      ensures ok ==> forall i :: i in ListOf(imports, box) <==> i in old(imports[box])
      ensures imports.Keys == old(imports.Keys)
      ensures forall b :: b != box ==> ListOf(imports, b) == old(ListOf(imports, b))
    {
      hide Compatible, Leq;
      var list := imports[box];
      var entries: map<Key, Import> := map[];
      for n: nat := 0 to |list|
        invariant forall m :: 0 <= m < n ==> ImportAgrees(list, m, own)
        invariant forall k :: ImportEntry(list[..n], k, own) == if k in entries then Some(entries[k]) else None
      {
        var i := list[n];
        assert list[..n + 1][..n] == list[..n];
        if i.key in entries && !Compatible(entries[i.key].fn, i.fn) {
          assert !ImportAgrees(list, n, own);
          return false;
        }
        if i.key !in entries || i.source == own {
          entries := entries[i.key := i];
        }
      }
      var out := SortedByName(list);
      imports := imports[box := out];
      ok := true;
    }

    method ScopesFound(p: Place) returns (ok: bool)
      ensures ok <==> forall e :: e in ListOf(exports, p.box.id) ==> ScopeFound(p, e)
    {
      var list := ListOf(exports, p.box.id);
      for n: nat := 0 to |list|
        invariant forall m :: 0 <= m < n ==> ScopeFound(p, list[m])
      {
        if !ScopeFound(p, list[n]) {
          return false;
        }
      }
      ok := true;
    }

    ghost function Now(): State
      reads this
    {
      State(exports, imports, link)
    }

    // A box first, then the boxes inside it.
    method Link(t: Tree, parent: Option<Tree>, ghost was: State) returns (ok: bool)
      requires Ready(Place(t, parent), was, Now()) && BothEnds(link, links)
      modifies this
      ensures BothEnds(link, links)
      ensures ok <==> forall p :: Within(p, t, parent) ==> BoxOk(p, was.exports, was.imports)
      ensures ok ==> forall p :: Within(p, t, parent) ==> Done(p, was, Now())
      ensures ok ==> Beside(Ids(t), was, old(Now()), Now())
      decreases t
    {
      hide Ids, Wf, BoxOk, Done, Untouched, Beside, BothEnds, Owned, Reduced;
      ghost var p, s := Place(t, parent), Now();
      ok := LinkBox(Place(t, parent), was);
      if !ok {
        return;
      }
      AfterBox(p, was, s, Now());
      for k: nat := 0 to |t.children|
        invariant BothEnds(link, links) && Beside(Ids(t), was, s, Now())
        invariant BoxOk(p, was.exports, was.imports) && Done(p, was, Now())
        invariant forall j, q :: 0 <= j < k && Within(q, t.children[j], Some(t)) ==>
                    BoxOk(q, was.exports, was.imports) && Done(q, was, Now())
        invariant forall j :: k <= j < |t.children| ==> Untouched(t.children[j], was, Now())
      {
        ghost var now := Now();
        ReadyChild(p, k, was, now);
        ok := Link(t.children[k], Some(t), was);
        if !ok {
          return;
        }
        AfterChild(p, k, was, s, now, Now());
      }
      ok := true;
    }

    // One box: its imports and exports are put in order, and its imports linked.
    method LinkBox(p: Place, ghost was: State) returns (ok: bool)
      requires Ready(p, was, Now()) && BothEnds(link, links)
      modifies this
      ensures BothEnds(link, links)
      ensures ok <==> BoxOk(p, was.exports, was.imports)
      ensures ok ==> Done(p, was, Now()) && Beside({p.box.id}, was, old(Now()), Now())
    {
      hide Accepted, ImportsAgree, Reduced, BothEnds, Survives, Resolves, Targets, Leq, Wf, Owned, NearDistinct,
           Current,
           Compatible, ScopeFound, Sorted, NoRepeats;
      var box := p.box.id;
      ReadyHere(p, was, Now());
      ok := SortImports(box, p.box.name);
      if !ok {
        return;
      }
      ok := Reduce(box);
      if !ok {
        return;
      }
      ReducedScopes(p, ListOf(was.exports, box), exports[box]);
      ok := ScopesFound(p);
      if !ok {
        return;
      }
      ghost var now := Now();
      ReadyNear(p, was, old(Now()), now);
      ok := LinkImports(p, was.exports);
    }
  }

  // What linking reads and changes.
  datatype State = State(exports: Exports, imports: Imports, link: map<Import, Export>)

  // The boxes of a tree that has not been linked yet.
  ghost predicate Untouched(t: Tree, was: State, now: State) {
    forall b :: b in Ids(t) ==>
      && b in now.exports && b in now.imports
      && now.exports[b] == ListOf(was.exports, b) && now.imports[b] == ListOf(was.imports, b)
      && forall i :: i in now.imports[b] ==> i !in now.link
  }

  // It is the turn of `p`.
  ghost predicate Ready(p: Place, was: State, now: State) {
    && Wf(p.box) && Owned(was.exports) && Owned(was.imports) && Untouched(p.box, was, now)
    && (p.parent.Some? ==>
          p.parent.value.id !in Ids(p.box) &&
          Reduced(ListOf(was.exports, p.parent.value.id), ListOf(now.exports, p.parent.value.id)))
  }

  // A box that has been linked.
  ghost predicate Done(p: Place, was: State, now: State) {
    var box := p.box.id;
    && Reduced(ListOf(was.exports, box), ListOf(now.exports, box)) && Sorted(ListOf(now.exports, box), ExportName)
    && Sorted(ListOf(now.imports, box), ImportName) && NoRepeats(ListOf(now.imports, box))
    && (forall i :: i in ListOf(now.imports, box) <==> i in ListOf(was.imports, box))
    && (forall i :: i in ListOf(was.imports, box) ==> Settled(i, p, was.exports, now.link))
  }

  // From `now` to `now'`, only the boxes in `ids` have changed.
  ghost predicate Beside(ids: set<nat>, was: State, now: State, now': State) {
    && now'.exports.Keys == now.exports.Keys && now'.imports.Keys == now.imports.Keys
    && (forall b :: b !in ids ==>
          ListOf(now'.exports, b) == ListOf(now.exports, b) && ListOf(now'.imports, b) == ListOf(now.imports, b))
    && (forall i :: NotOf(i, ids, was) ==>
          (i in now.link <==> i in now'.link) && (i in now.link ==> now'.link[i] == now.link[i]))
  }

  ghost predicate NotOf(i: Import, ids: set<nat>, was: State) {
    forall b :: b in ids ==> i !in ListOf(was.imports, b)
  }

  lemma ReadyHere(p: Place, was: State, now: State)
    requires Ready(p, was, now)
    ensures p.box.id in now.exports && p.box.id in now.imports && NoRepeats(now.imports[p.box.id])
    ensures now.exports[p.box.id] == ListOf(was.exports, p.box.id)
    ensures now.imports[p.box.id] == ListOf(was.imports, p.box.id)
    ensures forall i :: i in now.imports[p.box.id] ==> i !in now.link
  {
    assert p.box.id in Ids(p.box);
    assert NoRepeats(ListOf(was.imports, p.box.id));
  }

  lemma ReducedScopes(p: Place, list: seq<Export>, out: seq<Export>)
    requires Reduced(list, out)
    ensures (forall e :: e in out ==> ScopeFound(p, e)) <==>
            forall e :: e in list && Survives(list, e) ==> ScopeFound(p, e)
  {
    hide Survives, ScopeFound;
    forall e ensures Survives(list, e) ==> e in list {
      SurvivorIsThere(list, e);
    }
  }

  lemma ReadyNear(p: Place, was: State, now: State, now': State)
    requires Ready(p, was, now) && Reduced(ListOf(was.exports, p.box.id), ListOf(now'.exports, p.box.id))
    requires forall b :: b != p.box.id ==> ListOf(now'.exports, b) == ListOf(now.exports, b)
    ensures Current(p, was.exports, now'.exports) && NearDistinct(p)
  {
    hide Reduced, Ids, Wf, Owned, NearDistinct;
    NearIsDistinct(p);
  }

  lemma NearIsDistinct(p: Place)
    requires Wf(p.box) && (p.parent.Some? ==> p.parent.value.id !in Ids(p.box))
    ensures NearDistinct(p)
    ensures forall n :: FirstChild(p) <= n < |Near(p)| ==> Near(p)[n].id in Ids(p.box) && Near(p)[n].id != p.box.id
  {
    hide Wf, Ids;
    var near, kids := Near(p), p.box.children;
    assert forall n :: FirstChild(p) <= n < |near| ==> near[n] == kids[n - FirstChild(p)];
    ChildIds(p.box);
  }

  lemma ChildIds(t: Tree)
    requires Wf(t)
    ensures t.id in Ids(t)
    ensures forall k :: 0 <= k < |t.children| ==> t.children[k].id in Ids(t) && t.children[k].id != t.id
    ensures forall j, k :: 0 <= j < k < |t.children| ==> t.children[j].id != t.children[k].id
  {
    var kids := t.children;
    forall k | 0 <= k < |kids| ensures kids[k].id in Ids(kids[k]) && kids[k].id in Ids(t) && kids[k].id != t.id {
      assert kids[k].id in Ids(kids[k]);
    }
    forall j, k | 0 <= j < k < |kids| ensures kids[j].id != kids[k].id {
      assert Ids(kids[j]) !! Ids(kids[k]);
    }
  }

  // -------------------- from one box to the next --------------------

  lemma BesideWider(ids: set<nat>, wider: set<nat>, was: State, now: State, now': State)
    requires Beside(ids, was, now, now') && ids <= wider
    ensures Beside(wider, was, now, now')
  {
    forall i | NotOf(i, wider, was) ensures NotOf(i, ids, was) {
    }
  }

  lemma BesideThen(ids: set<nat>, was: State, now: State, now': State, now'': State)
    requires Beside(ids, was, now, now') && Beside(ids, was, now', now'')
    ensures Beside(ids, was, now, now'')
  {
  }

  lemma OwnersElsewhere(i: Import, box: nat, ids: set<nat>, was: State)
    requires Owned(was.imports) && box !in ids && i in ListOf(was.imports, box)
    ensures NotOf(i, ids, was)
  {
  }

  // What has been linked stays as it is while other boxes are linked.
  lemma DoneStays(p: Place, ids: set<nat>, was: State, now: State, now': State)
    requires Done(p, was, now) && Beside(ids, was, now, now') && p.box.id !in ids && Owned(was.imports)
    ensures Done(p, was, now')
  {
    hide Reduced, Sorted, NoRepeats, Resolves, Targets, Owned, NotOf;
    forall i | i in ListOf(was.imports, p.box.id) ensures Settled(i, p, was.exports, now'.link) {
      OwnersElsewhere(i, p.box.id, ids, was);
    }
  }

  // And what has not been linked yet is still as it was.
  lemma UntouchedStays(t: Tree, ids: set<nat>, was: State, now: State, now': State)
    requires Untouched(t, was, now) && Beside(ids, was, now, now') && Ids(t) !! ids && Owned(was.imports)
    ensures Untouched(t, was, now')
  {
    hide Ids, Owned, NotOf;
    forall b | b in Ids(t)
      ensures b in now'.exports && b in now'.imports
      ensures now'.exports[b] == ListOf(was.exports, b) && now'.imports[b] == ListOf(was.imports, b)
    {
      assert ListOf(now'.exports, b) == ListOf(now.exports, b) && ListOf(now'.imports, b) == ListOf(now.imports, b);
    }
    forall b, i | b in Ids(t) && i in now'.imports[b] ensures i !in now'.link {
      OwnersElsewhere(i, b, ids, was);
    }
  }

  lemma AfterBox(p: Place, was: State, now: State, now': State)
    requires Ready(p, was, now) && Beside({p.box.id}, was, now, now')
    ensures Beside(Ids(p.box), was, now, now')
    ensures forall j :: 0 <= j < |p.box.children| ==> Untouched(p.box.children[j], was, now')
  {
    hide Beside, Untouched, Owned;
    assert p.box.id in Ids(p.box);
    BesideWider({p.box.id}, Ids(p.box), was, now, now');
    forall j | 0 <= j < |p.box.children| ensures Untouched(p.box.children[j], was, now') {
      ChildUntouched(p.box, j, was, now);
      UntouchedStays(p.box.children[j], {p.box.id}, was, now, now');
    }
  }

  lemma ReadyChild(p: Place, k: nat, was: State, now: State)
    requires Wf(p.box) && k < |p.box.children| && Owned(was.exports) && Owned(was.imports)
    requires Untouched(p.box.children[k], was, now) && Done(p, was, now)
    ensures Ready(Place(p.box.children[k], Some(p.box)), was, now)
  {
  }

  lemma AfterChild(p: Place, k: nat, was: State, s: State, now: State, now': State)
    requires Wf(p.box) && k < |p.box.children| && Owned(was.imports)
    requires Beside(Ids(p.box.children[k]), was, now, now') && Beside(Ids(p.box), was, s, now) && Done(p, was, now)
    requires forall j, q :: 0 <= j < k && Within(q, p.box.children[j], Some(p.box)) ==> Done(q, was, now)
    requires forall j :: k < j < |p.box.children| ==> Untouched(p.box.children[j], was, now)
    ensures Beside(Ids(p.box), was, s, now') && Done(p, was, now')
    ensures forall j, q :: 0 <= j < k && Within(q, p.box.children[j], Some(p.box)) ==> Done(q, was, now')
    ensures forall j :: k < j < |p.box.children| ==> Untouched(p.box.children[j], was, now')
  {
    hide Beside, Untouched, Owned, Done, Within;
    var ids := Ids(p.box.children[k]);
    assert ids <= Ids(p.box);
    BesideWider(ids, Ids(p.box), was, now, now');
    BesideThen(Ids(p.box), was, s, now, now');
    DoneStays(p, ids, was, now, now');
    forall j, q | 0 <= j < k && Within(q, p.box.children[j], Some(p.box)) ensures Done(q, was, now') {
      WithinIds(q, p.box.children[j], Some(p.box));
      DoneStays(q, ids, was, now, now');
    }
    forall j | k < j < |p.box.children| ensures Untouched(p.box.children[j], was, now') {
      UntouchedStays(p.box.children[j], ids, was, now, now');
    }
  }

  lemma ChildUntouched(t: Tree, j: nat, was: State, now: State)
    requires Untouched(t, was, now) && j < |t.children|
    ensures Ids(t.children[j]) <= Ids(t) && Untouched(t.children[j], was, now)
  {
    forall b | b in Ids(t.children[j]) ensures b in Ids(t) {
    }
  }

  // -------------------- the linked tree --------------------

  lemma {:induction false} NearIsWithin(p: Place, t: Tree, parent: Option<Tree>, n: nat)
    requires Within(p, t, parent) && n < |Near(p)|
    ensures || (p.parent == parent && FirstChild(p) == 2 && n == 1)
            || exists q :: Within(q, t, parent) && q.box == Near(p)[n]
    decreases t
  {
    if p == Place(t, parent) {
      if n >= FirstChild(p) {
        var q := Place(Near(p)[n], Some(t));
        assert t.children[n - FirstChild(p)] == q.box;
        assert Within(q, t.children[n - FirstChild(p)], Some(t));
      } else if n == 0 {
        assert Within(p, t, parent);
      }
    } else {
      var j :| 0 <= j < |t.children| && Within(p, t.children[j], Some(t));
      NearIsWithin(p, t.children[j], Some(t), n);
      if q :| Within(q, t.children[j], Some(t)) && q.box == Near(p)[n] {
        assert Within(q, t, parent);
      } else {
        assert Within(Place(t, parent), t, parent);
      }
    }
  }

  // Once a tree has been linked, every import that has a link has it to an export of its
  // name and a compatible type that a box near it still offers, and each of the two is
  // meant for the other's box where it names a scope.
  lemma LinkedExportsStay(root: Tree, was: State, now: State, p: Place, i: Import)
    requires forall q :: Within(q, root, None) ==> BoxOk(q, was.exports, was.imports) && Done(q, was, now)
    requires Within(p, root, None) && i in ListOf(was.imports, p.box.id) && i in now.link
    ensures var e := now.link[i];
            && e.key.name == i.key.name && Compatible(e.fn, i.fn) && e.key.scope in {None, Some(p.box.name)}
            && exists b: Tree ::
                 && (b == p.box || p.parent == Some(b) || b in p.box.children)
                 && e in ListOf(now.exports, b.id) && i.key.scope in {None, Some(b.name)}
  {
    hide Survives, Accepted, Compatible, Within, Targets, Near;
    forall n | 0 <= n < |Near(p)|
      ensures Accepted(ListOf(was.exports, Near(p)[n].id))
      ensures Reduced(ListOf(was.exports, Near(p)[n].id), ListOf(now.exports, Near(p)[n].id))
    {
      NearIsWithin(p, root, None, n);
      var q :| Within(q, root, None) && q.box == Near(p)[n];
    }
    LinkedSurvives(i, p, was.exports, now.link[i]);
    var n :| 0 <= n < |Near(p)| && Survives(ListOf(was.exports, Near(p)[n].id), now.link[i])
             && Linkable(i, now.link[i], Near(p)[n].name, p.box.name);
    NearBoxes(p, Near(p)[n]);
    InScope(now.link[i].key.scope, p.box.name);
    InScope(i.key.scope, Near(p)[n].name);
  }

  lemma InScope(scope: Option<string>, name: string)
    ensures scope in {None, Some(name)} <==> scope.None? || scope.value == name
  {
    assert scope.Some? && scope.value == name ==> scope == Some(name);
  }

  lemma NearBoxes(p: Place, b: Tree)
    ensures b in Near(p) <==> b == p.box || p.parent == Some(b) || b in p.box.children
  {
  }

  // The other way round: an import that fits the only one of the exports declared near it
  // ends up linked to that.
  lemma OnlyFitIsLinked(was: State, now: State, p: Place, i: Import, b: Tree, e: Export)
    requires BoxOk(p, was.exports, was.imports) && Done(p, was, now) && i in ListOf(was.imports, p.box.id)
    requires (b == p.box || p.parent == Some(b) || b in p.box.children) && e in ListOf(was.exports, b.id)
    requires e.key.name == i.key.name
    requires i.key.scope in {None, Some(b.name)} && e.key.scope in {None, Some(p.box.name)}
    requires forall c: Tree, f |
               && (c == p.box || p.parent == Some(c) || c in p.box.children) && f in ListOf(was.exports, c.id)
               && f.key.name == i.key.name
               && i.key.scope in {None, Some(c.name)} && f.key.scope in {None, Some(p.box.name)} :: f == e
    ensures i in now.link && now.link[i] == e && Compatible(e.fn, i.fn)
  {
    hide Near, Compatible, BoxOk;
    NearBoxes(p, b);
    var n :| 0 <= n < |Near(p)| && Near(p)[n] == b;
    var list := ListOf(was.exports, b.id);
    forall f | f in list && f.key == e.key
      ensures f == e
    {
    }
    OnlyOneSurvives(list, e);
    assert e in TargetsAt(i, p, was.exports, n);
    forall m, f | 0 <= m < |Near(p)| && f in TargetsAt(i, p, was.exports, m)
      ensures f == e
    {
      NearBoxes(p, Near(p)[m]);
      InScope(f.key.scope, p.box.name);
      InScope(i.key.scope, Near(p)[m].name);
    }
    assert Targets(i, p, was.exports) == {e};
  }

  // Of the strong exports that fit, one is linked to, whatever weak ones there are, and
  // with two of them linking fails.
  lemma StrongFitIsLinked(was: State, now: State, p: Place, i: Import, b: Tree, e: Export)
    requires BoxOk(p, was.exports, was.imports) && Done(p, was, now) && i in ListOf(was.imports, p.box.id)
    requires p.parent.Some? ==> Accepted(ListOf(was.exports, p.parent.value.id))
    requires (b == p.box || p.parent == Some(b) || b in p.box.children) && e in ListOf(was.exports, b.id)
    requires e.key.name == i.key.name && !e.weak
    requires i.key.scope in {None, Some(b.name)} && e.key.scope in {None, Some(p.box.name)}
    ensures i in now.link && now.link[i] == e && Compatible(e.fn, i.fn)
  {
    hide Near, Compatible, Accepted, Survives, Targets;
    StrongIsTarget(was, p, i, b, e);
  }

  lemma TwoStrongFail(was: State, p: Place, i: Import, b: Tree, e: Export, c: Tree, f: Export)
    requires i in ListOf(was.imports, p.box.id) && Accepted(ListOf(was.exports, p.box.id))
    requires p.parent.Some? ==> Accepted(ListOf(was.exports, p.parent.value.id))
    requires (b == p.box || p.parent == Some(b) || b in p.box.children) && e in ListOf(was.exports, b.id)
    requires (c == p.box || p.parent == Some(c) || c in p.box.children) && f in ListOf(was.exports, c.id)
    requires e != f && e.key.name == f.key.name == i.key.name && !e.weak && !f.weak
    requires i.key.scope in {None, Some(b.name)} && e.key.scope in {None, Some(p.box.name)}
    requires i.key.scope in {None, Some(c.name)} && f.key.scope in {None, Some(p.box.name)}
    ensures !BoxOk(p, was.exports, was.imports)
  {
    hide Near, Compatible, Accepted, Survives, BoxOk;
    StrongIsTarget(was, p, i, b, e);
    StrongIsTarget(was, p, i, c, f);
    assert Ambiguous(Targets(i, p, was.exports));
    FailsIsNotOk(was, p, i);
  }

  lemma FailsIsNotOk(was: State, p: Place, i: Import)
    requires i in ListOf(was.imports, p.box.id) && Resolves(i, Targets(i, p, was.exports), Fails)
    ensures !BoxOk(p, was.exports, was.imports)
  {
    hide Resolves, Targets;
  }

  lemma StrongIsTarget(was: State, p: Place, i: Import, b: Tree, e: Export)
    requires Accepted(ListOf(was.exports, p.box.id))
    requires p.parent.Some? ==> Accepted(ListOf(was.exports, p.parent.value.id))
    requires (b == p.box || p.parent == Some(b) || b in p.box.children) && e in ListOf(was.exports, b.id)
    requires e.key.name == i.key.name && !e.weak
    requires i.key.scope in {None, Some(b.name)} && e.key.scope in {None, Some(p.box.name)}
    ensures e in Strong(Targets(i, p, was.exports))
  {
    hide Near, Compatible, Accepted, Survives;
    NearBoxes(p, b);
    var n :| 0 <= n < |Near(p)| && Near(p)[n] == b;
    if n < FirstChild(p) {
      FirstOnes(p, n);
      StrongSurvives(ListOf(was.exports, b.id), e);
    }
    assert e in TargetsAt(i, p, was.exports, n);
  }

  // With no strong export that fits, and two weak ones that are both left in their boxes,
  // the import stays without a link, and linking does not fail for it.
  lemma WeakOnesTie(was: State, p: Place, i: Import, b: Tree, e: Export, c: Tree, f: Export)
    requires (b == p.box || p.parent == Some(b) || b in p.box.children) && Survives(ListOf(was.exports, b.id), e)
    requires (c == p.box || p.parent == Some(c) || c in p.box.children) && Survives(ListOf(was.exports, c.id), f)
    requires e != f && e.key.name == f.key.name == i.key.name
    requires i.key.scope in {None, Some(b.name)} && e.key.scope in {None, Some(p.box.name)}
    requires i.key.scope in {None, Some(c.name)} && f.key.scope in {None, Some(p.box.name)}
    requires forall d: Tree, g |
               && (d == p.box || p.parent == Some(d) || d in p.box.children) && g in ListOf(was.exports, d.id)
               && g.key.name == i.key.name
               && i.key.scope in {None, Some(d.name)} && g.key.scope in {None, Some(p.box.name)} :: g.weak
    ensures !Resolves(i, Targets(i, p, was.exports), Fails)
    ensures forall now :: Done(p, was, now) && i in ListOf(was.imports, p.box.id) ==> i !in now.link
  {
    hide Near, Compatible, Survives;
    SurvivorIsTarget(was, p, i, b, e);
    SurvivorIsTarget(was, p, i, c, f);
    var targets := Targets(i, p, was.exports);
    forall m, g | 0 <= m < |Near(p)| && g in TargetsAt(i, p, was.exports, m)
      ensures g.weak
    {
      NearBoxes(p, Near(p)[m]);
      InScope(g.key.scope, p.box.name);
      InScope(i.key.scope, Near(p)[m].name);
    }
    assert Strong(targets) == {};
    assert Tie(targets);
    ResolvesUnlinked(i, targets);
  }

  lemma ResolvesUnlinked(i: Import, targets: set<Export>)
    requires Tie(targets)
    ensures forall r :: Resolves(i, targets, r) ==> r == Unlinked
  {
    hide Compatible;
    forall r | Resolves(i, targets, r)
      ensures r == Unlinked
    {
      ResolvesOneWay(i, targets, r, Unlinked);
    }
  }

  lemma SurvivorIsTarget(was: State, p: Place, i: Import, b: Tree, e: Export)
    requires (b == p.box || p.parent == Some(b) || b in p.box.children) && Survives(ListOf(was.exports, b.id), e)
    requires e.key.name == i.key.name
    requires i.key.scope in {None, Some(b.name)} && e.key.scope in {None, Some(p.box.name)}
    ensures e in Targets(i, p, was.exports)
  {
    hide Near, Survives;
    NearBoxes(p, b);
    SurvivorIsThere(ListOf(was.exports, b.id), e);
    var n :| 0 <= n < |Near(p)| && Near(p)[n] == b;
    assert e in TargetsAt(i, p, was.exports, n);
  }

  lemma FirstOnes(p: Place, n: nat)
    requires n < FirstChild(p)
    ensures n < |Near(p)| && (Near(p)[n] == p.box || p.parent == Some(Near(p)[n]))
  {
  }

  // An export that is left in its box and names a scope that no near box has makes linking
  // fail; one that names a near box, or none, does not.
  lemma ScopeFoundIff(was: State, p: Place, e: Export)
    requires e in ListOf(was.exports, p.box.id)
    ensures ScopeFound(p, e) <==>
            || e.key.scope.None? || e.key.scope.value == p.box.name
            || (p.parent.Some? && e.key.scope.value == p.parent.value.name)
            || exists c :: c in p.box.children && c.name == e.key.scope.value
    ensures Survives(ListOf(was.exports, p.box.id), e) && !ScopeFound(p, e) ==> !BoxOk(p, was.exports, was.imports)
  {
    hide Near, Survives, Accepted, Resolves;
    if e.key.scope.Some? {
      if n :| 0 <= n < |Near(p)| && Near(p)[n].name == e.key.scope.value {
        NearBoxes(p, Near(p)[n]);
      }
      NearBoxes(p, p.box);
      if p.parent.Some? && e.key.scope.value == p.parent.value.name {
        NearBoxes(p, p.parent.value);
      }
      if c :| c in p.box.children && c.name == e.key.scope.value {
        NearBoxes(p, c);
      }
    }
  }

  // An import that fits none of the exports declared near it stays without a link if it is
  // weak, and otherwise linking fails.
  lemma NothingFits(was: State, p: Place, i: Import)
    requires i in ListOf(was.imports, p.box.id)
    requires forall c: Tree, f |
               && (c == p.box || p.parent == Some(c) || c in p.box.children) && f in ListOf(was.exports, c.id)
               && f.key.name == i.key.name
               && i.key.scope in {None, Some(c.name)} :: f.key.scope !in {None, Some(p.box.name)}
    ensures !i.weak ==> !BoxOk(p, was.exports, was.imports)
    ensures i.weak ==> !Resolves(i, Targets(i, p, was.exports), Fails)
    ensures forall now :: BoxOk(p, was.exports, was.imports) && Done(p, was, now) ==> i !in now.link
  {
    hide Near, Compatible, Survives;
    forall m, f | 0 <= m < |Near(p)| && f in TargetsAt(i, p, was.exports, m)
      ensures false
    {
      NearBoxes(p, Near(p)[m]);
      InScope(f.key.scope, p.box.name);
      InScope(i.key.scope, Near(p)[m].name);
    }
    var targets := Targets(i, p, was.exports);
    assert targets == {};
    assert Strong(targets) == {};
    assert forall e :: !Picks(targets, e);
  }

  function ImportName(i: Import): string {
    i.key.name
  }

  method SortedByName(list: seq<Import>) returns (out: seq<Import>)
    requires NoRepeats(list)
    ensures NoRepeats(out) && Sorted(out, ImportName) && forall i :: i in out <==> i in list
  {
    hide Leq;
    out := [];
    for n: nat := 0 to |list|
      invariant NoRepeats(out) && Sorted(out, ImportName)
      invariant forall i :: i in out <==> i in list[..n]
    {
      assert list[n] !in list[..n] && list[..n + 1] == list[..n] + [list[n]];
      out := Insert(out, list[n], ImportName);
    }
    assert list[..|list|] == list;
  }

  lemma NoneFails(list: seq<Import>, p: Place, was: Exports, link: map<Import, Export>)
    requires forall m :: 0 <= m < |list| ==> Settled(list[m], p, was, link)
    ensures forall i :: i in list ==> Settled(i, p, was, link) && !Resolves(i, Targets(i, p, was), Fails)
  {
    hide Resolves, Targets;
    forall i | i in list ensures Settled(i, p, was, link) && !Resolves(i, Targets(i, p, was), Fails) {
      var m :| 0 <= m < |list| && list[m] == i;
      assert Settled(list[m], p, was, link);
      if Resolves(i, Targets(i, p, was), Fails) {
        ResolvesOneWay(i, Targets(i, p, was), Fails, if i in link then Linked(link[i]) else Unlinked);
      }
    }
  }

  lemma AppendDistinct(a: seq<Export>, b: seq<Export>)
    requires NoRepeats(a) && NoRepeats(b) && forall e :: e in b ==> e !in a
    ensures NoRepeats(a + b)
  {
    forall i, j | 0 <= i < j < |a + b| ensures (a + b)[i] != (a + b)[j] {
      if i < |a| <= j {
        assert (a + b)[i] in a && (a + b)[j] in b;
      }
    }
  }

  lemma SurvivorIsThere(list: seq<Export>, e: Export)
    ensures Survives(list, e) ==> e in list
  {
    EntryIsThere(list, e.key);
  }

  ghost predicate SameElsewhere(link: map<Import, Export>, link': map<Import, Export>, list: seq<Import>) {
    forall i :: i !in list ==> (i in link <==> i in link') && (i in link ==> link'[i] == link[i])
  }

  lemma Recorded(link: map<Import, Export>, links: map<Export, seq<Import>>,
                 link': map<Import, Export>, links': map<Export, seq<Import>>, i: Import, e: Export)
    requires BothEnds(link, links) && i !in link && link' == link[i := e]
    requires links' == links[e := (if e in links then links[e] else []) + [i]]
    ensures BothEnds(link', links')
  {
    assert forall f :: f in links ==> i !in links[f];
  }
}
