/** Which export an import is linked to, and which exports are left in a box once the
    exports of one name have been reduced to one. */
module Linking {
  import opened Basics
  import opened FnTypes
  import opened FnBinding

  // A scope is the name of a box.
  datatype Key = Key(scope: Option<string>, name: string)

  // `id` tells apart two objects whose fields are the same.
  datatype Export = Export(id: nat, key: Key, weak: bool, fn: Fn)

  datatype Import = Import(id: nat, key: Key, weak: bool, fn: Fn, source: string)

  // -------------------- one export for each name --------------------

  // The entry for `k` once `list` has been gone through: a weak entry gives way to
  // whatever comes next.
  ghost function Entry(list: seq<Export>, k: Key): Option<Export> {
    if list == [] then None
    else
      var e, last := Entry(list[..|list| - 1], k), list[|list| - 1];
      if last.key == k && (e.None? || e.value.weak) then Some(last) else e
  }

  // No two strong exports of one name, and none that does not fit the entry it meets.
  ghost predicate Accepted(list: seq<Export>) {
    forall i :: 0 <= i < |list| ==> AcceptedAt(list, i)
  }

  ghost predicate AcceptedAt(list: seq<Export>, i: nat)
    requires i < |list|
  {
    var e := Entry(list[..i], list[i].key);
    e.Some? ==> (e.value.weak || list[i].weak) && Compatible(e.value.fn, list[i].fn)
  }

  ghost predicate Survives(list: seq<Export>, e: Export) {
    Entry(list, e.key) == Some(e)
  }

  // `out` is what is left of `list`.
  ghost predicate Reduced(list: seq<Export>, out: seq<Export>) {
    NoRepeats(out) && forall e :: e in out <==> Survives(list, e)
  }

  lemma {:induction false} EntryIsThere(list: seq<Export>, k: Key)
    ensures var e := Entry(list, k); e.Some? ==> e.value in list && e.value.key == k
    ensures Entry(list, k).None? <==> forall e :: e in list ==> e.key != k
  {
    if list != [] {
      var front, last := list[..|list| - 1], list[|list| - 1];
      EntryIsThere(front, k);
      assert forall e :: e in list <==> e in front || e == last;
    }
  }

  // A strong export stays, because it can only be followed by weak ones.
  lemma {:induction false} StrongSurvives(list: seq<Export>, e: Export)
    requires Accepted(list) && e in list && !e.weak
    ensures Survives(list, e)
  {
    var n := |list| - 1;
    var front, last := list[..n], list[n];
    AcceptedFront(list);
    EntryIsThere(front, e.key);
    if e in front {
      StrongSurvives(front, e);
    } else {
      assert e == last && AcceptedAt(list, n);
      var was := Entry(front, e.key);
    }
  }

  lemma AcceptedFront(list: seq<Export>)
    requires Accepted(list) && list != []
    ensures Accepted(list[..|list| - 1])
  {
    var front := list[..|list| - 1];
    forall i | 0 <= i < |front| ensures AcceptedAt(front, i) {
      assert AcceptedAt(list, i) && front[..i] == list[..i];
    }
  }

  // An export that shares its name with no other stays.
  lemma OnlyOneSurvives(list: seq<Export>, e: Export)
    requires e in list && forall f :: f in list && f.key == e.key ==> f == e
    ensures Survives(list, e)
  {
    EntryIsThere(list, e.key);
  }

  // What stays, exactly: the strong export of a name, and where all are weak the last.
  lemma {:induction false} SurvivesIff(list: seq<Export>, n: nat)
    requires Accepted(list) && n < |list| && NoRepeats(list)
    ensures Survives(list, list[n]) <==>
            || !list[n].weak
            || forall i :: 0 <= i < |list| && i != n && list[i].key == list[n].key ==> list[i].weak && i < n
    decreases |list|
  {
    hide Compatible;
    var e := list[n];
    if !e.weak {
      StrongSurvives(list, e);
    } else {
      var m := |list| - 1;
      var front, last := list[..m], list[m];
      AcceptedFront(list);
      EntryIsThere(front, e.key);
      var was := Entry(front, e.key);
      if n == m {
        if was.Some? && !was.value.weak {
          var i :| 0 <= i < |front| && front[i] == was.value;
          assert list[i].key == e.key;
        } else {
          forall i | 0 <= i < m && list[i].key == e.key ensures list[i].weak {
            if !list[i].weak {
              assert front[i] in front;
              StrongSurvives(front, front[i]);
            }
          }
        }
      } else {
        SurvivesIff(front, n);
        assert front[n] == e;
        if last.key == e.key && was == Some(e) {
          assert Entry(list, e.key) == Some(last);
        }
        if Survives(list, e) {
          assert last != e;
          assert Survives(front, e) && last.key != e.key;
          forall i | 0 <= i < |list| && i != n && list[i].key == list[n].key ensures list[i].weak && i < n {
            assert i < m && front[i] == list[i];
          }
        }
        if forall i :: 0 <= i < |list| && i != n && list[i].key == list[n].key ==> list[i].weak && i < n {
          assert last.key != e.key;
        }
      }
    }
  }

  // Of two exports of a name one has to be weak, and the second has to fit the first.
  lemma TwoAccepted(a: Export, b: Export)
    requires a.key == b.key
    ensures Accepted([a, b]) <==> (a.weak || b.weak) && Compatible(a.fn, b.fn)
    ensures Accepted([a])
  {
    hide Compatible;
    var list, none: seq<Export> := [a, b], [];
    assert list[..0] == none && list[..1] == [a] && [a][..0] == none;
    assert Entry([a], a.key) == Some(a);
    assert AcceptedAt(list, 0) && AcceptedAt([a], 0);
    assert AcceptedAt(list, 1) <==> (a.weak || b.weak) && Compatible(a.fn, b.fn);
  }

  // -------------------- choosing an export --------------------

  predicate Linkable(i: Import, e: Export, exporter: string, importer: string) {
    && i.key.name == e.key.name
    && (i.key.scope.None? || i.key.scope.value == exporter)
    && (e.key.scope.None? || e.key.scope.value == importer)
  }

  ghost function Strong(targets: set<Export>): set<Export> {
    set e | e in targets && !e.weak
  }

  // The one target, or the one strong target.
  ghost predicate Picks(targets: set<Export>, e: Export) {
    targets == {e} || Strong(targets) == {e}
  }

  // All targets are weak, and there are at least two: the import is left without a
  // link and nothing is reported.
  ghost predicate Tie(targets: set<Export>) {
    Strong(targets) == {} && exists e, f :: e in targets && f in targets && e != f
  }

  datatype Outcome = Fails | Unlinked | Linked(to: Export)

  ghost predicate Resolves(i: Import, targets: set<Export>, r: Outcome) {
    match r
    case Linked(e) => Picks(targets, e) && Compatible(e.fn, i.fn)
    case Unlinked => (targets == {} && i.weak) || Tie(targets)
    case Fails =>
      || (targets == {} && !i.weak)
      || (exists e :: Picks(targets, e) && !Compatible(e.fn, i.fn))
      || Ambiguous(targets)
  }

  ghost predicate Ambiguous(targets: set<Export>) {
    exists e, f :: e in Strong(targets) && f in Strong(targets) && e != f
  }

  // Whatever the targets are, there is one outcome.
  lemma ResolvesOneWay(i: Import, targets: set<Export>, r: Outcome, r': Outcome)
    requires Resolves(i, targets, r) && Resolves(i, targets, r')
    ensures r == r'
  {
    forall e, f | Picks(targets, e) && Picks(targets, f) ensures e == f {
      PickIsTarget(targets, e);
      PickIsTarget(targets, f);
    }
    if e, f :| e in Strong(targets) && f in Strong(targets) && e != f {
      forall g ensures !Picks(targets, g) {
      }
    }
    if e :| Picks(targets, e) {
      PickIsTarget(targets, e);
      assert !Tie(targets);
    }
  }

  lemma PickIsTarget(targets: set<Export>, e: Export)
    requires Picks(targets, e)
    ensures e in targets && (targets == {e} || !e.weak)
    ensures Strong(targets) <= {e}
  {
    if targets != {e} {
      assert e in Strong(targets);
    } else {
      forall f | f in Strong(targets) ensures f == e {
        assert f in targets;
      }
    }
  }

  lemma OneOutcome(i: Import, targets: set<Export>) returns (r: Outcome)
    ensures Resolves(i, targets, r)
  {
    if targets == {} {
      return if i.weak then Unlinked else Fails;
    }
    var e :| e in targets;
    if targets == {e} {
      return if Compatible(e.fn, i.fn) then Linked(e) else Fails;
    }
    var f :| f in targets && f != e;
    if Strong(targets) == {} {
      return Unlinked;
    }
    var s :| s in Strong(targets);
    if Strong(targets) == {s} {
      return if Compatible(s.fn, i.fn) then Linked(s) else Fails;
    }
    var t :| t in Strong(targets) && t != s;
    return Fails;
  }

  // When an import that must be linked goes without: exactly when it has no strong
  // target and more than one weak one.
  lemma SilentlyUnlinkedIff(i: Import, targets: set<Export>)
    requires !i.weak
    ensures Resolves(i, targets, Unlinked) <==> |targets| > 1 && Strong(targets) == {}
  {
    if Tie(targets) {
      var e, f :| e in targets && f in targets && e != f;
      assert {e, f} <= targets;
      SubsetSize({e, f}, targets);
    }
    if |targets| > 1 && Strong(targets) == {} {
      var e :| e in targets;
      if targets <= {e} {
        SubsetSize(targets, {e});
      }
      var f :| f in targets && f != e;
    }
  }

  lemma {:induction false} SubsetSize<T>(s: set<T>, t: set<T>)
    requires s <= t
    ensures |s| <= |t|
  {
    if x :| x in s {
      SubsetSize(s - {x}, t - {x});
    }
  }

  // -------------------- the chosen export stays --------------------

  // The targets come from exports that have been reduced already and from lists that
  // have not. Whichever of the two an import's export comes from, reducing its list
  // keeps it.
  lemma ChosenSurvives(i: Import, targets: set<Export>, e: Export,
                       list: seq<Export>, exporter: string, importer: string)
    requires Accepted(list) && Picks(targets, e) && e in list && Linkable(i, e, exporter, importer)
    requires forall f :: f in list && Linkable(i, f, exporter, importer) ==> f in targets
    ensures Survives(list, e)
  {
    PickIsTarget(targets, e);
    if e.weak {
      forall f | f in list && f.key == e.key ensures f == e {
        assert Linkable(i, f, exporter, importer);
      }
      OnlyOneSurvives(list, e);
    } else {
      StrongSurvives(list, e);
    }
  }

  // Exports that nothing depends on any more do not change the choice: had the list
  // been reduced first, the import would have been linked to the same export.
  lemma ReducingKeepsChoice(i: Import, others: set<Export>, list: seq<Export>, exporter: string, importer: string,
                            e: Export)
    requires Accepted(list)
    requires Picks(others + LinkableIn(i, list, exporter, importer), e)
    ensures Picks(others + (set f | f in LinkableIn(i, list, exporter, importer) && Survives(list, f)), e)
  {
    var all := LinkableIn(i, list, exporter, importer);
    var targets, left := others + all, others + (set f | f in all && Survives(list, f));
    PickIsTarget(targets, e);
    if e in all {
      ChosenSurvives(i, targets, e, list, exporter, importer);
    }
    assert e in left && left <= targets;
    if targets == {e} {
      assert left == {e};
    } else {
      assert Strong(left) == {e};
    }
  }

  ghost function LinkableIn(i: Import, list: seq<Export>, exporter: string, importer: string): set<Export> {
    set f | f in list && Linkable(i, f, exporter, importer)
  }

  // The other way round it can fail: two weak exports of one name in a child leave the
  // import without a link, though only one of them is left in the end.
  lemma ReducingLate(i: Import, a: Export, b: Export, exporter: string, importer: string)
    requires a.weak && b.weak && a != b && a.key == b.key && Compatible(a.fn, b.fn)
    requires Linkable(i, a, exporter, importer)
    ensures Accepted([a, b]) && Tie(LinkableIn(i, [a, b], exporter, importer))
    ensures Picks((set f | f in LinkableIn(i, [a, b], exporter, importer) && Survives([a, b], f)), b)
  {
    var list := [a, b];
    var none: seq<Export> := [];
    assert list[..0] == none && list[..1] == [a] && [a][..0] == none;
    assert Entry([a], a.key) == Some(a) && Entry(list, a.key) == Some(b);
    assert AcceptedAt(list, 0) && AcceptedAt(list, 1);
    assert a in LinkableIn(i, list, exporter, importer) && b in LinkableIn(i, list, exporter, importer);
    assert (set f | f in LinkableIn(i, list, exporter, importer) && Survives(list, f)) == {b};
  }
}
