/** Concrete trees: the two walks on small inputs, and the line count on a
    small listing. */
module Scenarios {
  import opened Deps
  import opened Format
  import opened TreeWalk

  function Leaf(version: Option<string>): Dependency {
    Dependency(version, None, None)
  }

  lemma WalkOne(m: Dependencies, packed: set<string>, record: bool)
    requires |m.entries| == 1
    ensures Walk(m, packed, record) == WalkAt(m, 0, packed, record)
  {
    assert WalkPrefix(m, 0, packed, record) == WalkResult([], packed, 0);
  }

  lemma WalkTwo(m: Dependencies, packed: set<string>, record: bool)
    requires |m.entries| == 2
    ensures var first := WalkAt(m, 0, packed, record);
            Walk(m, packed, record) == Then(first, WalkAt(m, 1, first.packed, record))
  {
    WalkOne(Dependencies(m.entries[..1]), packed, record);
    assert WalkPrefix(m, 1, packed, record) == WalkAt(m, 0, packed, record) by {
      assert WalkPrefix(m, 0, packed, record) == WalkResult([], packed, 0);
    }
  }

  /** A key without sub-mappings contributes its own target unless it is
      packed. */
  lemma WalkLeaf(m: Dependencies, i: nat, packed: set<string>, record: bool)
    requires i < |m.entries|
    requires m.entries[i].1.dependencies.None? && m.entries[i].1.optionalDependencies.None?
    ensures m.entries[i].0 in packed ==> WalkAt(m, i, packed, record).targets == []
    ensures m.entries[i].0 !in packed ==>
      WalkAt(m, i, packed, record).targets == [Target(m.entries[i].0, m.entries[i].1.version)]
    ensures WalkAt(m, i, packed, record).packed
      == if record then packed + {m.entries[i].0} else packed
  {
  }

  /** A key whose name is not packed contributes its own target, then its
      `dependencies`, then its `optionalDependencies`. */
  lemma WalkUnpacked(m: Dependencies, i: nat, packed: set<string>, record: bool)
    requires i < |m.entries| && m.entries[i].0 !in packed
    ensures var (name, d) := m.entries[i];
            var self := WalkResult([Target(name, d.version)], if record then packed + {name} else packed, 1);
            var below := WalkOptional(d.dependencies, self.packed, record);
            WalkAt(m, i, packed, record)
              == Then(Then(self, below), WalkOptional(d.optionalDependencies, below.packed, record))
  {
  }

  /** An unpacked key with `dependencies` and no `optionalDependencies`
      contributes its own target and then the walk of its dependencies. */
  lemma WalkWithDependencies(m: Dependencies, i: nat, packed: set<string>, below: WalkResult)
    requires i < |m.entries| && m.entries[i].0 !in packed
    requires m.entries[i].1.dependencies.Some? && m.entries[i].1.optionalDependencies.None?
    requires Walk(m.entries[i].1.dependencies.value, packed, false) == below
    ensures WalkAt(m, i, packed, false)
      == WalkResult([Target(m.entries[i].0, m.entries[i].1.version)] + below.targets, below.packed, 1 + below.visits)
  {
    WalkUnpacked(m, i, packed, false);
  }

  /** A mapping of one key without sub-mappings, whose name is not packed,
      yields that key's target alone. */
  lemma WalkSingleLeaf(name: string, version: Option<string>, packed: set<string>)
    requires name !in packed
    ensures Walk(Dependencies([(name, Leaf(version))]), packed, false)
      == WalkResult([Target(name, version)], packed, 1)
  {
    var m := Dependencies([(name, Leaf(version))]);
    WalkOne(m, packed, false);
    WalkLeaf(m, 0, packed, false);
  }

  /** `{A: {version: "1.0", dependencies: {B: {version: "2.0"}}}, C: {version: "3.0"}}` */
  function NestedTree(): Dependencies {
    Dependencies([
      ("A", Dependency(Some("1.0"), Some(Dependencies([("B", Leaf(Some("2.0")))])), None)),
      ("C", Leaf(Some("3.0")))])
  }

  lemma NestedTreeFirstKey()
    ensures WalkAt(NestedTree(), 0, {}, false)
      == WalkResult([Target("A", Some("1.0")), Target("B", Some("2.0"))], {}, 2)
  {
    WalkSingleLeaf("B", Some("2.0"), {});
    WalkWithDependencies(NestedTree(), 0, {}, WalkResult([Target("B", Some("2.0"))], {}, 1));
  }

  /** The walk of NestedTree visits A, then its child B, then C. */
  lemma NestedTreeTargets()
    ensures Walk(NestedTree(), {}, false).targets
      == [Target("A", Some("1.0")), Target("B", Some("2.0")), Target("C", Some("3.0"))]
  {
    var first := WalkResult([Target("A", Some("1.0")), Target("B", Some("2.0"))], {}, 2);
    NestedTreeFirstKey();
    assert WalkAt(NestedTree(), 1, {}, false).targets == [Target("C", Some("3.0"))] by {
      WalkLeaf(NestedTree(), 1, {}, false);
    }
    WalkTwo(NestedTree(), {}, false);
  }

  /** Three targets are numbered 1, 2 and 3 in their order. */
  lemma NumberedThree(a: Target, b: Target, c: Target)
    ensures Numbered([a, b, c], 0)
      == [PackTask(a.name, a.version, 1), PackTask(b.name, b.version, 2), PackTask(c.name, c.version, 3)]
  {
  }

  /** A is packed before its child B, and C after both, numbered 1 to 3. */
  lemma NestedTreeOrder()
    ensures Numbered(Walk(NestedTree(), {}, false).targets, 0)
      == [PackTask("A", Some("1.0"), 1), PackTask("B", Some("2.0"), 2), PackTask("C", Some("3.0"), 3)]
  {
    NestedTreeTargets();
    NumberedThree(Target("A", Some("1.0")), Target("B", Some("2.0")), Target("C", Some("3.0")));
  }

  /** `{A: {}, B: {dependencies: {A: {}}}}`: the name A occurs twice. */
  function RepeatedName(): Dependencies {
    Dependencies([
      ("A", Leaf(None)),
      ("B", Dependency(None, Some(Dependencies([("A", Leaf(None))])), None))])
  }

  /** The second key of RepeatedName, B, brings the nested A with it. */
  lemma RepeatedNameSecondKey()
    ensures WalkAt(RepeatedName(), 1, {}, false) == WalkResult([Target("B", None), Target("A", None)], {}, 2)
  {
    WalkSingleLeaf("A", None, {});
    WalkWithDependencies(RepeatedName(), 1, {}, WalkResult([Target("A", None)], {}, 1));
  }

  /** The walk as written packs A twice. */
  lemma RepeatedNamePackedTwice()
    ensures Walk(RepeatedName(), {}, false).targets == [Target("A", None), Target("B", None), Target("A", None)]
  {
    var first := WalkResult([Target("A", None)], {}, 1);
    assert WalkAt(RepeatedName(), 0, {}, false) == first by {
      WalkLeaf(RepeatedName(), 0, {}, false);
    }
    RepeatedNameSecondKey();
    WalkTwo(RepeatedName(), {}, false);
  }

  /** Recording the names before pushing packs A once. */
  lemma RepeatedNamePackedOnceWhenRecorded()
    ensures Walk(RepeatedName(), {}, true).targets == [Target("A", None), Target("B", None)]
  {
    var inner := Dependencies([("A", Leaf(None))]);
    var ab: set<string> := {"A"} + {"B"};
    WalkOne(inner, ab, true);
    WalkLeaf(inner, 0, ab, true);
    WalkLeaf(RepeatedName(), 0, {}, true);
    WalkTwo(RepeatedName(), {}, true);
  }

  /** `{A: {}, B: {dependencies: {A: {dependencies: {C: {}}}}}}`: the second
      A has a child that the first does not. */
  function ShadowedChild(): Dependencies {
    Dependencies([
      ("A", Leaf(None)),
      ("B", Dependency(None, Some(Dependencies([
        ("A", Dependency(None, Some(Dependencies([("C", Leaf(None))])), None))])), None))])
  }

  /** C occurs in the tree, under the second A. */
  lemma ShadowedChildOccurs()
    ensures "C" in Names(ShadowedChild())
  {
    var c := Dependencies([("C", Leaf(None))]);
    var innerA := Dependencies([("A", Dependency(None, Some(c), None))]);
    assert "C" in Names(c) by {
      assert NamesPrefix(c, 1) == NamesAt(c, 0);
    }
    assert "C" in Names(innerA) by {
      assert NamesPrefix(innerA, 1) == NamesAt(innerA, 0);
    }
    assert "C" in NamesAt(ShadowedChild(), 1);
    assert NamesPrefix(ShadowedChild(), 2) == NamesPrefix(ShadowedChild(), 1) + NamesAt(ShadowedChild(), 1);
  }

  /** Recording names skips the whole subtree of a repeated name, so C is
      never packed although it occurs in the tree. */
  lemma RecordingSkipsShadowedChild()
    ensures Walk(ShadowedChild(), {}, true).targets == [Target("A", None), Target("B", None)]
  {
    var c := Dependencies([("C", Leaf(None))]);
    var innerA := Dependencies([("A", Dependency(None, Some(c), None))]);
    var ab: set<string> := {"A"} + {"B"};
    WalkOne(innerA, ab, true);
    assert WalkAt(innerA, 0, ab, true).targets == [];
    WalkLeaf(ShadowedChild(), 0, {}, true);
    WalkTwo(ShadowedChild(), {}, true);
  }

  /** A listing of two lines with a trailing newline counts three. */
  lemma TwoLinesCountThree()
    ensures LineCount("a\nb\n") == 3
  {
    LineCountIsNewlinesPlusOne("a\nb\n");
    assert "a\nb\n"[1..] == "\nb\n";
    assert "\nb\n"[1..] == "b\n";
    assert "b\n"[1..] == "\n";
    assert "\n"[1..] == "";
  }
}
