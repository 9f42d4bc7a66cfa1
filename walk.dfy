/** What the recursive walk of packAllDependencies computes
    (promiseToPack, packageDependencies.ts:82-104), as functions of the tree
    and of the set of names already packed when the walk starts. */
module TreeWalk {
  import opened Deps

  /** One call of packDependency, before it runs: the package and its
      version. */
  datatype Target = Target(name: string, version: Option<string>)

  /** A scheduled pack with the index it will report (`promises.length + 1`
      at the time it was pushed). */
  datatype PackTask = PackTask(name: string, version: Option<string>, index: nat)

  /** The outcome of walking a mapping: the targets in the order they are
      pushed, the packed set afterwards, and the number of keys visited (one
      spinner step each). */
  datatype WalkResult = WalkResult(targets: seq<Target>, packed: set<string>, visits: nat)

  /** The walk of `m` starting from the packed set `packed`. With `record`
      false it is the walk as the source writes it, which never adds to the
      set; with `record` true each name is added before its task is
      pushed. */
  function Walk(m: Dependencies, packed: set<string>, record: bool): WalkResult
    decreases m, 1
  {
    WalkPrefix(m, |m.entries|, packed, record)
  }

  /** The walk of the first `n` keys of `m`. */
  function WalkPrefix(m: Dependencies, n: nat, packed: set<string>, record: bool): WalkResult
    requires n <= |m.entries|
    decreases m, 0, n
  {
    if n == 0 then WalkResult([], packed, 0)
    else
      var before := WalkPrefix(m, n - 1, packed, record);
      Then(before, WalkAt(m, n - 1, before.packed, record))
  }

  /** The visit of the key at position `i`: skipped when its name is packed,
      otherwise its own target, then its `dependencies`, then its
      `optionalDependencies`. */
  function WalkAt(m: Dependencies, i: nat, packed: set<string>, record: bool): WalkResult
    requires i < |m.entries|
    decreases m, 0, i
  {
    var (name, d) := m.entries[i];
    if name in packed then WalkResult([], packed, 1)
    else
      var self := WalkResult([Target(name, d.version)], if record then packed + {name} else packed, 1);
      var below := WalkOptional(d.dependencies, self.packed, record);
      Then(Then(self, below), WalkOptional(d.optionalDependencies, below.packed, record))
  }

  /** The walk of a sub-mapping that may be absent. */
  function WalkOptional(o: Option<Dependencies>, packed: set<string>, record: bool): WalkResult
    decreases o, 2
  {
    match o
    case None => WalkResult([], packed, 0)
    case Some(sub) => Walk(sub, packed, record)
  }

  /** One walk followed by another that starts from the set the first one
      leaves. */
  function Then(a: WalkResult, b: WalkResult): WalkResult {
    WalkResult(a.targets + b.targets, b.packed, a.visits + b.visits)
  }

  /** The glyphs of the progress spinner, in the order they are shown. */
  const Spinner: seq<char> := ['|', '/', '-', '\\']

  /** The state promiseToPack closes over: the scheduled packs (`promises`),
      the spinner position (`index`) and `packedDependencies`. */
  datatype State = State(tasks: seq<PackTask>, index: nat, packed: set<string>)

  /** The state after a walk from `s`: its targets scheduled with the next
      indices, the spinner advanced once per visited key, and the packed set
      the walk leaves. */
  function Apply(s: State, r: WalkResult): (t: State)
    ensures t.index < |Spinner|
  {
    State(s.tasks + Numbered(r.targets, |s.tasks|), (s.index + r.visits) % |Spinner|, r.packed)
  }

  /** Applying two walks in turn is applying the walk that does both. */
  lemma ApplyThen(s: State, a: WalkResult, b: WalkResult)
    ensures Apply(Apply(s, a), b) == Apply(s, Then(a, b))
  {
    NumberedAppend(a.targets, b.targets, |s.tasks|);
  }

  /** The targets numbered from `base + 1` on, as the source numbers them. */
  function Numbered(targets: seq<Target>, base: nat): (r: seq<PackTask>)
    ensures |r| == |targets|
    ensures forall k :: 0 <= k < |r| ==>
      r[k] == PackTask(targets[k].name, targets[k].version, base + k + 1)
  {
    seq(|targets|, k requires 0 <= k < |targets| =>
      PackTask(targets[k].name, targets[k].version, base + k + 1))
  }

  lemma NumberedAppend(a: seq<Target>, b: seq<Target>, base: nat)
    ensures Numbered(a, base) + Numbered(b, base + |a|) == Numbered(a + b, base)
  {
    var l, r := Numbered(a, base) + Numbered(b, base + |a|), Numbered(a + b, base);
    assert |l| == |r|;
    forall k | 0 <= k < |r| ensures l[k] == r[k] {
      if k >= |a| {
        assert (a + b)[k] == b[k - |a|];
      }
    }
  }

  // ---------------------------------------------------------------------
  // The walk as written

  /** The walk as written never changes the packed set, and pushes at most
      one target per visited key. */
  lemma {:induction false} WalkKeepsPacked(m: Dependencies, packed: set<string>)
    ensures Walk(m, packed, false).packed == packed
    ensures |Walk(m, packed, false).targets| <= Walk(m, packed, false).visits
    decreases m, 1
  {
    WalkPrefixKeepsPacked(m, |m.entries|, packed);
  }

  lemma {:induction false} WalkPrefixKeepsPacked(m: Dependencies, n: nat, packed: set<string>)
    requires n <= |m.entries|
    ensures WalkPrefix(m, n, packed, false).packed == packed
    ensures |WalkPrefix(m, n, packed, false).targets| <= WalkPrefix(m, n, packed, false).visits
    decreases m, 0, n
  {
    if n > 0 {
      WalkPrefixKeepsPacked(m, n - 1, packed);
      WalkAtKeepsPacked(m, n - 1, packed);
    }
  }

  lemma {:induction false} WalkAtKeepsPacked(m: Dependencies, i: nat, packed: set<string>)
    requires i < |m.entries|
    ensures WalkAt(m, i, packed, false).packed == packed
    ensures |WalkAt(m, i, packed, false).targets| <= WalkAt(m, i, packed, false).visits
    decreases m, 0, i
  {
    var (name, d) := m.entries[i];
    if name !in packed {
      match d.dependencies {
        case None =>
        case Some(sub) => WalkKeepsPacked(sub, packed);
      }
      match d.optionalDependencies {
        case None =>
        case Some(opt) => WalkKeepsPacked(opt, packed);
      }
    }
  }

  /** From the empty packed set, as the source starts, the walk as written
      pushes one target for every entry of the tree, repeated names
      included, and visits every entry once. */
  lemma {:induction false} WalkPacksEveryEntry(m: Dependencies)
    ensures |Walk(m, {}, false).targets| == EntryCount(m)
    ensures Walk(m, {}, false).visits == EntryCount(m)
    decreases m, 1
  {
    WalkPrefixPacksEveryEntry(m, |m.entries|);
  }

  lemma {:induction false} WalkPrefixPacksEveryEntry(m: Dependencies, n: nat)
    requires n <= |m.entries|
    ensures WalkPrefix(m, n, {}, false).packed == {}
    ensures |WalkPrefix(m, n, {}, false).targets| == EntryCountPrefix(m, n)
    ensures WalkPrefix(m, n, {}, false).visits == EntryCountPrefix(m, n)
    decreases m, 0, n
  {
    if n > 0 {
      WalkPrefixPacksEveryEntry(m, n - 1);
      WalkAtPacksEveryEntry(m, n - 1);
    }
  }

  lemma {:induction false} WalkAtPacksEveryEntry(m: Dependencies, i: nat)
    requires i < |m.entries|
    ensures WalkAt(m, i, {}, false).packed == {}
    ensures |WalkAt(m, i, {}, false).targets| == EntryCountAt(m, i)
    ensures WalkAt(m, i, {}, false).visits == EntryCountAt(m, i)
    decreases m, 0, i
  {
    var d := m.entries[i].1;
    match d.dependencies {
      case None =>
      case Some(sub) => WalkPacksEveryEntry(sub); WalkKeepsPacked(sub, {});
    }
    match d.optionalDependencies {
      case None =>
      case Some(opt) => WalkPacksEveryEntry(opt); WalkKeepsPacked(opt, {});
    }
  }

  // ---------------------------------------------------------------------
  // Pre-order

  /** The targets of the first `n` keys come first in the targets of the
      whole mapping. */
  lemma {:induction false} WalkPrefixIsPrefix(m: Dependencies, n: nat, packed: set<string>, record: bool)
    requires n <= |m.entries|
    ensures WalkPrefix(m, n, packed, record).targets <= Walk(m, packed, record).targets
    decreases |m.entries| - n
  {
    if n < |m.entries| {
      WalkPrefixIsPrefix(m, n + 1, packed, record);
    }
  }

  /** The walk is pre-order in key order: the block of targets a key
      contributes (see WalkAt: its own target, then its `dependencies`
      subtree, then its `optionalDependencies` subtree) comes right after the
      blocks of the keys before it, and a key whose name is not packed when
      it is reached starts its block with its own target. */
  lemma WalkIsPreOrder(m: Dependencies, i: nat, packed: set<string>, record: bool)
    requires i < |m.entries|
    ensures var before := WalkPrefix(m, i, packed, record);
            var here := WalkAt(m, i, before.packed, record).targets;
            var all := Walk(m, packed, record).targets;
            && |before.targets| + |here| <= |all|
            && all[..|before.targets|] == before.targets
            && all[|before.targets|..|before.targets| + |here|] == here
            && (m.entries[i].0 !in before.packed ==>
                  |here| > 0 && all[|before.targets|] == Target(m.entries[i].0, m.entries[i].1.version))
  {
    var before := WalkPrefix(m, i, packed, record);
    var here := WalkAt(m, i, before.packed, record).targets;
    var all := Walk(m, packed, record).targets;
    WalkPrefixIsPrefix(m, i + 1, packed, record);
    var upTo := WalkPrefix(m, i + 1, packed, record).targets;
    assert upTo == before.targets + here;
    assert all[..|upTo|] == upTo;
    assert all[|before.targets|..|before.targets| + |here|] == upTo[|before.targets|..];
  }

  // ---------------------------------------------------------------------
  // The walk as intended: each name is recorded before its task is pushed

  /** The set of names of some targets. */
  function TargetNames(ts: seq<Target>): set<string> {
    set k | 0 <= k < |ts| :: ts[k].name
  }

  /** No two targets share a name. */
  predicate DistinctNames(ts: seq<Target>) {
    forall j, k :: 0 <= j < k < |ts| ==> ts[j].name != ts[k].name
  }

  /** What the recording walk promises: every target has a name not packed
      before, no name is pushed twice, the packed set afterwards is the set
      before plus the pushed names, and every pushed name is in the tree. */
  predicate Recorded(r: WalkResult, packed: set<string>, names: set<string>) {
    && DistinctNames(r.targets)
    && (forall k :: 0 <= k < |r.targets| ==> r.targets[k].name !in packed)
    && r.packed == packed + TargetNames(r.targets)
    && TargetNames(r.targets) <= names
  }

  lemma AppendRecorded(a: WalkResult, b: WalkResult, packed: set<string>, na: set<string>, nb: set<string>)
    requires Recorded(a, packed, na)
    requires Recorded(b, a.packed, nb)
    ensures Recorded(Then(a, b), packed, na + nb)
  {
    var ts := a.targets + b.targets;
    forall j, k | 0 <= j < k < |ts| ensures ts[j].name != ts[k].name {
      if k >= |a.targets| && j < |a.targets| {
        assert ts[j].name in TargetNames(a.targets);
        assert ts[k] == b.targets[k - |a.targets|];
      }
    }
    assert TargetNames(ts) == TargetNames(a.targets) + TargetNames(b.targets) by {
      forall x | x in TargetNames(ts) ensures x in TargetNames(a.targets) + TargetNames(b.targets) {
        var k :| 0 <= k < |ts| && ts[k].name == x;
        if k >= |a.targets| { assert ts[k] == b.targets[k - |a.targets|]; }
      }
      forall x | x in TargetNames(b.targets) ensures x in TargetNames(ts) {
        var k :| 0 <= k < |b.targets| && b.targets[k].name == x;
        assert ts[k + |a.targets|] == b.targets[k];
      }
      forall x | x in TargetNames(a.targets) ensures x in TargetNames(ts) {
        var k :| 0 <= k < |a.targets| && a.targets[k].name == x;
        assert ts[k] == a.targets[k];
      }
    }
  }

  lemma {:induction false} Recording(m: Dependencies, packed: set<string>)
    ensures Recorded(Walk(m, packed, true), packed, Names(m))
    decreases m, 1
  {
    RecordingPrefix(m, |m.entries|, packed);
  }

  lemma {:induction false} RecordingPrefix(m: Dependencies, n: nat, packed: set<string>)
    requires n <= |m.entries|
    ensures Recorded(WalkPrefix(m, n, packed, true), packed, NamesPrefix(m, n))
    ensures packed <= WalkPrefix(m, n, packed, true).packed
    decreases m, 0, n
  {
    if n == 0 {
      assert TargetNames([]) == {};
    } else {
      var before := WalkPrefix(m, n - 1, packed, true);
      RecordingPrefix(m, n - 1, packed);
      RecordingAt(m, n - 1, before.packed);
      AppendRecorded(before, WalkAt(m, n - 1, before.packed, true), packed,
                     NamesPrefix(m, n - 1), NamesAt(m, n - 1));
    }
  }

  lemma {:induction false} RecordingAt(m: Dependencies, i: nat, packed: set<string>)
    requires i < |m.entries|
    ensures Recorded(WalkAt(m, i, packed, true), packed, NamesAt(m, i))
    decreases m, 0, i
  {
    var (name, d) := m.entries[i];
    var empty: seq<Target> := [];
    assert TargetNames(empty) == {};
    if name !in packed {
      var marked := packed + {name};
      var self := WalkResult([Target(name, d.version)], marked, 1);
      assert self.targets[0].name == name;
      assert TargetNames(self.targets) == {name};
      var below := match d.dependencies
        case None => WalkResult([], marked, 0)
        case Some(sub) => Walk(sub, marked, true);
      var belowNames: set<string> := match d.dependencies case None => {} case Some(sub) => Names(sub);
      match d.dependencies {
        case None =>
        case Some(sub) => Recording(sub, marked);
      }
      AppendRecorded(self, below, packed, {name}, belowNames);
      var optional := match d.optionalDependencies
        case None => WalkResult([], below.packed, 0)
        case Some(opt) => Walk(opt, below.packed, true);
      var optionalNames: set<string> := match d.optionalDependencies case None => {} case Some(opt) => Names(opt);
      match d.optionalDependencies {
        case None =>
        case Some(opt) => Recording(opt, below.packed);
      }
      var first := WalkResult(self.targets + below.targets, below.packed, 1 + below.visits);
      AppendRecorded(first, optional, packed, {name} + belowNames, optionalNames);
      assert self.targets + below.targets + optional.targets == [Target(name, d.version)] + below.targets + optional.targets;
    }
  }

  /** Distinct targets have as many names as elements. */
  lemma {:induction false} DistinctNamesCount(ts: seq<Target>)
    requires DistinctNames(ts)
    ensures |TargetNames(ts)| == |ts|
    decreases |ts|
  {
    if ts != [] {
      var last := ts[|ts| - 1];
      var init := ts[..|ts| - 1];
      DistinctNamesCount(init);
      assert TargetNames(ts) == TargetNames(init) + {last.name} by {
        forall x | x in TargetNames(ts) ensures x in TargetNames(init) + {last.name} {
          var k :| 0 <= k < |ts| && ts[k].name == x;
          if k < |ts| - 1 { assert init[k] == ts[k]; }
        }
        forall x | x in TargetNames(init) ensures x in TargetNames(ts) {
          var k :| 0 <= k < |init| && init[k].name == x;
          assert ts[k] == init[k];
        }
      }
      assert last.name !in TargetNames(init);
    }
  }

  lemma SubsetSize<T>(a: set<T>, b: set<T>)
    requires a <= b
    ensures |a| <= |b|
  {
    assert b == a + (b - a);
  }

  /** From the empty packed set, the recording walk pushes one target per
      distinct name it reaches, at most one per distinct name of the tree,
      and so never more than the walk as written. */
  lemma RecordingCounts(m: Dependencies)
    ensures var r := Walk(m, {}, true);
            && DistinctNames(r.targets)
            && |r.targets| == |r.packed|
            && |r.targets| <= |Names(m)| <= EntryCount(m) == |Walk(m, {}, false).targets|
  {
    var r := Walk(m, {}, true);
    Recording(m, {});
    DistinctNamesCount(r.targets);
    SubsetSize(TargetNames(r.targets), Names(m));
    NamesAtMostEntries(m);
    WalkPacksEveryEntry(m);
  }
}
