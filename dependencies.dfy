/** The data the packer reads from the package manager's JSON listing
    (packageDependencies.ts:5-20), and the extraction of the top-level
    dependency mapping (getDependencies, packageDependencies.ts:38-45). */
module Deps {

  datatype Option<+T> = None | Some(value: T)

  datatype Result<+R, +E> = Success(value: R) | Failure(error: E)

  /** One node of the tree. The `resolved`, `integrity` and `requires` fields
      of the source's type are never read by the packer and are not modelled.
      An absent field and a JSON `null` are both `None`. */
  datatype Dependency = Dependency(
    version: Option<string>,
    dependencies: Option<Dependencies>,
    optionalDependencies: Option<Dependencies>)

  /** A name-to-node mapping, kept as its keys in enumeration order: the
      packer's walk visits keys in exactly this order. */
  datatype Dependencies = Dependencies(entries: seq<(string, Dependency)>)

  /** The parsed listing of the package manager. */
  datatype Output = Output(name: string, version: string, dependencies: Option<Dependencies>)

  const NoDependenciesFound: string := "No dependencies found"

  /** The top-level mapping of the listing, or the error that aborts the run
      when the listing has none. */
  function GetDependencies(output: Output): (r: Result<Dependencies, string>)
    ensures r.Failure? <==> output.dependencies.None?
    ensures r.Failure? ==> r.error == NoDependenciesFound
    ensures r.Success? ==> Some(r.value) == output.dependencies
  {
    match output.dependencies
    case None => Failure(NoDependenciesFound)
    case Some(deps) => Success(deps)
  }

  /** The number of entries of a tree, counted over every level and every
      occurrence of a repeated name. */
  function EntryCount(m: Dependencies): nat
    decreases m, 1
  {
    EntryCountPrefix(m, |m.entries|)
  }

  function EntryCountPrefix(m: Dependencies, n: nat): nat
    requires n <= |m.entries|
    decreases m, 0, n
  {
    if n == 0 then 0 else EntryCountPrefix(m, n - 1) + EntryCountAt(m, n - 1)
  }

  /** The entry at key position `i` together with everything below it. */
  function EntryCountAt(m: Dependencies, i: nat): nat
    requires i < |m.entries|
    decreases m, 0, i
  {
    var d := m.entries[i].1;
    1 + (match d.dependencies case None => 0 case Some(sub) => EntryCount(sub))
      + (match d.optionalDependencies case None => 0 case Some(opt) => EntryCount(opt))
  }

  /** The set of package names that occur anywhere in a tree. */
  function Names(m: Dependencies): set<string>
    decreases m, 1
  {
    NamesPrefix(m, |m.entries|)
  }

  function NamesPrefix(m: Dependencies, n: nat): set<string>
    requires n <= |m.entries|
    decreases m, 0, n
  {
    if n == 0 then {} else NamesPrefix(m, n - 1) + NamesAt(m, n - 1)
  }

  function NamesAt(m: Dependencies, i: nat): set<string>
    requires i < |m.entries|
    decreases m, 0, i
  {
    var (name, d) := m.entries[i];
    {name}
      + (match d.dependencies case None => {} case Some(sub) => Names(sub))
      + (match d.optionalDependencies case None => {} case Some(opt) => Names(opt))
  }

  /** A tree never has more distinct names than entries. */
  lemma {:induction false} NamesAtMostEntries(m: Dependencies)
    ensures |Names(m)| <= EntryCount(m)
    decreases m, 1
  {
    NamesAtMostEntriesPrefix(m, |m.entries|);
  }

  lemma {:induction false} NamesAtMostEntriesPrefix(m: Dependencies, n: nat)
    requires n <= |m.entries|
    ensures |NamesPrefix(m, n)| <= EntryCountPrefix(m, n)
    decreases m, 0, n
  {
    if n > 0 {
      NamesAtMostEntriesPrefix(m, n - 1);
      NamesAtMostEntriesAt(m, n - 1);
      UnionSize(NamesPrefix(m, n - 1), NamesAt(m, n - 1));
    }
  }

  lemma {:induction false} NamesAtMostEntriesAt(m: Dependencies, i: nat)
    requires i < |m.entries|
    ensures |NamesAt(m, i)| <= EntryCountAt(m, i)
    decreases m, 0, i
  {
    var (name, d) := m.entries[i];
    var below: set<string> := match d.dependencies case None => {} case Some(sub) => Names(sub);
    var optional: set<string> := match d.optionalDependencies case None => {} case Some(opt) => Names(opt);
    match d.dependencies {
      case None =>
      case Some(sub) => NamesAtMostEntries(sub);
    }
    match d.optionalDependencies {
      case None =>
      case Some(opt) => NamesAtMostEntries(opt);
    }
    UnionSize({name}, below);
    UnionSize({name} + below, optional);
  }

  lemma UnionSize<T>(a: set<T>, b: set<T>)
    ensures |a + b| <= |a| + |b|
  {
    if a != {} {
      var x :| x in a;
      UnionSize(a - {x}, b);
      assert a + b == (a - {x} + b) + {x};
    }
  }
}
