/** ResolutionRoot: what to resolve (an artifact, whether to load its POM, and
    optional explicit dependency lists), built by a fluent Builder whose one
    rule is that a root that is not loaded needs explicit dependencies. */
module Resolution {
  import opened Wrappers
  import opened Aether

  const MissingDependencies := "must specify dependencies for non-loaded artifacts"

  /** A java.util.List<Dependency> owned by a caller, who may change it at any
      time; its elements may be null. */
  class DependencyList {
    var elements: seq<Dependency?>

    constructor (elements: seq<Dependency?>)
      ensures this.elements == elements
    {
      this.elements := elements;
    }

    method Add(d: Dependency?)
      modifies this
      ensures elements == old(elements) + [d]
    {
      elements := elements + [d];
    }
  }

  /** A root as its getters report it. A list is None where the Java field is
      null. */
  datatype ResolutionRoot = ResolutionRoot(
    artifact: Artifact,
    load: bool,
    prepared: bool,
    dependencies: Option<seq<Dependency?>>,
    managedDependencies: Option<seq<Dependency?>>)
  {
    /** The rule build enforces: a root that is not loaded has dependencies, so
        getDependencies is null only when isLoad is true. */
    predicate Consistent()
    {
      load || dependencies.Some?
    }

    /** prepared(): the same artifact and load flag, marked prepared, with each
        absent list replaced by an empty one and each present list kept. */
    function Prepared(): (p: ResolutionRoot)
      ensures p.prepared && p.artifact == artifact && p.load == load
      ensures p.dependencies.Some? && p.managedDependencies.Some?
      ensures dependencies.Some? ==> p.dependencies == dependencies
      ensures dependencies.None? ==> p.dependencies == Some([])
      ensures managedDependencies.Some? ==> p.managedDependencies == managedDependencies
      ensures managedDependencies.None? ==> p.managedDependencies == Some([])
    {
      ResolutionRoot(artifact, load, true, Some(dependencies.GetOr([])), Some(managedDependencies.GetOr([])))
    }
  }

  /** Preparing twice is preparing once. */
  lemma PreparedIdempotent(r: ResolutionRoot)
    ensures r.Prepared().Prepared() == r.Prepared()
  {
  }

  /** Preparing keeps the build rule, and a prepared root has every list. */
  lemma PreparedKeepsConsistent(r: ResolutionRoot)
    ensures r.Consistent() ==> r.Prepared().Consistent()
    ensures r.Prepared().Consistent()
  {
  }

  class Builder {
    const artifact: Artifact
    var load: bool
    var dependencies: Option<seq<Dependency?>>
    var managedDependencies: Option<seq<Dependency?>>

    /** A builder for `artifact`: not loaded, no lists. */
    constructor (artifact: Artifact)
      ensures this.artifact == artifact && !load
      ensures dependencies.None? && managedDependencies.None?
    {
      this.artifact := artifact;
      load := false;
      dependencies := None;
      managedDependencies := None;
    }

    /** load(): only the flag changes. */
    method Load()
      modifies this
      ensures load
      ensures dependencies == old(dependencies) && managedDependencies == old(managedDependencies)
    {
      load := true;
    }

    /** doNotLoad(): only the flag changes. */
    method DoNotLoad()
      modifies this
      ensures !load
      ensures dependencies == old(dependencies) && managedDependencies == old(managedDependencies)
    {
      load := false;
    }

    /** withDependencies: a null list throws (copying it fails); otherwise the
        builder keeps a copy of the list's current elements, replacing any
        earlier list. */
    method WithDependencies(list: DependencyList?) returns (o: Outcome<JavaException>)
      modifies this
      ensures list == null ==> o == Fail(NullPointer(None)) && dependencies == old(dependencies)
      ensures list != null ==> o == Pass && dependencies == Some(list.elements)
      ensures load == old(load) && managedDependencies == old(managedDependencies)
    {
      if list == null {
        return Fail(NullPointer(None));
      }
      dependencies := Some(list.elements);
      o := Pass;
    }

    /** withManagedDependencies: as withDependencies, for the managed list. */
    method WithManagedDependencies(list: DependencyList?) returns (o: Outcome<JavaException>)
      modifies this
      ensures list == null ==> o == Fail(NullPointer(None)) && managedDependencies == old(managedDependencies)
      ensures list != null ==> o == Pass && managedDependencies == Some(list.elements)
      ensures load == old(load) && dependencies == old(dependencies)
    {
      if list == null {
        return Fail(NullPointer(None));
      }
      managedDependencies := Some(list.elements);
      o := Pass;
    }

    /** build: refuses exactly when the root would not be loaded and has no
        dependencies; otherwise the root carries the builder's artifact, flag
        and lists, is not prepared, and keeps the build rule. */
    method Build() returns (r: Result<ResolutionRoot, JavaException>)
      ensures r.Failure? <==> !load && dependencies.None?
      ensures r.Failure? ==> r.error == IllegalState(MissingDependencies)
      ensures r.Success? ==> r.value.Consistent() && !r.value.prepared
      ensures r.Success? ==> r.value.artifact == artifact && r.value.load == load
      ensures r.Success? ==> r.value.dependencies == dependencies && r.value.managedDependencies == managedDependencies
    {
      if !load && dependencies.None? {
        return Failure(IllegalState(MissingDependencies));
      }
      r := Success(ResolutionRoot(artifact, load, false, dependencies, managedDependencies));
    }
  }

  /** ofLoaded: a builder that loads the POM; the artifact must not be null. */
  method OfLoaded(artifact: Artifact?) returns (r: Result<Builder, JavaException>)
    ensures artifact == null ==> r == Failure(NullPointer(Some("artifact")))
    ensures artifact != null ==> r.Success? && fresh(r.value) && r.value.artifact == artifact && r.value.load
    ensures r.Success? ==> r.value.dependencies.None? && r.value.managedDependencies.None?
  {
    if artifact == null {
      return Failure(NullPointer(Some("artifact")));
    }
    var b := new Builder(artifact);
    b.Load();
    r := Success(b);
  }

  /** ofNotLoaded: a builder that does not load the POM; the artifact must not
      be null. */
  method OfNotLoaded(artifact: Artifact?) returns (r: Result<Builder, JavaException>)
    ensures artifact == null ==> r == Failure(NullPointer(Some("artifact")))
    ensures artifact != null ==> r.Success? && fresh(r.value) && r.value.artifact == artifact && !r.value.load
    ensures r.Success? ==> r.value.dependencies.None? && r.value.managedDependencies.None?
  {
    if artifact == null {
      return Failure(NullPointer(Some("artifact")));
    }
    var b := new Builder(artifact);
    b.DoNotLoad();
    r := Success(b);
  }

  /** A not-loaded builder without dependencies cannot build; giving it an
      empty list is enough. */
  method NotLoadedNeedsDependencies(artifact: Artifact) returns (before: Result<ResolutionRoot, JavaException>, after: Result<ResolutionRoot, JavaException>)
    ensures before == Failure(IllegalState(MissingDependencies))
    ensures after.Success? && after.value.dependencies == Some([]) && !after.value.load
  {
    var b := OfNotLoaded(artifact);
    before := b.value.Build();
    var empty := new DependencyList([]);
    var o := b.value.WithDependencies(empty);
    after := b.value.Build();
  }

  /** The builder copies the list: a change the caller makes to its list
      afterwards does not reach the builder or the root it builds. */
  method CopyIsIndependent(b: Builder, list: DependencyList, d: Dependency?) returns (r: Result<ResolutionRoot, JavaException>)
    modifies b, list
    ensures list.elements == old(list.elements) + [d]
    ensures r.Success? && r.value.dependencies == Some(old(list.elements))
  {
    var o := b.WithDependencies(list);
    list.Add(d);
    r := b.Build();
  }
}
