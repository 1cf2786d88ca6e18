// The runtime services the activator consults: the assemblies loaded into the
// application domain, and Assembly.Load, which may add one.
module Domain {
  import opened Types
  import opened Attributes

  /** A loaded assembly: its identity, the name of its manifest module, and
      the activation attributes declared on it, in the order GetCustomAttributes
      returns them. */
  datatype Assembly = Assembly(id: nat, manifestModuleName: string, attributes: seq<ActivationMethodAttribute>)

  /** What Assembly.Load does for one assembly string. */
  datatype LoadOutcome = Loaded(assembly: Assembly) | LoadFailed(exception: Exception)

  predicate IsLoaded(assemblies: seq<Assembly>, id: nat) {
    exists a :: a in assemblies && a.id == id
  }

  /** The domain's assemblies after a load with this outcome: a newly loaded
      assembly is listed last; loading one that is already there, or failing
      to load, changes nothing. */
  function AfterLoad(assemblies: seq<Assembly>, outcome: LoadOutcome): (r: seq<Assembly>)
    ensures assemblies <= r
    ensures outcome.Loaded? ==> IsLoaded(r, outcome.assembly.id)
    ensures forall a :: a in r ==> a in assemblies || (outcome.Loaded? && a == outcome.assembly)
  {
    if outcome.Loaded? && !IsLoaded(assemblies, outcome.assembly.id) then assemblies + [outcome.assembly]
    else assemblies
  }

  /** AppDomain.CurrentDomain together with Assembly.Load. Loader says what
      loading each assembly string does; LoadRequests records the strings
      passed to Assembly.Load. */
  class AppDomain {
    const Loader: string -> LoadOutcome
    var Assemblies: seq<Assembly>
    var LoadRequests: seq<string>

    constructor (loader: string -> LoadOutcome, assemblies: seq<Assembly>)
      ensures Loader == loader && Assemblies == assemblies && LoadRequests == []
    {
      Loader := loader;
      Assemblies := assemblies;
      LoadRequests := [];
    }

    /** Assembly.Load(name). */
    method Load(name: string) returns (c: Completion)
      modifies this`Assemblies, this`LoadRequests
      ensures LoadRequests == old(LoadRequests) + [name]
      ensures Assemblies == AfterLoad(old(Assemblies), Loader(name))
      ensures c == if Loader(name).LoadFailed? then Threw(Loader(name).exception) else Normal
    {
      LoadRequests := LoadRequests + [name];
      var outcome := Loader(name);
      Assemblies := AfterLoad(Assemblies, outcome);
      c := if outcome.LoadFailed? then Threw(outcome.exception) else Normal;
    }
  }
}
