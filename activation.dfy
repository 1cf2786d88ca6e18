// ActivationManager: the process-wide flags, the constructor that wires the
// host's lifecycle events once, and RunActivationMethods, which force-loads
// the deployment parts once if asked to, then collects, sorts and invokes the
// activation attributes of one kind.
module Activation {
  import opened Types
  import opened Text
  import opened Reflection
  import opened Attributes
  import opened Domain
  import opened Loading
  import opened Scheduling

  /** The static fields of ActivationManager, shared by every instance and
      every run. Handlers records, as ghost state, the handlers Init has
      attached to the host's Startup and Exit events; LoadsCompleted counts
      the forced loads that have returned. */
  class ActivatorStatics {
    var initialized: bool
    var loadAssemblyParts: bool
    var assemblyPartsLoaded: bool
    ghost var Handlers: seq<Phase>
    ghost var LoadsCompleted: nat

    /** Handlers are attached exactly when `initialized` is set, and the
        forced load has completed once exactly when the latch is set. */
    ghost predicate Valid()
      reads this
    {
      && Handlers == (if initialized then [Startup, Exit] else [])
      && LoadsCompleted == (if assemblyPartsLoaded then 1 else 0)
    }

    /** A run must force-load the deployment parts first: LoadAssemblyParts
        is set and the parts have not been loaded yet. */
    predicate Forced()
      reads this
    {
      loadAssemblyParts && !assemblyPartsLoaded
    }

    /** The static initialisers: every flag starts false. */
    constructor ()
      ensures Valid()
      ensures !initialized && !loadAssemblyParts && !assemblyPartsLoaded
    {
      initialized, loadAssemblyParts, assemblyPartsLoaded := false, false, false;
      Handlers, LoadsCompleted := [], 0;
    }
  }

  /** Init: attaches one handler running the startup methods to
      Application.Startup and one running the exit methods to
      Application.Exit. */
  method Init(statics: ActivatorStatics)
    modifies statics`Handlers
    ensures statics.Handlers == old(statics.Handlers) + [Startup, Exit]
  {
    statics.Handlers := statics.Handlers + [Startup, Exit];
  }

  /** An ActivationManager instance. It has no state of its own: everything
      it reads and writes is in the shared statics. */
  class ActivationManager {
    const Statics: ActivatorStatics

    /** The first construction in the process runs Init and then sets
        `initialized`; every later one changes nothing. */
    constructor (statics: ActivatorStatics)
      requires statics.Valid()
      modifies statics`initialized, statics`Handlers
      ensures Statics == statics && statics.Valid() && statics.initialized
      ensures statics.Handlers == if old(statics.initialized) then old(statics.Handlers) else [Startup, Exit]
    {
      Statics := statics;
      new;
      if !statics.initialized {
        Init(statics);
        statics.initialized := true;
      }
    }

    /** The LoadAssemblyParts getter: the shared flag. */
    function LoadAssemblyParts(): (on: bool)
      reads Statics
      ensures Statics.Forced() ==> on
    {
      Statics.loadAssemblyParts
    }

    /** The LoadAssemblyParts setter: writes the shared flag and nothing else,
        so every instance reads the value back. */
    method SetLoadAssemblyParts(value: bool)
      requires Statics.Valid()
      modifies Statics`loadAssemblyParts
      ensures Statics.Valid()
      ensures forall m: ActivationManager | m.Statics == Statics :: m.LoadAssemblyParts() == value
    {
      Statics.loadAssemblyParts := value;
    }
  }

  /** The body of Load's foreach for one part: the try around
      Assembly.Load, which catches FileNotFoundException, FileLoadException
      and BadImageFormatException. */
  method LoadOnePart(domain: AppDomain, part: string) returns (c: Completion)
    modifies domain`Assemblies, domain`LoadRequests
    ensures var p := LoadPart(domain.Loader, old(domain.Assemblies), part);
            && domain.Assemblies == p.assemblies
            && domain.LoadRequests == old(domain.LoadRequests) + p.requests
            && c == p.result
  {
    c := Normal;
    var name := AssemblyString(part);
    if !IsNullOrWhiteSpace(Some(name)) {
      c := domain.Load(name);
      if c.Threw? && Swallowed(c.exception) {
        c := Normal;
      }
    }
  }

  /** Load: the foreach over the deployment parts. Each part's assembly
      string, unless blank, goes to Assembly.Load; FileNotFoundException,
      FileLoadException and BadImageFormatException are caught and ignored,
      any other exception leaves Load. */
  method Load(domain: AppDomain, parts: seq<string>) returns (c: Completion)
    modifies domain`Assemblies, domain`LoadRequests
    ensures var r := LoadAll(domain.Loader, old(domain.Assemblies), parts);
            && domain.Assemblies == r.assemblies
            && domain.LoadRequests == old(domain.LoadRequests) + r.requests
            && c == r.result
  {
    ghost var start := domain.Assemblies;
    ghost var before := domain.LoadRequests;
    var i := 0;
    while i < |parts|
      invariant 0 <= i <= |parts|
      invariant var r := LoadAll(domain.Loader, start, parts[..i]);
                && domain.Assemblies == r.assemblies
                && domain.LoadRequests == before + r.requests
                && r.result == Normal
    {
      ghost var done := LoadAll(domain.Loader, start, parts[..i]);
      LoadAllSnoc(domain.Loader, start, parts[..i], parts[i]);
      assert parts[..i + 1] == parts[..i] + [parts[i]];
      ghost var p := LoadPart(domain.Loader, domain.Assemblies, parts[i]);
      c := LoadOnePart(domain, parts[i]);
      assert (before + done.requests) + p.requests == before + (done.requests + p.requests);
      if c.Threw? {
        LoadAllStopped(domain.Loader, start, parts[..i + 1], parts[i + 1..]);
        assert parts[..i + 1] + parts[i + 1..] == parts;
        return;
      }
      i := i + 1;
    }
    assert parts[..i] == parts;
    c := Normal;
  }

  /** The activation attributes of one kind, gathered assembly by assembly
      (List.AddRange inside ForEach). */
  method CollectActivationAttributes(assemblies: seq<Assembly>, phase: Phase)
    returns (attributes: seq<ActivationMethodAttribute>)
    ensures attributes == Collected(assemblies, phase)
  {
    attributes := [];
    var i := 0;
    while i < |assemblies|
      invariant 0 <= i <= |assemblies|
      invariant attributes + Collected(assemblies[i..], phase) == Collected(assemblies, phase)
    {
      assert assemblies[i..][1..] == assemblies[i + 1..];
      attributes := attributes + OfPhase(assemblies[i].attributes, phase);
      i := i + 1;
    }
  }

  /** The foreach over the sorted attributes: InvokeMethod on each in turn,
      with no catch, so the first exception ends the loop. */
  method InvokeInOrder(methods: StaticMethods, sorted: seq<ActivationMethodAttribute>) returns (c: Completion)
    modifies methods`Calls
    ensures methods.Calls == old(methods.Calls) + Dispatch(methods.Table, sorted).calls
    ensures c == Dispatch(methods.Table, sorted).result
  {
    ghost var whole := Dispatch(methods.Table, sorted);
    ghost var before := methods.Calls;
    var i := 0;
    while i < |sorted|
      invariant 0 <= i <= |sorted|
      invariant methods.Calls + Dispatch(methods.Table, sorted[i..]).calls == before + whole.calls
      invariant Dispatch(methods.Table, sorted[i..]).result == whole.result
    {
      DispatchStep(methods.Table, sorted, i);
      c := sorted[i].InvokeMethod(methods);
      if c.Threw? {
        return;
      }
      i := i + 1;
    }
    c := Normal;
  }

  /** What the load step of a run does: Load over the parts when it is
      forced, nothing otherwise. */
  function LoadStep(forced: bool, loader: string -> LoadOutcome, assemblies: seq<Assembly>, parts: seq<string>): LoadRun
  {
    if forced then LoadAll(loader, assemblies, parts) else LoadRun(assemblies, [], Normal)
  }

  /** The attributes of kind `phase` declared by the activation assemblies,
      in the order a run invokes them. */
  function Schedule(assemblies: seq<Assembly>, parts: seq<string>, self: nat, phase: Phase): seq<ActivationMethodAttribute>
    reads set x | x in Collected(ActivationAssemblies(assemblies, parts, self), phase)
  {
    SortByOrder(Collected(ActivationAssemblies(assemblies, parts, self), phase))
  }

  /** The first step of a run: when it is forced, Load over the parts, and
      the latch is set once Load returns. */
  method LoadIfForced(statics: ActivatorStatics, domain: AppDomain, parts: seq<string>) returns (c: Completion)
    requires statics.Valid()
    modifies statics`assemblyPartsLoaded, statics`LoadsCompleted, domain`Assemblies, domain`LoadRequests
    ensures statics.Valid()
    ensures var load := LoadStep(old(statics.Forced()), domain.Loader, old(domain.Assemblies), parts);
            && c == load.result
            && domain.Assemblies == load.assemblies
            && domain.LoadRequests == old(domain.LoadRequests) + load.requests
            && statics.assemblyPartsLoaded == (old(statics.assemblyPartsLoaded) || (old(statics.Forced()) && c == Normal))
  {
    c := Normal;
    if statics.Forced() {
      c := Load(domain, parts);
      if c.Normal? {
        statics.assemblyPartsLoaded := true;
        statics.LoadsCompleted := statics.LoadsCompleted + 1;
      }
    }
  }

  /** The second step of a run: scan, collect, sort and invoke. */
  method InvokeScheduled(methods: StaticMethods, assemblies: seq<Assembly>, parts: seq<string>, self: nat, phase: Phase)
    returns (c: Completion)
    modifies methods`Calls
    ensures var run := Dispatch(methods.Table, Schedule(assemblies, parts, self, phase));
            methods.Calls == old(methods.Calls) + run.calls && c == run.result
  {
    var activation := ActivationAssemblies(assemblies, parts, self);
    var attributes := CollectActivationAttributes(activation, phase);
    var sorted := SortByOrder(attributes);
    c := InvokeInOrder(methods, sorted);
  }

  /** RunActivationMethods<T> for the attributes of kind `phase`. `parts` are
      the Sources of Deployment.Current.Parts and `self` identifies the
      activator's own assembly. When LoadAssemblyParts is set and the parts
      have not been loaded yet, Load runs first and the latch is set once it
      returns; an exception from Load ends the run. Then the activation
      assemblies are scanned, their attributes collected, stably sorted by
      Order and invoked one by one until one throws. */
  method RunActivationMethods(statics: ActivatorStatics, domain: AppDomain, methods: StaticMethods,
                              parts: seq<string>, self: nat, phase: Phase)
    returns (c: Completion)
    requires statics.Valid()
    modifies statics`assemblyPartsLoaded, statics`LoadsCompleted
    modifies domain`Assemblies, domain`LoadRequests, methods`Calls
    ensures statics.Valid()
    ensures var load := LoadStep(old(statics.Forced()), domain.Loader, old(domain.Assemblies), parts);
            && domain.Assemblies == load.assemblies
            && domain.LoadRequests == old(domain.LoadRequests) + load.requests
            && statics.assemblyPartsLoaded == (old(statics.assemblyPartsLoaded) || (old(statics.Forced()) && load.result == Normal))
    ensures var load := LoadStep(old(statics.Forced()), domain.Loader, old(domain.Assemblies), parts);
            load.result.Threw? ==> c == load.result && methods.Calls == old(methods.Calls)
    ensures var load := LoadStep(old(statics.Forced()), domain.Loader, old(domain.Assemblies), parts);
            var run := Dispatch(methods.Table, Schedule(domain.Assemblies, parts, self, phase));
            load.result == Normal ==> methods.Calls == old(methods.Calls) + run.calls && c == run.result
  {
    c := LoadIfForced(statics, domain, parts);
    if c.Threw? {
      return;
    }
    c := InvokeScheduled(methods, domain.Assemblies, parts, self, phase);
  }
}
