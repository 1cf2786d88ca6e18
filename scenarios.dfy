// Worked runs of the activator, each checked against the contracts of the
// model alone.
module Scenarios {
  import opened Types
  import opened Text
  import opened Reflection
  import opened Attributes
  import opened Domain
  import opened Loading
  import opened Scheduling
  import opened Activation

  /** The assemblies of the ordering scenario: A, B and C, each declaring
      one startup attribute. */
  function ScenarioAssemblies(boot: ActivationMethodAttribute, init: ActivationMethodAttribute,
                              late: ActivationMethodAttribute): seq<Assembly>
  {
    [Assembly(1, "A.dll", [boot]), Assembly(2, "B.dll", [init]), Assembly(3, "C.dll", [late])]
  }

  /** All three are deployment parts other than the activator's own, so the
      filter keeps them all, in the domain's order. */
  lemma ScenarioFiltered(boot: ActivationMethodAttribute, init: ActivationMethodAttribute,
                         late: ActivationMethodAttribute)
    ensures var assemblies := ScenarioAssemblies(boot, init, late);
            ActivationAssemblies(assemblies, ["A.dll", "B.dll", "C.dll"], 0) == assemblies
  {
    var assemblies := ScenarioAssemblies(boot, init, late);
    var a, b, cc := assemblies[0], assemblies[1], assemblies[2];
    var parts := ["A.dll", "B.dll", "C.dll"];
    assert EqualsIgnoreCase(parts[0], a.manifestModuleName) && IsDeploymentPart(parts, a);
    assert EqualsIgnoreCase(parts[1], b.manifestModuleName) && IsDeploymentPart(parts, b);
    assert EqualsIgnoreCase(parts[2], cc.manifestModuleName) && IsDeploymentPart(parts, cc);
    assert assemblies[1..] == [b, cc] && [b, cc][1..] == [cc] && [cc][1..] == [];
  }

  /** Their attributes are collected in assembly order. */
  lemma ScenarioCollected(boot: ActivationMethodAttribute, init: ActivationMethodAttribute,
                          late: ActivationMethodAttribute)
    requires boot.Kind == Startup && init.Kind == Startup && late.Kind == Startup
    ensures var assemblies := ScenarioAssemblies(boot, init, late);
            Collected(ActivationAssemblies(assemblies, ["A.dll", "B.dll", "C.dll"], 0), Startup) == [boot, init, late]
  {
    ScenarioFiltered(boot, init, late);
    var assemblies := ScenarioAssemblies(boot, init, late);
    var b, cc := assemblies[1], assemblies[2];
    assert OfPhase([late], Startup) == [late] + OfPhase([], Startup);
    assert Collected([cc], Startup) == [late] + Collected([], Startup);
    assert OfPhase([init], Startup) == [init] + OfPhase([], Startup);
    assert [b, cc][1..] == [cc];
    assert Collected([b, cc], Startup) == [init] + Collected([cc], Startup);
    assert OfPhase([boot], Startup) == [boot] + OfPhase([], Startup);
    assert assemblies[1..] == [b, cc];
  }

  /** Order 5, Order 1 and the default order sort as 1, 5, default. */
  lemma ScenarioSorted(boot: ActivationMethodAttribute, init: ActivationMethodAttribute,
                       late: ActivationMethodAttribute)
    requires boot.Order == 5 && init.Order == 1 && late.Order == Int32MaxValue
    ensures SortByOrder([boot, init, late]) == [init, boot, late]
  {
    assert [boot, init, late][1..] == [init, late] && [init, late][1..] == [late] && [late][1..] == [];
    assert SortByOrder([late]) == [late];
    assert SortByOrder([init, late]) == Insert(init, [late]) == [init, late];
    assert Insert(boot, [init, late]) == [init] + Insert(boot, [late]) == [init, boot, late];
  }

  /** When all three methods exist and return, they are called in the sorted order. */
  lemma ScenarioDispatched(boot: ActivationMethodAttribute, init: ActivationMethodAttribute,
                           late: ActivationMethodAttribute, table: map<MethodKey, Completion>)
    requires table == map[boot.Target() := Normal, init.Target() := Normal, late.Target() := Normal]
    ensures Dispatch(table, [init, boot, late]) == Run([init.Target(), boot.Target(), late.Target()], Normal)
  {
    assert late.InvocationResult(table) == Normal;
    assert Dispatch(table, [late]) == Run([late.Target()], Normal);
    assert boot.InvocationResult(table) == Normal;
    assert [boot, late][1..] == [late];
    assert Dispatch(table, [boot, late]) == Run([boot.Target(), late.Target()], Normal);
    assert init.InvocationResult(table) == Normal;
    assert [init, boot, late][1..] == [boot, late];
    assert Dispatch(table, [init, boot, late]) == Run([init.Target()] + [boot.Target(), late.Target()], Normal);
  }

  /** The whole schedule of the scenario: B.Init, A.Boot, C.Late, each
      called once, and the run completes. */
  lemma ScenarioRun(boot: ActivationMethodAttribute, init: ActivationMethodAttribute,
                    late: ActivationMethodAttribute, table: map<MethodKey, Completion>)
    requires boot.Kind == Startup && init.Kind == Startup && late.Kind == Startup
    requires boot.Order == 5 && init.Order == 1 && late.Order == Int32MaxValue
    requires table == map[boot.Target() := Normal, init.Target() := Normal, late.Target() := Normal]
    ensures Dispatch(table, Schedule(ScenarioAssemblies(boot, init, late), ["A.dll", "B.dll", "C.dll"], 0, Startup))
            == Run([init.Target(), boot.Target(), late.Target()], Normal)
  {
    ScenarioCollected(boot, init, late);
    ScenarioSorted(boot, init, late);
    ScenarioDispatched(boot, init, late, table);
  }

  /** Three deployment assemblies declare startup methods A.Boot (Order 5),
      B.Init (Order 1) and C.Late (no Order): they run as Init, Boot, Late. */
  method OrderScenario() returns (c: Completion, calls: seq<MethodKey>)
    ensures c == Normal
    ensures calls == [MethodKey(TypeRef("B"), "Init"), MethodKey(TypeRef("A"), "Boot"), MethodKey(TypeRef("C"), "Late")]
  {
    assert !IsWhiteSpace("Boot"[0]) && !IsWhiteSpace("Init"[0]) && !IsWhiteSpace("Late"[0]);
    var boot := new ActivationMethodAttribute(Startup, TypeRef("A"), "Boot");
    boot.SetOrder(5);
    var init := new ActivationMethodAttribute(Startup, TypeRef("B"), "Init");
    init.SetOrder(1);
    var late := new ActivationMethodAttribute(Startup, TypeRef("C"), "Late");
    var table := map[boot.Target() := Normal, init.Target() := Normal, late.Target() := Normal];
    var statics := new ActivatorStatics();
    var domain := new AppDomain(name => LoadFailed(FileNotFoundException(name)), ScenarioAssemblies(boot, init, late));
    var methods := new StaticMethods(table);
    c := RunActivationMethods(statics, domain, methods, ["A.dll", "B.dll", "C.dll"], 0, Startup);
    ScenarioRun(boot, init, late, table);
    calls := methods.Calls;
  }

  /** A startup run followed by an exit run, as the two handlers Init
      attaches make them: when the startup run completes, the deployment
      parts have been force-loaded once if that was asked for and never
      again, and the latch stays set. */
  method StartupThenExit(statics: ActivatorStatics, domain: AppDomain, methods: StaticMethods,
                         parts: seq<string>, self: nat)
    returns (startup: Completion, exit: Completion)
    requires statics.Valid()
    modifies statics`assemblyPartsLoaded, statics`LoadsCompleted
    modifies domain`Assemblies, domain`LoadRequests, methods`Calls
    ensures statics.Valid()
    ensures startup == Normal ==>
              && domain.LoadRequests == old(domain.LoadRequests) + (if old(statics.Forced()) then LoadNames(parts) else [])
              && statics.assemblyPartsLoaded == (old(statics.assemblyPartsLoaded) || old(statics.Forced()))
    ensures var first := LoadAll(domain.Loader, old(domain.Assemblies), parts);
            old(statics.Forced()) && first.result.Threw? ==>
              && startup == first.result && exit == first.result
              && domain.LoadRequests == old(domain.LoadRequests) + first.requests + first.requests
              && !statics.assemblyPartsLoaded
              && methods.Calls == old(methods.Calls)
  {
    LoadAllRequests(domain.Loader, domain.Assemblies, parts);
    ghost var before := domain.Assemblies;
    startup := RunActivationMethods(statics, domain, methods, parts, self, Startup);
    LoadAllIgnoresAssemblies(domain.Loader, before, domain.Assemblies, parts);
    exit := RunActivationMethods(statics, domain, methods, parts, self, Exit);
  }
}
