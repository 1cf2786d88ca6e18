# Silverlight Activator: a Dafny model of the activation dispatcher

SilverlightActivator lets an application's assemblies declare static methods to
run when the application starts or exits. They do this with assembly-level
attributes (`ApplicationStartupMethodAttribute`, `ApplicationExitMethodAttribute`),
each naming a type, a static method and an optional `Order`.

`ActivationManager` hooks the host's `Startup` and `Exit` events once per process.
On each event it does the following:

- If `LoadAssemblyParts` is set, it force-loads the deployment's assembly parts,
  once per process, unless that load throws; then the next run tries again.
- It keeps the loaded assemblies that are deployment parts, except its own.
- It collects their attributes of the matching kind.
- It sorts them stably by `Order`.
- It invokes them one by one until one throws.

`BaseActivationMethodAttribute` checks its constructor arguments. It looks up the
named static method only when it is invoked.

The model has one module per concern:

- `Types`: nullable values (`Option`), results, `int32` and `int.MaxValue`, the two
  phases (the two concrete attribute classes), type and method keys, the
  exceptions involved, and how a statement completes.
- `Text`: the string operations the activator uses:
  - `String.IsNullOrWhiteSpace`;
  - `ToUpperInvariant`;
  - `OrdinalIgnoreCase` comparison;
  - `Replace(".DLL", "")`, a single left-to-right pass.
- `Reflection`: `StaticMethods`, the process's static methods as `GetMethod` finds
  them, together with the record of the calls made through `MethodInfo.Invoke`.
- `Attributes`: the attribute class, with its constructor validation, its `Order`
  property and `InvokeMethod`.
- `Domain`: loaded assemblies and `AppDomain`, with `Assembly.Load` driven by a
  loader function supplied as a parameter.
- `Loading`: `Load`'s name normalisation and its loop over the parts, as pure
  functions with lemmas.
- `Scheduling`: the filter, the collection, the stable sort and the invocation
  loop, as pure functions with lemmas. The sort is proved to be a sorted,
  stable permutation, and the only one.
- `Activation`: the process-wide static fields (`ActivatorStatics`), the
  `ActivationManager` class, and the imperative `Load`, collection, invocation
  loop and `RunActivationMethods`. Each is proved against the `Loading` and
  `Scheduling` functions.
- `Scenarios`: two worked runs, checked only against the contracts above:
  - three attributes with orders 5, 1 and default run as 1, 5, default;
  - when a startup run completes, the exit run that follows loads nothing; when
    the startup run's forced load throws, the latch stays clear, so the exit run
    loads again, requests the same strings, and throws the same exception.

## Model

| member | source | states |
|---|---|---|
| Attributes.ActivationMethodAttribute.New | SilverlightActivator_WP/BaseActivationMethodAttribute.cs:30-43 | a null type gives ArgumentNullException("activationType", …) whatever the name; a non-null type with a null, empty or all-white-space name gives ArgumentException(…, "methodName"); construction succeeds exactly otherwise, with a fresh attribute holding the given type and name and Order int.MaxValue; the method is not looked up |
| Attributes.ConstructorError | SilverlightActivator_WP/BaseActivationMethodAttribute.cs:32-36 | the constructor throws nothing exactly when the type is non-null and the name is not blank; a null type gives ArgumentNullException("activationType", …) whatever the name; otherwise the exception is an ArgumentException naming "methodName" |
| Attributes.ActivationMethodAttribute.constructor | SilverlightActivator_WP/BaseActivationMethodAttribute.cs:38-42 | for validated arguments, ActivationType and MethodName are the arguments (constants afterwards) and Order is int.MaxValue |
| Attributes.ActivationMethodAttribute.SetOrder | SilverlightActivator_WP/BaseActivationMethodAttribute.cs:58 | Order reads back the value set, and nothing but Order changes |
| Attributes.ActivationMethodAttribute.InvocationResult | SilverlightActivator_WP/BaseActivationMethodAttribute.cs:66-74 | with no static method of that type and name, the outcome is ArgumentException("The type T does not have a static method named M"); otherwise it is whatever the method does |
| Attributes.ActivationMethodAttribute.InvokeMethod | SilverlightActivator_WP/BaseActivationMethodAttribute.cs:64-75 | a missing method throws and calls nothing; a found method is called exactly once, and its exception, if any, is passed on |
| Reflection.StaticMethods.Invoke | SilverlightActivator_WP/BaseActivationMethodAttribute.cs:74 | the call is recorded once and ends as the method does |
| Text.IsNullOrWhiteSpace | SilverlightActivator_WP/BaseActivationMethodAttribute.cs:35 | the empty string counts as blank, and a string holding any non-white-space character does not |
| Text.EqualsIgnoreCase | SilverlightActivator_WP/ActivationManager.cs:86 | every string equals itself ignoring case; strings equal ignoring case have the same length and the same upper-cased form |
| Text.ToUpperInvariant | SilverlightActivator_WP/ActivationManager.cs:106 | same length; each lower-case ASCII letter becomes its upper-case letter (code point minus 32) and every other character is unchanged |
| Text.EqualsIgnoreCaseIffSameUpper | SilverlightActivator_WP/ActivationManager.cs:86 | two strings are equal ignoring case exactly when their upper-cased forms are equal |
| Text.RemoveAll | SilverlightActivator_WP/ActivationManager.cs:107 | the result is no longer than the input and holds only characters of the input |
| Text.RemoveAllSplits | SilverlightActivator_WP/ActivationManager.cs:107 | an occurrence of a border-free pattern is removed wherever it stands, and the text on either side is treated independently |
| Text.RemoveAllFixedIff | SilverlightActivator_WP/ActivationManager.cs:107 | the replacement leaves a string unchanged exactly when the pattern occurs nowhere in it |
| Loading.AssemblyString | SilverlightActivator_WP/ActivationManager.cs:105-107 | the assembly string has no lower-case ASCII letter |
| Loading.AssemblyStringRemovesDll | SilverlightActivator_WP/ActivationManager.cs:105-107 | ".dll" in any letter case is removed wherever it stands in a Source, including the middle, not only at the end |
| Loading.AssemblyStringOfFileName | SilverlightActivator_WP/ActivationManager.cs:105-107 | "stem.dll" and "stem" give the same assembly string |
| Loading.AssemblyStringIgnoresCase | SilverlightActivator_WP/ActivationManager.cs:105-106 | Sources that differ only in letter case give the same assembly string |
| Loading.LoadNames | SilverlightActivator_WP/ActivationManager.cs:103-112 | every part whose assembly string is not blank contributes that string, and no name is blank; there is at most one name per part |
| Loading.LoadNamesFromParts | SilverlightActivator_WP/ActivationManager.cs:103-112 | every name Load tries is the assembly string of one of the parts |
| Loading.LoadNamesAppend | SilverlightActivator_WP/ActivationManager.cs:103-112 | the names follow the parts' order: the names of a concatenation of parts are the names of each piece, one after the other |
| Loading.LoadAll | SilverlightActivator_WP/ActivationManager.cs:103-117 | Load only adds assemblies to the domain, and makes at most one request per part |
| Loading.LoadAllSnoc | SilverlightActivator_WP/ActivationManager.cs:103-117 | after parts that completed, Load goes on with the next part from the domain those parts left |
| Loading.LoadAllStopped | SilverlightActivator_WP/ActivationManager.cs:109-117 | once Load has thrown, the parts after that point are never tried |
| Loading.LoadAllRequests | SilverlightActivator_WP/ActivationManager.cs:103-112 | the strings Load passes to Assembly.Load are a prefix of the parts' non-blank assembly strings in part order, and all of them when Load completes |
| Loading.LoadAllCompletes | SilverlightActivator_WP/ActivationManager.cs:103-117 | Load completes exactly when each string it would try either loads or fails with FileNotFoundException, FileLoadException or BadImageFormatException |
| Loading.LoadAllStopsAtFailure | SilverlightActivator_WP/ActivationManager.cs:109-117 | when Load throws, the last string it tried failed with that exception, which is not one of the three swallowed ones, and every string before it was tolerated |
| Loading.LoadAllIgnoresAssemblies | SilverlightActivator_WP/ActivationManager.cs:103-117 | the strings Load requests and how it ends depend only on the parts and on what Assembly.Load does with each string, not on the assemblies loaded before |
| Loading.LoadAllAssemblies | SilverlightActivator_WP/ActivationManager.cs:103-117 | Load only adds assemblies; every assembly it loaded is then in the domain, and every one there was there before or came from one of its loads |
| Domain.AfterLoad | SilverlightActivator_WP/ActivationManager.cs:112 | the domain's assemblies only grow; a loaded assembly is then present; nothing else is added |
| Domain.AppDomain.Load | SilverlightActivator_WP/ActivationManager.cs:112 | the request is recorded, the domain's assemblies follow AfterLoad, and a failed load throws its exception |
| Scheduling.ActivationAssemblies | SilverlightActivator_WP/ActivationManager.cs:85-88 | an assembly is kept exactly when its manifest module name equals some part's Source ignoring case and it is not the activator's own assembly |
| Scheduling.ActivationAssembliesAppend | SilverlightActivator_WP/ActivationManager.cs:85-88 | the filter keeps the domain's enumeration order: filtering a concatenation concatenates the filtered pieces |
| Scheduling.OfPhase | SilverlightActivator_WP/AssemblyExtensions.cs:28-31 | an assembly's attributes of the requested kind are exactly those it declares with that kind |
| Scheduling.OfPhaseCount | SilverlightActivator_WP/AssemblyExtensions.cs:30 | each attribute of the requested kind is returned as often as it is declared, and no attribute of the other kind is returned |
| Scheduling.OfPhaseAppend | SilverlightActivator_WP/AssemblyExtensions.cs:30 | filtering by kind keeps the attributes' order: filtering a concatenation concatenates the filtered pieces |
| Scheduling.Collected | SilverlightActivator_WP/ActivationManager.cs:89-92 | every collected attribute has the requested kind |
| Scheduling.CollectedMembers | SilverlightActivator_WP/ActivationManager.cs:89-92 | an attribute is collected exactly when it has the requested kind and is declared on one of the activation assemblies |
| Scheduling.CollectedAppend | SilverlightActivator_WP/ActivationManager.cs:89-92 | collection is concatenation in assembly order |
| Scheduling.SortByOrder | SilverlightActivator_WP/ActivationManager.cs:95 | the sort returns as many attributes as it is given, and only attributes it was given |
| Scheduling.SortByOrderPermutation | SilverlightActivator_WP/ActivationManager.cs:95 | the sorted attributes are a permutation of the collected ones |
| Scheduling.SortByOrderSorted | SilverlightActivator_WP/ActivationManager.cs:95 | the sorted attributes run in ascending Order |
| Scheduling.SortByOrderStable | SilverlightActivator_WP/ActivationManager.cs:95 | attributes with equal Order keep their collection order |
| Scheduling.StableOrderIsUnique | SilverlightActivator_WP/ActivationManager.cs:95 | any sequence sorted by Order that keeps the collection order within each Order is the sort's result: OrderBy's order is fully determined |
| Scheduling.SortedWithSameGroupsEqual | SilverlightActivator_WP/ActivationManager.cs:95 | two Order-sorted sequences with the same attributes, in the same order, for every Order are equal |
| Scheduling.Dispatch | SilverlightActivator_WP/ActivationManager.cs:95-98 | the loop calls at most one method per attribute |
| Scheduling.DispatchCalls | SilverlightActivator_WP/ActivationManager.cs:95-98 | the methods called are a prefix of the sorted attributes' targets, in order, and each of them exists |
| Scheduling.DispatchCompletes | SilverlightActivator_WP/ActivationManager.cs:95-98 | the invocation loop completes exactly when every invocation completes, and then each attribute's method has been called once, in sorted order |
| Scheduling.DispatchStopsAtFirstFailure | SilverlightActivator_WP/ActivationManager.cs:95-98 | when attribute i is the first to throw, the loop ends with its exception. The methods before it have all been called. Its own method has been called only if it exists. None after it has been called |
| Activation.ActivatorStatics.constructor | SilverlightActivator_WP/ActivationManager.cs:25-27 | the three static flags start false, and no handler is attached |
| Activation.Init | SilverlightActivator_WP/ActivationManager.cs:68-72 | one startup handler and one exit handler are attached |
| Activation.ActivationManager.constructor | SilverlightActivator_WP/ActivationManager.cs:32-39 | the first construction runs Init and sets `initialized`; any later construction attaches nothing; in every case exactly one pair of handlers is attached |
| Activation.ActivationManager.LoadAssemblyParts | SilverlightActivator_WP/ActivationManager.cs:46-48 | the getter reads the shared static flag, so it is set whenever a run would force-load the parts |
| Activation.ActivationManager.SetLoadAssemblyParts | SilverlightActivator_WP/ActivationManager.cs:46-50 | the LoadAssemblyParts getter of every instance, which reads the shared static field, returns the value written; only that field changes, so the statics stay `Valid` |
| Activation.LoadOnePart | SilverlightActivator_WP/ActivationManager.cs:105-116 | one pass of the foreach: a blank assembly string is skipped; otherwise Assembly.Load is called once, and the three swallowed exceptions count as completing; the domain changes as LoadPart describes |
| Activation.Load | SilverlightActivator_WP/ActivationManager.cs:101-118 | the loop over the parts leaves the domain, the load requests and its outcome exactly as LoadAll describes |
| Activation.CollectActivationAttributes | SilverlightActivator_WP/ActivationManager.cs:89-92 | the list grown by AddRange is Collected of the activation assemblies |
| Activation.InvokeInOrder | SilverlightActivator_WP/ActivationManager.cs:95-98 | the foreach over the sorted attributes makes exactly the calls Dispatch describes and ends as it does |
| Activation.LoadIfForced | SilverlightActivator_WP/ActivationManager.cs:78-82 | Load runs only when LoadAssemblyParts is set and the latch is clear; the latch is set only when Load returns; `Valid` (the latch set exactly when one forced load has completed) is kept |
| Activation.InvokeScheduled | SilverlightActivator_WP/ActivationManager.cs:84-98 | filter, collect, stable sort and invoke make exactly the calls Dispatch describes for Schedule of the domain's assemblies |
| Activation.RunActivationMethods | SilverlightActivator_WP/ActivationManager.cs:74-99 | a forced load that throws ends the run with its exception and no method called; otherwise the run calls the scheduled methods of the domain's assemblies after loading, and ends as they do; the latch and `Valid` evolve as for LoadIfForced |
| Scenarios.ScenarioSorted | SilverlightActivator_WP/ActivationManager.cs:95 | Orders 5, 1 and int.MaxValue run as 1, 5, int.MaxValue |
| Scenarios.OrderScenario | SilverlightActivator_WP/ActivationManager.cs:74-99 | startup methods A.Boot (Order 5), B.Init (Order 1) and C.Late (no Order) in three deployment assemblies run as B.Init, A.Boot, C.Late and the run completes |
| Scenarios.ScenarioFiltered | SilverlightActivator_WP/ActivationManager.cs:85-88 | three loaded assemblies A.dll, B.dll and C.dll that are deployment parts and not the activator's own are all kept, in the domain's order |
| Scenarios.StartupThenExit | SilverlightActivator_WP/ActivationManager.cs:78-82 | when the startup run completes, the parts have been loaded once if that was asked for, and the exit run loads nothing; when the startup run's forced load throws, the latch stays clear, the exit run requests the same strings again, both runs end with that exception, and no method is called |

## Left out

- The host's event wiring (`Application.Current.Startup += …`, `Exit += …`, ActivationManager.cs:70-71) is not modelled. `Init` records, as ghost state, which two handlers are attached. The public `RunApplicationStartupMethods` and `RunApplicationExitMethods` (ActivationManager.cs:55-66) are `RunActivationMethods` with the phase fixed. They have no members of their own, and `Scenarios.StartupThenExit` makes one call of each.
- `Deployment.Current.Parts`, `AppDomain.CurrentDomain.GetAssemblies()` and `Assembly.Load` are runtime services. They become inputs:
  - the parts' Sources are a `seq<string>`;
  - the domain's assemblies are a sequence field;
  - the loader is a function from assembly string to outcome.
- A newly loaded assembly is listed last. The order in which `GetAssemblies` really lists assemblies is not modelled.
- A deployment part whose `Source` is null is not modelled, because Sources are strings here. In the source it throws NullReferenceException in `Load` (ActivationManager.cs:105-106). It can also throw in the filter (ActivationManager.cs:86), even without a forced load. `Any` stops at the first matching part, so this happens only for a loaded assembly that matches none of the parts listed before the null one.
- Text.ToUpperInvariant: upper-cases ASCII letters only. Invariant-culture upper-casing and OrdinalIgnoreCase comparison of other letters are not modelled.
- `GetCustomAttributes` builds fresh attribute instances on every call. The model keeps one attribute object per declaration, so an `Order` changed on one instance is seen by later runs.
- `GetMethod` may throw AmbiguousMatchException. `MethodInfo.Invoke` wraps a method's exception in TargetInvocationException. Neither is modelled, and an invoked method's exception is passed on as it is.
- Init: attaching handlers cannot fail in the model. If `Init` threw in the source, `initialized` would stay false.
- `ApplicationExitMethodAttribute` and the startup attribute are trivial subclasses. They are represented by the attribute's `Kind`.
- `GlobalSuppressions.cs` is code-analysis metadata only.
- Concurrency: there is none. The flags are unsynchronised statics used on the UI thread.
- Scheduling.Collected and Activation.RunActivationMethods: in the source, `GetActivationAttributes` (AssemblyExtensions.cs:30) runs each declared attribute's constructor during the run (ActivationManager.cs:92), with no try around it. A declaration with a null type or a blank method name therefore throws ArgumentNullException or ArgumentException out of the whole run, before any method of that phase is invoked. The model's assemblies hold only attributes that were already built, since the constructor requires valid arguments. That path is not modelled; the constructor's validation is stated only by `Attributes.ActivationMethodAttribute.New`.
- Activation.RunActivationMethods and Scenarios.StartupThenExit: an activation method is modelled by its completion alone, so it cannot change anything the activator reads. In the source a startup method may set `LoadAssemblyParts` through a new instance (ActivationManager.cs:46-50) or call `Assembly.Load`, and a later run then sees the changed flag or domain. The frame of `RunActivationMethods`, its statement that the domain after the run is the domain after the load, and the exit run of `StartupThenExit` loading nothing all rely on this abstraction.
