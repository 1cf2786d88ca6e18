// The scheduling rule of ActivationManager.RunActivationMethods, as pure
// functions: which assemblies are scanned, which attributes are collected,
// the order they run in, and how a run of invocations ends.
module Scheduling {
  import opened Types
  import opened Text
  import opened Attributes
  import opened Domain

  // ---------------------------------------------------------------------
  // Which assemblies are scanned

  /** Some deployment part's Source equals the assembly's manifest module
      name, ignoring case. */
  predicate IsDeploymentPart(parts: seq<string>, a: Assembly) {
    exists p :: p in parts && EqualsIgnoreCase(p, a.manifestModuleName)
  }

  /** The activation assemblies: the loaded assemblies that are deployment
      parts, except the activator's own assembly `self`, in the order the
      domain lists them. */
  function ActivationAssemblies(assemblies: seq<Assembly>, parts: seq<string>, self: nat): (r: seq<Assembly>)
    ensures forall a :: a in r ==> a in assemblies && IsDeploymentPart(parts, a) && a.id != self
    ensures forall a :: a in assemblies && IsDeploymentPart(parts, a) && a.id != self ==> a in r
    ensures |r| <= |assemblies|
  {
    if assemblies == [] then []
    else
      var rest := ActivationAssemblies(assemblies[1..], parts, self);
      if IsDeploymentPart(parts, assemblies[0]) && assemblies[0].id != self then [assemblies[0]] + rest
      else rest
  }

  /** The filter keeps the domain's order: filtering a concatenation is
      concatenating the filtered pieces. */
  lemma {:induction false} ActivationAssembliesAppend(xs: seq<Assembly>, ys: seq<Assembly>, parts: seq<string>, self: nat)
    ensures ActivationAssemblies(xs + ys, parts, self)
            == ActivationAssemblies(xs, parts, self) + ActivationAssemblies(ys, parts, self)
  {
    if xs != [] {
      assert (xs + ys)[1..] == xs[1..] + ys;
      ActivationAssembliesAppend(xs[1..], ys, parts, self);
    } else {
      assert xs + ys == ys;
    }
  }

  // ---------------------------------------------------------------------
  // Which attributes are collected

  /** GetActivationAttributes<T>: an assembly's attributes of the requested
      kind, in the order GetCustomAttributes returns them. */
  function OfPhase(attributes: seq<ActivationMethodAttribute>, phase: Phase): (r: seq<ActivationMethodAttribute>)
    ensures forall x :: x in r ==> x in attributes && x.Kind == phase
    ensures forall x :: x in attributes && x.Kind == phase ==> x in r
    ensures |r| <= |attributes|
  {
    if attributes == [] then []
    else if attributes[0].Kind == phase then [attributes[0]] + OfPhase(attributes[1..], phase)
    else OfPhase(attributes[1..], phase)
  }

  /** Each attribute of the requested kind is kept as often as it is
      declared, and no other attribute is kept. */
  lemma {:induction false} OfPhaseCount(attributes: seq<ActivationMethodAttribute>, phase: Phase)
    ensures forall x :: x in attributes ==>
              multiset(OfPhase(attributes, phase))[x] == if x.Kind == phase then multiset(attributes)[x] else 0
  {
    if attributes != [] {
      OfPhaseCount(attributes[1..], phase);
      assert attributes == [attributes[0]] + attributes[1..];
    }
  }

  /** Filtering by kind keeps the order of the attributes: filtering a
      concatenation concatenates the filtered pieces. */
  lemma {:induction false} OfPhaseAppend(xs: seq<ActivationMethodAttribute>, ys: seq<ActivationMethodAttribute>, phase: Phase)
    ensures OfPhase(xs + ys, phase) == OfPhase(xs, phase) + OfPhase(ys, phase)
  {
    if xs == [] {
      assert xs + ys == ys;
    } else {
      assert (xs + ys)[1..] == xs[1..] + ys;
      OfPhaseAppend(xs[1..], ys, phase);
    }
  }

  /** The collected list: each activation assembly's attributes of the
      requested kind, assembly after assembly. */
  function Collected(assemblies: seq<Assembly>, phase: Phase): (r: seq<ActivationMethodAttribute>)
    ensures forall x :: x in r ==> x.Kind == phase
  {
    if assemblies == [] then []
    else OfPhase(assemblies[0].attributes, phase) + Collected(assemblies[1..], phase)
  }

  /** Nothing is collected that is not declared, with the requested kind, on
      one of the assemblies, and nothing so declared is missed. */
  lemma {:induction false} CollectedMembers(assemblies: seq<Assembly>, phase: Phase)
    ensures forall x :: x in Collected(assemblies, phase) <==>
                          x.Kind == phase && exists a :: a in assemblies && x in a.attributes
  {
    if assemblies != [] {
      CollectedMembers(assemblies[1..], phase);
      forall x: ActivationMethodAttribute | x.Kind == phase && (exists a :: a in assemblies && x in a.attributes)
        ensures x in Collected(assemblies, phase)
      {
        var a :| a in assemblies && x in a.attributes;
        if a != assemblies[0] {
          assert a in assemblies[1..];
        }
      }
    }
  }

  /** Collection keeps the assemblies' order: collecting from a concatenation
      is concatenating the collections. */
  lemma {:induction false} CollectedAppend(xs: seq<Assembly>, ys: seq<Assembly>, phase: Phase)
    ensures Collected(xs + ys, phase) == Collected(xs, phase) + Collected(ys, phase)
  {
    if xs == [] {
      assert xs + ys == ys;
    } else {
      assert (xs + ys)[0] == xs[0] && (xs + ys)[1..] == xs[1..] + ys;
      CollectedAppend(xs[1..], ys, phase);
    }
  }

  // ---------------------------------------------------------------------
  // The order they run in: OrderBy(at => at.Order), a stable sort

  predicate SortedByOrder(s: seq<ActivationMethodAttribute>)
    reads s
  {
    forall i, j :: 0 <= i < j < |s| ==> s[i].Order <= s[j].Order
  }

  /** The attributes of s whose Order is k, in their order in s. */
  function WithOrder(s: seq<ActivationMethodAttribute>, k: int32): (r: seq<ActivationMethodAttribute>)
    reads s
    ensures forall x :: x in r ==> x in s && x.Order == k
    ensures forall x :: x in s && x.Order == k ==> x in r
  {
    if s == [] then []
    else if s[0].Order == k then [s[0]] + WithOrder(s[1..], k)
    else WithOrder(s[1..], k)
  }

  /** Puts x in front of the first element of s whose Order is not smaller. */
  function Insert(x: ActivationMethodAttribute, s: seq<ActivationMethodAttribute>): (r: seq<ActivationMethodAttribute>)
    reads x, s
    ensures forall y :: y in r ==> y == x || y in s
    ensures |r| == |s| + 1
  {
    if s == [] || x.Order <= s[0].Order then [x] + s
    else [s[0]] + Insert(x, s[1..])
  }

  /** The attributes ordered by ascending Order, ties in their original order. */
  function SortByOrder(s: seq<ActivationMethodAttribute>): (r: seq<ActivationMethodAttribute>)
    reads set x | x in s
    ensures forall y :: y in r ==> y in s
    ensures |r| == |s|
  {
    if s == [] then []
    else
      Insert(s[0], SortByOrder(s[1..]))
  }

  lemma {:induction false} InsertPermutation(x: ActivationMethodAttribute, s: seq<ActivationMethodAttribute>)
    ensures multiset(Insert(x, s)) == multiset(s) + multiset{x}
  {
    if s != [] && x.Order > s[0].Order {
      InsertPermutation(x, s[1..]);
      assert s == [s[0]] + s[1..];
    }
  }

  /** The sort only reorders: every collected attribute runs, as often as it
      was collected. */
  lemma {:induction false} SortByOrderPermutation(s: seq<ActivationMethodAttribute>)
    ensures multiset(SortByOrder(s)) == multiset(s)
  {
    if s != [] {
      SortByOrderPermutation(s[1..]);
      InsertPermutation(s[0], SortByOrder(s[1..]));
      assert s == [s[0]] + s[1..];
    }
  }

  lemma {:induction false} InsertSorted(x: ActivationMethodAttribute, s: seq<ActivationMethodAttribute>)
    requires SortedByOrder(s)
    ensures SortedByOrder(Insert(x, s))
  {
    if s != [] && x.Order > s[0].Order {
      InsertSorted(x, s[1..]);
      InsertPermutation(x, s[1..]);
      var t := Insert(x, s[1..]);
      forall y | y in t ensures s[0].Order <= y.Order {
        assert y in multiset(t);
      }
    }
  }

  /** The sort's result runs in ascending Order. */
  lemma {:induction false} SortByOrderSorted(s: seq<ActivationMethodAttribute>)
    ensures SortedByOrder(SortByOrder(s))
  {
    if s != [] {
      SortByOrderSorted(s[1..]);
      InsertSorted(s[0], SortByOrder(s[1..]));
    }
  }

  lemma {:induction false} InsertWithOrder(x: ActivationMethodAttribute, s: seq<ActivationMethodAttribute>, k: int32)
    ensures WithOrder(Insert(x, s), k) == if x.Order == k then [x] + WithOrder(s, k) else WithOrder(s, k)
  {
    if s != [] && x.Order > s[0].Order {
      InsertWithOrder(x, s[1..], k);
    }
  }

  /** The sort is stable: attributes with the same Order run in the order they
      were collected. */
  lemma {:induction false} SortByOrderStable(s: seq<ActivationMethodAttribute>)
    ensures forall k :: WithOrder(SortByOrder(s), k) == WithOrder(s, k)
  {
    if s != [] {
      SortByOrderStable(s[1..]);
      forall k ensures WithOrder(SortByOrder(s), k) == WithOrder(s, k) {
        InsertWithOrder(s[0], SortByOrder(s[1..]), k);
      }
    }
  }

  /** Two sequences sorted by Order that agree, Order by Order, on which
      attributes they hold and in what order, are equal. */
  lemma {:induction false} SortedWithSameGroupsEqual(t: seq<ActivationMethodAttribute>, u: seq<ActivationMethodAttribute>)
    requires SortedByOrder(t) && SortedByOrder(u)
    requires forall k :: WithOrder(t, k) == WithOrder(u, k)
    ensures t == u
    decreases |t|
  {
    if t != [] {
      assert t[0] in WithOrder(t, t[0].Order);
    }
    if u != [] {
      assert u[0] in WithOrder(u, u[0].Order);
    }
    if t != [] && u != [] {
      var k := t[0].Order;
      assert t[0] in WithOrder(u, k);
      assert u[0] in WithOrder(t, u[0].Order);
      assert u[0].Order == k;
      assert WithOrder(t, k) == [t[0]] + WithOrder(t[1..], k);
      assert WithOrder(u, k) == [u[0]] + WithOrder(u[1..], k);
      forall k' ensures WithOrder(t[1..], k') == WithOrder(u[1..], k') {
        if k' == k {
          assert WithOrder(t[1..], k) == WithOrder(t, k)[1..];
          assert WithOrder(u[1..], k) == WithOrder(u, k)[1..];
        } else {
          assert WithOrder(t, k') == WithOrder(u, k');
        }
      }
      SortedWithSameGroupsEqual(t[1..], u[1..]);
      assert t == [t[0]] + t[1..] && u == [u[0]] + u[1..];
    }
  }

  /** The stable sort is the only order that is ascending in Order and keeps
      the collected order among equal Orders. */
  lemma StableOrderIsUnique(s: seq<ActivationMethodAttribute>, t: seq<ActivationMethodAttribute>)
    requires SortedByOrder(t)
    requires forall k :: WithOrder(t, k) == WithOrder(s, k)
    ensures t == SortByOrder(s)
  {
    SortByOrderSorted(s);
    SortByOrderStable(s);
    SortedWithSameGroupsEqual(t, SortByOrder(s));
  }

  // ---------------------------------------------------------------------
  // How a run of invocations ends

  /** The static methods a run called, and how the run ended. */
  datatype Run = Run(calls: seq<MethodKey>, result: Completion)

  /** The foreach over the sorted attributes: InvokeMethod on each in turn;
      the first one that throws ends the run with its exception. */
  function Dispatch(table: map<MethodKey, Completion>, attributes: seq<ActivationMethodAttribute>): (r: Run)
    ensures |r.calls| <= |attributes|
  {
    if attributes == [] then Run([], Normal)
    else
      var a := attributes[0];
      var called := if a.Target() in table then [a.Target()] else [];
      if a.InvocationResult(table).Threw? then Run(called, a.InvocationResult(table))
      else
        var rest := Dispatch(table, attributes[1..]);
        Run(called + rest.calls, rest.result)
  }

  /** One step of the loop at position i: the attribute there is invoked,
      and the run goes on with the rest only if that invocation completes. */
  lemma DispatchStep(table: map<MethodKey, Completion>, attributes: seq<ActivationMethodAttribute>, i: nat)
    requires i < |attributes|
    ensures var a := attributes[i];
            var called := if a.Target() in table then [a.Target()] else [];
            var rest := Dispatch(table, attributes[i + 1..]);
            Dispatch(table, attributes[i..])
              == if a.InvocationResult(table).Threw? then Run(called, a.InvocationResult(table))
                 else Run(called + rest.calls, rest.result)
  {
    assert attributes[i..][0] == attributes[i];
    assert attributes[i..][1..] == attributes[i + 1..];
  }

  function Targets(attributes: seq<ActivationMethodAttribute>): seq<MethodKey> {
    seq(|attributes|, i requires 0 <= i < |attributes| => attributes[i].Target())
  }

  /** The methods a run calls are the attributes' targets in sorted order, up
      to where it stops, and each of them exists. */
  lemma {:induction false} DispatchCalls(table: map<MethodKey, Completion>, attributes: seq<ActivationMethodAttribute>)
    ensures Dispatch(table, attributes).calls <= Targets(attributes)
    ensures forall k :: k in Dispatch(table, attributes).calls ==> k in table
  {
    if attributes != [] {
      DispatchCalls(table, attributes[1..]);
      assert Targets(attributes) == [attributes[0].Target()] + Targets(attributes[1..]);
    }
  }

  /** A run completes exactly when every invocation completes, and then each
      attribute's method has been called once, in order. */
  lemma {:induction false} DispatchCompletes(table: map<MethodKey, Completion>, attributes: seq<ActivationMethodAttribute>)
    ensures Dispatch(table, attributes).result == Normal <==>
            forall i :: 0 <= i < |attributes| ==> attributes[i].InvocationResult(table) == Normal
    ensures Dispatch(table, attributes).result == Normal ==> Dispatch(table, attributes).calls == Targets(attributes)
  {
    if attributes != [] {
      DispatchCompletes(table, attributes[1..]);
      var a := attributes[0];
      if !a.InvocationResult(table).Threw? {
        assert a.Target() in table;
        assert forall i :: 1 <= i < |attributes| ==> attributes[i] == attributes[1..][i - 1];
        assert Targets(attributes) == [a.Target()] + Targets(attributes[1..]);
      }
    }
  }

  /** When the attribute at position i is the first whose invocation throws,
      the run ends with that exception; the methods of the attributes before
      it have been called, its own only if it exists, and none after it. */
  lemma {:induction false} DispatchStopsAtFirstFailure(table: map<MethodKey, Completion>,
                                                       attributes: seq<ActivationMethodAttribute>, i: nat)
    requires i < |attributes|
    requires forall j :: 0 <= j < i ==> attributes[j].InvocationResult(table) == Normal
    requires attributes[i].InvocationResult(table).Threw?
    ensures Dispatch(table, attributes).result == attributes[i].InvocationResult(table)
    ensures Dispatch(table, attributes).calls ==
            Targets(attributes[..i]) + (if attributes[i].Target() in table then [attributes[i].Target()] else [])
  {
    if i > 0 {
      DispatchStopsAtFirstFailure(table, attributes[1..], i - 1);
      assert attributes[1..][..i - 1] == attributes[1..i];
      assert Targets(attributes[..i]) == [attributes[0].Target()] + Targets(attributes[1..i]);
    }
  }
}
