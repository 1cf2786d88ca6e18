// ActivationManager.Load: the one-off forced load of every deployment part,
// as pure functions and the facts proved about them. The method that runs it
// against an AppDomain is Activation.Load.
module Loading {
  import opened Types
  import opened Text
  import opened Domain

  const DllExtension := ".DLL"

  /** The assembly string Load passes to Assembly.Load for a part's Source:
      the Source upper-cased, with every ".DLL" in it removed. */
  function AssemblyString(source: string): (name: string)
    ensures forall c :: c in name ==> !IsLowerAscii(c)
  {
    RemoveAll(ToUpperInvariant(source), DllExtension)
  }

  lemma DllExtensionHasNoBorder()
    ensures HasNoBorder(DllExtension)
  {
    forall k | 0 < k < |DllExtension|
      ensures DllExtension[k..] != DllExtension[..|DllExtension| - k]
    {
      // only the first character of the extension is a dot
      assert DllExtension[k..][0] != DllExtension[..|DllExtension| - k][0];
    }
  }

  /** ".dll", in any letter case, is removed wherever it stands in a Source,
      not only at its end. */
  lemma AssemblyStringRemovesDll(a: string, ext: string, b: string)
    requires EqualsIgnoreCase(ext, ".dll")
    ensures AssemblyString(a + ext + b) == AssemblyString(a) + AssemblyString(b)
  {
    ToUpperInvariantAppend(a + ext, b);
    ToUpperInvariantAppend(a, ext);
    EqualsIgnoreCaseIffSameUpper(ext, ".dll");
    assert ToUpperInvariant(".dll") == DllExtension;
    DllExtensionHasNoBorder();
    RemoveAllSplits(ToUpperInvariant(a), ToUpperInvariant(b), DllExtension);
  }

  /** Hence a file name and its stem load the same assembly. */
  lemma AssemblyStringOfFileName(stem: string, ext: string)
    requires EqualsIgnoreCase(ext, ".dll")
    ensures AssemblyString(stem + ext) == AssemblyString(stem)
  {
    AssemblyStringRemovesDll(stem, ext, []);
    assert stem + ext + [] == stem + ext;
  }

  /** Sources that differ only in letter case load the same assembly. */
  lemma AssemblyStringIgnoresCase(a: string, b: string)
    requires EqualsIgnoreCase(a, b)
    ensures AssemblyString(a) == AssemblyString(b)
  {
    EqualsIgnoreCaseIffSameUpper(a, b);
  }

  /** The three exceptions Load catches and ignores. */
  predicate Swallowed(e: Exception) {
    e.FileNotFoundException? || e.FileLoadException? || e.BadImageFormatException?
  }

  /** A load outcome after which Load goes on to the next part. */
  predicate Tolerated(o: LoadOutcome) {
    o.Loaded? || Swallowed(o.exception)
  }

  /** The assembly strings Load tries, in part order: blank ones are skipped. */
  function LoadNames(parts: seq<string>): (names: seq<string>)
    ensures forall n :: n in names ==> !IsNullOrWhiteSpace(Some(n))
    ensures forall i :: 0 <= i < |parts| && !IsNullOrWhiteSpace(Some(AssemblyString(parts[i]))) ==>
              AssemblyString(parts[i]) in names
    ensures |names| <= |parts|
  {
    assert forall i :: 1 <= i < |parts| ==> parts[i] == parts[1..][i - 1];
    if parts == [] then []
    else if IsNullOrWhiteSpace(Some(AssemblyString(parts[0]))) then LoadNames(parts[1..])
    else [AssemblyString(parts[0])] + LoadNames(parts[1..])
  }

  /** The names keep the parts' order: the names of a concatenation are the
      names of each piece, one after the other. */
  lemma {:induction false} LoadNamesAppend(xs: seq<string>, ys: seq<string>)
    ensures LoadNames(xs + ys) == LoadNames(xs) + LoadNames(ys)
  {
    if xs == [] {
      assert xs + ys == ys;
    } else {
      assert (xs + ys)[0] == xs[0];
      assert (xs + ys)[1..] == xs[1..] + ys;
      LoadNamesAppend(xs[1..], ys);
    }
  }

  /** Every name Load tries is the assembly string of one of the parts, so a
      blank part adds no name. */
  lemma {:induction false} LoadNamesFromParts(parts: seq<string>)
    ensures forall n :: n in LoadNames(parts) ==> exists i :: 0 <= i < |parts| && n == AssemblyString(parts[i])
  {
    if parts != [] {
      LoadNamesFromParts(parts[1..]);
      forall n | n in LoadNames(parts)
        ensures exists i :: 0 <= i < |parts| && n == AssemblyString(parts[i])
      {
        if n in LoadNames(parts[1..]) {
          var j :| 0 <= j < |parts[1..]| && n == AssemblyString(parts[1..][j]);
          assert n == AssemblyString(parts[j + 1]);
        } else {
          assert n == AssemblyString(parts[0]);
        }
      }
    }
  }

  /** What a run of Load leaves behind: the domain's assemblies, the strings
      passed to Assembly.Load, and how Load ended. */
  datatype LoadRun = LoadRun(assemblies: seq<Assembly>, requests: seq<string>, result: Completion)

  /** What Load does with one part: a blank assembly string is skipped;
      otherwise it is loaded, and a swallowed exception counts as completing. */
  function LoadPart(loader: string -> LoadOutcome, assemblies: seq<Assembly>, part: string): (r: LoadRun)
    ensures |r.requests| <= 1
  {
    var name := AssemblyString(part);
    if IsNullOrWhiteSpace(Some(name)) then LoadRun(assemblies, [], Normal)
    else
      var outcome := loader(name);
      LoadRun(AfterLoad(assemblies, outcome), [name], if Tolerated(outcome) then Normal else Threw(outcome.exception))
  }

  /** Load over `parts`, starting from `assemblies`: each part's assembly
      string, unless blank, is loaded; a swallowed exception moves on to the
      next part, any other one ends Load. */
  function LoadAll(loader: string -> LoadOutcome, assemblies: seq<Assembly>, parts: seq<string>): (r: LoadRun)
    ensures assemblies <= r.assemblies
    ensures |r.requests| <= |parts|
    decreases |parts|
  {
    if parts == [] then LoadRun(assemblies, [], Normal)
    else
      var p := LoadPart(loader, assemblies, parts[0]);
      if p.result.Threw? then p
      else
        var rest := LoadAll(loader, p.assemblies, parts[1..]);
        LoadRun(rest.assemblies, p.requests + rest.requests, rest.result)
  }

  /** Load over parts followed by one more part, when the parts completed:
      the run goes on with that part from where the parts left the domain. */
  lemma {:induction false} LoadAllSnoc(loader: string -> LoadOutcome, assemblies: seq<Assembly>, parts: seq<string>, part: string)
    requires LoadAll(loader, assemblies, parts).result == Normal
    ensures var r := LoadAll(loader, assemblies, parts);
            var p := LoadPart(loader, r.assemblies, part);
            LoadAll(loader, assemblies, parts + [part]) == LoadRun(p.assemblies, r.requests + p.requests, p.result)
    decreases |parts|
  {
    if parts == [] {
      assert [part][1..] == [];
    } else {
      var p := LoadPart(loader, assemblies, parts[0]);
      assert (parts + [part])[0] == parts[0];
      assert (parts + [part])[1..] == parts[1..] + [part];
      LoadAllSnoc(loader, p.assemblies, parts[1..], part);
      var r := LoadAll(loader, p.assemblies, parts[1..]);
      var q := LoadPart(loader, r.assemblies, part);
      assert p.requests + (r.requests + q.requests) == (p.requests + r.requests) + q.requests;
    }
  }

  /** Once a run has thrown, the parts after it are never tried. */
  lemma {:induction false} LoadAllStopped(loader: string -> LoadOutcome, assemblies: seq<Assembly>, parts: seq<string>, more: seq<string>)
    requires LoadAll(loader, assemblies, parts).result.Threw?
    ensures LoadAll(loader, assemblies, parts + more) == LoadAll(loader, assemblies, parts)
    decreases |parts|
  {
    var p := LoadPart(loader, assemblies, parts[0]);
    assert (parts + more)[0] == parts[0];
    assert (parts + more)[1..] == parts[1..] + more;
    if !p.result.Threw? {
      LoadAllStopped(loader, p.assemblies, parts[1..], more);
    }
  }

  /** Load tries the parts' assembly strings in order, and all of them when
      it completes. */
  lemma {:induction false} LoadAllRequests(loader: string -> LoadOutcome, assemblies: seq<Assembly>, parts: seq<string>)
    ensures var r := LoadAll(loader, assemblies, parts);
            && r.requests <= LoadNames(parts)
            && (r.result == Normal ==> r.requests == LoadNames(parts))
    decreases |parts|
  {
    if parts != [] {
      var name := AssemblyString(parts[0]);
      if IsNullOrWhiteSpace(Some(name)) {
        LoadAllRequests(loader, assemblies, parts[1..]);
      } else {
        LoadAllRequests(loader, AfterLoad(assemblies, loader(name)), parts[1..]);
      }
    }
  }

  /** Load completes exactly when every string it tries loads or fails in a
      swallowed way. */
  lemma {:induction false} LoadAllCompletes(loader: string -> LoadOutcome, assemblies: seq<Assembly>, parts: seq<string>)
    ensures LoadAll(loader, assemblies, parts).result == Normal
            <==> forall n :: n in LoadNames(parts) ==> Tolerated(loader(n))
    decreases |parts|
  {
    if parts != [] {
      var name := AssemblyString(parts[0]);
      if IsNullOrWhiteSpace(Some(name)) {
        LoadAllCompletes(loader, assemblies, parts[1..]);
      } else {
        LoadAllCompletes(loader, AfterLoad(assemblies, loader(name)), parts[1..]);
      }
    }
  }

  /** When Load throws, the last string it tried failed with that exception. */
  lemma {:induction false} LoadAllLastFailed(loader: string -> LoadOutcome, assemblies: seq<Assembly>, parts: seq<string>)
    ensures var r := LoadAll(loader, assemblies, parts);
            r.result.Threw? ==>
              && r.requests != []
              && loader(r.requests[|r.requests| - 1]) == LoadFailed(r.result.exception)
              && !Swallowed(r.result.exception)
    decreases |parts|
  {
    if parts != [] {
      var p := LoadPart(loader, assemblies, parts[0]);
      if !p.result.Threw? {
        LoadAllLastFailed(loader, p.assemblies, parts[1..]);
      }
    }
  }

  /** Every string Load tried before the last one was tolerated. */
  lemma {:induction false} LoadAllTriedTolerated(loader: string -> LoadOutcome, assemblies: seq<Assembly>, parts: seq<string>)
    ensures forall i :: 0 <= i < |LoadAll(loader, assemblies, parts).requests| - 1 ==>
              Tolerated(loader(LoadAll(loader, assemblies, parts).requests[i]))
    decreases |parts|
  {
    if parts != [] {
      var p := LoadPart(loader, assemblies, parts[0]);
      if !p.result.Threw? {
        LoadAllTriedTolerated(loader, p.assemblies, parts[1..]);
        var rest := LoadAll(loader, p.assemblies, parts[1..]);
        var r := LoadAll(loader, assemblies, parts);
        assert r.requests == p.requests + rest.requests;
        forall i | 0 <= i < |r.requests| - 1
          ensures Tolerated(loader(r.requests[i]))
        {
          if i < |p.requests| {
            var name := AssemblyString(parts[0]);
            assert p.requests == [name] && Tolerated(loader(name));
          } else {
            assert r.requests[i] == rest.requests[i - |p.requests|];
          }
        }
      }
    }
  }

  /** Load stops at the first exception it does not swallow: the last string
      it tried failed with that exception, and every one before it was
      tolerated. */
  lemma LoadAllStopsAtFailure(loader: string -> LoadOutcome, assemblies: seq<Assembly>, parts: seq<string>)
    ensures var r := LoadAll(loader, assemblies, parts);
            && (r.result.Threw? ==>
                  && r.requests != []
                  && loader(r.requests[|r.requests| - 1]) == LoadFailed(r.result.exception)
                  && !Swallowed(r.result.exception))
            && (forall i :: 0 <= i < |r.requests| - 1 ==> Tolerated(loader(r.requests[i])))
  {
    LoadAllLastFailed(loader, assemblies, parts);
    LoadAllTriedTolerated(loader, assemblies, parts);
  }

  /** What Load requests and how it ends depend only on the parts and on
      what Assembly.Load does with each string, not on what was loaded before. */
  lemma {:induction false} LoadAllIgnoresAssemblies(loader: string -> LoadOutcome, assemblies: seq<Assembly>,
                                                    others: seq<Assembly>, parts: seq<string>)
    ensures LoadAll(loader, assemblies, parts).requests == LoadAll(loader, others, parts).requests
    ensures LoadAll(loader, assemblies, parts).result == LoadAll(loader, others, parts).result
    decreases |parts|
  {
    if parts != [] {
      LoadAllIgnoresAssemblies(loader, LoadPart(loader, assemblies, parts[0]).assemblies,
                               LoadPart(loader, others, parts[0]).assemblies, parts[1..]);
    }
  }

  /** Load only adds assemblies: every string it loaded is then in the domain,
      and every assembly there was there before or was loaded by it. */
  lemma {:induction false} LoadAllAssemblies(loader: string -> LoadOutcome, assemblies: seq<Assembly>, parts: seq<string>)
    ensures var r := LoadAll(loader, assemblies, parts);
            && assemblies <= r.assemblies
            && (forall n :: n in r.requests && loader(n).Loaded? ==> IsLoaded(r.assemblies, loader(n).assembly.id))
            && (forall a :: a in r.assemblies ==>
                  a in assemblies || exists n :: n in r.requests && loader(n) == Loaded(a))
    decreases |parts|
  {
    if parts != [] {
      var name := AssemblyString(parts[0]);
      if IsNullOrWhiteSpace(Some(name)) {
        LoadAllAssemblies(loader, assemblies, parts[1..]);
      } else if Tolerated(loader(name)) {
        var loaded := AfterLoad(assemblies, loader(name));
        LoadAllAssemblies(loader, loaded, parts[1..]);
        var rest := LoadAll(loader, loaded, parts[1..]);
        if loader(name).Loaded? {
          assert IsLoaded(loaded, loader(name).assembly.id);
          var a :| a in loaded && a.id == loader(name).assembly.id;
          assert a in rest.assemblies;
        }
      }
    }
  }
}
