/** Assembly discovery for the caller-info enricher
    (Serilog.Enrichers.CallerInfo/EnricherConfiguration.cs): starting from one
    or two seed assemblies, a depth-first walk over assembly references
    collects, in a hash set compared with OrdinalIgnoreCase, the names that
    start with a given prefix and match no excluded prefix. Those names become
    the enricher's allowed assemblies. */
module CallerInfoConfiguration {
  import opened Common
  import opened StackFrames
  import opened LogEvents
  import opened AssemblyGraphs
  import opened CallerInfoEnricher

  /** IsAssemblyIncluded: a null predicate includes nothing. */
  predicate IsAssemblyIncluded(filter: Option<string -> bool>, name: string)
  {
    filter.Some? && filter.value(name)
  }

  /** IsAssemblyExcluded: a null predicate excludes nothing. */
  predicate IsAssemblyExcluded(exclude: Option<string -> bool>, name: string)
  {
    exclude.Some? && exclude.value(name)
  }

  /** The test a name must pass to be collected, or, as a reference, to be walked into. */
  predicate Passes(filter: Option<string -> bool>, exclude: Option<string -> bool>, name: string)
  {
    IsAssemblyIncluded(filter, name) && !IsAssemblyExcluded(exclude, name)
  }

  /** Every passing name among the first `n` of `refs` is contained, ignoring
      case, in `names`. */
  predicate CoversFirst(names: set<string>, refs: seq<string>, n: int, filter: Option<string -> bool>, exclude: Option<string -> bool>)
  {
    forall k :: 0 <= k < n && k < |refs| && Passes(filter, exclude, refs[k]) ==> ContainsIgnoreCase(names, refs[k])
  }

  /** Every passing name of `refs` is contained, ignoring case, in `names`. */
  predicate Covers(names: set<string>, refs: seq<string>, filter: Option<string -> bool>, exclude: Option<string -> bool>)
  {
    CoversFirst(names, refs, |refs|, filter, exclude)
  }

  /** No two names of the set are equal ignoring case. */
  predicate NoCaseDuplicates(names: set<string>)
  {
    forall m, n :: m in names && n in names && EqualsIgnoreCase(m, n) ==> m == n
  }

  /** How the `i`th name collected was found: it is a seed, or a seed or an
      earlier collected name references it. */
  ghost predicate Discovered(graph: Graph, seeds: seq<string>, order: seq<string>, i: nat)
    requires i < |order|
  {
    || order[i] in seeds
    || (exists a :: a in seeds && a in graph && order[i] in graph[a])
    || (exists j :: 0 <= j < i && order[j] in graph && order[i] in graph[order[j]])
  }

  /** Appending a name found from a seed or from a name already listed keeps
      every listed name discovered. */
  lemma DiscoveredAppend(graph: Graph, seeds: seq<string>, order: seq<string>, from: string, x: string)
    requires forall i :: 0 <= i < |order| ==> Discovered(graph, seeds, order, i)
    requires from in graph && (from in seeds || from in order)
    requires x in seeds || x in graph[from]
    ensures forall i :: 0 <= i < |order| + 1 ==> Discovered(graph, seeds, order + [x], i)
  {
    var order' := order + [x];
    forall i | 0 <= i < |order'| ensures Discovered(graph, seeds, order', i) {
      if i < |order| {
        assert Discovered(graph, seeds, order, i);
        assert order'[i] == order[i];
        forall j | 0 <= j < i ensures order'[j] == order[j] {}
      } else if x !in seeds && from !in seeds {
        var j :| 0 <= j < |order| && order[j] == from;
        assert order'[j] == from;
      }
    }
  }

  lemma CoversGrows(names: set<string>, more: set<string>, refs: seq<string>, n: int, filter: Option<string -> bool>, exclude: Option<string -> bool>)
    requires names <= more && CoversFirst(names, refs, n, filter, exclude)
    ensures CoversFirst(more, refs, n, filter, exclude)
  {
    forall k | 0 <= k < n && k < |refs| && Passes(filter, exclude, refs[k])
      ensures ContainsIgnoreCase(more, refs[k])
    {
      ContainsIgnoreCaseGrows(names, more, refs[k]);
    }
  }

  lemma NoCaseDuplicatesAdd(names: set<string>, name: string)
    requires NoCaseDuplicates(names) && !ContainsIgnoreCase(names, name)
    ensures NoCaseDuplicates(names + {name})
  {
  }

  /** Appending names referenced by a seed or by a name already listed keeps
      every listed name discovered. */
  lemma {:induction false} DiscoveredAppendAll(graph: Graph, seeds: seq<string>, order: seq<string>, from: string, xs: seq<string>)
    requires forall i :: 0 <= i < |order| ==> Discovered(graph, seeds, order, i)
    requires from in graph && (from in seeds || from in order)
    requires forall i :: 0 <= i < |xs| ==> xs[i] in graph[from]
    ensures forall i :: 0 <= i < |order + xs| ==> Discovered(graph, seeds, order + xs, i)
    decreases |xs|
  {
    if xs != [] {
      DiscoveredAppend(graph, seeds, order, from, xs[0]);
      DiscoveredAppendAll(graph, seeds, order + [xs[0]], from, xs[1..]);
      assert order + [xs[0]] + xs[1..] == order + xs;
    } else {
      assert order + xs == order;
    }
  }

  /** What the foreach pushes, in order, over the references `refs`, and the
      name set it leaves, starting from `asmNames`: a reference is pushed and
      added when it passes and the names so far do not contain it, ignoring
      case; the first of several case variants is the one kept. */
  function ForeachPushes(refs: seq<string>, filter: Option<string -> bool>, exclude: Option<string -> bool>,
                         asmNames: set<string>): (seq<string>, set<string>)
  {
    if refs == [] then ([], asmNames)
    else
      var (pushed, names) := ForeachPushes(refs[..|refs| - 1], filter, exclude, asmNames);
      var reference := refs[|refs| - 1];
      if ContainsIgnoreCase(names, reference) || !Passes(filter, exclude, reference) then (pushed, names)
      else (pushed + [reference], names + {reference})
  }

  /** The foreach keeps the order of the references: what it pushes for the
      first `j` of them comes first, before anything pushed for later ones. */
  lemma {:induction false} ForeachPushesPrefix(refs: seq<string>, filter: Option<string -> bool>, exclude: Option<string -> bool>,
                                               asmNames: set<string>, j: nat)
    requires j <= |refs|
    ensures ForeachPushes(refs[..j], filter, exclude, asmNames).0 <= ForeachPushes(refs, filter, exclude, asmNames).0
    decreases |refs|
  {
    if j < |refs| {
      ForeachPushesPrefix(refs[..|refs| - 1], filter, exclude, asmNames, j);
      assert refs[..|refs| - 1][..j] == refs[..j];
    } else {
      assert refs[..j] == refs;
    }
  }

  /** What the foreach over `refs` has done after its first `j` references,
      starting from `stack` and `asmNames`: the names it pushed, in order, are
      `pushed` and the names are `asmNames'`, as ForeachPushes gives them;
      each pushed name passed, was not contained before and was added. */
  ghost predicate Pushed(refs: seq<string>, filter: Option<string -> bool>, exclude: Option<string -> bool>,
                         stack: seq<string>, asmNames: set<string>, j: int,
                         stack': seq<string>, asmNames': set<string>, pushed: seq<string>)
  {
    && 0 <= j <= |refs|
    && ForeachPushes(refs[..j], filter, exclude, asmNames) == (pushed, asmNames')
    && stack' == stack + pushed
    && (forall n :: n in asmNames' <==> n in asmNames || n in pushed)
    && (forall i :: 0 <= i < |pushed| ==> pushed[i] in refs && Passes(filter, exclude, pushed[i]) && pushed[i] !in asmNames)
    && |asmNames'| == |asmNames| + |pushed|
    && NoCaseDuplicates(asmNames')
    && CoversFirst(asmNames', refs, j, filter, exclude)
  }

  /** One reference that is skipped. */
  lemma PushedSkip(refs: seq<string>, filter: Option<string -> bool>, exclude: Option<string -> bool>,
                   stack: seq<string>, asmNames: set<string>, j: nat,
                   stack': seq<string>, asmNames': set<string>, pushed: seq<string>)
    requires j < |refs| && Pushed(refs, filter, exclude, stack, asmNames, j, stack', asmNames', pushed)
    requires ContainsIgnoreCase(asmNames', refs[j]) || !Passes(filter, exclude, refs[j])
    ensures Pushed(refs, filter, exclude, stack, asmNames, j + 1, stack', asmNames', pushed)
  {
    assert refs[..j + 1][..j] == refs[..j];
  }

  /** One reference that is pushed and added. */
  lemma PushedPush(refs: seq<string>, filter: Option<string -> bool>, exclude: Option<string -> bool>,
                   stack: seq<string>, asmNames: set<string>, j: nat,
                   stack': seq<string>, asmNames': set<string>, pushed: seq<string>)
    requires j < |refs| && Pushed(refs, filter, exclude, stack, asmNames, j, stack', asmNames', pushed)
    requires !ContainsIgnoreCase(asmNames', refs[j]) && Passes(filter, exclude, refs[j])
    ensures Pushed(refs, filter, exclude, stack, asmNames, j + 1, stack' + [refs[j]], asmNames' + {refs[j]}, pushed + [refs[j]])
  {
    var reference := refs[j];
    assert refs[..j + 1][..j] == refs[..j];
    assert reference in asmNames' ==> ContainsIgnoreCase(asmNames', reference);
    NoCaseDuplicatesAdd(asmNames', reference);
    assert reference in asmNames' + {reference} ==> ContainsIgnoreCase(asmNames' + {reference}, reference);
    CoversGrows(asmNames', asmNames' + {reference}, refs, j, filter, exclude);
  }

  /** The foreach over the references of one popped assembly: each reference
      that passes and is not yet contained, ignoring case, is pushed and added. */
  method PushReferences(refs: seq<string>, filter: Option<string -> bool>, exclude: Option<string -> bool>, stack: seq<string>, asmNames: set<string>)
    returns (stack': seq<string>, asmNames': set<string>, ghost pushed: seq<string>)
    requires NoCaseDuplicates(asmNames)
    ensures Pushed(refs, filter, exclude, stack, asmNames, |refs|, stack', asmNames', pushed)
  {
    stack', asmNames', pushed := stack, asmNames, [];
    for j := 0 to |refs|
      invariant Pushed(refs, filter, exclude, stack, asmNames, j, stack', asmNames', pushed)
    {
      var reference := refs[j];
      if ContainsIgnoreCase(asmNames', reference) || !IsAssemblyIncluded(filter, reference) || IsAssemblyExcluded(exclude, reference) {
        PushedSkip(refs, filter, exclude, stack, asmNames, j, stack', asmNames', pushed);
        continue;
      }
      PushedPush(refs, filter, exclude, stack, asmNames, j, stack', asmNames', pushed);
      stack' := stack' + [reference];
      asmNames' := asmNames' + {reference};
      pushed := pushed + [reference];
    }
  }

  /** What is known of the collected names: loadable, passing, free of
      case-insensitive duplicates, listed by `order`, each discovered. */
  ghost predicate Collected(graph: Graph, seeds: seq<string>, filter: Option<string -> bool>, exclude: Option<string -> bool>,
                            stack: seq<string>, asmNames: set<string>, order: seq<string>, popped: set<string>)
  {
    && (forall i :: 0 <= i < |stack| ==> stack[i] in graph)
    && asmNames <= graph.Keys && popped <= graph.Keys
    && (forall n :: n in asmNames ==> Passes(filter, exclude, n))
    && NoCaseDuplicates(asmNames)
    && (forall n :: n in asmNames <==> n in order)
    && (forall i :: 0 <= i < |order| ==> Discovered(graph, seeds, order, i))
  }

  /** The references of every popped name but the pending ones are covered,
      and every popped name that passes is contained. */
  ghost predicate Expanded(graph: Graph, filter: Option<string -> bool>, exclude: Option<string -> bool>,
                           asmNames: set<string>, popped: set<string>, pending: set<string>)
    requires popped <= graph.Keys
  {
    && (forall a :: a in popped && a !in pending ==> Covers(asmNames, graph[a], filter, exclude))
    && (forall a :: a in popped && Passes(filter, exclude, a) ==> ContainsIgnoreCase(asmNames, a))
  }

  /** Every seed and every collected name has been popped or is stacked; only
      seeds and collected names are popped or stacked; pops are bounded. */
  ghost predicate Stacked(seeds: seq<string>, stack: seq<string>, asmNames: set<string>, popped: set<string>, pops: nat)
  {
    && (forall s :: s in seeds ==> s in popped || s in stack)
    && (forall n :: n in asmNames ==> n in popped || n in stack)
    && (forall a :: a in popped ==> a in seeds || a in asmNames)
    && (forall i :: 0 <= i < |stack| ==> stack[i] in seeds || stack[i] in asmNames)
    && pops + |stack| <= |seeds| + |asmNames|
  }

  /** The loop invariant of GetAssemblies. `popped` (ghost) holds the names
      popped so far; the references of those in `pending` may not yet have
      been walked. */
  ghost predicate Walk(graph: Graph, seeds: seq<string>, filter: Option<string -> bool>, exclude: Option<string -> bool>,
                       stack: seq<string>, asmNames: set<string>, order: seq<string>, popped: set<string>, pops: nat,
                       pending: set<string>)
  {
    && Collected(graph, seeds, filter, exclude, stack, asmNames, order, popped)
    && Expanded(graph, filter, exclude, asmNames, popped, pending)
    && Stacked(seeds, stack, asmNames, popped, pops)
  }

  lemma PopCollected(graph: Graph, seeds: seq<string>, filter: Option<string -> bool>, exclude: Option<string -> bool>,
                     stack: seq<string>, asmNames: set<string>, order: seq<string>, popped: set<string>, add: bool)
    requires stack != [] && Collected(graph, seeds, filter, exclude, stack, asmNames, order, popped)
    requires forall i :: 0 <= i < |stack| ==> stack[i] in seeds || stack[i] in asmNames
    requires add <==> !ContainsIgnoreCase(asmNames, stack[|stack| - 1]) && Passes(filter, exclude, stack[|stack| - 1])
    ensures var asm := stack[|stack| - 1];
            Collected(graph, seeds, filter, exclude, stack[..|stack| - 1],
                      if add then asmNames + {asm} else asmNames, if add then order + [asm] else order, popped + {asm})
  {
    var asm := stack[|stack| - 1];
    assert asm in graph;
    assert forall i :: 0 <= i < |stack| - 1 ==> stack[..|stack| - 1][i] == stack[i];
    if add {
      NoCaseDuplicatesAdd(asmNames, asm);
      assert asm in asmNames ==> ContainsIgnoreCase(asmNames, asm);
      assert asm in seeds || asm in asmNames;
      DiscoveredAppend(graph, seeds, order, asm, asm);
    }
  }

  lemma PopExpanded(graph: Graph, filter: Option<string -> bool>, exclude: Option<string -> bool>,
                    asmNames: set<string>, popped: set<string>, asm: string, add: bool)
    requires popped <= graph.Keys && asm in graph && Expanded(graph, filter, exclude, asmNames, popped, {})
    requires add <==> !ContainsIgnoreCase(asmNames, asm) && Passes(filter, exclude, asm)
    ensures Expanded(graph, filter, exclude, if add then asmNames + {asm} else asmNames, popped + {asm}, {asm})
  {
    var asmNames' := if add then asmNames + {asm} else asmNames;
    forall a | a in popped ensures Covers(asmNames', graph[a], filter, exclude) {
      CoversGrows(asmNames, asmNames', graph[a], |graph[a]|, filter, exclude);
    }
    forall a | a in popped && Passes(filter, exclude, a) ensures ContainsIgnoreCase(asmNames', a) {
      ContainsIgnoreCaseGrows(asmNames, asmNames', a);
    }
    assert asm in asmNames' ==> ContainsIgnoreCase(asmNames', asm);
  }

  lemma PopStacked(seeds: seq<string>, stack: seq<string>, asmNames: set<string>, popped: set<string>, pops: nat, add: bool)
    requires stack != [] && Stacked(seeds, stack, asmNames, popped, pops)
    requires add ==> stack[|stack| - 1] !in asmNames
    ensures var asm := stack[|stack| - 1];
            Stacked(seeds, stack[..|stack| - 1], if add then asmNames + {asm} else asmNames, popped + {asm}, pops + 1)
  {
    var asm := stack[|stack| - 1];
    var stack' := stack[..|stack| - 1];
    assert forall i :: 0 <= i < |stack'| ==> stack'[i] == stack[i];
    assert forall n :: n in stack ==> n == asm || n in stack' by {
      assert stack == stack' + [asm];
    }
    assert asm in seeds || asm in asmNames by {
      assert stack[|stack| - 1] == asm;
    }
    if add {
      assert |asmNames + {asm}| == |asmNames| + 1;
    }
  }

  /** Popping the top of the stack, and adding it when it passes and is not
      yet contained, keeps the invariant, with the popped name pending. */
  lemma PopStep(graph: Graph, seeds: seq<string>, filter: Option<string -> bool>, exclude: Option<string -> bool>,
                stack: seq<string>, asmNames: set<string>, order: seq<string>, popped: set<string>, pops: nat)
    requires stack != [] && Walk(graph, seeds, filter, exclude, stack, asmNames, order, popped, pops, {})
    ensures var asm := stack[|stack| - 1];
            var add := !ContainsIgnoreCase(asmNames, asm) && Passes(filter, exclude, asm);
            Walk(graph, seeds, filter, exclude, stack[..|stack| - 1],
                 if add then asmNames + {asm} else asmNames, if add then order + [asm] else order,
                 popped + {asm}, pops + 1, {asm})
  {
    var asm := stack[|stack| - 1];
    var add := !ContainsIgnoreCase(asmNames, asm) && Passes(filter, exclude, asm);
    PopCollected(graph, seeds, filter, exclude, stack, asmNames, order, popped, add);
    assert asm in graph;
    PopExpanded(graph, filter, exclude, asmNames, popped, asm, add);
    assert asm in asmNames ==> ContainsIgnoreCase(asmNames, asm);
    PopStacked(seeds, stack, asmNames, popped, pops, add);
  }

  /** Walking the references of the pending name keeps the invariant, with
      nothing pending. */
  lemma PushStep(graph: Graph, seeds: seq<string>, filter: Option<string -> bool>, exclude: Option<string -> bool>,
                 stack: seq<string>, asmNames: set<string>, order: seq<string>, popped: set<string>, pops: nat,
                 asm: string, stack': seq<string>, asmNames': set<string>, pushed: seq<string>)
    requires Closed(graph)
    requires Walk(graph, seeds, filter, exclude, stack, asmNames, order, popped, pops, {asm}) && asm in popped
    requires Pushed(graph[asm], filter, exclude, stack, asmNames, |graph[asm]|, stack', asmNames', pushed)
    ensures Walk(graph, seeds, filter, exclude, stack', asmNames', order + pushed, popped, pops, {})
  {
    assert forall i :: 0 <= i < |pushed| ==> pushed[i] in graph;
    DiscoveredAppendAll(graph, seeds, order, asm, pushed);
    forall a | a in popped && a != asm ensures Covers(asmNames', graph[a], filter, exclude) {
      CoversGrows(asmNames, asmNames', graph[a], |graph[a]|, filter, exclude);
    }
    forall a | a in popped && Passes(filter, exclude, a) ensures ContainsIgnoreCase(asmNames', a) {
      ContainsIgnoreCaseGrows(asmNames, asmNames', a);
    }
  }

  /** The walk starts with the seeds stacked and nothing collected. */
  lemma WalkStart(graph: Graph, seeds: seq<string>, filter: Option<string -> bool>, exclude: Option<string -> bool>)
    requires forall i :: 0 <= i < |seeds| ==> seeds[i] in graph
    ensures Walk(graph, seeds, filter, exclude, seeds, {}, [], {}, 0, {})
  {
  }

  /** A name that is loadable, new and now collected makes the set of names
      still to collect smaller. */
  lemma WalkShrinks(graph: Graph, names0: set<string>, asmNames: set<string>, x: string)
    requires names0 <= asmNames && x in graph && x !in names0 && x in asmNames
    ensures graph.Keys - asmNames < graph.Keys - names0
  {
    assert x in graph.Keys - names0;
  }

  /** When the stack is empty, every seed and every collected name has been
      popped and its references walked. */
  lemma WalkDone(graph: Graph, seeds: seq<string>, filter: Option<string -> bool>, exclude: Option<string -> bool>,
                 asmNames: set<string>, order: seq<string>, popped: set<string>, pops: nat)
    requires Walk(graph, seeds, filter, exclude, [], asmNames, order, popped, pops, {})
    ensures asmNames <= graph.Keys
    ensures forall n :: n in asmNames ==> IsAssemblyIncluded(filter, n) && !IsAssemblyExcluded(exclude, n)
    ensures NoCaseDuplicates(asmNames)
    ensures forall n :: n in asmNames <==> n in order
    ensures forall i :: 0 <= i < |order| ==> Discovered(graph, seeds, order, i)
    ensures forall a :: a in seeds || a in asmNames ==> a in graph && Covers(asmNames, graph[a], filter, exclude)
    ensures forall s :: s in seeds && Passes(filter, exclude, s) ==> ContainsIgnoreCase(asmNames, s)
    ensures pops <= |seeds| + |asmNames|
  {
  }

  /** GetAssemblies. The stack is a sequence whose last element is its top;
      the loop runs while it is not empty, which for a non-empty initial stack
      is the source's do-while. Alongside the set, `order` (ghost) lists the
      names in the order they were added and `pops` counts the pops. */
  method GetAssemblies(graph: Graph, startingAssemblies: seq<string>, filter: Option<string -> bool>, exclude: Option<string -> bool>)
    returns (asmNames: set<string>, ghost order: seq<string>, ghost pops: nat)
    requires startingAssemblies != []
    requires Closed(graph)
    requires forall i :: 0 <= i < |startingAssemblies| ==> startingAssemblies[i] in graph
    ensures asmNames <= graph.Keys
    ensures forall n :: n in asmNames ==> IsAssemblyIncluded(filter, n) && !IsAssemblyExcluded(exclude, n)
    ensures NoCaseDuplicates(asmNames)
    ensures forall n :: n in asmNames <==> n in order
    ensures forall i :: 0 <= i < |order| ==> Discovered(graph, startingAssemblies, order, i)
    ensures forall a :: a in startingAssemblies || a in asmNames ==> a in graph && Covers(asmNames, graph[a], filter, exclude)
    ensures forall s :: s in startingAssemblies && Passes(filter, exclude, s) ==> ContainsIgnoreCase(asmNames, s)
    ensures pops <= |startingAssemblies| + |asmNames|
  {
    var stack := startingAssemblies;
    asmNames := {};
    order := [];
    pops := 0;
    ghost var popped: set<string> := {};
    WalkStart(graph, startingAssemblies, filter, exclude);
    while stack != []
      invariant Walk(graph, startingAssemblies, filter, exclude, stack, asmNames, order, popped, pops, {})
      decreases graph.Keys - asmNames, |stack|
    {
      ghost var names0 := asmNames;
      PopStep(graph, startingAssemblies, filter, exclude, stack, asmNames, order, popped, pops);
      var asm := stack[|stack| - 1];
      stack := stack[..|stack| - 1];
      pops := pops + 1;
      if !ContainsIgnoreCase(asmNames, asm) && IsAssemblyIncluded(filter, asm) && !IsAssemblyExcluded(exclude, asm) {
        asmNames := asmNames + {asm};
        order := order + [asm];
      }
      popped := popped + {asm};

      var refs := graph[asm];
      ghost var stack1, names1 := stack, asmNames;
      ghost var pushed;
      stack, asmNames, pushed := PushReferences(refs, filter, exclude, stack, asmNames);
      PushStep(graph, startingAssemblies, filter, exclude, stack1, names1, order, popped, pops, asm, stack, asmNames, pushed);
      order := order + pushed;
      if names1 != names0 {
        WalkShrinks(graph, names0, asmNames, asm);
      } else if pushed != [] {
        WalkShrinks(graph, names0, asmNames, pushed[0]);
      }
    }
    WalkDone(graph, startingAssemblies, filter, exclude, asmNames, order, popped, pops);
  }


  /** The seeds pushed before discovery: the calling and then the entry
      assembly when no starting assembly is named (so the entry assembly is
      popped first), otherwise the named one. */
  function StartingAssemblies(startingAssembly: Option<string>, callingAssembly: string, entryAssembly: string): (seeds: seq<string>)
    ensures 1 <= |seeds| <= 2
    ensures IsNullOrWhiteSpace(startingAssembly) ==> seeds[|seeds| - 1] == entryAssembly && callingAssembly in seeds
    ensures !IsNullOrWhiteSpace(startingAssembly) ==> forall s :: s in seeds ==> s == startingAssembly.value
  {
    if IsNullOrWhiteSpace(startingAssembly) then [callingAssembly, entryAssembly] else [startingAssembly.value]
  }

  /** The include predicate: the name starts with the assembly prefix, ignoring case. */
  function IncludeFilter(assemblyPrefix: string): string -> bool
  {
    name => StartsWithIgnoreCase(name, assemblyPrefix)
  }

  /** Whether some excluded prefix starts the name, ignoring case; never when
      there is no list of excluded prefixes. */
  predicate ExcludedByPrefixes(excludedPrefixes: Option<seq<string>>, name: string)
  {
    excludedPrefixes.Some? && exists i :: 0 <= i < |excludedPrefixes.value| && StartsWithIgnoreCase(name, excludedPrefixes.value[i])
  }

  /** The exclude predicate. */
  function ExcludeFilter(excludedPrefixes: Option<seq<string>>): string -> bool
  {
    name => ExcludedByPrefixes(excludedPrefixes, name)
  }

  /** A null include predicate includes nothing; the one configured includes
      exactly the names that start with the prefix, ignoring case, among them
      the prefix itself, and a blank prefix includes every name. */
  lemma IncludeFilterCases(assemblyPrefix: string, name: string)
    ensures !IsAssemblyIncluded(None, name)
    ensures IsAssemblyIncluded(Some(IncludeFilter(assemblyPrefix)), name) <==> StartsWithIgnoreCase(name, assemblyPrefix)
    ensures IsAssemblyIncluded(Some(IncludeFilter(assemblyPrefix)), assemblyPrefix)
    ensures IsAssemblyIncluded(Some(IncludeFilter([])), name)
  {
    assert assemblyPrefix[..|assemblyPrefix|] == assemblyPrefix;
  }

  /** A null exclude predicate excludes nothing, nor does a null or empty list
      of prefixes; the one configured excludes a name exactly when some listed
      prefix starts it, ignoring case, so a listed prefix is itself excluded. */
  lemma ExcludeFilterCases(excludedPrefixes: Option<seq<string>>, name: string)
    ensures !IsAssemblyExcluded(None, name)
    ensures IsAssemblyExcluded(Some(ExcludeFilter(excludedPrefixes)), name) <==> ExcludedByPrefixes(excludedPrefixes, name)
    ensures excludedPrefixes.None? || excludedPrefixes == Some([]) ==> !ExcludedByPrefixes(excludedPrefixes, name)
    ensures excludedPrefixes.Some? && name in excludedPrefixes.value ==> ExcludedByPrefixes(excludedPrefixes, name)
  {
    if excludedPrefixes.Some? && name in excludedPrefixes.value {
      var i :| 0 <= i < |excludedPrefixes.value| && excludedPrefixes.value[i] == name;
      assert name[..|name|] == name;
      assert StartsWithIgnoreCase(name, excludedPrefixes.value[i]);
    }
  }

  /** Whether a name is excluded does not depend on how it is cased. */
  lemma ExcludedByPrefixesCongruent(excludedPrefixes: Option<seq<string>>, a: string, b: string)
    requires EqualsIgnoreCase(a, b)
    ensures ExcludedByPrefixes(excludedPrefixes, a) <==> ExcludedByPrefixes(excludedPrefixes, b)
  {
    if excludedPrefixes.Some? {
      var xs := excludedPrefixes.value;
      forall i | 0 <= i < |xs| ensures StartsWithIgnoreCase(a, xs[i]) <==> StartsWithIgnoreCase(b, xs[i]) {
        StartsWithIgnoreCaseCongruent(a, b, xs[i]);
      }
    }
  }

  /** A name contained, ignoring case, in a set of names that all start with
      the prefix and are not excluded, itself starts with the prefix and is
      not excluded. */
  lemma AllowedNameMatches(allowed: set<string>, assemblyPrefix: string, excludedPrefixes: Option<seq<string>>, name: string)
    requires forall n :: n in allowed ==> StartsWithIgnoreCase(n, assemblyPrefix) && !ExcludedByPrefixes(excludedPrefixes, n)
    requires ContainsIgnoreCase(allowed, name)
    ensures StartsWithIgnoreCase(name, assemblyPrefix) && !ExcludedByPrefixes(excludedPrefixes, name)
  {
    var n :| n in allowed && EqualsIgnoreCase(n, name);
    StartsWithIgnoreCaseCongruent(n, name, assemblyPrefix);
    ExcludedByPrefixesCongruent(excludedPrefixes, n, name);
  }

  /** WithCallerInfo(assemblyPrefix, ...): seed, discover the allowed
      assemblies and build the enricher. The calling and entry assemblies,
      which come from the runtime, are parameters. */
  method WithCallerInfo(graph: Graph, includeFileInfo: bool, assemblyPrefix: string, prefix: Option<string>,
                        startingAssembly: Option<string>, filePathDepth: int, excludedPrefixes: Option<seq<string>>,
                        callingAssembly: string, entryAssembly: string)
    returns (e: Enricher, ghost order: seq<string>)
    requires Closed(graph)
    requires forall s :: s in StartingAssemblies(startingAssembly, callingAssembly, entryAssembly) ==> s in graph
    ensures e == NewEnricher(includeFileInfo, e.allowedAssemblies, prefix, filePathDepth)
    ensures e.allowedAssemblies <= graph.Keys
    ensures forall n :: n in e.allowedAssemblies ==> StartsWithIgnoreCase(n, assemblyPrefix) && !ExcludedByPrefixes(excludedPrefixes, n)
    ensures NoCaseDuplicates(e.allowedAssemblies)
    ensures forall n :: n in e.allowedAssemblies <==> n in order
    ensures forall i :: 0 <= i < |order| ==> Discovered(graph, StartingAssemblies(startingAssembly, callingAssembly, entryAssembly), order, i)
    ensures forall s :: s in StartingAssemblies(startingAssembly, callingAssembly, entryAssembly) &&
                        StartsWithIgnoreCase(s, assemblyPrefix) && !ExcludedByPrefixes(excludedPrefixes, s) ==>
              ContainsIgnoreCase(e.allowedAssemblies, s)
    ensures forall a :: a in StartingAssemblies(startingAssembly, callingAssembly, entryAssembly) || a in e.allowedAssemblies ==>
              a in graph && Covers(e.allowedAssemblies, graph[a], Some(IncludeFilter(assemblyPrefix)), Some(ExcludeFilter(excludedPrefixes)))
    ensures forall f: Frame :: IsInAllowedAssembly(f, e.allowedAssemblies) ==>
              StartsWithIgnoreCase(f.declaringType.value.assemblyName, assemblyPrefix) &&
              !ExcludedByPrefixes(excludedPrefixes, f.declaringType.value.assemblyName)
  {
    var seeds := StartingAssemblies(startingAssembly, callingAssembly, entryAssembly);
    var referencedAssemblies; ghost var pops;
    referencedAssemblies, order, pops := GetAssemblies(graph, seeds, Some(IncludeFilter(assemblyPrefix)), Some(ExcludeFilter(excludedPrefixes)));
    e := NewEnricher(includeFileInfo, referencedAssemblies, prefix, filePathDepth);
    forall f: Frame | IsInAllowedAssembly(f, e.allowedAssemblies)
      ensures StartsWithIgnoreCase(f.declaringType.value.assemblyName, assemblyPrefix) &&
              !ExcludedByPrefixes(excludedPrefixes, f.declaringType.value.assemblyName)
    {
      AllowedNameMatches(e.allowedAssemblies, assemblyPrefix, excludedPrefixes, f.declaringType.value.assemblyName);
    }
  }

  /** When no allowed name is excluded and every frame's assembly is, no frame
      is reported and no prefixed key is added to the event. */
  lemma ExcludedCallersNotReported(e: Enricher, excludedPrefixes: Option<seq<string>>, stack: seq<Frame>, props: map<string, Value>)
    requires forall n :: n in e.allowedAssemblies ==> !ExcludedByPrefixes(excludedPrefixes, n)
    requires forall i :: 0 <= i < |stack| && stack[i].declaringType.Some? ==>
               ExcludedByPrefixes(excludedPrefixes, stack[i].declaringType.value.assemblyName)
    ensures CallerFrame(e, stack).None?
    ensures forall f :: PropertyKey(e.prefix, f) in AddAllIfAbsent(props, Offered(e, stack)) <==> PropertyKey(e.prefix, f) in props
  {
    forall i | 0 <= i < |stack| ensures !Selects(e, stack[i]) {
      if IsInAllowedAssembly(stack[i], e.allowedAssemblies) {
        var name := stack[i].declaringType.value.assemblyName;
        var n :| n in e.allowedAssemblies && EqualsIgnoreCase(n, name);
        ExcludedByPrefixesCongruent(excludedPrefixes, n, name);
      }
    }
    KeysDistinct(e.prefix);
    forall f ensures PropertyKey(e.prefix, f) in AddAllIfAbsent(props, Offered(e, stack)) <==> PropertyKey(e.prefix, f) in props {
      AddAllIfAbsentOnly(props, Offered(e, stack), PropertyKey(e.prefix, f));
    }
  }
}
