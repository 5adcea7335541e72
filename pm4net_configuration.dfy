/** Assembly discovery for the pm4net enricher
    (Serilog.Enrichers.pm4net/EnricherConfiguration.cs): starting from the
    calling assembly, a depth-first walk over assembly references collects
    the names of the assemblies it reaches through references that pass a
    filter. The result is a plain list: every reference walked into is listed
    once when it is pushed and once more when it is popped. */
module Pm4NetConfiguration {
  import opened Common
  import opened AssemblyGraphs
  import opened Pm4NetEnricher

  /** Every name of `refs` that passes the filter is listed. */
  predicate Covers(asmNames: seq<string>, refs: seq<string>, n: int, filter: string -> bool)
  {
    forall k :: 0 <= k < n && k < |refs| && filter(refs[k]) ==> refs[k] in asmNames
  }

  /** What the foreach pushes and appends, in order, over the references
      `refs`, starting from the list `asmNames`: a reference is pushed when it
      passes the filter and is not yet listed, counting those pushed before. */
  function ForeachPushes(refs: seq<string>, filter: string -> bool, asmNames: seq<string>): seq<string>
  {
    if refs == [] then []
    else
      var pushed := ForeachPushes(refs[..|refs| - 1], filter, asmNames);
      var reference := refs[|refs| - 1];
      if filter(reference) && reference !in asmNames + pushed then pushed + [reference] else pushed
  }

  /** The foreach keeps the order of the references: what it pushes for the
      first `j` of them comes first, before anything pushed for later ones. */
  lemma {:induction false} ForeachPushesPrefix(refs: seq<string>, filter: string -> bool, asmNames: seq<string>, j: nat)
    requires j <= |refs|
    ensures ForeachPushes(refs[..j], filter, asmNames) <= ForeachPushes(refs, filter, asmNames)
    decreases |refs|
  {
    if j < |refs| {
      ForeachPushesPrefix(refs[..|refs| - 1], filter, asmNames, j);
      assert refs[..|refs| - 1][..j] == refs[..j];
    } else {
      assert refs[..j] == refs;
    }
  }

  /** What the foreach over `refs` has done after its first `j` references,
      starting from `stack` and `asmNames`: the names it pushed, in order, are
      `pushed`, as ForeachPushes gives them; each passed the filter, was not
      listed before, and was appended to the list. */
  ghost predicate Pushed(refs: seq<string>, filter: string -> bool, stack: seq<string>, asmNames: seq<string>, j: int,
                         stack': seq<string>, asmNames': seq<string>, pushed: seq<string>)
  {
    && 0 <= j <= |refs|
    && pushed == ForeachPushes(refs[..j], filter, asmNames)
    && stack' == stack + pushed
    && asmNames' == asmNames + pushed
    && (forall i :: 0 <= i < |pushed| ==> pushed[i] in refs && filter(pushed[i]) && pushed[i] !in asmNames)
    && (forall i, k :: 0 <= i < k < |pushed| ==> pushed[i] != pushed[k])
    && Covers(asmNames', refs, j, filter)
  }

  lemma PushedSkip(refs: seq<string>, filter: string -> bool, stack: seq<string>, asmNames: seq<string>, j: nat,
                   stack': seq<string>, asmNames': seq<string>, pushed: seq<string>)
    requires j < |refs| && Pushed(refs, filter, stack, asmNames, j, stack', asmNames', pushed)
    requires !filter(refs[j]) || refs[j] in asmNames'
    ensures Pushed(refs, filter, stack, asmNames, j + 1, stack', asmNames', pushed)
  {
    assert refs[..j + 1][..j] == refs[..j];
  }

  lemma PushedPush(refs: seq<string>, filter: string -> bool, stack: seq<string>, asmNames: seq<string>, j: nat,
                   stack': seq<string>, asmNames': seq<string>, pushed: seq<string>)
    requires j < |refs| && Pushed(refs, filter, stack, asmNames, j, stack', asmNames', pushed)
    requires filter(refs[j]) && refs[j] !in asmNames'
    ensures Pushed(refs, filter, stack, asmNames, j + 1, stack' + [refs[j]], asmNames' + [refs[j]], pushed + [refs[j]])
  {
    var reference := refs[j];
    assert refs[..j + 1][..j] == refs[..j];
    assert forall i :: 0 <= i < |pushed| ==> pushed[i] == asmNames'[|asmNames| + i];
    assert forall n :: n in asmNames ==> n in asmNames';
  }

  /** The foreach over the references of one popped assembly: each reference
      that passes the filter and is not yet listed is pushed and appended. */
  method PushReferences(refs: seq<string>, filter: string -> bool, stack: seq<string>, asmNames: seq<string>)
    returns (stack': seq<string>, asmNames': seq<string>, ghost pushed: seq<string>)
    ensures Pushed(refs, filter, stack, asmNames, |refs|, stack', asmNames', pushed)
  {
    stack', asmNames', pushed := stack, asmNames, [];
    for j := 0 to |refs|
      invariant Pushed(refs, filter, stack, asmNames, j, stack', asmNames', pushed)
    {
      var reference := refs[j];
      if !filter(reference) {
        PushedSkip(refs, filter, stack, asmNames, j, stack', asmNames', pushed);
        continue;
      }
      if reference !in asmNames' {
        PushedPush(refs, filter, stack, asmNames, j, stack', asmNames', pushed);
        stack' := stack' + [reference];
        asmNames' := asmNames' + [reference];
        pushed := pushed + [reference];
      } else {
        PushedSkip(refs, filter, stack, asmNames, j, stack', asmNames', pushed);
      }
    }
  }

  /** The `i`th name repeats an earlier one or is referenced by an earlier one. */
  ghost predicate DiscoveredAt(graph: Graph, asmNames: seq<string>, i: int)
    requires 0 <= i < |asmNames|
  {
    exists j :: 0 <= j < i && asmNames[j] in graph && (asmNames[j] == asmNames[i] || asmNames[i] in graph[asmNames[j]])
  }

  /** Every name after the first repeats an earlier one or is referenced by an
      earlier one. */
  ghost predicate Discovered(graph: Graph, asmNames: seq<string>)
  {
    forall i :: 0 < i < |asmNames| ==> DiscoveredAt(graph, asmNames, i)
  }

  /** The shape of the list: the start assembly first, every other listed
      name passing the filter, every name loadable. */
  ghost predicate Shape(graph: Graph, start: string, filter: string -> bool, stack: seq<string>, asmNames: seq<string>, seen: set<string>)
  {
    && (forall n :: n in stack ==> n in graph)
    && (forall n :: n in asmNames ==> n in graph)
    && (forall n :: n in seen <==> n in asmNames)
    && (asmNames == [] ==> stack == [start])
    && (asmNames != [] ==> asmNames[0] == start)
    && (forall n :: n in asmNames && n != start ==> filter(n))
  }

  /** The start assembly is listed or stacked once; every other listed name is
      listed or stacked twice in all; every stacked name but the start is listed. */
  ghost predicate Counts(start: string, stack: seq<string>, asmNames: seq<string>)
  {
    && multiset(asmNames)[start] + multiset(stack)[start] == 1
    && (forall n :: n in asmNames && n != start ==> multiset(asmNames)[n] + multiset(stack)[n] == 2)
    && (forall n :: n in stack ==> n in asmNames || n == start)
  }

  /** Every listed name has been popped or is on the stack; the references of
      every popped name but the pending ones have been walked. */
  ghost predicate Walked(graph: Graph, filter: string -> bool, stack: seq<string>, asmNames: seq<string>, popped: set<string>, pending: set<string>)
  {
    && (forall a :: a in popped ==> a in asmNames && a in graph)
    && (forall n :: n in asmNames ==> n in popped || n in stack)
    && (forall a :: a in popped && a !in pending ==> Covers(asmNames, graph[a], |graph[a]|, filter))
  }

  /** The loop invariant of GetAssemblies. `seen` (ghost) is the set of listed
      names and `popped` (ghost) the set of names popped so far; the
      references of those in `pending` may not yet have been walked. */
  ghost predicate Listing(graph: Graph, start: string, filter: string -> bool, stack: seq<string>, asmNames: seq<string>,
                          seen: set<string>, popped: set<string>, pending: set<string>)
  {
    && Shape(graph, start, filter, stack, asmNames, seen)
    && Counts(start, stack, asmNames)
    && Discovered(graph, asmNames)
    && Walked(graph, filter, stack, asmNames, popped, pending)
  }

  lemma PopShape(graph: Graph, start: string, filter: string -> bool, stack: seq<string>, asmNames: seq<string>, seen: set<string>)
    requires stack != [] && Shape(graph, start, filter, stack, asmNames, seen)
    requires forall n :: n in stack ==> n in asmNames || n == start
    ensures var asm := stack[|stack| - 1];
      Shape(graph, start, filter, stack[..|stack| - 1], asmNames + [asm], seen + {asm})
  {
    var asm := stack[|stack| - 1];
    assert forall n :: n in stack[..|stack| - 1] ==> n in stack;
    assert asm in stack;
  }

  lemma PopCounts(start: string, stack: seq<string>, asmNames: seq<string>)
    requires stack != [] && Counts(start, stack, asmNames)
    requires asmNames != [] ==> asmNames[0] == start
    ensures var asm := stack[|stack| - 1];
      Counts(start, stack[..|stack| - 1], asmNames + [asm])
  {
    var asm := stack[|stack| - 1];
    var stack' := stack[..|stack| - 1];
    assert stack == stack' + [asm];
    assert multiset(stack) == multiset(stack') + multiset{asm};
    assert multiset(asmNames + [asm]) == multiset(asmNames) + multiset{asm};
    assert forall n :: n in stack' ==> n in stack;
  }

  lemma PopDiscovered(graph: Graph, start: string, asmNames: seq<string>, asm: string)
    requires Discovered(graph, asmNames) && asm in graph
    requires asmNames == [] || asm in asmNames
    ensures Discovered(graph, asmNames + [asm])
  {
    var asmNames' := asmNames + [asm];
    forall i | 0 < i < |asmNames'| ensures DiscoveredAt(graph, asmNames', i) {
      if i < |asmNames| {
        assert DiscoveredAt(graph, asmNames, i);
        var j :| 0 <= j < i && asmNames[j] in graph && (asmNames[j] == asmNames[i] || asmNames[i] in graph[asmNames[j]]);
        assert asmNames'[j] == asmNames[j] && asmNames'[i] == asmNames[i];
      } else {
        var j :| 0 <= j < |asmNames| && asmNames[j] == asm;
        assert asmNames'[j] == asm && asmNames'[i] == asm;
      }
    }
  }

  lemma PopWalked(graph: Graph, filter: string -> bool, stack: seq<string>, asmNames: seq<string>, popped: set<string>)
    requires stack != [] && stack[|stack| - 1] in graph && Walked(graph, filter, stack, asmNames, popped, {})
    ensures var asm := stack[|stack| - 1];
      Walked(graph, filter, stack[..|stack| - 1], asmNames + [asm], popped + {asm}, {asm})
  {
    var asm := stack[|stack| - 1];
    var stack', asmNames' := stack[..|stack| - 1], asmNames + [asm];
    assert forall n :: n in stack ==> n == asm || n in stack' by {
      assert stack == stack' + [asm];
    }
    forall a | a in popped ensures Covers(asmNames', graph[a], |graph[a]|, filter) {
      assert Covers(asmNames, graph[a], |graph[a]|, filter);
    }
  }

  /** Popping the top of the stack and listing it keeps the invariant, with
      the popped name pending. */
  lemma PopStep(graph: Graph, start: string, filter: string -> bool, stack: seq<string>, asmNames: seq<string>,
                seen: set<string>, popped: set<string>)
    requires stack != [] && Listing(graph, start, filter, stack, asmNames, seen, popped, {})
    ensures var asm := stack[|stack| - 1];
      Listing(graph, start, filter, stack[..|stack| - 1], asmNames + [asm], seen + {asm}, popped + {asm}, {asm})
  {
    var asm := stack[|stack| - 1];
    PopShape(graph, start, filter, stack, asmNames, seen);
    PopCounts(start, stack, asmNames);
    assert asm in stack;
    assert multiset(stack)[asm] >= 1;
    assert asm == start ==> start !in asmNames;
    PopDiscovered(graph, start, asmNames, asm);
    PopWalked(graph, filter, stack, asmNames, popped);
  }

  lemma PushShape(graph: Graph, start: string, filter: string -> bool, stack: seq<string>, asmNames: seq<string>, seen: set<string>,
                  stack': seq<string>, asmNames': seq<string>, pushed: seq<string>)
    requires Shape(graph, start, filter, stack, asmNames, seen) && asmNames != []
    requires stack' == stack + pushed && asmNames' == asmNames + pushed
    requires forall i :: 0 <= i < |pushed| ==> pushed[i] in graph && filter(pushed[i]) && pushed[i] !in asmNames
    ensures Shape(graph, start, filter, stack', asmNames', seen + (set n | n in pushed))
  {
  }

  lemma PushCounts(start: string, stack: seq<string>, asmNames: seq<string>, stack': seq<string>, asmNames': seq<string>, pushed: seq<string>)
    requires Counts(start, stack, asmNames) && start in asmNames
    requires stack' == stack + pushed && asmNames' == asmNames + pushed
    requires forall i :: 0 <= i < |pushed| ==> pushed[i] !in asmNames
    requires forall i, k :: 0 <= i < k < |pushed| ==> pushed[i] != pushed[k]
    ensures Counts(start, stack', asmNames')
  {
    assert multiset(stack') == multiset(stack) + multiset(pushed);
    assert multiset(asmNames') == multiset(asmNames) + multiset(pushed);
    forall n | n in pushed ensures multiset(pushed)[n] == 1 && n !in stack && n != start {
      var i :| 0 <= i < |pushed| && pushed[i] == n;
      assert pushed == pushed[..i] + [n] + pushed[i + 1..];
      assert n !in pushed[..i] && n !in pushed[i + 1..];
    }
    assert start !in pushed;
  }

  lemma PushDiscovered(graph: Graph, asmNames: seq<string>, asm: string, pushed: seq<string>)
    requires Discovered(graph, asmNames) && asm in asmNames && asm in graph
    requires forall i :: 0 <= i < |pushed| ==> pushed[i] in graph[asm]
    ensures Discovered(graph, asmNames + pushed)
  {
    var asmNames' := asmNames + pushed;
    var j :| 0 <= j < |asmNames| && asmNames[j] == asm;
    forall i | 0 < i < |asmNames'| ensures DiscoveredAt(graph, asmNames', i) {
      if i < |asmNames| {
        assert DiscoveredAt(graph, asmNames, i);
        var k :| 0 <= k < i && asmNames[k] in graph && (asmNames[k] == asmNames[i] || asmNames[i] in graph[asmNames[k]]);
        assert asmNames'[k] == asmNames[k] && asmNames'[i] == asmNames[i];
      } else {
        assert asmNames'[i] == pushed[i - |asmNames|];
        assert asmNames'[j] == asm;
      }
    }
  }

  lemma PushWalked(graph: Graph, filter: string -> bool, stack: seq<string>, asmNames: seq<string>, popped: set<string>, asm: string,
                   stack': seq<string>, asmNames': seq<string>, pushed: seq<string>)
    requires Walked(graph, filter, stack, asmNames, popped, {asm}) && asm in popped
    requires stack' == stack + pushed && asmNames' == asmNames + pushed
    requires Covers(asmNames', graph[asm], |graph[asm]|, filter)
    ensures Walked(graph, filter, stack', asmNames', popped, {})
  {
    forall a | a in popped && a != asm ensures Covers(asmNames', graph[a], |graph[a]|, filter) {
      assert Covers(asmNames, graph[a], |graph[a]|, filter);
    }
  }

  /** Walking the references of the pending name keeps the invariant, with
      nothing pending. */
  lemma PushStep(graph: Graph, start: string, filter: string -> bool, stack: seq<string>, asmNames: seq<string>,
                 seen: set<string>, popped: set<string>, asm: string, stack': seq<string>, asmNames': seq<string>, pushed: seq<string>)
    requires Closed(graph)
    requires Listing(graph, start, filter, stack, asmNames, seen, popped, {asm}) && asm in popped
    requires Pushed(graph[asm], filter, stack, asmNames, |graph[asm]|, stack', asmNames', pushed)
    ensures Listing(graph, start, filter, stack', asmNames', seen + (set n | n in pushed), popped, {})
    ensures |stack'| == |stack| + |pushed|
    ensures forall i :: 0 <= i < |pushed| ==> pushed[i] in graph && pushed[i] !in seen
  {
    assert forall i :: 0 <= i < |pushed| ==> pushed[i] in graph;
    PushShape(graph, start, filter, stack, asmNames, seen, stack', asmNames', pushed);
    PushCounts(start, stack, asmNames, stack', asmNames', pushed);
    PushDiscovered(graph, asmNames, asm, pushed);
    PushWalked(graph, filter, stack, asmNames, popped, asm, stack', asmNames', pushed);
  }

  /** The walk starts with the start assembly stacked and nothing listed. */
  lemma ListingStart(graph: Graph, start: string, filter: string -> bool)
    requires start in graph
    ensures Listing(graph, start, filter, [start], [], {}, {}, {})
  {
  }

  /** One iteration lists a new loadable name, or lists nothing new and
      leaves the stack shorter. */
  lemma ListingProgress(graph: Graph, seen0: set<string>, asm: string, pushed: seq<string>, size0: nat, size: nat)
    requires asm in graph
    requires forall i :: 0 <= i < |pushed| ==> pushed[i] in graph && pushed[i] !in seen0 + {asm}
    requires size + 1 == size0 + |pushed|
    ensures var seen := seen0 + {asm} + (set n | n in pushed);
            graph.Keys - seen < graph.Keys - seen0 || (graph.Keys - seen == graph.Keys - seen0 && size < size0)
  {
    var seen := seen0 + {asm} + (set n | n in pushed);
    if asm !in seen0 {
      assert asm in graph.Keys - seen0 && asm !in graph.Keys - seen;
    } else if pushed != [] {
      assert pushed[0] in graph.Keys - seen0 && pushed[0] !in graph.Keys - seen;
    } else {
      assert seen == seen0;
    }
  }

  /** When the stack is empty, every listed name has been popped and its
      references walked. */
  lemma ListingDone(graph: Graph, start: string, filter: string -> bool, asmNames: seq<string>, seen: set<string>, popped: set<string>)
    requires Listing(graph, start, filter, [], asmNames, seen, popped, {})
    ensures asmNames != [] && asmNames[0] == start
    ensures forall n :: n in asmNames ==> n in graph
    ensures forall n :: n in asmNames && n != start ==> filter(n)
    ensures multiset(asmNames)[start] == 1
    ensures forall n :: n in asmNames && n != start ==> multiset(asmNames)[n] == 2
    ensures forall a, k :: a in asmNames && 0 <= k < |graph[a]| && filter(graph[a][k]) ==> graph[a][k] in asmNames
    ensures Discovered(graph, asmNames)
  {
    forall a, k | a in asmNames && 0 <= k < |graph[a]| && filter(graph[a][k]) ensures graph[a][k] in asmNames {
      assert Covers(asmNames, graph[a], |graph[a]|, filter);
    }
  }

  /** GetAssemblies. The stack is a sequence whose last element is its top;
      it starts with the start assembly, so the do-while is a while loop. */
  method GetAssemblies(graph: Graph, start: string, filter: string -> bool) returns (asmNames: seq<string>)
    requires Closed(graph) && start in graph
    ensures asmNames != [] && asmNames[0] == start
    ensures forall n :: n in asmNames ==> n in graph
    ensures forall n :: n in asmNames && n != start ==> filter(n)
    ensures multiset(asmNames)[start] == 1
    ensures forall n :: n in asmNames && n != start ==> multiset(asmNames)[n] == 2
    ensures forall a, k :: a in asmNames && 0 <= k < |graph[a]| && filter(graph[a][k]) ==> graph[a][k] in asmNames
    ensures Discovered(graph, asmNames)
  {
    var stack := [start];
    asmNames := [];
    ghost var seen: set<string> := {};
    ghost var popped: set<string> := {};
    ListingStart(graph, start, filter);
    while stack != []
      invariant Listing(graph, start, filter, stack, asmNames, seen, popped, {})
      decreases graph.Keys - seen, |stack|
    {
      ghost var seen0, size0 := seen, |stack|;
      PopStep(graph, start, filter, stack, asmNames, seen, popped);
      var asm := stack[|stack| - 1];
      stack := stack[..|stack| - 1];
      asmNames := asmNames + [asm];
      seen, popped := seen + {asm}, popped + {asm};

      var refs := graph[asm];
      ghost var stack1, names1 := stack, asmNames;
      ghost var pushed;
      stack, asmNames, pushed := PushReferences(refs, filter, stack, asmNames);
      PushStep(graph, start, filter, stack1, names1, seen, popped, asm, stack, asmNames, pushed);
      ListingProgress(graph, seen0, asm, pushed, size0, |stack|);
      seen := seen + set n | n in pushed;
    }
    ListingDone(graph, start, filter, asmNames, seen, popped);
  }


  /** WithPm4Net(assemblyPrefix, ...): discover the allowed assemblies from
      the calling assembly, which comes from the runtime and is a parameter,
      and build the enricher. */
  method WithPm4Net(graph: Graph, includeCallerInfo: bool, includeFileInfo: bool, assemblyPrefix: string, prefix: Option<string>,
                    callingAssembly: string)
    returns (e: Enricher)
    requires Closed(graph) && callingAssembly in graph
    ensures e == NewEnricher(includeCallerInfo, includeFileInfo, Some(e.allowedAssemblies), prefix)
    ensures forall n :: n in e.allowedAssemblies ==> n in graph
    ensures e.allowedAssemblies != [] && e.allowedAssemblies[0] == callingAssembly
    ensures forall n :: n in e.allowedAssemblies && n != callingAssembly ==> StartsWithIgnoreCase(n, assemblyPrefix)
    ensures forall a, k :: a in e.allowedAssemblies && 0 <= k < |graph[a]| && StartsWithIgnoreCase(graph[a][k], assemblyPrefix) ==>
              graph[a][k] in e.allowedAssemblies
    ensures multiset(e.allowedAssemblies)[callingAssembly] == 1
    ensures forall n :: n in e.allowedAssemblies && n != callingAssembly ==> multiset(e.allowedAssemblies)[n] == 2
    ensures Discovered(graph, e.allowedAssemblies)
  {
    var referencedAssemblies := GetAssemblies(graph, callingAssembly, name => StartsWithIgnoreCase(name, assemblyPrefix));
    e := NewEnricher(includeCallerInfo, includeFileInfo, Some(referencedAssemblies), prefix);
  }
}
