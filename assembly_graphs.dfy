/** The assembly-reference graph both discovery routines walk. Loading an
    assembly and listing its references are reflection calls; here the
    assemblies that can be loaded are the keys of a map from an assembly's
    simple name to the simple names of the assemblies it references. */
module AssemblyGraphs {

  type Graph = map<string, seq<string>>

  /** Every referenced assembly can be loaded: Assembly.Load never fails. */
  predicate Closed(graph: Graph)
  {
    forall a, i :: a in graph && 0 <= i < |graph[a]| ==> graph[a][i] in graph
  }
}
