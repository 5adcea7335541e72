# Serilog caller-information enrichers, modelled in Dafny

The repository ships two versions of a Serilog enricher. Each version adds to
every log event the method and namespace of the code that logged it, and
optionally that code's source file, line and column:

- `Serilog.Enrichers.CallerInfo`, the current version;
- `Serilog.Enrichers.pm4net`, its predecessor.

Each version has two parts, and this project models both parts of both versions.

- **The enricher.** It finds the first stack frame that has a method whose
  declaring type lives in an allowed assembly. The allowed names are
  compared ignoring case. The enricher then writes `{prefix}Method`,
  `{prefix}Namespace` and, if asked, `{prefix}SourceFile`,
  `{prefix}LineNumber` and `{prefix}ColumnNumber` into the event. It uses
  add-if-absent, so a property already on the event is never replaced.
  The CallerInfo version also writes a marker property that holds the
  prefix. It can shorten the source path to its last few segments
  (`GetCleanFileName`).
- **Assembly discovery.** This is a depth-first walk, over a stack, of the
  assembly-reference graph. It collects the names of the assemblies whose
  names start with a given prefix, ignoring case. The CallerInfo version:
  - starts from one or two seeds;
  - keeps a case-insensitive set;
  - can also exclude names by prefix.

  The pm4net version starts from the calling assembly and keeps a plain
  list. That list holds every name it walks into twice: once when pushed,
  once when popped.

Modules:

- `Common`: `Option`; ordinal case-insensitive comparison; .NET
  `IsNullOrWhiteSpace`.
- `Paths`: a file path as a sequence of segments, each non-empty and free of
  the separator, with the file name, the directory name and the text of a
  path.
- `StackFrames`: the frame record and `FirstOrDefault`.
- `LogEvents`:
  - property keys;
  - the `LogEvent` class, whose property map `AddPropertyIfAbsent` updates in place;
  - `AddAllIfAbsent`, the effect of a sequence of such calls, with its laws.
- `AssemblyGraphs`: the reference graph. It maps each name to the names it
  references.
- `CallerInfoEnricher`, `CallerInfoConfiguration`: the current version.
- `Pm4NetEnricher`, `Pm4NetConfiguration`: the older version.

How the model is proved:

- `Enrich` and `AddCallerInfo` are methods that update a `LogEvent`. Each one
  is proved to leave exactly `AddAllIfAbsent(old properties, Offered(...))`.
  `Offered` lists the `AddPropertyIfAbsent` calls the source makes, in order.
  Lemmas then state what that means for each key.
- `GetCleanFileName` keeps its loop. It is proved equal to the function
  `CleanFileName`, and `CleanFileName`'s bounds are proved as lemmas.
- Both `GetAssemblies` keep their stack loops. Their invariants are bundled
  in ghost predicates (`Walk` and `Listing`), with one lemma per pop and one
  per push. The inner `foreach` is a helper method, `PushReferences`.
  Termination is proved with the set of names not yet listed as the
  decreasing measure.

## Model

| member | source | states |
|---|---|---|
| StackFrames.FirstWhere | Serilog.Enrichers.CallerInfo/Enricher.cs:36 | FirstOrDefault: the index found satisfies the predicate and no earlier frame does; none is found exactly when no frame satisfies it |
| Paths.Reversed | Serilog.Enrichers.CallerInfo/Enricher.cs:103 | reversing the segment list keeps its length |
| Paths.ReversedAppend | Serilog.Enrichers.CallerInfo/Enricher.cs:99-103 | a segment appended last before the reversal comes first after it |
| Paths.PathTextBlank | Serilog.Enrichers.CallerInfo/Enricher.cs:72 | a joined path is blank exactly when it has no segment, or one blank segment |
| Paths.PathText | Serilog.Enrichers.CallerInfo/Enricher.cs:104 | Path.Combine of the segments: the text is empty exactly when there is no segment |
| Paths.FileName | Serilog.Enrichers.CallerInfo/Enricher.cs:82 | Path.GetFileName: empty exactly for the empty path, otherwise a non-empty segment free of the separator |
| Paths.DirectoryName | Serilog.Enrichers.CallerInfo/Enricher.cs:83 | Path.GetDirectoryName: one segment shorter than a non-empty path, empty for the empty path |
| Paths.SplitAtLastSeparator | Serilog.Enrichers.CallerInfo/Enricher.cs:82-83 | the directory name followed by the file name is the path again, and the file name holds no separator |
| Paths.PathTextAtLastSeparator | Serilog.Enrichers.CallerInfo/Enricher.cs:82-83 | in the text, the file name follows the last separator and the directory name's text precedes it; a one-segment path's text is its file name |
| Paths.PathTextSeparators | Serilog.Enrichers.CallerInfo/Enricher.cs:104 | the combined text holds exactly one separator fewer than there are segments |
| Paths.NoSeparatorNotIn | Serilog.Enrichers.CallerInfo/Enricher.cs:93 | the segment test, character by character, holds exactly when the separator does not occur |
| Paths.ReversedAt | Serilog.Enrichers.CallerInfo/Enricher.cs:103 | List.Reverse puts the element at i at position length - 1 - i |
| Common.StartsWithIgnoreCaseCongruent | Serilog.Enrichers.CallerInfo/EnricherConfiguration.cs:62 | two names that are equal ignoring case agree on a case-insensitive StartsWith |
| Common.ContainsIgnoreCaseGrows | Serilog.Enrichers.CallerInfo/EnricherConfiguration.cs:116 | a name found in a set ignoring case is still found in any larger set |
| Common.StartsWithIgnoreCaseAt | Serilog.Enrichers.CallerInfo/EnricherConfiguration.cs:62 | a case-insensitive StartsWith holds exactly when the prefix is no longer than the name and agrees with it character by character after folding |
| Common.StartsWithIgnoreCase | Serilog.Enrichers.CallerInfo/EnricherConfiguration.cs:62 | a name starting with the prefix ignoring case is at least as long as the prefix; the empty prefix starts every name; an exact prefix matches |
| Common.ContainsIgnoreCase | Serilog.Enrichers.CallerInfo/Enricher.cs:23 | a set built with the case-insensitive comparer contains each of its names, and the empty set contains none |
| Common.IsNullOrWhiteSpace | Serilog.Enrichers.CallerInfo/Enricher.cs:72 | null and the empty string are blank; a string holding a letter is not |
| LogEvents.PropertyKeyInjective | Serilog.Enrichers.CallerInfo/Enricher.cs:47-58 | under one prefix, different fields get different keys |
| LogEvents.PropertyKeyLastChar | Serilog.Enrichers.CallerInfo/Enricher.cs:47-58 | every field key is non-empty and ends in 'd', 'e' or 'r' |
| LogEvents.CallerFieldsDistinct | Serilog.Enrichers.CallerInfo/Enricher.cs:47-58 | the fields written, with or without file information, are pairwise different |
| LogEvents.KeysAreDistinct | Serilog.Enrichers.CallerInfo/Enricher.cs:47-58 | offers keyed by pairwise different fields under one prefix have pairwise different keys |
| LogEvents.DistinctKeysAppend | Serilog.Enrichers.CallerInfo/Enricher.cs:40-58 | joining two offer lists with distinct keys and no key in common gives distinct keys |
| LogEvents.KeysAreAbsent | Serilog.Enrichers.CallerInfo/Enricher.cs:47-58 | offers keyed by a list of fields never carry the key of a field outside the list |
| LogEvents.LogEvent.AddPropertyIfAbsent | Serilog.Enrichers.CallerInfo/Enricher.cs:42 | the event's property map becomes AddIfAbsent of the old map: a present key is left alone, an absent one is added |
| LogEvents.AddAllIfAbsentPair | Serilog.Enrichers.CallerInfo/Enricher.cs:47-48 | two more offers have the effect of two AddPropertyIfAbsent calls, in order, after the earlier ones |
| LogEvents.AddAllIfAbsentTriple | Serilog.Enrichers.CallerInfo/Enricher.cs:56-58 | three more offers have the effect of three AddPropertyIfAbsent calls, in order, after the earlier ones |
| LogEvents.AddAllIfAbsentKeeps | Serilog.Enrichers.CallerInfo/Enricher.cs:42-58 | after the offers the keys are the old keys plus the offered ones, and every old key keeps its value |
| LogEvents.AddAllIfAbsentValue | Serilog.Enrichers.CallerInfo/Enricher.cs:47-58 | with distinct keys, an offered key that was absent ends up with its offered value |
| LogEvents.AddAllIfAbsentOffered | Serilog.Enrichers.CallerInfo/Enricher.cs:47-58 | with distinct keys, an offered property whose key was absent is present with its value |
| LogEvents.AddAllIfAbsentOnly | Serilog.Enrichers.CallerInfo/Enricher.cs:42-58 | a key that is never offered is present afterwards exactly when it was before |
| LogEvents.AddAllIfAbsentField | Serilog.Enrichers.CallerInfo/Enricher.cs:42-58 | when a field's key is not among the leading offers and the rest are keyed by a list of fields, that key is present afterwards iff it was before or the field is in the list |
| CallerInfoEnricher.NewEnricher | Serilog.Enrichers.CallerInfo/Enricher.cs:19-25 | a null prefix becomes the empty string; the flags, the depth and the allowed set are kept |
| CallerInfoEnricher.KeptDirectories | Serilog.Enrichers.CallerInfo/Enricher.cs:90-101 | the parent directories kept are no more than exist and no more than the limit; none for a limit of zero or less; none of them is blank |
| CallerInfoEnricher.KeptDirectoriesAll | Serilog.Enrichers.CallerInfo/Enricher.cs:90-101 | when no directory is blank, the loop keeps the smaller of the limit and the number of directories |
| CallerInfoEnricher.GetCleanFileName | Serilog.Enrichers.CallerInfo/Enricher.cs:70-105 | the loop and the in-place reversal compute CleanFileName |
| CallerInfoEnricher.CleanFileName | Serilog.Enrichers.CallerInfo/Enricher.cs:70-105 | null exactly for a null or blank path, otherwise a non-empty path (what the result keeps is stated by CleanFileNameBounds and CleanFileNameEdgeCases) |
| CallerInfoEnricher.CleanFileNameStep | Serilog.Enrichers.CallerInfo/Enricher.cs:93-100 | one more iteration that finds a non-blank parent directory adds it to the segments and moves to the grandparent, keeping the loop's relation to the closed form |
| CallerInfoEnricher.CleanFileNameDone | Serilog.Enrichers.CallerInfo/Enricher.cs:91-104 | when the loop stops, at the depth or at a blank parent, the reversed segments are exactly CleanFileName's result |
| CallerInfoEnricher.CleanFileNameEdgeCases | Serilog.Enrichers.CallerInfo/Enricher.cs:72-88 | a null or blank path gives null; a depth of zero or less returns the path unchanged; a path with no directory gives just its file name |
| CallerInfoEnricher.CleanFileNameBounds | Serilog.Enrichers.CallerInfo/Enricher.cs:82-104 | for a positive depth the result has 1 to depth segments, is a suffix of the path, ends with the file name, and has no blank directory |
| CallerInfoEnricher.CleanFileNameLastSegments | Serilog.Enrichers.CallerInfo.Tests/CallerInfoTests.cs:84 | for a path with no blank segment, a positive depth keeps exactly its last min(depth, length) segments; for depth 2 that is the directory and the file name |
| CallerInfoEnricher.KeysDistinct | Serilog.Enrichers.CallerInfo/Enricher.cs:42-58 | no field key equals the marker key, and different fields have different keys |
| CallerInfoEnricher.Enrich | Serilog.Enrichers.CallerInfo/Enricher.cs:32-62 | the event's properties become the old ones with the marker, caller and file offers added if absent, in the source's order |
| CallerInfoEnricher.CallerFrameIsFirst | Serilog.Enrichers.CallerInfo/Enricher.cs:116-126 | the frame reported has a method and a declaring type whose assembly is in the allowed set, ignoring case, and no earlier frame qualifies; without such a frame none is reported |
| CallerInfoEnricher.AllowedAssemblyCases | Serilog.Enrichers.CallerInfo/Enricher.cs:116-126 | of the predicate IsInAllowedAssembly: a method without a declaring type is not allowed; an empty set allows nothing; an assembly whose name is in the set is allowed |
| CallerInfoEnricher.AllowedAssemblyIgnoresCase | Serilog.Enrichers.CallerInfo/Enricher.cs:23 | assemblies whose names differ only in case are allowed alike, since the set uses the case-insensitive comparer |
| CallerInfoEnricher.CallerFileKeys | Serilog.Enrichers.CallerInfo/Enricher.cs:47-58 | the caller and file offers are keyed Method, Namespace (then SourceFile, LineNumber, ColumnNumber) under the prefix, pairwise different and never the marker |
| CallerInfoEnricher.KeysAreNotMarker | Serilog.Enrichers.CallerInfo/Enricher.cs:42-58 | no prefixed field key is the marker key |
| CallerInfoEnricher.OfferedKeysDistinct | Serilog.Enrichers.CallerInfo/Enricher.cs:40-58 | one Enrich call never offers the same key twice |
| CallerInfoEnricher.OfferedKeysKnown | Serilog.Enrichers.CallerInfo/Enricher.cs:40-58 | every key offered is the marker key or a prefixed field key |
| CallerInfoEnricher.MarkerNotOffered | Serilog.Enrichers.CallerInfo/Enricher.cs:40-43 | with a blank prefix the marker key is never offered |
| CallerInfoEnricher.ReportedFields | Serilog.Enrichers.CallerInfo/Enricher.cs:45-59 | Method and Namespace are reported iff a frame is found; SourceFile, LineNumber and ColumnNumber iff the file is offered |
| CallerInfoEnricher.OfferedLayout | Serilog.Enrichers.CallerInfo/Enricher.cs:40-58 | the offers are the marker offers, then offers keyed by the reported fields; no marker offer carries a field key |
| CallerInfoEnricher.EnrichMarker | Serilog.Enrichers.CallerInfo/Enricher.cs:40-43 | the marker is present afterwards iff it was already or the prefix is not blank, whether or not a frame was found; when newly added it holds the prefix |
| CallerInfoEnricher.EnrichCaller | Serilog.Enrichers.CallerInfo/Enricher.cs:45-48 | Method and Namespace are present afterwards iff they were or a frame was found; when newly added they hold that frame's method name and type's full name |
| CallerInfoEnricher.EnrichCallerKeys | Serilog.Enrichers.CallerInfo/Enricher.cs:45-48 | Method and Namespace are present afterwards iff they were or a frame was found |
| CallerInfoEnricher.EnrichCallerValues | Serilog.Enrichers.CallerInfo/Enricher.cs:47-48 | with a frame found, Method and Namespace, when newly added, hold its method name and its type's full name |
| CallerInfoEnricher.CallerOffersAt | Serilog.Enrichers.CallerInfo/Enricher.cs:47-48 | with a frame found, the two offers after the marker are Method and Namespace with its method name and its type's full name, and all keys are different |
| CallerInfoEnricher.EnrichFile | Serilog.Enrichers.CallerInfo/Enricher.cs:50-59 | SourceFile, LineNumber and ColumnNumber are added all together, only when file information is on and the cleaned name is not null; their values are the cleaned name, the line and the column |
| CallerInfoEnricher.EnrichFileKeys | Serilog.Enrichers.CallerInfo/Enricher.cs:50-59 | SourceFile, LineNumber and ColumnNumber are present afterwards iff they were or the file is offered |
| CallerInfoEnricher.EnrichFileValues | Serilog.Enrichers.CallerInfo/Enricher.cs:56-58 | with the file offered, the three file keys, when newly added, hold the cleaned name, the line and the column |
| CallerInfoEnricher.FileOffersAt | Serilog.Enrichers.CallerInfo/Enricher.cs:56-58 | with the file offered, the offers after the marker and the caller offers are SourceFile, LineNumber and ColumnNumber, and all keys are different |
| CallerInfoEnricher.EnrichAddsIfAbsent | Serilog.Enrichers.CallerInfo/Enricher.cs:40-58 | every property already on the event keeps its value; any key other than the marker and the prefixed field keys is untouched |
| CallerInfoConfiguration.NoCaseDuplicatesAdd | Serilog.Enrichers.CallerInfo/EnricherConfiguration.cs:82-84 | adding a name not yet present ignoring case keeps the set free of case-insensitive duplicates |
| CallerInfoConfiguration.CoversGrows | Serilog.Enrichers.CallerInfo/EnricherConfiguration.cs:96 | names only ever get added, so references already covered stay covered |
| CallerInfoConfiguration.DiscoveredAppend | Serilog.Enrichers.CallerInfo/EnricherConfiguration.cs:81-96 | a name added because it is a seed or is referenced by a walked name keeps every listed name reachable from the seeds |
| CallerInfoConfiguration.DiscoveredAppendAll | Serilog.Enrichers.CallerInfo/EnricherConfiguration.cs:87-97 | the same for all the references pushed from one assembly |
| CallerInfoConfiguration.ForeachPushesPrefix | Serilog.Enrichers.CallerInfo/EnricherConfiguration.cs:87-97 | the foreach keeps the order of the references: the names pushed for the first j references are a prefix of all the names pushed |
| CallerInfoConfiguration.PushedSkip | Serilog.Enrichers.CallerInfo/EnricherConfiguration.cs:90-93 | skipping a reference that is already listed, not included or excluded keeps the foreach invariant |
| CallerInfoConfiguration.PushedPush | Serilog.Enrichers.CallerInfo/EnricherConfiguration.cs:95-96 | pushing and adding a new, included, not excluded reference keeps the foreach invariant |
| CallerInfoConfiguration.PushReferences | Serilog.Enrichers.CallerInfo/EnricherConfiguration.cs:87-97 | the names pushed and the new set are exactly those of ForeachPushes over the references in order: a reference is pushed and added when it is included, not excluded and not yet in the set ignoring case, so of several case variants the first is kept; each pushed name passed and was not in the set before; afterwards every reference that passes is in the set |
| CallerInfoConfiguration.PopCollected | Serilog.Enrichers.CallerInfo/EnricherConfiguration.cs:81-85 | popping, and adding the name when it is new, included and not excluded, keeps the names loadable, passing, free of case duplicates and reachable from the seeds |
| CallerInfoConfiguration.PopExpanded | Serilog.Enrichers.CallerInfo/EnricherConfiguration.cs:81-85 | after a pop, every popped name but the new one has its passing references covered, and every popped name that passes is contained |
| CallerInfoConfiguration.PopStacked | Serilog.Enrichers.CallerInfo/EnricherConfiguration.cs:81-85 | after a pop, every seed and name is still popped or stacked, and pops stay bounded by seeds plus names |
| CallerInfoConfiguration.PopStep | Serilog.Enrichers.CallerInfo/EnricherConfiguration.cs:81-85 | popping an assembly and adding its name when it is new, included and not excluded keeps the loop invariant |
| CallerInfoConfiguration.PushStep | Serilog.Enrichers.CallerInfo/EnricherConfiguration.cs:87-97 | walking the popped assembly's references restores the loop invariant |
| CallerInfoConfiguration.WalkStart | Serilog.Enrichers.CallerInfo/EnricherConfiguration.cs:75-79 | the loop invariant holds with the seeds stacked and nothing collected |
| CallerInfoConfiguration.WalkShrinks | Serilog.Enrichers.CallerInfo/EnricherConfiguration.cs:83-96 | collecting a new loadable name shrinks the set of loadable names not yet collected, which bounds the walk |
| CallerInfoConfiguration.WalkDone | Serilog.Enrichers.CallerInfo/EnricherConfiguration.cs:99-101 | with the stack empty, the names returned are loadable, passing, free of case duplicates, reachable from the seeds and closed under passing references |
| CallerInfoConfiguration.GetAssemblies | Serilog.Enrichers.CallerInfo/EnricherConfiguration.cs:75-102 | terminates; every name is loadable, included and not excluded; no two names are equal ignoring case; every name is reachable from the seeds; the references of every seed and every name that pass are in the set; a passing seed is in the set; pops are at most seeds plus names |
| CallerInfoConfiguration.StartingAssemblies | Serilog.Enrichers.CallerInfo/EnricherConfiguration.cs:50-59 | a blank starting assembly gives the calling and entry assemblies, entry on top; otherwise only the named assembly; never empty |
| CallerInfoConfiguration.IncludeFilterCases | Serilog.Enrichers.CallerInfo/EnricherConfiguration.cs:62 | of the predicates IsAssemblyIncluded and IncludeFilter: a null include predicate includes nothing (:109-112); the configured one includes exactly the names starting with the assembly prefix ignoring case, the prefix itself among them, and a blank prefix includes every name |
| CallerInfoConfiguration.ExcludeFilterCases | Serilog.Enrichers.CallerInfo/EnricherConfiguration.cs:63 | of the predicates IsAssemblyExcluded, ExcludeFilter and ExcludedByPrefixes: a null exclude predicate excludes nothing (:104-107), nor does a null or empty prefix list; the configured one excludes exactly the names some listed prefix starts, a listed prefix among them |
| CallerInfoConfiguration.ExcludedByPrefixesCongruent | Serilog.Enrichers.CallerInfo/EnricherConfiguration.cs:63 | names equal ignoring case are excluded alike |
| CallerInfoConfiguration.AllowedNameMatches | Serilog.Enrichers.CallerInfo/EnricherConfiguration.cs:61-64 | a name matched ignoring case against the allowed set starts with the assembly prefix and is not excluded |
| CallerInfoConfiguration.WithCallerInfo | Serilog.Enrichers.CallerInfo/EnricherConfiguration.cs:41-65 | the enricher is built from the discovered names, the prefix and the depth; every allowed name is loadable, starts with the assembly prefix and matches no excluded prefix, and no two are equal ignoring case; the discovery order lists exactly the allowed names, each a seed, a reference of a seed or a reference of an earlier name; every passing seed is allowed; every passing reference of a seed or an allowed name is allowed; a frame allowed by the enricher comes from such an assembly |
| CallerInfoConfiguration.ExcludedCallersNotReported | Serilog.Enrichers.CallerInfo.Tests/CallerInfoTests.cs:57-69 | when every frame's assembly is excluded, no frame is found and no Method, Namespace or file property is added |
| Pm4NetEnricher.NewEnricher | Serilog.Enrichers.pm4net/Enricher.cs:19-25 | a null allow-list becomes empty; the flags and the prefix are kept |
| Pm4NetEnricher.AddCallerInfo | Serilog.Enrichers.pm4net/Enricher.cs:39-64 | the event's properties become the old ones with the caller and file offers added if absent, in the source's order |
| Pm4NetEnricher.Enrich | Serilog.Enrichers.pm4net/Enricher.cs:27-33 | with caller information off the event is unchanged; otherwise as AddCallerInfo |
| Pm4NetEnricher.CallerFrameIsFirst | Serilog.Enrichers.pm4net/Enricher.cs:75-85 | the frame reported has a method and a declaring type whose assembly is in the list, ignoring case, and no earlier frame qualifies; without such a frame none is reported |
| Pm4NetEnricher.AllowedAssemblyCases | Serilog.Enrichers.pm4net/Enricher.cs:75-85 | of the predicate IsInAllowedAssembly: a method without a declaring type is not allowed; an empty list allows nothing; an assembly whose name is in the list is allowed |
| Pm4NetEnricher.AllowedAssemblyIgnoresCase | Serilog.Enrichers.pm4net/Enricher.cs:81 | assemblies whose names differ only in case are allowed alike |
| Pm4NetEnricher.OfferedKeys | Serilog.Enrichers.pm4net/Enricher.cs:50-60 | the keys offered are pairwise different and all prefixed field keys, so no marker is ever written |
| Pm4NetEnricher.ReportedFields | Serilog.Enrichers.pm4net/Enricher.cs:44-61 | Method and Namespace are reported iff caller information is on and a frame is found; SourceFile, LineNumber and ColumnNumber iff the file is offered |
| Pm4NetEnricher.OfferedLayout | Serilog.Enrichers.pm4net/Enricher.cs:50-60 | the offers are keyed, in order, by the reported fields under the key prefix |
| Pm4NetEnricher.FrameKeys | Serilog.Enrichers.pm4net/Enricher.cs:50-60 | the caller and file offers for one frame are keyed, in order, Method, Namespace, then SourceFile, LineNumber and ColumnNumber when the file is offered |
| Pm4NetEnricher.NullAllowListAddsNothing | Serilog.Enrichers.pm4net/Enricher.cs:23 | with a null allow-list no frame is found and the event is unchanged |
| Pm4NetEnricher.EnrichCaller | Serilog.Enrichers.pm4net/Enricher.cs:44-51 | Method and Namespace are present afterwards iff they were or caller information is on and a frame was found; when newly added they hold that frame's method name and type's full name |
| Pm4NetEnricher.EnrichCallerKeys | Serilog.Enrichers.pm4net/Enricher.cs:44-51 | Method and Namespace are present afterwards iff they were, or caller information is on and a frame was found |
| Pm4NetEnricher.EnrichCallerValues | Serilog.Enrichers.pm4net/Enricher.cs:50-51 | with caller information on and a frame found, Method and Namespace, when newly added, hold its method name and its type's full name |
| Pm4NetEnricher.EnrichFile | Serilog.Enrichers.pm4net/Enricher.cs:53-61 | SourceFile, LineNumber and ColumnNumber are added all together, only when file information is on and the frame has a file name; SourceFile is the raw, untruncated name |
| Pm4NetEnricher.EnrichFileKeys | Serilog.Enrichers.pm4net/Enricher.cs:53-61 | SourceFile, LineNumber and ColumnNumber are present afterwards iff they were or the file is offered |
| Pm4NetEnricher.EnrichFileValues | Serilog.Enrichers.pm4net/Enricher.cs:57-59 | with the file offered, the three file keys, when newly added, hold the raw file name, the line and the column |
| Pm4NetEnricher.EnrichAddsIfAbsent | Serilog.Enrichers.pm4net/Enricher.cs:50-60 | every property already on the event keeps its value; any key other than the prefixed field keys is untouched |
| Pm4NetEnricher.DefaultPrefixKeys | Serilog.Enrichers.pm4net.Tests/CallerInfoTests.cs:20-21 | with the default prefix and a frame found, "pm4net_Method" and "pm4net_Namespace" hold the method name and the type's full name |
| Pm4NetConfiguration.ForeachPushesPrefix | Serilog.Enrichers.pm4net/EnricherConfiguration.cs:52-64 | the foreach keeps the order of the references: the names pushed for the first j references are a prefix of all the names pushed |
| Pm4NetConfiguration.PushedSkip | Serilog.Enrichers.pm4net/EnricherConfiguration.cs:54-57 | skipping a reference that fails the filter or is already listed keeps the foreach invariant |
| Pm4NetConfiguration.PushedPush | Serilog.Enrichers.pm4net/EnricherConfiguration.cs:59-63 | pushing and appending an unlisted reference that passes the filter keeps the foreach invariant |
| Pm4NetConfiguration.PushReferences | Serilog.Enrichers.pm4net/EnricherConfiguration.cs:52-64 | the names pushed are exactly those of ForeachPushes over the references in order: a reference is pushed and appended when it passes the filter and is not yet listed; the pushed names are pairwise different, passed the filter and were not listed before; afterwards every reference that passes is listed |
| Pm4NetConfiguration.PopShape | Serilog.Enrichers.pm4net/EnricherConfiguration.cs:49-50 | popping and appending keeps the start first, every other name passing the filter, every name loadable |
| Pm4NetConfiguration.PopCounts | Serilog.Enrichers.pm4net/EnricherConfiguration.cs:49-50 | popping and appending keeps the start counted once and every other name twice, across the list and the stack |
| Pm4NetConfiguration.PopDiscovered | Serilog.Enrichers.pm4net/EnricherConfiguration.cs:49-50 | appending the popped name keeps every listed name after the first a repeat of, or a reference of, an earlier listed name |
| Pm4NetConfiguration.PopWalked | Serilog.Enrichers.pm4net/EnricherConfiguration.cs:49-50 | after a pop, every popped name except the new one still has its passing references listed |
| Pm4NetConfiguration.PopStep | Serilog.Enrichers.pm4net/EnricherConfiguration.cs:49-50 | popping and appending keeps the loop invariant, with the popped name's references pending |
| Pm4NetConfiguration.PushShape | Serilog.Enrichers.pm4net/EnricherConfiguration.cs:59-63 | pushing filtered, loadable, unlisted references keeps the shape of the list |
| Pm4NetConfiguration.PushCounts | Serilog.Enrichers.pm4net/EnricherConfiguration.cs:59-63 | pushing and appending pairwise different unlisted names counts each of them twice |
| Pm4NetConfiguration.PushDiscovered | Serilog.Enrichers.pm4net/EnricherConfiguration.cs:59-63 | names appended as references of a listed name keep the list discovered |
| Pm4NetConfiguration.PushWalked | Serilog.Enrichers.pm4net/EnricherConfiguration.cs:52-64 | once its passing references are listed, the popped name is no longer pending |
| Pm4NetConfiguration.PushStep | Serilog.Enrichers.pm4net/EnricherConfiguration.cs:52-64 | walking the popped assembly's references restores the loop invariant |
| Pm4NetConfiguration.ListingStart | Serilog.Enrichers.pm4net/EnricherConfiguration.cs:42-45 | the loop invariant holds with only the start assembly stacked and nothing listed |
| Pm4NetConfiguration.ListingProgress | Serilog.Enrichers.pm4net/EnricherConfiguration.cs:49-65 | each iteration either lists a new loadable name or lists nothing new and shortens the stack, so the walk ends |
| Pm4NetConfiguration.ListingDone | Serilog.Enrichers.pm4net/EnricherConfiguration.cs:65-67 | with the stack empty, the list starts with the start assembly, lists it once and every other passing name twice, and holds every passing reference of a listed name |
| Pm4NetConfiguration.GetAssemblies | Serilog.Enrichers.pm4net/EnricherConfiguration.cs:40-68 | terminates; the start comes first and is listed once even if it fails the filter; every other name passes the filter and is listed exactly twice; every reference of a listed name that passes is listed; every name after the first is reached from an earlier one |
| Pm4NetConfiguration.WithPm4Net | Serilog.Enrichers.pm4net/EnricherConfiguration.cs:21-31 | the enricher's list starts with the calling assembly and holds it once; every other name starts with the assembly prefix ignoring case and is listed exactly twice; every matching reference of a listed name is listed; every name after the first repeats or is referenced by an earlier one; flags and prefix are passed through |

## Left out

- Stack capture and symbol resolution are not modelled. A stack is a sequence
  of plain frame records. Each frame has one declaring type, standing for both
  `ResolvedMethod.DeclaringType` and `MethodBase.DeclaringType`.
- Reflection is a parameter. The reference graph is a finite map, and every
  referenced name must be a key (`Closed`). A failed `Assembly.Load` throws
  in the source and is not modelled. The name of the loaded assembly is taken
  to be the name of the reference.
- The calling and entry assemblies are parameters. A null entry assembly, a
  null `assemblyPrefix` and a null excluded prefix throw in the source and are
  not modelled; names are never null here.
- A null assembly name: the CallerInfo include and exclude predicates
  (`Serilog.Enrichers.CallerInfo/EnricherConfiguration.cs:62-63`) skip it,
  while the pm4net filter (`Serilog.Enrichers.pm4net/EnricherConfiguration.cs:29`)
  throws on it. Neither case is modelled, since names are never null here.
- CallerInfoEnricher.NewEnricher: a null `allowedAssemblies` makes the
  CallerInfo constructor throw (`ToImmutableHashSet` on null, at
  `Serilog.Enrichers.CallerInfo/Enricher.cs:23`). The model takes a set, which
  is never null, so this throw is not modelled.
- The Serilog wiring is not modelled: `WithCallerInfo(IEnumerable...)`,
  `WithPm4Net(IEnumerable...)`, `enrichmentConfiguration.With`, and the
  boxing of values into `ScalarValue`.
- `OrdinalIgnoreCase` is modelled as ASCII case folding. Whitespace is the
  ASCII and Latin-1 whitespace characters. Full Unicode case folding and
  whitespace are left out.
- Paths are rootless sequences of segments joined by one separator. Roots,
  drive letters and alternate separators are left out. So is the claim that
  a depth larger than the path returns the full path, which fails for rooted
  paths.
- Paths whose text has a doubled, leading or trailing separator cannot be
  represented. Every segment of a `FilePath` is non-empty and free of the
  separator. So the normalisation that `Path.GetDirectoryName` and
  `Path.Combine` apply to such text (trimming doubled separators, dropping an
  empty last segment) is not modelled.
- The unused `StringBuilder` in the pm4net `AddCallerInfo` is left out.
- CallerInfoConfiguration.GetAssemblies: the `do…while` is a `while` loop.
  The seed stack must be non-empty, which every caller in the source
  guarantees. That the name set only grows is not a loop invariant. It is
  proved per iteration, where the termination measure needs it:
  `WalkShrinks` takes the set before the iteration as a subset of the set
  after it.
- Pm4NetConfiguration.GetAssemblies: the `do…while` is a `while` loop that
  starts from a stack holding only the start assembly.
