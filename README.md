# sd2 task manager and dependency library, modelled in Dafny

This project models the core of the sd2 repository:

- The **task manager application** (`ManagerAppImpl`). It reads a configuration file with a resource pool (cpus, memory, disks) and a list of tasks. Each task has a resource demand, a priority and the names of the tasks it depends on. The manager rejects the run when some task can never fit the pool or when the dependencies form a cycle. Otherwise it launches every task on an external manager, never beyond the free resources, and each task only after all of its dependencies have completed.
- The **configuration reader** (`Configuration`): the header line, the task lines, the default entries for dependencies that have no line of their own, and the queries the manager uses.
- The **graph utilities** (both copies of `GraphUtils`): sources, leaves, vertices with a property, cycle detection, topological sort and reachability.
- The **dependency manager library**: a builder that records entities and their dependencies, and a manager that resolves entities once their dependencies are resolved.

Files:

- `wrappers.dfy`: `Option` and `Result`, which stand for Java's `Optional` and for the exceptions the code throws.
- `tasks.dfy`: the `Task` record.
- `graphs.dfy`: directed graphs as a vertex set and an edge set, walks, cycles and induced subgraphs.
- `graph_utils.dfy`: the `GraphUtils` operations. The test graphs of the repository appear as worked examples.
- `tokens.dfy`: the Java string operations the reader relies on (`replaceAll`, `split`, `trim`, `Integer.parseInt`).
- `configuration.dfy`: the reader. It is a pure parser (`ParseFile`) and a class `Configuration` whose methods are proved against it.
- `dependency_manager.dfy`: the builder and the manager as classes. Their states are described by values (`Declared`), and lemmas show that the dependency and dependants maps stay inverse to each other.
- `manager_app.dfy`: the scheduler. A value-level state machine (`Scheduler`, `RunAvailableStep`, `TaskDoneStep`) comes with its invariant `Inv` and with the launch-order and call-trace facts (`Tracks`). The class `ManagerAppImpl` performs the same steps on its fields, and each of its methods states its new state through those step functions.

The calls made on the external manager and its factory are recorded as a trace of `Event`s: `create`, `run` and `fail`. The main result is `ManagerAppImpl.ProcessFile`:

- When some task does not fit the pool or the dependencies form a cycle, the trace is exactly `create(0, 0, 0)` followed by `fail()`.
- Otherwise the trace is `create` with the pool, followed by one `run` per task. The tasks are launched in a topological order of the dependency graph.
- Along the way the counters never go negative, provided no demand is negative.

## Model

| member | source | states |
|---|---|---|
| Graphs.RemoveVertex | manager-app/src/main/java/cs/technion/ac/il/sd/app/ManagerAppImpl.java:135 | removing a vertex drops it and exactly the edges touching it, and keeps the graph well formed |
| Graphs.RemoveOutgoing | library/src/main/java/cs/technion/ac/il/sd/library/dependency/DependencyManagerImpl.java:39-41 | removing the outgoing edges of v keeps every vertex, drops exactly the edges leaving v, and leaves v without successors |
| Graphs.Successors | library/src/main/java/cs/technion/ac/il/sd/library/dependency/DependencyManagerImpl.java:35-37 | w is a successor of v exactly when (v, w) is an edge |
| Graphs.RestrictCycle | library/src/main/java/cs/technion/ac/il/sd/library/GraphUtils.java:40-42 | a cycle of an induced subgraph is a cycle of the graph |
| Graphs.RepeatedVertexCycle | library/src/main/java/cs/technion/ac/il/sd/library/GraphUtils.java:40-42 | a walk that visits a vertex twice contains a cycle |
| Graphs.AcyclicHasSource | library/src/main/java/cs/technion/ac/il/sd/library/GraphUtils.java:40-42 | a well-formed graph with vertices has a vertex without incoming edge, or a cycle |
| Graphs.CycleVertexHasIncoming | library/src/main/java/cs/technion/ac/il/sd/library/GraphUtils.java:40-42 | every vertex on a cycle has an incoming edge |
| GraphUtils.InDegree | library/src/main/java/cs/technion/ac/il/sd/library/GraphUtils.java:52 | the in-degree is zero exactly when no edge enters the vertex |
| GraphUtils.OutDegree | library/src/main/java/cs/technion/ac/il/sd/library/GraphUtils.java:64 | the out-degree is zero exactly when no edge leaves the vertex |
| GraphUtils.Sources | library/src/main/java/cs/technion/ac/il/sd/library/GraphUtils.java:50-54 | getSourcesVertices: a vertex is in the result exactly when it is a vertex of the graph with no incoming edge; the same for the identical copy in graph/GraphUtils.java, lines 63-67 |
| GraphUtils.Leaves | library/src/main/java/cs/technion/ac/il/sd/library/GraphUtils.java:62-66 | getLeafVertices: a vertex is in the result exactly when it is a vertex of the graph with no outgoing edge; the same for the identical copy in graph/GraphUtils.java, lines 77-81 |
| GraphUtils.VerticesSuchThat | library/src/main/java/cs/technion/ac/il/sd/library/GraphUtils.java:76-80 | getLVerticesSuchThat: exactly the vertices satisfying the predicate; the same for the identical copy in graph/GraphUtils.java, lines 97-101 |
| GraphUtils.SourcesAreSuchThatInDegreeZero | library/src/main/java/cs/technion/ac/il/sd/library/GraphUtils.java:50-54 | the sources are the vertices such that the in-degree is zero |
| GraphUtils.LeavesAreSuchThatOutDegreeZero | library/src/main/java/cs/technion/ac/il/sd/library/GraphUtils.java:62-66 | the leaves are the vertices such that the out-degree is zero |
| GraphUtils.SmallGraphSourcesAndLeaves | library/src/test/java/GraphUtilsTest.java:176-198 | the small test graph (1->2, 1->3, 3->4) has sources {1} and leaves {2, 4} |
| GraphUtils.ComplexGraphSources | library/src/test/java/GraphUtilsTest.java:185-190 | the complex test graph has sources {5, 3, 7} |
| GraphUtils.ComplexGraphLeaves | library/src/test/java/GraphUtilsTest.java:202-207 | the complex test graph has leaves {2, 9, 10} |
| GraphUtils.NoVerticesNoCycle | library/src/main/java/cs/technion/ac/il/sd/library/GraphUtils.java:40-42 | a graph without vertices has no cycle |
| GraphUtils.PeelSourcesKeepsCycles | library/src/main/java/cs/technion/ac/il/sd/library/GraphUtils.java:40-42 | removing all sources keeps exactly the cycles: the graph has a cycle iff what is left has one |
| GraphUtils.SourcelessMeansCycle | library/src/main/java/cs/technion/ac/il/sd/library/GraphUtils.java:40-42 | a well-formed graph with vertices and no source has a cycle |
| GraphUtils.DetectCycles | library/src/main/java/cs/technion/ac/il/sd/library/GraphUtils.java:40-42 | hasCycle: true exactly when the graph has a cycle; the same for the identical copy in graph/GraphUtils.java, lines 51-53 |
| GraphUtils.PathGoesForward | library/src/main/java/cs/technion/ac/il/sd/library/GraphUtils.java:30-32 | along a walk, the positions of its vertices in a topological order increase |
| GraphUtils.TopologicalOrderMeansAcyclic | library/src/main/java/cs/technion/ac/il/sd/library/GraphUtils.java:30-32 | a graph that has a topological order has no cycle |
| GraphUtils.BuildTopologicalOrder | library/src/main/java/cs/technion/ac/il/sd/library/GraphUtils.java:30-32 | every well-formed graph without a cycle has a topological order |
| GraphUtils.TopologicalOrderExists | library/src/main/java/cs/technion/ac/il/sd/library/GraphUtils.java:30-32 | a topological order exists exactly for the acyclic graphs (one direction; the other is TopologicalOrderMeansAcyclic) |
| GraphUtils.Toposort | library/src/main/java/cs/technion/ac/il/sd/library/GraphUtils.java:30-32 | toposort: empty exactly when the graph has a cycle; otherwise every vertex once, each edge pointing forward; the same for the identical copy in graph/GraphUtils.java, lines 39-41 |
| GraphUtils.CyclicGraphHasNoToposort | library/src/test/java/GraphUtilsTest.java:139-142 | the cyclic test graph (the small graph plus 4->1) has no topological sort |
| GraphUtils.SmallGraphToposort | library/src/test/java/GraphUtilsTest.java:150-159 | the small test graph has a topological sort, with 1 before 2 and 3, and 3 before 4 |
| GraphUtils.ReachesStep | library/src/main/java/cs/technion/ac/il/sd/library/GraphUtils.java:185-187 | following an edge from a reachable vertex reaches its target |
| GraphUtils.AllReachableFrom | library/src/main/java/cs/technion/ac/il/sd/library/GraphUtils.java:185-187 | getAllReachableVerticesFromSource: an error exactly when the source is not a vertex; otherwise a set of vertices that holds the source, is closed under edges and holds only reachable vertices; the same for the identical copy in graph/GraphUtils.java, lines 113-115 |
| GraphUtils.ClosedSetHoldsPath | library/src/main/java/cs/technion/ac/il/sd/library/GraphUtils.java:185-187 | a set closed under edges that holds the start of a walk holds its end |
| GraphUtils.ReachableIsLeast | library/src/main/java/cs/technion/ac/il/sd/library/GraphUtils.java:185-187 | the reachable set lies inside every edge-closed set that holds the source, so it is exactly the vertices reachable from the source |
| Tokens.Normalize | manager-app/src/main/java/cs/technion/ac/il/sd/app/Configuration.java:51 | replacing ',', '(', ')' and ':' by spaces keeps the length and every other character, and leaves no separator |
| Tokens.SplitOnWhitespace | manager-app/src/main/java/cs/technion/ac/il/sd/app/Configuration.java:51 | split on whitespace runs: no piece holds whitespace, only the first piece can be empty, a text without whitespace splits to itself, and pieces of a separator-free text are separator-free |
| Tokens.SplitSpaced | manager-app/src/main/java/cs/technion/ac/il/sd/app/Configuration.java:51 | tokens separated by arbitrary non-empty whitespace runs, after a whitespace lead and before a whitespace trail, split back into the tokens, with one leading empty string exactly when the lead is non-empty (trailing runs leave nothing) |
| Tokens.DropTrailingEmpty | manager-app/src/main/java/cs/technion/ac/il/sd/app/Configuration.java:51 | the split drops trailing empty strings only: the result is a prefix ending in a non-empty string, and everything dropped was empty |
| Tokens.SplitJoinedWords | manager-app/src/main/java/cs/technion/ac/il/sd/app/Configuration.java:51 | round trip: splitting words joined by single spaces gives the words back (the single-space case of SplitSpaced) |
| Tokens.CommaWsAt | manager-app/src/main/java/cs/technion/ac/il/sd/app/Configuration.java:34 | the position of the first comma followed by a whitespace character, or the length exactly when there is none |
| Tokens.SplitOnCommaWs | manager-app/src/main/java/cs/technion/ac/il/sd/app/Configuration.java:34 | the header split (a comma followed by one whitespace character as separator): no field holds a comma followed by whitespace, and a text without one is its own single field |
| Tokens.SplitJoinedFields | manager-app/src/main/java/cs/technion/ac/il/sd/app/Configuration.java:34 | round trip: fields joined by ", " split back into exactly those fields when no field holds a comma followed by whitespace and the last field is non-empty |
| Tokens.Trim | manager-app/src/main/java/cs/technion/ac/il/sd/app/Configuration.java:40 | trim: the result is the slice of the text from TrimFrom on, everything cut before and after it is a character of code at most 32, and a non-empty result starts and ends with a character above 32 |
| Tokens.TrimFrom | manager-app/src/main/java/cs/technion/ac/il/sd/app/Configuration.java:40 | the leading loop of trim: every character before the returned index is at most a space, and the character at it (if any) is above |
| Tokens.TrimTo | manager-app/src/main/java/cs/technion/ac/il/sd/app/Configuration.java:40 | the trailing loop of trim: every character from the returned length on is at most a space, and the one before it (if any) is above |
| Tokens.ParseInt | manager-app/src/main/java/cs/technion/ac/il/sd/app/Configuration.java:35-37 | Integer.parseInt: a value only within the 32-bit range and only for text starting with a digit or a sign |
| Tokens.ParseIntMeaning | manager-app/src/main/java/cs/technion/ac/il/sd/app/Configuration.java:35-37 | Integer.parseInt succeeds exactly on a non-empty digit string, or "+" or "-" followed by one, whose value fits the 32-bit range (one more for "-"); the value is the digits' value, negated after "-" |
| Tokens.ParseLeadingZerosAndPlus | manager-app/src/main/java/cs/technion/ac/il/sd/app/Configuration.java:35-37 | a leading "0" or "+" does not change the value Integer.parseInt reads from a digit string |
| Tokens.ParseShownInt | manager-app/src/main/java/cs/technion/ac/il/sd/app/Configuration.java:57 | round trip: parsing the decimal text of any 32-bit integer gives it back |
| Tokens.ShownIntIsWord | manager-app/src/main/java/cs/technion/ac/il/sd/app/Configuration.java:57 | the decimal text of an integer is a non-empty word without whitespace |
| Configurations.ParseFour | manager-app/src/main/java/cs/technion/ac/il/sd/app/Configuration.java:55-58 | the four resource numbers: a result exactly when all four tokens parse, holding their values in order; otherwise the error names the first token that does not parse |
| Configurations.LineTokens | manager-app/src/main/java/cs/technion/ac/il/sd/app/Configuration.java:51 | the tokens of a line hold no whitespace and no separator, and every token after the first is non-empty |
| Configurations.LineTokensOfSpaced | manager-app/src/main/java/cs/technion/ac/il/sd/app/Configuration.java:51 | words separated by arbitrary runs of whitespace and the separators ",", "(", ")", ":" tokenize back into the words, with a leading empty token exactly when the line starts with such a run |
| Configurations.ParseTaskLine | manager-app/src/main/java/cs/technion/ac/il/sd/app/Configuration.java:51-58 | a task line with fewer than four tokens fails with a missing field; a parsed line has a whitespace-free name, word dependencies and 32-bit numbers (which tokens they are is ParseTaskLineMeaning) |
| Configurations.ParseTaskLineMeaning | manager-app/src/main/java/cs/technion/ac/il/sd/app/Configuration.java:51-58 | with at least four tokens: success exactly when the last four tokens parse (ParseFour), with ParseFour's error otherwise; the name is the first token, the dependencies the tokens strictly between, the numbers the last four in order |
| Configurations.FormattedLineTokens | manager-app/src/main/java/cs/technion/ac/il/sd/app/Configuration.java:51 | a line written out from a well-formed task line splits into exactly its words |
| Configurations.ParseFormattedLine | manager-app/src/main/java/cs/technion/ac/il/sd/app/Configuration.java:50-58 | round trip: parsing a written-out well-formed task line gives the task line back |
| Configurations.ParseLineWords | manager-app/src/main/java/cs/technion/ac/il/sd/app/Configuration.java:50-58 | any line whose tokens are the words of a well-formed task line parses to that task line |
| Configurations.ParseSpacedLine | manager-app/src/main/java/cs/technion/ac/il/sd/app/Configuration.java:50-58 | round trip with any separators: a well-formed task line written with arbitrary separator runs between its words and after them parses back to itself |
| Configurations.ParseExampleLine | manager-app/src/main/java/cs/technion/ac/il/sd/app/Configuration.java:50-58 | the line "main(f1, f2, f3): 1 2 3 4" parses to task main with dependencies f1, f2, f3 and numbers 1, 2, 3, 4 |
| Configurations.SeparatorActsAsSpace | manager-app/src/main/java/cs/technion/ac/il/sd/app/Configuration.java:51 | replacing a space of a line by ',', '(', ')' or ':' does not change how the line parses |
| Configurations.PutDefaults | manager-app/src/main/java/cs/technion/ac/il/sd/app/Configuration.java:61-64 | every dependency name gains a zero-demand task (DefaultTask) and an empty dependency list unless it already had one; nothing else changes |
| Configurations.Define | manager-app/src/main/java/cs/technion/ac/il/sd/app/Configuration.java:59-65 | the line's task replaces any task of that name, its dependency list replaces any list of that name, and other names keep their entries or get the defaults |
| Configurations.DefineKeepsInvariant | manager-app/src/main/java/cs/technion/ac/il/sd/app/Configuration.java:59-65 | a parsed line keeps the two maps consistent: same names, each task stored under its own name, every dependency name known |
| Configurations.ParseHeader | manager-app/src/main/java/cs/technion/ac/il/sd/app/Configuration.java:34-37 | the header reads exactly when it has at least three fields and the first three parse, giving cpus, memory and disks; otherwise the first field that does not parse is the error, and too few fields that all parse give a missing field |
| Configurations.ParseShownHeader | manager-app/src/main/java/cs/technion/ac/il/sd/app/Configuration.java:34-37 | round trip: "c, m, d" written from three 32-bit integers reads back as (c, m, d) |
| Configurations.ApplyLinesFailure | manager-app/src/main/java/cs/technion/ac/il/sd/app/Configuration.java:39-43 | the lines loop (ApplyLines) fails exactly when some non-blank trimmed line does not parse, and its error is the error of such a line |
| Configurations.ParseFile | manager-app/src/main/java/cs/technion/ac/il/sd/app/Configuration.java:30-48 | fromFile on the lines: an empty file fails, a bad header gives its error, then the task lines decide; a result carries the header's pool |
| Configurations.ApplyLinesKeepsInvariant | manager-app/src/main/java/cs/technion/ac/il/sd/app/Configuration.java:39-43 | applying the task lines one after another keeps the two maps consistent |
| Configurations.ParsedFileKeepsInvariant | manager-app/src/main/java/cs/technion/ac/il/sd/app/Configuration.java:30-48 | a configuration read from a file has consistent maps |
| Configurations.NamedValuesCount | manager-app/src/main/java/cs/technion/ac/il/sd/app/Configuration.java:72-76 | a map storing each task under its own name has as many distinct tasks as names |
| Configurations.Configuration.constructor | manager-app/src/main/java/cs/technion/ac/il/sd/app/Configuration.java:24-28 | a new configuration has empty maps and a zero pool |
| Configurations.Configuration.FromLines | manager-app/src/main/java/cs/technion/ac/il/sd/app/Configuration.java:30-48 | fromFile: fails exactly when the file does not parse, with that error; otherwise a fresh, consistent configuration holding the parsed data |
| Configurations.Configuration.SetCpus | manager-app/src/main/java/cs/technion/ac/il/sd/app/Configuration.java:85-88 | setCpus: only the cpu pool changes |
| Configurations.Configuration.SetMemory | manager-app/src/main/java/cs/technion/ac/il/sd/app/Configuration.java:90-93 | setMemory: only the memory pool changes |
| Configurations.Configuration.SetDisks | manager-app/src/main/java/cs/technion/ac/il/sd/app/Configuration.java:95-98 | setDisks: only the disk pool changes |
| Configurations.Configuration.ParseLines | manager-app/src/main/java/cs/technion/ac/il/sd/app/Configuration.java:39-43 | the lines loop of fromFile: an error exactly when ApplyLines fails, with its error; otherwise the maps become those ApplyLines computes; the pool never changes |
| Configurations.Configuration.ParseLine | manager-app/src/main/java/cs/technion/ac/il/sd/app/Configuration.java:50-66 | an error exactly when the line does not parse, with the maps untouched; otherwise the maps become the line's definition of its task; the pool never changes |
| Configurations.Configuration.PutDefaultDependencies | manager-app/src/main/java/cs/technion/ac/il/sd/app/Configuration.java:61-64 | the maps gain the default entries for the dependency names; the pool does not change |
| Configurations.Configuration.GetTask | manager-app/src/main/java/cs/technion/ac/il/sd/app/Configuration.java:68-70 | present exactly when the name is configured; the task found carries that name and is one of the configured tasks |
| Configurations.Configuration.GetTasks | manager-app/src/main/java/cs/technion/ac/il/sd/app/Configuration.java:72-76 | exactly the tasks stored in the name-to-task map |
| Configurations.Configuration.TaskCount | manager-app/src/main/java/cs/technion/ac/il/sd/app/Configuration.java:72-76 | there are as many configured tasks as configured names |
| Configurations.Configuration.GetDepenciesOf | manager-app/src/main/java/cs/technion/ac/il/sd/app/Configuration.java:78-83 | present exactly when the task's name has a dependency list; then exactly the configured tasks whose names are on it |
| DependencyManagers.Register | library/src/main/java/cs/technion/ac/il/sd/library/dependency/DependencyManagerBuilder.java:31-32 | putIfAbsent: the entity gains an empty entry when it had none; every existing entry is kept |
| DependencyManagers.AddDependencyStep | library/src/main/java/cs/technion/ac/il/sd/library/dependency/DependencyManagerBuilder.java:36-42 | both maps gain the entity and the dependency as keys |
| DependencyManagers.WithDependencies | library/src/main/java/cs/technion/ac/il/sd/library/dependency/DependencyManagerBuilder.java:44-48 | the dependency map after adding a set of dependencies: each entry grows by the added dependencies only for the entity |
| DependencyManagers.WithDependant | library/src/main/java/cs/technion/ac/il/sd/library/dependency/DependencyManagerBuilder.java:44-48 | the dependants map after adding a set of dependencies: each added dependency gains the entity as a dependant |
| DependencyManagers.AddIdempotent | library/src/main/java/cs/technion/ac/il/sd/library/dependency/DependencyManagerBuilder.java:30-34 | add is idempotent, and adding a known entity changes nothing |
| DependencyManagers.AddKeepsInverse | library/src/main/java/cs/technion/ac/il/sd/library/dependency/DependencyManagerBuilder.java:30-34 | add keeps the dependency and dependants maps inverse to each other |
| DependencyManagers.AddDependencyRecordsPair | library/src/main/java/cs/technion/ac/il/sd/library/dependency/DependencyManagerBuilder.java:36-42 | addDependency records d among e's dependencies and e among d's dependants, and no other entry changes |
| DependencyManagers.AddDependencyEntries | library/src/main/java/cs/technion/ac/il/sd/library/dependency/DependencyManagerBuilder.java:36-42 | each entry after addDependency is the old entry plus the new pair where it applies |
| DependencyManagers.AddDependencyKeepsInverse | library/src/main/java/cs/technion/ac/il/sd/library/dependency/DependencyManagerBuilder.java:36-42 | addDependency keeps the two maps inverse to each other |
| DependencyManagers.AddAllEmpty | library/src/main/java/cs/technion/ac/il/sd/library/dependency/DependencyManagerBuilder.java:44-48 | addDependencies with no dependencies is add |
| DependencyManagers.AddAllStep | library/src/main/java/cs/technion/ac/il/sd/library/dependency/DependencyManagerBuilder.java:44-48 | one more addDependency inside addDependencies extends its outcome by that dependency |
| DependencyManagers.AddAllKeepsInverse | library/src/main/java/cs/technion/ac/il/sd/library/dependency/DependencyManagerBuilder.java:44-48 | addDependencies keeps the two maps inverse to each other |
| DependencyManagers.DependantEdges | library/src/main/java/cs/technion/ac/il/sd/library/dependency/DependencyManagerBuilder.java:53 | the edges from each entity to each of its dependants |
| DependencyManagers.BuiltGraphEdges | library/src/main/java/cs/technion/ac/il/sd/library/dependency/DependencyManagerBuilder.java:50-55 | the built graph (BuiltGraph) is well formed and has an edge d -> t exactly when t depends on d |
| DependencyManagers.DependencyManagerBuilder.constructor | library/src/main/java/cs/technion/ac/il/sd/library/dependency/DependencyManagerBuilder.java:24-28 | a new builder has two empty maps |
| DependencyManagers.DependencyManagerBuilder.Add | library/src/main/java/cs/technion/ac/il/sd/library/dependency/DependencyManagerBuilder.java:30-34 | add updates the maps as AddStep says (Register on both maps) and keeps them inverse |
| DependencyManagers.DependencyManagerBuilder.AddDependency | library/src/main/java/cs/technion/ac/il/sd/library/dependency/DependencyManagerBuilder.java:36-42 | addDependency updates the maps as AddDependencyStep says and keeps them inverse |
| DependencyManagers.DependencyManagerBuilder.AddDependencies | library/src/main/java/cs/technion/ac/il/sd/library/dependency/DependencyManagerBuilder.java:44-48 | addDependencies equals add followed by one addDependency per dependency, and keeps the maps inverse |
| DependencyManagers.DependencyManagerBuilder.Build | library/src/main/java/cs/technion/ac/il/sd/library/dependency/DependencyManagerBuilder.java:50-55 | build: a fresh manager over the built graph, with the builder's maps and nothing resolved |
| DependencyManagers.DependencyManagerImpl.constructor | library/src/main/java/cs/technion/ac/il/sd/library/dependency/DependencyManagerImpl.java:23-28 | the manager starts from the given graph and maps, with nothing resolved |
| DependencyManagers.DependencyManagerImpl.Resolve | library/src/main/java/cs/technion/ac/il/sd/library/dependency/DependencyManagerImpl.java:30-44 | resolve: refused, changing nothing, exactly when the entity is not a source; otherwise returns its dependants, drops its outgoing edges and marks it resolved |
| DependencyManagers.DependencyManagerImpl.IsResolvableEntity | library/src/main/java/cs/technion/ac/il/sd/library/dependency/DependencyManagerImpl.java:46-49 | isResolvable(entity): true exactly when the entity is a source, that is, when it is managed and all its dependencies are resolved |
| DependencyManagers.DependencyManagerImpl.ResolvableIffDependenciesResolved | library/src/main/java/cs/technion/ac/il/sd/library/dependency/DependencyManagerImpl.java:46-49 | an entity is a source of the current graph exactly when it is managed and every dependency of it is resolved |
| DependencyManagers.DependencyManagerImpl.IsResolved | library/src/main/java/cs/technion/ac/il/sd/library/dependency/DependencyManagerImpl.java:51-54 | isResolved: true exactly for the entities resolved so far |
| DependencyManagers.DependencyManagerImpl.IsResolvable | library/src/main/java/cs/technion/ac/il/sd/library/dependency/DependencyManagerImpl.java:56-59 | isResolvable(): true exactly when the current graph has no cycle |
| DependencyManagers.DependencyManagerImpl.GetAllResolvable | library/src/main/java/cs/technion/ac/il/sd/library/dependency/DependencyManagerImpl.java:61-64 | getAllResolvable: exactly the entities for which isResolvable holds |
| DependencyManagers.DependencyManagerImpl.GetDependantsOn | library/src/main/java/cs/technion/ac/il/sd/library/dependency/DependencyManagerImpl.java:66-74 | an error exactly for an unmanaged entity; otherwise exactly the entities that depend on it |
| DependencyManagers.DependencyManagerImpl.GetDependenciesOf | library/src/main/java/cs/technion/ac/il/sd/library/dependency/DependencyManagerImpl.java:76-84 | an error exactly for an unmanaged entity; otherwise exactly the entities that list it as a dependant |
| DependencyManagers.DependencyManagerImpl.GetAllResolved | library/src/main/java/cs/technion/ac/il/sd/library/dependency/DependencyManagerImpl.java:86-90 | getAllResolved: exactly the entities for which isResolved holds |
| DependencyManagers.SourcesAreResolvable | library/src/main/java/cs/technion/ac/il/sd/library/dependency/DependencyManagerImpl.java:46-49 | in the graph left after resolving a set of entities, the sources are exactly the managed entities whose dependencies are all resolved |
| DependencyManagers.ResolveUnlocksDependants | library/src/main/java/cs/technion/ac/il/sd/library/dependency/DependencyManagerImpl.java:30-44 | after resolving e, a dependant of e becomes resolvable exactly when its other dependencies are already resolved |
| ManagerApps.FitsIffNothingNegative | manager-app/src/main/java/cs/technion/ac/il/sd/app/ManagerAppImpl.java:159-161 | isAbleToRun (Fits): a task fits exactly when subtracting its demand leaves no counter negative |
| ManagerApps.SumSetOfSeq | manager-app/src/main/java/cs/technion/ac/il/sd/app/ManagerAppImpl.java:147-151 | the demand of a list of distinct tasks equals the demand of their set |
| ManagerApps.AdmitSplitsReady | manager-app/src/main/java/cs/technion/ac/il/sd/app/ManagerAppImpl.java:96-108 | a runAvailable pass (Admit) splits the queue into the tasks it launches and those it keeps, disjoint and without repetitions |
| ManagerApps.AdmitConserves | manager-app/src/main/java/cs/technion/ac/il/sd/app/ManagerAppImpl.java:96-116 | what a pass leaves plus the demand of what it launched equals the counters before the pass |
| ManagerApps.AdmitLaunchesOnlyFitting | manager-app/src/main/java/cs/technion/ac/il/sd/app/ManagerAppImpl.java:110-116 | each launched task fit the counters its predecessors in the pass left |
| ManagerApps.AdmitKeepsNonNegative | manager-app/src/main/java/cs/technion/ac/il/sd/app/ManagerAppImpl.java:110-116 | a pass that starts from non-negative counters leaves non-negative counters |
| ManagerApps.AdmitIsMaximal | manager-app/src/main/java/cs/technion/ac/il/sd/app/ManagerAppImpl.java:96-116 | with non-negative demands, a pass leaves no more than it started with, and no kept task fits what is left |
| ManagerApps.AdmitStep | manager-app/src/main/java/cs/technion/ac/il/sd/app/ManagerAppImpl.java:98-102 | a pass launches the first queued task when it fits and keeps it otherwise, then goes on with the rest |
| ManagerApps.AdmitLaunchesFirstFitting | manager-app/src/main/java/cs/technion/ac/il/sd/app/ManagerAppImpl.java:110-116 | a pass whose first queued task fits launches something |
| ManagerApps.StartInv | manager-app/src/main/java/cs/technion/ac/il/sd/app/ManagerAppImpl.java:69-71 | process() starts in the scheduler invariant: whole pool, whole graph, its sources queued |
| ManagerApps.InvDependenciesComplete | manager-app/src/main/java/cs/technion/ac/il/sd/app/ManagerAppImpl.java:69-81 | in the invariant, every dependency of a queued, running or complete task is complete, and queued, running and complete tasks are disjoint tasks of the graph |
| ManagerApps.RunAvailableKeepsInv | manager-app/src/main/java/cs/technion/ac/il/sd/app/ManagerAppImpl.java:96-108 | runAvailable (RunAvailableStep) keeps the scheduler invariant |
| ManagerApps.SourcesAfterRemoval | manager-app/src/main/java/cs/technion/ac/il/sd/app/ManagerAppImpl.java:135-139 | after the finished task leaves the graph, its sources are the queued tasks, the other running tasks and the newly ready ones |
| ManagerApps.TaskDoneKeepsInv | manager-app/src/main/java/cs/technion/ac/il/sd/app/ManagerAppImpl.java:131-141 | onTaskDone (TaskDoneStep, queueing the NewlyReady tasks) keeps the scheduler invariant |
| ManagerApps.RunAvailableMakesProgress | manager-app/src/main/java/cs/technion/ac/il/sd/app/ManagerAppImpl.java:73-80 | while not all tasks are launched, on an acyclic graph whose tasks all fit the pool, a pass leaves some task running, so waiting for a callback can end |
| ManagerApps.RunAvailableExtendsOrder | manager-app/src/main/java/cs/technion/ac/il/sd/app/ManagerAppImpl.java:96-108 | the tasks a pass launches extend the launch order: each task once, every dependency launched before its dependant |
| ManagerApps.TaskDoneKeepsOrder | manager-app/src/main/java/cs/technion/ac/il/sd/app/ManagerAppImpl.java:131-141 | onTaskDone keeps the launch order |
| ManagerApps.TaskDoneKeepsNonNegative | manager-app/src/main/java/cs/technion/ac/il/sd/app/ManagerAppImpl.java:153-157 | with non-negative demands, returning a finished task's demand keeps the counters non-negative |
| ManagerApps.RunAvailableKeepsTracks | manager-app/src/main/java/cs/technion/ac/il/sd/app/ManagerAppImpl.java:96-121 | a pass keeps invariant, launch order and call trace in step: one run call per launched task, in launch order |
| ManagerApps.TaskDoneKeepsTracks | manager-app/src/main/java/cs/technion/ac/il/sd/app/ManagerAppImpl.java:131-141 | onTaskDone keeps invariant, launch order and call trace in step |
| ManagerApps.AllLaunchedIsTopologicalOrder | manager-app/src/main/java/cs/technion/ac/il/sd/app/ManagerAppImpl.java:73-85 | once every task is running or complete, the launch order is a topological order of the dependency graph |
| ManagerApps.Dependencies | manager-app/src/main/java/cs/technion/ac/il/sd/app/ManagerAppImpl.java:172-174 | buildGraph's view of getDependenciesOf: one entry per configured task |
| ManagerApps.AddVertices | manager-app/src/main/java/cs/technion/ac/il/sd/app/ManagerAppImpl.java:171 | the graph gains the given vertices and keeps its edges |
| ManagerApps.AddEdgesInto | manager-app/src/main/java/cs/technion/ac/il/sd/app/ManagerAppImpl.java:173-174 | the graph gains an edge from each dependency to the task |
| ManagerApps.AddDependencyEdges | manager-app/src/main/java/cs/technion/ac/il/sd/app/ManagerAppImpl.java:172-174 | the graph gains an edge d -> t for every task t and each of its dependencies d |
| ManagerApps.AddTaskGraph | manager-app/src/main/java/cs/technion/ac/il/sd/app/ManagerAppImpl.java:170-176 | buildGraph adds the configured tasks as vertices and their dependency edges |
| ManagerApps.TaskGraphWellFormed | manager-app/src/main/java/cs/technion/ac/il/sd/app/ManagerAppImpl.java:170-176 | the graph of a configuration is well formed |
| ManagerApps.TaskGraphShape | manager-app/src/main/java/cs/technion/ac/il/sd/app/ManagerAppImpl.java:170-176 | the graph of a configuration has an edge d -> t exactly when both are configured tasks and d's name is on t's dependency list |
| ManagerApps.RunCalls | manager-app/src/main/java/cs/technion/ac/il/sd/app/ManagerAppImpl.java:118-121 | one run call per launched task and never a fail call |
| ManagerApps.LaunchedCount | manager-app/src/main/java/cs/technion/ac/il/sd/app/ManagerAppImpl.java:83-85 | comparing the number of complete and running tasks with the number of tasks decides whether all are launched |
| ManagerApps.ManagerAppImpl.constructor | manager-app/src/main/java/cs/technion/ac/il/sd/app/ManagerAppImpl.java:37-45 | a new manager has an empty graph, queue, running and complete set, and has made no calls |
| ManagerApps.ManagerAppImpl.ProcessFile | manager-app/src/main/java/cs/technion/ac/il/sd/app/ManagerAppImpl.java:47-59 | processFile: exactly when some task exceeds the pool or the dependencies form a cycle, the only calls are create(0, 0, 0) and fail(); otherwise create with the pool, then one run per task in a topological order of the dependencies |
| ManagerApps.ManagerAppImpl.LoadResources | manager-app/src/main/java/cs/technion/ac/il/sd/app/ManagerAppImpl.java:163-168 | the counters become the configured pool and the task count the number of configured tasks |
| ManagerApps.ManagerAppImpl.BuildGraph | manager-app/src/main/java/cs/technion/ac/il/sd/app/ManagerAppImpl.java:170-176 | the graph gains the configuration's tasks and dependency edges |
| ManagerApps.ManagerAppImpl.CanProcess | manager-app/src/main/java/cs/technion/ac/il/sd/app/ManagerAppImpl.java:61-63 | canProcess: true exactly when every configured task fits the counters (isEnoughResources) and the graph has no cycle |
| ManagerApps.ManagerAppImpl.Fail | manager-app/src/main/java/cs/technion/ac/il/sd/app/ManagerAppImpl.java:65-67 | fail: a manager of no capacity is created and told to fail |
| ManagerApps.ManagerAppImpl.Process | manager-app/src/main/java/cs/technion/ac/il/sd/app/ManagerAppImpl.java:69-81 | process: on an acyclic graph whose tasks all fit, ends with every task launched, after a create with the pool and one run per task in a topological order |
| ManagerApps.ManagerAppImpl.Begin | manager-app/src/main/java/cs/technion/ac/il/sd/app/ManagerAppImpl.java:70-71 | create with the pool, then the sources of the graph are queued; the scheduler invariant holds |
| ManagerApps.ManagerAppImpl.AllTasksLaunched | manager-app/src/main/java/cs/technion/ac/il/sd/app/ManagerAppImpl.java:83-85 | allTasksLaunched: true exactly when every task is running or complete |
| ManagerApps.ManagerAppImpl.Round | manager-app/src/main/java/cs/technion/ac/il/sd/app/ManagerAppImpl.java:73-80 | one loop iteration of process() keeps its invariant and completes one more task |
| ManagerApps.ManagerAppImpl.Launch | manager-app/src/main/java/cs/technion/ac/il/sd/app/ManagerAppImpl.java:74 | the pass of a loop iteration keeps the invariant and leaves some task running |
| ManagerApps.ManagerAppImpl.Finish | manager-app/src/main/java/cs/technion/ac/il/sd/app/ManagerAppImpl.java:76 | handling one callback keeps the invariant and moves one running task to complete |
| ManagerApps.ManagerAppImpl.RunAvailable | manager-app/src/main/java/cs/technion/ac/il/sd/app/ManagerAppImpl.java:96-108 | runAvailable: the state after the pass is RunAvailableStep of the state before, with one run call per launched task |
| ManagerApps.ManagerAppImpl.RunEachIfPossible | manager-app/src/main/java/cs/technion/ac/il/sd/app/ManagerAppImpl.java:98-102 | runIfPossible over the queue in order: launched, kept and counters are those of Admit, with one run call per launched task |
| ManagerApps.ManagerAppImpl.RunIfPossible | manager-app/src/main/java/cs/technion/ac/il/sd/app/ManagerAppImpl.java:110-116 | runIfPossible: runs the task and returns it exactly when it fits the counters; otherwise changes nothing |
| ManagerApps.ManagerAppImpl.Run | manager-app/src/main/java/cs/technion/ac/il/sd/app/ManagerAppImpl.java:118-121 | run: the task's demand is taken from the counters and a run call with its name and demand is made |
| ManagerApps.ManagerAppImpl.UseResources | manager-app/src/main/java/cs/technion/ac/il/sd/app/ManagerAppImpl.java:147-151 | useResources: the counters drop by the task's demand |
| ManagerApps.ManagerAppImpl.RestoreResources | manager-app/src/main/java/cs/technion/ac/il/sd/app/ManagerAppImpl.java:153-157 | restoreResources: the counters rise by the task's demand |
| ManagerApps.ManagerAppImpl.OnTaskDone | manager-app/src/main/java/cs/technion/ac/il/sd/app/ManagerAppImpl.java:131-145 | onTaskDone: the state after is TaskDoneStep of the state before, with each newly ready task (a source not yet processed, TaskNotProcessed) queued once |
| ManagerApps.ManagerAppImpl.Enqueue | manager-app/src/main/java/cs/technion/ac/il/sd/app/ManagerAppImpl.java:140 | addAll: the queue keeps its contents and gains each given task exactly once at its end |

## Left out

- Threads and the callback queue: `process()` waits on a blocking queue for the manager's callbacks. The model picks any running task as the next to complete (`var t :| t in running`). The progress lemma `RunAvailableMakesProgress` shows that some task is always running at that point, so the Java wait always ends.
- Queue order: `readyToRun` is a `PriorityQueue`, and its stream visits tasks in heap order. `Task.java` declares no ordering for tasks, so the model uses a sequence. Its pass visits the tasks in sequence order, and newly ready tasks are appended in an unspecified order. Every result holds for any such order.
- JGraphT: `CycleDetector`, `TopologicalOrderIterator` and the depth-first iterator are library code, so their algorithms are not modelled. `hasCycle` is modelled by a reference decision procedure (`DetectCycles`, which peels sources) that is proved equal to "has a cycle". `toposort` and `getAllReachableVerticesFromSource` are modelled by ghost functions specified by their results. The iterator that `toposort` returns is modelled as a sequence.
- The DFS and BFS traversal wrappers of the first `GraphUtils` copy (lines 92-176), and `GraphTraverse.java`, are not part of this model. They only configure JGraphT iterators.
- File I/O: `Configuration.FromLines` takes the lines of the file instead of a `File`. An `IOException` (turned into an `AssertionError`) is not modelled.
- Exceptions: the runtime exceptions of the Java code are modelled as `Failure` values. These are a null first line, an index out of bounds, a `NumberFormatException`, an `IllegalArgumentException` from `resolve` or the dependency queries, and the error of a traversal from a vertex the graph lacks.
- Guice wiring, `FakeManager`, `ManagerModule`, the `DependencyManager` interface and `Task.toString` are not part of this model.
- Integer width: the resource counters are unbounded integers. Java's `int` could overflow when a pool near 2^31 gains a demand back. Only `Integer.parseInt` is range-checked (32-bit, as Java does).
- Digits: `Integer.parseInt` also accepts non-ASCII Unicode digits. The model accepts ASCII digits only.
- Object identity: Java's `Task` has no `equals`, so tasks compare by identity. The model compares them structurally. Within one configuration every name is stored with one task object and names are unique, so both notions agree on the tasks the manager handles.
- Aliasing: `build()` hands its own maps to the manager, so a later `add` on the builder would change the manager's maps. The model passes the maps by value.
- ManagerApps.ManagerAppImpl.ProcessFile: requires a freshly constructed manager (`Pristine`). A second `processFile` on the same object would start from the previous graph and queues, and that case is not modelled.
- ManagerApps.ManagerAppImpl.OnTaskDone: requires the task to be running. Callbacks are only registered for tasks that `run` started, so no other task can arrive.
- ManagerApps.TaskDoneKeepsNonNegative: the counters are proved non-negative only when no demand is negative. `Integer.parseInt` accepts negative demands, and with those a counter can drop below zero.
- Configurations.ParseTaskLine: a line of exactly four tokens is parsed as written: the name token is also read as the cpu number (`copyOfRange(args, 0, 4)`). It therefore fails unless the name is numeric.
- ManagerApps.Dependencies: `buildGraph` calls `getDependenciesOf`, and the code reads getters such as `getCpus` and `getCpu`. `Configuration.java` and `Task.java` declare none of these. The model reads the fields directly and uses `getDepenciesOf`, the dependency query that `Configuration.java` does declare.
