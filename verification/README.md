# GraphQL authorisation demos: a verified model

The repository filters GraphQL queries by what a user may see, in three different ways, and has two small services with
concurrent state behind them. This project models all five and proves what they keep.

**The fragment-specialising filter** (`graphql-opa`) drops `salary` below a refused `employeeByID`. Fragments are not
inlined: each is cloned for every context it is used in, under a fresh name, filtered recursively with a memo, and
pruned at the end. The specification is the plain one (GraphQL October 2021, sections 2.8 and 6.3.2): expand every
spread, then filter the tree.

| file | contents |
|---|---|
| `Text.dfy`, `Wrappers.dfy` | decimal rendering; optional values |
| `Acyclicity.dfy`, `ExpandableDocuments.dfy` | links that do not lead back, and which documents have a meaning |
| `Document.dfy`, `SalaryPolicy.dfy` | documents as values, expansion, the policy and the plain filter |
| `VariantFilter.dfy` | the memoised filter as a function on values |
| `VariantCoherence.dfy`, `VariantTheorems.dfy`, `FilteredDocument.dfy` | its invariant, and the theorems on documents |
| `SalaryOccurrences.dfy` | the same told field by field, from the policy's answers alone |
| `SyntaxNodes.dfy`, `QueryFilter.dfy` | the parser's nodes on the heap, and the filter object that changes them in place, proved against `VariantFilter` |

**The inlining rewriter** (`graphql-rewiter`) removes fields by dotted path and replaces spreads by the fragments' own
nodes, which all spreads of a fragment share and which are rewritten again at each.

| file | contents |
|---|---|
| `RemovedPaths.dfy` | normalising entries, the removed set, in place and as functions |
| `SharedGraph.dfy`, `ExpandedShape.dfy` | selection sets as a graph of shared nodes; expansions, plain rewriting, leaf paths |
| `PathRewriter.dfy`, `RewrittenQuery.dfy` | the rewriting on graphs, and what holds of it under any sharing |
| `SteadyRewriting.dfy`, `TakenForLeaf.dfy`, `SteadyQuery.dfy` | exactly when sharing does no harm |
| `SingleSpreads.dfy`, `SharingExamples.dfy` | documents in which it never does; small queries in which it does |
| `QueryRewriter.dfy` | the code on the heap, proved against the rewriting on graphs |

**The three-pass rewriter** (`authz-server`) denies fields by name or path, drops fragments that come out empty and then
their spreads.

| file | contents |
|---|---|
| `DeniedFields.dfy`, `FieldRemoval.dfy` | the filter on trees, the three passes, the theorems |
| `PermittedTrails.dfy` | what is left and when the query is refused, told from the denied entries alone |
| `HollowSelections.dfy` | exactly when the last pass leaves something without selections |
| `FieldRemover.dfy` | the code on the heap, proved against the passes on trees |

**The todo store** (`todo-server`) changes a map and an index under a lock, publishes outside it and rolls back under it
again when publishing fails.

| file | contents |
|---|---|
| `TodoStore.dfy` | what each section does to the store; requests one at a time; replay of the events |
| `TodoHistory.dfy` | which todos are live and what they say, told from the requests alone |
| `TodoInterleavings.dfy` | any number of operations at once, one step a section |
| `TodoDeletions.dfy` | what becomes of deletions in such runs |
| `TodoResolver.dfy` | the service on the heap, proved against `TodoStore` |

**The event bus** (`graphql-server`) has one-slot channels, publishing that does not wait, and goroutines that forward
events to clients.

| file | contents |
|---|---|
| `EventBus.dfy`, `Forwarder.dfy` | every interleaving of bus and subscription |
| `EmployeeService.dfy` | the bus and its publisher on the heap |

How to read the theorems:

- `FiltersTo(doc, policy, out, removed)` says that the memoised filter turns `doc` into `out`; `QueryFilter.FilterDocument`
  ensures it of the nodes, and the theorems of `FilteredDocument.dfy` are about it. `Means(doc, meanings)` says that every
  operation of `doc` has the given expansion; a document with undefined or endless spreads has none, and theorems without
  `Means` hold for such documents too.
- In the inlining rewriter a `Ranks` map is what acyclic fragments amount to: selections get lower from parent to child
  and from a spread to the body of its fragment. `RewriteAll` is the code's recursion as a function from graph to graph.
- A field path includes those of fields with selections, so that "no removed path is reached" covers everything at or
  below a removed field.
- What the theorems are worth depends on the definitions they mention. The files that tell the outcome "alone" do without
  the code's own tests: `SalaryOccurrences` says which fields go by their nearest enclosing `employeeByID` and the policy's
  answer for its id, `PermittedTrails` by the names on the way and the entries, `TodoHistory` by the requests, and
  `Forwarder.ServedAsWanted` by the employee ids of the publications. `QueryRewriter.Follows` and `SyntaxNodes.Indexes` say
  by position in the document which definition a name leads to. The methods on the heap ensure these statements too.
- In the event bus an event is the number of its publication. What a channel has been offered is kept with it, so that
  "found its slot free" is a fact of the run.

Where the code falls short of what one might expect of it, a lemma gives the input, and another the exact condition for
meeting the expectation:

| expectation | input | condition |
|---|---|---|
| the inlining rewriter takes away just what is removed | `SharingExamples.SharingLosesPaths`, `SharingExamples.SharingKeepsEmptied` | `SteadyQuery.PlainlyIffSteady`, `SteadyQuery.LeavesRemovedIffSteady` |
| the three passes leave nothing without selections | `HollowSelections.CutLeavesEmpty`, `HollowSelections.CutLeavesFragmentEmpty` | `HollowSelections.NothingHollowIff` |
| the todo index misses no live todo | `TodoInterleavings.RevivedTodoIsLost` | `TodoInterleavings.AlwaysExactIff` |
| a deleted todo stays deleted | `TodoInterleavings.RevivedTodoIsLost` | `TodoDeletions.DeletedStaysDeletedIff` |

`Steady` is decided by the expansions and the entries alone, before anything is rewritten. The first condition has the
clause that no emptied field is taken for a leaf on its other side because a query can go wrong in that way and be put
right again by chance (`SharingExamples.EmptiedThenRemoved`); when entries name only fields without selections that cannot
happen, and the second condition does without the clause.

Verify with `dafny verify dfyconfig.toml`.

## Model

| member | source | states |
|---|---|---|
| FilteredDocument.DocumentRefines | graphql-opa/internal/authz/query_filter.go:110-228 | If filtering succeeds and every operation can be expanded (spreads defined, expansion ends), the filtered document's operations, expanded with the filtered document's own fragments, are exactly the plainly filtered expansions of the original operations, in order, an operation being dropped when nothing of it is left |
| FilteredDocument.OperationRefines | graphql-opa/internal/authz/query_filter.go:110-228 | The same for one operation, whatever undefined or cyclic fragments the others spread: its filtered body expands to the filtered expansion |
| FilteredDocument.FailsExactly | graphql-opa/internal/authz/query_filter.go:131-266 | Filtering fails exactly when the policy fails on some employeeByID of some operation's expansion that is not itself below a refused salary |
| FilteredDocument.RemovedExactly | graphql-opa/internal/authz/query_filter.go:131-228 | The removed fields are `employeeByID.salary` when some operation's expansion holds a hidden salary, and nothing otherwise (which salaries are hidden: `SalaryOccurrences.HiddenIffRefused`) |
| SalaryOccurrences.LeavesExactly | graphql-opa/internal/authz/query_filter.go:110-228 | Told of occurrences, each field with everything that encloses it: the operations left have, in order, exactly those fields without selections for which neither the field nor any above it is called `salary` below a nearest `employeeByID` whose id's text (or the empty string) the policy does not allow for the user; and `employeeByID.salary` is listed exactly when some operation has such a salary |
| SalaryOccurrences.FailsOnOccurrence | graphql-opa/internal/authz/query_filter.go:131-148 | Told of occurrences: filtering fails exactly when the policy fails on the id of some `employeeByID` that neither is nor lies below such a salary |
| SalaryOccurrences.HiddenIffRefused | graphql-opa/internal/authz/query_filter.go:136-151 | What the context says on the way down is true of the occurrence: a field is hidden exactly when it is a salary and the policy does not allow the nearest `employeeByID` above it |
| Document.ByNameIsLast | graphql-opa/internal/authz/query_filter.go:89-93 | A name leads to the last fragment of the list that has it, and to none exactly when no fragment has it |
| FilteredDocument.UnchangedIffNothingRemoved | graphql-opa/internal/authz/query_filter.go:110-228 | For operations of the grammar's shape, nothing is listed as removed if and only if every operation keeps its meaning |
| FilteredDocument.FilteringIsIdempotent | graphql-opa/internal/authz/query_filter.go:110-228 | Filtering a filtered document succeeds, lists nothing as removed and keeps the meaning of every operation |
| FilteredDocument.OutputIsSelfContained | graphql-opa/internal/authz/query_filter.go:194-338 | For any document with all spreads defined, cyclic ones included: every spread left names exactly one fragment, every fragment and operation has content, and the fragments are the least set closed under spreading from the operations |
| FilteredDocument.PruneDiscardsExactlyTheEmpty | graphql-opa/internal/authz/query_filter.go:285-338 | The prune keeps a clone if and only if its body did not filter to nothing |
| FilteredDocument.AtMostThreeVariants | graphql-opa/internal/authz/query_filter.go:194-228 | No more than three fragments come out for each fragment name that goes in |
| FilteredDocument.AtMostThreeOfEach | graphql-opa/internal/authz/query_filter.go:194-257 | Every fragment that comes out is a variant of one that went in, and the memo holds at most three variants of each |
| FilteredDocument.RetainedDistinct | graphql-opa/internal/authz/query_filter.go:323-338 | The fragments that stay have different names |
| FilteredDocument.RunIsCoherent | graphql-opa/internal/authz/query_filter.go:110-129 | After all operations, every clone made is the translation of its original in its context, and none is still unfiltered |
| VariantTheorems.TranslationRefines | graphql-opa/internal/authz/query_filter.go:131-228 | Expanding the translation of a selection set with the clones gives the plainly filtered expansion of the selection set |
| VariantTheorems.FilterReaches | graphql-opa/internal/authz/query_filter.go:131-228 | Every clone with content that a call makes is reachable from the selection set the call returns |
| VariantTheorems.AllNoted | graphql-opa/internal/authz/query_filter.go:131-152 | In a finished run every refused salary of the expansion has been noted, and the policy has answered for the whole expansion |
| VariantTheorems.NothingElseNoted | graphql-opa/internal/authz/query_filter.go:131-152 | The filter fails only if the policy fails on the expansion, and notes a removal only if the expansion holds a refused salary |
| VariantCoherence.FilterIsCoherent | graphql-opa/internal/authz/query_filter.go:131-228 | Each call of the memoised recursion, cycles included, returns the translation of its selection set and keeps the invariant that finished clones are translations and open ones are untouched |
| VariantCoherence.EnsureIsCoherent | graphql-opa/internal/authz/query_filter.go:194-228 | The same for a spread: hit, miss and undefined fragment |
| VariantFilter.ClaimShrinks | graphql-opa/internal/authz/query_filter.go:200-218 | Claiming a fragment for a context leaves strictly fewer unclaimed ones: with the selection set's size this is why filtering ends, on cyclic fragments too |
| VariantFilter.CandidateInjective | graphql-opa/internal/authz/query_filter.go:235-244 | The numbered candidates for a name are pairwise different |
| VariantFilter.TrialShrinks | graphql-opa/internal/authz/query_filter.go:240-248 | Each candidate that is taken leaves fewer used names to collide with, so the search for a fresh name ends |
| VariantFilter.FreshNameIs | graphql-opa/internal/authz/query_filter.go:230-249 | A variant is called as its fragment, outside `employeeByID` and if that is free, and otherwise by the first name not in use among the base with `__authz_allow` or `__authz_deny` and the same with `_1`, `_2` and so on |
| Text.DecimalReads | graphql-opa/internal/authz/query_filter.go:241-248 | A number's rendering has only digits, no leading zero but for zero itself, and reads as the number |
| SalaryPolicy.FilterChangesIffRefused | graphql-opa/internal/authz/query_filter.go:131-192 | The plain filter changes an expansion exactly when the expansion holds a refused salary |
| SalaryPolicy.FilteredIsClean | graphql-opa/internal/authz/query_filter.go:131-192 | What the plain filter leaves holds no hidden salary and no empty group, and filtering it again changes nothing |
| ExpandableDocuments.MeaningsExistIff | graphql-opa/internal/authz/evaluator.go:86-92 | What a valid query, the only kind that is filtered, amounts to: a document has a meaning exactly when every fragment its operations lead to through spreads is defined and does not lead to itself |
| QueryFilter.QueryFilter.constructor | graphql-opa/internal/authz/query_filter.go:79-108 | The original fragments are indexed by name, each name leading to the last definition of it in the document, by position, and to none if there is none; nothing has been claimed |
| QueryFilter.QueryFilter.FilterDocument | graphql-opa/internal/authz/query_filter.go:110-129 | On the parser's nodes, changed in place, for a document that has a meaning: fails exactly when the policy fails on an `employeeByID` that neither is nor lies below a refused salary; otherwise the operations left have exactly the fields without selections that have no refused salary at or above, and the removed fields are listed as they are; in both cases as the value-level run has it |
| QueryFilter.QueryFilter.FilterSelectionSet | graphql-opa/internal/authz/query_filter.go:131-192 | In place: the nodes returned stand for the value-level result, the object's maps for its state, and only nodes of the selection set, clones under way and the object itself are written |
| QueryFilter.QueryFilter.FilterField | graphql-opa/internal/authz/query_filter.go:135-164 | One field: hidden, failed, leaf and nested cases, as the value-level filter has them |
| QueryFilter.QueryFilter.FilterSpread | graphql-opa/internal/authz/query_filter.go:175-186 | One spread: a new spread node for the clone's name, or none |
| QueryFilter.QueryFilter.EnsureFragmentVariant | graphql-opa/internal/authz/query_filter.go:194-228 | Memo hit or new clone, as the value-level function has it, with the clone's nodes new |
| QueryFilter.QueryFilter.GenerateFragmentName | graphql-opa/internal/authz/query_filter.go:230-249 | The name is the first free one in the order base name, candidate, numbered candidates, and it is reserved |
| QueryFilter.QueryFilter.ReserveFragmentName | graphql-opa/internal/authz/query_filter.go:251-257 | Answers whether the name was free, and reserves it if so |
| QueryFilter.QueryFilter.ReachableNames | graphql-opa/internal/authz/query_filter.go:290-321 | The work list finds the least set of names that holds the seeds and is closed under spreading |
| QueryFilter.QueryFilter.PruneUnusedFragments | graphql-opa/internal/authz/query_filter.go:285-338 | The clones that stay are, in order, those that are reachable from the operations and have content |
| SyntaxNodes.CloneSelectionSet | graphql-opa/internal/authz/query_filter.go:374-400 | A deep copy: an equal tree made of new nodes only |
| SyntaxNodes.CollectFragmentSpreads | graphql-opa/internal/authz/query_filter.go:340-363 | The names spread at any depth, fragments not followed |
| RemovedPaths.NormalizeIdempotent | graphql-rewiter/rewriter.go:119-134 | Normalising a path twice is normalising it once, and its segments are clean |
| RemovedPaths.TrimIs | graphql-rewiter/rewriter.go:120-128 | Trimming takes white space off both ends and leaves none there |
| RemovedPaths.JoinSplit | graphql-rewiter/rewriter.go:125-133 | The parts of a split hold no dot and, joined by dots, are the string again |
| RemovedPaths.CleanAppend | graphql-rewiter/rewriter.go:126-132 | Cleaning goes part by part, in order; with `CleanOne`, a part that is all white space goes and any other is trimmed |
| RemovedPaths.NamesAreSegments | graphql-rewiter/rewriter.go:107-110 | A GraphQL name (section 2.1.9) is a segment, so what is proved of paths of segments holds of all field paths |
| RemovedPaths.Compact | graphql-rewiter/rewriter.go:126-133 | The compaction in the split's own array leaves exactly the non-blank parts, trimmed, in order, at its front |
| RemovedPaths.NormalizePath | graphql-rewiter/rewriter.go:119-134 | Computes the cleaned segments joined by dots |
| RemovedPaths.BuildRemovedSet | graphql-rewiter/rewriter.go:35-42 | The removed set holds the normal forms of the entries, blank ones skipped |
| RemovedPaths.InRemovedSet | graphql-rewiter/rewriter.go:35-42 | A string is in the removed set exactly when it is the non-empty normal form of some entry |
| RemovedPaths.JoinInjective | graphql-rewiter/rewriter.go:107-110 | Joining dot-free names by dots is injective |
| RemovedPaths.RemovedExactly | graphql-rewiter/rewriter.go:107-110 | A path of GraphQL names is judged removed exactly when some entry's cleaned segments are that path |
| RewrittenQuery.RewrittenIsCensored | graphql-rewiter/rewriter.go:49-105 | However often fragments are spread, and nodes shared and rewritten in place: in every operation no field lies at a removed path or below one, no spread is left, and every field path was a field path of the operation before (acyclic fragments) |
| RewrittenQuery.NothingGoneIsLeft | graphql-rewiter/rewriter.go:35-51 | The same in terms of the decision's entries: a path of GraphQL names that is left was there before, and no entry names it or a field above it |
| SteadyQuery.PlainlyIffSteady | graphql-rewiter/rewriter.go:49-105 | Any sharing, any entries: all operations come out as the plain rewriting of their expansions, without a field that had selections ever being taken for a leaf, if and only if the expansions are steady: going through them in order, and below each selection set the first time only, every selection set of a field or inline fragment that is met again has the same plain rewriting as the first time, and that of a field is not empty |
| SteadyQuery.LeavesRemovedIffSteady | graphql-rewiter/rewriter.go:49-105 | When no entry removes a field that has selections, all operations come out as the plain rewriting of their expansions if and only if the expansions are steady |
| SteadyQuery.SteadyRemainsExactly | graphql-rewiter/rewriter.go:49-105 | Steady operations keep, in order, exactly the leaf paths of their expansions that no entry names or leads to |
| SteadyRewriting.WalkAgrees | graphql-rewiter/rewriter.go:62-105 | Where the walk over the expansion gets through, the call returns the plain rewriting, touches no node outside the expansion and takes no emptied field for a leaf |
| SteadyRewriting.WalkBreaks | graphql-rewiter/rewriter.go:62-105 | Where the walk stops, the call takes an emptied field for a leaf, or leaves some selection of the plain rewriting without a leaf path it ought to have below it, for good |
| TakenForLeaf.TakenStays | graphql-rewiter/rewriter.go:78-85 | When no entry removes a field that has selections, an emptied field once taken for a leaf is still there, empty, below what the call returns |
| SingleSpreads.RemainingExactly | graphql-rewiter/rewriter.go:49-105 | When no fragment that leads to a field with selections or to an inline fragment is spread twice, whatever is removed: the leaf paths of each rewritten operation are, in order, those of its expansion with precisely the ones left out that an entry names or leads to. Fragments of fields without selections may be spread any number of times |
| SingleSpreads.OnePlaceIffSpreadOnce | graphql-rewiter/rewriter.go:87-92 | In a parsed document every selection that is overwritten or leads to such a one stands in one place if and only if no fragment that has some is spread twice |
| SharingExamples.SharingLosesPaths | graphql-rewiter/rewriter.go:62-105 | With a fragment spread twice, removing a path below one spread also takes a path away below the other, which no entry removes |
| SharingExamples.SharingKeepsEmptied | graphql-rewiter/rewriter.go:78-85 | With a fragment spread twice and all leaf paths removed, a field stays in the query without its selections: the second spread takes it for a leaf |
| SharingExamples.EmptiedThenRemoved | graphql-rewiter/rewriter.go:72-85 | A query that is not steady and comes out plainly rewritten all the same, because a field taken for a leaf is later removed by its own path |
| SharingExamples.EmptiedOutOfSight | graphql-rewiter/rewriter.go:72-85 | A steady query in which a field is emptied that a second spread reaches as well: what it stood in has been rewritten by then and holds it no more |
| SharedGraph.WiredIffAcyclic | graphql-rewiter/rewriter.go:87-92 | Selections can be ranked, parents above children and spreads above fragment bodies, exactly when none is reached from itself |
| ExpandedShape.HasPathIff | graphql-rewiter/rewriter.go:62-105 | The field paths in terms of which nothing removed is left are those of the expansion, read off the tree |
| RewrittenQuery.LostIffGone | graphql-rewiter/rewriter.go:107-134 | For paths of GraphQL names, having a part in the removed set means that some entry's segments are the path or a part of it from the top |
| PathRewriter.RewriteAllRewrites | graphql-rewiter/rewriter.go:62-105 | Any sharing: each call only ever replaces selection sets by ones inlined from them, and returns selections without spreads and without removed paths, which stay so while later calls go on |
| ExpandedShape.RewrittenKeeps | graphql-rewiter/rewriter.go:62-105 | The plain rewriting keeps, in order, exactly the leaf paths without a removed part |
| SharedGraph.PathsShrink | graphql-rewiter/rewriter.go:79-92 | Replacing selection sets by ones inlined from them never adds a field path, at any node |
| QueryRewriter.RewriteSelectionSet | graphql-rewiter/rewriter.go:62-105 | In place: nodes and result are those of the rewriting on graphs |
| QueryRewriter.IndexFragments | graphql-rewiter/rewriter.go:44-47 | Each name leads to its last definition in the document, by position, and to none exactly when it has none |
| QueryRewriter.SpreadsDoFollow | graphql-rewiter/rewriter.go:86-92 | In the graph that is rewritten a spread has below it the selection set of the last definition of its name, and nothing when there is none |
| QueryRewriter.FollowsIsExpands | graphql-rewiter/rewriter.go:86-92 | Following spreads to the last definitions among the nodes gives just the expansions over that graph |
| QueryRewriter.RewriteQuery | graphql-rewiter/rewriter.go:20-55 | A denied request changes nothing. Otherwise the fragment definitions are gone; below each spread there was the selection set of the last definition of its name among the document's, by position, and nothing if there was none; no field path of GraphQL names is left that an entry names or leads to, and none is new; operations, with field names as in GraphQL, whose expansions, spreads followed to those definitions, are steady keep in order exactly the leaf paths that no entry names or leads to; and nodes and operations end as the rewriting on graphs has them |
| TodoStore.FailureUndoes | envoy-opa-graphql-demo/todo-server/graph/schema.resolvers.go:16-98 | From any valid store, a create, update or delete that is not published leaves the todos and the index, presence of buckets included, as they were |
| TodoStore.ReplayGivesLiveTodos | envoy-opa-graphql-demo/todo-server/graph/schema.resolvers.go:16-98 | Over any sequence of requests, whichever fail to be published, replaying the published events over the seeds gives exactly the live todos, with employee and content (which are those asked for: `TodoHistory.LiveTodosAreAsTold`) |
| TodoHistory.LiveTodosAreAsTold | envoy-opa-graphql-demo/todo-server/graph/schema.resolvers.go:16-98 | Over any sequence of requests, whichever fail to be published, told from the requests alone: a todo is live exactly when a delivered create made it, or it is a seed, and no delivered request has deleted it since; it belongs to the employee it was made for; and its content and time are those of the last delivered request that made or changed it |
| TodoStore.ServeMatchesLog | envoy-opa-graphql-demo/todo-server/graph/resolver.go:122-135 | Each request moves the live todos just as its published event says |
| TodoStore.ExactIffScan | envoy-opa-graphql-demo/todo-server/graph/resolver.go:101-120 | The index agrees with a search through all todos, for every employee, exactly when no live todo is missing from it |
| TodoInterleavings.StepKeeps | envoy-opa-graphql-demo/todo-server/graph/schema.resolvers.go:16-98 | Every lock section and publisher's answer, of any operation at any moment, keeps the invariant; it keeps the index exact if and only if it is not the roll-back of an update on to a deleted todo |
| TodoInterleavings.AloneIsServed | envoy-opa-graphql-demo/todo-server/graph/schema.resolvers.go:16-98 | From any state, the sections of one request, run with nothing in between, do to store, counter and events what the request does served on its own |
| TodoInterleavings.IndexSoundInEveryRun | envoy-opa-graphql-demo/todo-server/graph/schema.resolvers.go:16-98 | In every interleaving each index entry is a live todo of that employee, and no bucket is empty |
| TodoInterleavings.IndexExactInRun | envoy-opa-graphql-demo/todo-server/graph/resolver.go:81-120 | In every interleaving without such a roll-back each bucket is what a search through all todos finds |
| TodoInterleavings.AlwaysExactIff | envoy-opa-graphql-demo/todo-server/graph/schema.resolvers.go:56-65 | Over whole runs the index is exact in every state if and only if no failed update is rolled back on to a deleted todo |
| TodoDeletions.DeletedStaysDeletedIff | envoy-opa-graphql-demo/todo-server/graph/schema.resolvers.go:56-98 | Over whole runs, no todo is ever live whose deletion is published or under way, if and only if no failed update is rolled back on to a deleted todo |
| TodoDeletions.PublishedDeletionHolds | envoy-opa-graphql-demo/todo-server/graph/schema.resolvers.go:71-98 | In every interleaving without such a roll-back, a todo whose deletion event is in the log is not found |
| TodoDeletions.DeletionsStep | envoy-opa-graphql-demo/todo-server/graph/schema.resolvers.go:16-98 | Each step, from any state with the invariant, makes a todo live whose deletion is published or under way if and only if it is such a roll-back |
| TodoInterleavings.NoIdTwice | envoy-opa-graphql-demo/todo-server/graph/resolver.go:64-67 | In every interleaving no id is handed out twice, nor one of the seeds' |
| TodoInterleavings.RevivedTodoIsLost | envoy-opa-graphql-demo/todo-server/graph/schema.resolvers.go:56-65 | A run after which a todo whose deletion was published is live again and in no list |
| TodoResolver.Resolver.constructor | envoy-opa-graphql-demo/todo-server/graph/resolver.go:22-55 | Two seeds, each listed under its employee, over the publisher given, whatever it has published before, or a new no-op one if none is given |
| TodoResolver.Resolver.CreateTodo | envoy-opa-graphql-demo/todo-server/graph/schema.resolvers.go:16-39 | On delivery the todos are the old ones, unchanged, and one under the next id with the employee, content and time given, not deleted; the index lists it under the employee besides what it listed; and one event has been published, of kind created, with that id, employee and content. Otherwise todos and events are as before. The copy returned is apart from the store |
| TodoResolver.Resolver.UpdateTodo | envoy-opa-graphql-demo/todo-server/graph/schema.resolvers.go:42-68 | A missing or deleted todo is reported. On delivery the todo has the new content and time, and one event of kind updated has been published with its id, its employee and the new content; otherwise content, time and events are as before. No other todo changes |
| TodoResolver.Resolver.DeleteTodo | envoy-opa-graphql-demo/todo-server/graph/schema.resolvers.go:71-98 | A missing or deleted todo is reported. On delivery the todo is marked deleted with the new time, the index lists it no more and all else as before, and one event of kind deleted has been published with its id, employee and content; otherwise todo and events are as before. No other todo changes |
| TodoResolver.Resolver.UpsertEmployeeIndexNoLock | envoy-opa-graphql-demo/todo-server/graph/resolver.go:81-88 | The bucket is made if it is missing, and the id added |
| TodoResolver.Resolver.RemoveEmployeeIndexNoLock | envoy-opa-graphql-demo/todo-server/graph/resolver.go:90-99 | The id is removed, and a bucket left empty with it |
| TodoResolver.Resolver.ListTodosByEmployeeNoLock | envoy-opa-graphql-demo/todo-server/graph/resolver.go:101-120 | New copies, newest first as the time strings compare; a permutation of the live todos in the bucket and, with an exact index, of all nodes that are not deleted and belong to the employee |
| TodoResolver.Resolver.TodoByID | envoy-opa-graphql-demo/todo-server/graph/schema.resolvers.go:108-117 | A new copy, equal in every field, of the todo if it is there and not deleted, and not found otherwise |
| TodoResolver.SortNewestFirst | envoy-opa-graphql-demo/todo-server/graph/resolver.go:116-118 | A permutation in which no todo comes before a newer one |
| TodoResolver.LexLessIs | envoy-opa-graphql-demo/todo-server/graph/resolver.go:116-118 | One time string is before another exactly when, after a common beginning, it ends first or has the smaller character |
| EventBus.MapHoldsExactlyOpen | envoy-opa-graphql-demo/graphql-server/graph/pubsub.go:25-60 | In every interleaving nothing is sent on a closed channel, no channel is closed twice, and the map holds exactly the open channels that have entered it |
| EventBus.SubscriberGets | envoy-opa-graphql-demo/graphql-server/graph/pubsub.go:25-60 | In every interleaving a subscriber has received, with what is in its slot, exactly the events that found the slot free, in the order offered and none twice, all published while it was in the map; once publishers are done it has been offered all of those |
| EventBus.SubscriberGetsWhatFits | envoy-opa-graphql-demo/graphql-server/graph/pubsub.go:49-60 | The same from any state with the invariant |
| EventBus.UndisturbedPublish | envoy-opa-graphql-demo/graphql-server/graph/pubsub.go:49-60 | In every run of a publisher's own steps from beginning to end, in whatever order it tries the subscribers, it fills every subscriber's free slot and changes no other |
| EventBus.CanSubscribe | envoy-opa-graphql-demo/graphql-server/graph/pubsub.go:25-34 | Whenever nobody publishes a new subscriber can come in, under an id not used before and with an empty open channel, and nothing else changes |
| EventBus.ReceivedInOrder | envoy-opa-graphql-demo/graphql-server/graph/schema.resolvers.go:15-35 | When publishers wait for each other, as under the lock of UpdateEmployee, every subscriber receives events in the order they were published |
| EventBus.StepKeeps | envoy-opa-graphql-demo/graphql-server/graph/pubsub.go:25-60 | Each step of subscribing, unsubscribing, publishing to one subscriber after another, and receiving keeps the invariant |
| Forwarder.EverySubscription | envoy-opa-graphql-demo/graphql-server/graph/schema.resolvers.go:60-91 | In every run of a subscription, whatever others do on the bus and whenever it is cancelled: what is delivered, on its way or held is of the employee wanted only, and unless cancelled is, in order, exactly the events received whose employee is that one, or all of them if none is wanted in particular; at most three events are in flight; a goroutine leaves of its own accord only once its channel is closed and has nothing more in it; one that is done is off the bus, and its channel to the client was closed once |
| Forwarder.InvServesAsWanted | envoy-opa-graphql-demo/graphql-server/graph/schema.resolvers.go:73-87 | In every state with the invariant, the same of what is delivered, on its way or held, said with the employee ids of the publications |
| Forwarder.CanStart | envoy-opa-graphql-demo/graphql-server/graph/schema.resolvers.go:60-66 | Whenever nobody publishes a subscription can start: a subscriber with a new id on the bus, and a goroutine that waits, with nothing delivered yet |
| Forwarder.GetsThrough | envoy-opa-graphql-demo/graphql-server/graph/schema.resolvers.go:60-91 | With nothing on its way to a client, what is published next can get to it, and once taken does so exactly if it is of the employee wanted |
| Forwarder.CanEnd | envoy-opa-graphql-demo/graphql-server/graph/schema.resolvers.go:66-88 | Wherever a goroutine is, its client can go away, and then it can come to its end once nobody publishes, off the bus and with nothing more delivered |
| Forwarder.DeliveredInOrder | envoy-opa-graphql-demo/graphql-server/graph/schema.resolvers.go:15-91 | When publishers wait for each other, as under the lock of UpdateEmployee, the client of every subscription is delivered events in the order they were published, and each has the id of the employee wanted, if one is |
| Forwarder.MatchingIsOfEmployee | envoy-opa-graphql-demo/graphql-server/graph/schema.resolvers.go:77-80 | What the goroutine does not skip are, in order, exactly the received events whose employee has the id given, or all of them when none is given |
| Forwarder.MatchingMatches | envoy-opa-graphql-demo/graphql-server/graph/schema.resolvers.go:77-80 | The received events that are passed on are exactly those the goroutine does not skip (which are those of the employee wanted: `Forwarder.MatchingIsOfEmployee`) |
| EmployeeService.EventBus.Subscribe | envoy-opa-graphql-demo/graphql-server/graph/pubsub.go:25-34 | A new id and a new open channel, entered in the map |
| EmployeeService.EventBus.Unsubscribe | envoy-opa-graphql-demo/graphql-server/graph/pubsub.go:37-45 | The channel leaves the map and is closed; no other channel changes |
| EmployeeService.EventBus.Publish | envoy-opa-graphql-demo/graphql-server/graph/pubsub.go:49-60 | Every subscriber whose slot is free then holds the employee, and a slot that is full stays as it is |
| EmployeeService.Resolver.UpdateEmployee | envoy-opa-graphql-demo/graphql-server/graph/schema.resolvers.go:15-35 | An unknown id changes nothing; otherwise the given fields of that employee change, in place, and the employee is offered to every subscriber |
| DeniedFields.ParseDeniedFields | envoy-opa-graphql-demo/authz-server/internal/rewriter/rewriter.go:23-36 | Entries with a dot are paths, the others names |
| DeniedFields.FilteredNames | envoy-opa-graphql-demo/authz-server/internal/rewriter/rewriter.go:168-205 | After filtering no globally denied name is left at any depth, and no field or spread is new |
| DeniedFields.FilteredInAnyOrder | envoy-opa-graphql-demo/authz-server/internal/rewriter/rewriter.go:168-205 | Filtering by one list and then another, in either order, is filtering once by both |
| PermittedTrails.FilteredPaths | envoy-opa-graphql-demo/authz-server/internal/rewriter/rewriter.go:168-205 | Without spreads, for any mix of entries: the leaf paths left are, in order, exactly those for which no entry without a dot is a name on the path and no entry with a dot is the names of a part of it from the top, joined by dots |
| PermittedTrails.FilteredTrails | envoy-opa-graphql-demo/authz-server/internal/rewriter/rewriter.go:168-205 | With spreads: the leaf fields and spreads left, each with everything it stands in, are in order exactly those with no denied field at or above |
| PermittedTrails.CutTrails | envoy-opa-graphql-demo/authz-server/internal/rewriter/rewriter.go:207-232 | Pass 3 leaves, in order, exactly the leaf fields and spreads that are not spreads of the names cut |
| PermittedTrails.PathDeniedNext | envoy-opa-graphql-demo/authz-server/internal/rewriter/rewriter.go:38-53 | Going one field down, the code denies the field exactly when an entry denies the longer path or denied the shorter one: by name without a dot, by the names from the top joined by dots with one |
| DeniedFields.EmptyIffAllBlocked | envoy-opa-graphql-demo/authz-server/internal/rewriter/rewriter.go:168-205 | Without spreads nothing is left exactly when the filter's test denies some field on every leaf path (what the test comes to: `PermittedTrails.PathDeniedNext`) |
| DeniedFields.FiltersAgree | envoy-opa-graphql-demo/authz-server/internal/rewriter/rewriter.go:38-53 | Without spreads, and for entries that are clean dotted paths, this filter gives exactly what the inlining rewriter gives |
| DeniedFields.CutNames | envoy-opa-graphql-demo/authz-server/internal/rewriter/rewriter.go:207-232 | Pass 3 takes exactly the named spreads away and no field |
| FieldRemoval.DeniedNamesGone | envoy-opa-graphql-demo/authz-server/internal/rewriter/rewriter.go:120-166 | When the three passes succeed, no field with a globally denied name is left in any operation or fragment |
| FieldRemoval.SpreadsStayDefined | envoy-opa-graphql-demo/authz-server/internal/rewriter/rewriter.go:120-166 | And if every spread was defined, every spread left names a fragment that is kept |
| PermittedTrails.PassesLeaveAllowed | envoy-opa-graphql-demo/authz-server/internal/rewriter/rewriter.go:120-166 | For every document and any mix of entries, told from the entries alone: the query is refused exactly when some operation has nothing allowed, but for spreads on top of fragments that have nothing allowed; otherwise operations, and fragments with something allowed, hold in order exactly the leaf fields and spreads with no denied field at or above, but for the spreads of the other fragments |
| PermittedTrails.RefusedIffAllDenied | envoy-opa-graphql-demo/authz-server/internal/rewriter/rewriter.go:144-150 | Without named fragments the query is refused exactly when some operation has a denied field on every leaf path |
| FieldRemoval.RefusedIffAllBlocked | envoy-opa-graphql-demo/authz-server/internal/rewriter/rewriter.go:144-150 | The same with the filter's own test: without named fragments the query is refused exactly when some operation has no leaf path that passes it |
| HollowSelections.NothingHollowIff | envoy-opa-graphql-demo/authz-server/internal/rewriter/rewriter.go:120-232 | When the passes succeed: no operation, kept fragment, field that had selections or inline fragment is left without selections if and only if each of those that filtering keeps holds, after filtering, something besides spreads of fragments that filtering leaves empty |
| HollowSelections.CutLeavesEmpty | envoy-opa-graphql-demo/authz-server/internal/rewriter/rewriter.go:219-228 | An inline fragment or a field that holds only the spread of a dropped fragment is left without selections, though passes 1 and 2 drop what they leave so |
| HollowSelections.CutLeavesFragmentEmpty | envoy-opa-graphql-demo/authz-server/internal/rewriter/rewriter.go:158-161 | A kept fragment that holds only the spread of a dropped one is left without selections, and so is its own spread left in the operation |
| FieldRemover.FilterSelectionSet | envoy-opa-graphql-demo/authz-server/internal/rewriter/rewriter.go:168-205 | In place: the result stands for the filtered tree, and only nodes of that tree are written |
| FieldRemover.RemoveEmptyFragmentSpreads | envoy-opa-graphql-demo/authz-server/internal/rewriter/rewriter.go:207-232 | In place: the result stands for the tree with the spreads cut, and only nodes of that tree are written |
| FieldRemover.RemoveFields | envoy-opa-graphql-demo/authz-server/internal/rewriter/rewriter.go:120-166 | In place, for field names that are not empty: the query is refused exactly when some operation has nothing allowed by the entries (as in `PermittedTrails.PassesLeaveAllowed`), and otherwise the nodes hold, in order, exactly the leaf fields and spreads that are allowed; in both cases as the passes on trees have it |

## Left out

- Parsing, printing, JSON and the re-parsing of the filtered text: the model starts and ends at the syntax tree.
- The policy engine is an arbitrary function of user and target that may allow, deny or fail; evaluating an `id` argument against variables is a given outcome of the argument.
- Error messages, contexts, deadlines and the gRPC, HTTP and Kafka wiring; the publisher is an oracle that appends an event or fails.
- Clock values: a timestamp is a given string, compared character by character. The event's own id and time, and its second copy of the employee's id, are not modelled.
- Counters are unbounded; the wrap-around of 64-bit counters is not modelled.
- The removed fields are kept as a set; the sorted list printed from it is not modelled.
- The order in which the prune's work list and Go's maps are gone through: proofs hold for any order.
- Names of fragments are taken not to be empty, as the grammar has it; the prune's skipping of the empty name is modelled.
- PermittedTrails.PassesLeaveAllowed: takes field names not to be empty, as section 2.1.9 of the GraphQL specification has it; `FieldRemover.RemoveFields` ensures what needs no such assumption for all nodes.
- SyntaxNodes.CollectFragmentSpreads: gives the names as a set; that the code returns them sorted is not modelled; what its callers compute does not depend on the order (QueryFilter.ReachableNames).
- Type conditions and spread directives, which the inlining rewriter drops: its theorems are about field paths.
- Fragments that spread themselves under the inlining rewriter: its recursion does not end on them, and section 5.5.2.2 of the GraphQL specification forbids them.
- FieldRemoval.AfterPasses: when a query is refused the half-filtered document is thrown away, and nothing is said about it.
- TodoResolver.SortNewestFirst: an insertion sort stands for the library's sort; which of two todos with equal times comes first is left open by the contract.
- TodoInterleavings.Next: the copy a successful create returns is read after the lock is released and is not part of the state; the event of a create is read at the moment it is published.
- EventBus.Next: an event is its publication and the employee's id; that subscribers share the employee record and see later changes to it is not modelled there, only in EmployeeService.
- Forwarder.After: only safety; that a goroutine gets to run is not modelled.
- Listing employees and employeeByID of the employee service, the Bloom filter wrapper, the line-based field extractor, the server set-ups and the `demo-opa-graphql` example: they would only add easy members.
