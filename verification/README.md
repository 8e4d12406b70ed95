# Context Highlighter, modelled in Dafny

Context Highlighter colours JavaScript by scope rather than by token kind.
A two-pass binding analysis gives every function its own scope (an
`Environment`). Every identifier is tied to the scope that declares it, and
every function and identifier is coloured by its nesting level. An editor
keeps the analysed tree in step with the text: after each change it
re-parses only the innermost function around the change. It splices that
function back into the tree and moves every later position by the length of
the edit. A batch converter renders an analysed program as HTML. A generic
visitor folds over the node kinds of the Parser API.

The model is split into these modules:

- `Base` (ast.dfy): JavaScript's `undefined` as `Option`, and `String.prototype.slice`.
  It also holds `Policy`, which chooses between the code as written and a corrected version at the three places listed under "Findings".
- `Ast` (ast.dfy): a closed syntax tree. Each node carries its uid (standing for object identity), its range, the `rendered` flag, `bindings` and `boundIn`.
  `Children` lists a node's children in the order estraverse and `for … in` visit them. `Nested` states that ranges nest properly.
- `Scopes` (scopes.dfy): the `Environment` objects as an arena of scopes. A scope's parent always comes earlier in the arena.
  The module holds `addBindingInstance`, `addBoundInstance`, `findBindingEnv` and `level`.
- `Resolver` (resolver.dfy): `performBindingAnalysis`, pass 1 (declarations) and pass 2 (references).
  Variant `Current` is bindinganalyzer.js. Variant `Legacy` is the copy inside contexthighlighting.js.
- `Reparse` (reparse.dfy): the editor's pure parts.
  These are `calculateChangeLength`, `findPathToPos`, the text sent for a partial parse, the position correction `idxCorr`, the replacing traversal that splices the re-parsed function in, and `cleanUp`.
- `Engine` (engine.dfy): the editor's worker protocol as a state machine. Its state is `running`, the `cleanup` timer, the installed `onmessage`/`onerror` handlers and the requests in flight.
- `Html` (html.dfy): `htmlConverter` (variant `Current`) and `toHtmlString` in contexthighlighting.js (variant `Legacy`).
  This covers escaping, element building, token slices, `sliceWithTokens`, `mergeParts`, `allToText` and `toText`.
- `Visitor` (visitor.dfy): `traverse` and `traverseAll` over JavaScript values.

## Model

| member | source | states |
|---|---|---|
| Base.SliceIndex | htmlconverter.js:96 | a `slice` index lands in `[0, len]` whatever its sign |
| Ast.Children | bindinganalyzer.js:128-133 | every child is structurally smaller than its node, so walking the children terminates |
| Ast.WithChildren | src/editor.js:135-165 | putting back a list of children gives a node with exactly those children and with the same information and kind |
| Ast.WithOwnChildren | src/editor.js:135-165 | putting a node's own children back gives the node unchanged |
| Ast.WithChildrenTwice | src/editor.js:135-165 | replacing children twice keeps only the second replacement |
| Scopes.NewEnv | bindinganalyzer.js:32-36 | a new scope is appended with no bindings and the given parent; the arena stays well formed |
| Scopes.AddBindingInstance | bindinganalyzer.js:38-44 | the record for the name is created if missing and the declaration is appended; no other scope or name changes |
| Scopes.AddBoundInstance | bindinganalyzer.js:46-52 | the record for the name is created if missing and the reference is appended; no other scope or name changes |
| Scopes.Chain | bindinganalyzer.js:63-64 | the parent chain starts at the scope, follows `parent` links and ends at a scope without a parent |
| Scopes.LevelCountsHops | bindinganalyzer.js:73-79 | `level()` is the number of parent hops to the global scope, and it is 0 exactly for a scope without a parent |
| Scopes.FindBindingEnv | bindinganalyzer.js:58-71 | the scope found declares the name afterwards, and the arena keeps its size |
| Scopes.FindIsNearest | bindinganalyzer.js:58-71 | the scope found is the first one on the parent chain that has the name, or the root when none has it |
| Scopes.FindIsNearestScope | bindinganalyzer.js:58-71 | the scope a lookup finds is the nearest scope on the chain that holds the name, or the global scope when none holds it |
| Scopes.NearestScopeUnique | bindinganalyzer.js:58-71 | only one scope can be the nearest for a name, so the claim pins the scope down |
| Scopes.FindSameScope | bindinganalyzer.js:58-71 | for a name other than `this`, a lookup gives the same scope in an arena that only gained scopes and names at the root or `this` |
| Scopes.FindKeepsArena | bindinganalyzer.js:60-64 | when some scope on the chain has the name, the lookup changes nothing |
| Scopes.FindCreatesAtRoot | bindinganalyzer.js:66-70 | when no scope on the chain has the name, an empty record is created in the global scope and nothing else changes |
| Scopes.AddGrows | bindinganalyzer.js:38-52 | adding an instance only appends to the arena |
| Scopes.FindGrows | bindinganalyzer.js:58-71 | a lookup only appends to the arena |
| Scopes.NewEnvGrows | bindinganalyzer.js:32-36 | opening a scope only appends to the arena |
| Scopes.WithDeclsAppend | bindinganalyzer.js:38-44 | declaring two lists one after the other is the same as declaring their concatenation |
| Scopes.AddIsWithDecl | bindinganalyzer.js:38-44 | `addBindingInstance` agrees with the reference definition of one declaration |
| Scopes.FindKeepsDecls | bindinganalyzer.js:58-71 | a lookup never adds or removes a declaration |
| Scopes.FindKeepsReferences | bindinganalyzer.js:58-71 | a lookup never adds or removes a reference |
| Scopes.AddBoundReferences | bindinganalyzer.js:46-52 | registering a reference adds exactly that reference to the set of recorded references |
| Scopes.AddBoundKeepsDecls | bindinganalyzer.js:46-52 | registering a reference leaves every declaration list unchanged |
| Scopes.RecordedGrows | bindinganalyzer.js:50 | a recorded reference stays recorded as the arena grows |
| Scopes.NoReferencesInEmptyScope | bindinganalyzer.js:36 | a new scope records no references |
| Scopes.AddBindingKeepsReferences | bindinganalyzer.js:38-44 | a declaration never adds or removes a reference |
| Scopes.NewEnvKeepsReferences | bindinganalyzer.js:32-36 | opening a scope never adds or removes a reference |
| Resolver.DeclareParams | bindinganalyzer.js:117-118 | every parameter name is declared in the function's scope, and no other scope changes |
| Resolver.DeclareName | bindinganalyzer.js:109-114 | a declaration's name goes to the enclosing scope and a named expression's name to its own scope; nothing else changes |
| Resolver.EnterFunction | bindinganalyzer.js:104-118 | a function opens one new scope whose parent is the enclosing scope and which declares every parameter |
| Resolver.Declare | bindinganalyzer.js:82-135 | pass 1 only appends scopes that have parents and changes no scope other than the current one; the node keeps its identity and range, and all its information when it is not a function |
| Resolver.DeclareAll | bindinganalyzer.js:86-92 | pass 1 over a list gives one node per element and keeps the same arena frame: only appended scopes with parents, no other scope changed |
| Resolver.DeclareKeepsTree | bindinganalyzer.js:82-135 | pass 1 keeps the whole tree: every node keeps its kind, identity, range, rendered flag and number of children; only scope annotations change |
| Resolver.DeclareAllKeepsTree | bindinganalyzer.js:86-92 | the same holds for every element of a list |
| Resolver.DeclareParamsDecls | bindinganalyzer.js:117-118 | the function's scope gains exactly the parameters, in order |
| Resolver.EnterFunctionDecls | bindinganalyzer.js:104-118 | the enclosing scope gains `arguments` (Current only) and a declaration's name; the new scope gains the expression's own name and the parameters |
| Resolver.OpenScopeDecls | bindinganalyzer.js:104-107 | opening a function's scope adds exactly the `arguments` declaration to the enclosing scope in the current variant and nothing in the other |
| Resolver.DeclareNameDecls | bindinganalyzer.js:109-114 | a declaration adds exactly its name to the enclosing scope; a named expression adds exactly its name to its own scope |
| Resolver.DeclareHoists | bindinganalyzer.js:82-135 | what pass 1 adds to the current scope is exactly the hoisted declarations of the subtree, in order, without looking into nested functions |
| Resolver.DeclareAllHoists | bindinganalyzer.js:86-92 | the same holds for a list of nodes |
| Resolver.DeclareOpensScope | bindinganalyzer.js:104-106 | a function node is annotated with its new scope, and that scope holds exactly the function's own declarations |
| Resolver.DeclareAnnotates | bindinganalyzer.js:101-121 | after pass 1 every function node in the tree owns a scope that declares its parameters |
| Resolver.DeclareAllAnnotates | bindinganalyzer.js:86-92 | the same holds for every element of a list |
| Resolver.AnnotatedGrows | bindinganalyzer.js:106 | the annotations stay valid as the arena grows |
| Resolver.BindParams | bindinganalyzer.js:162-164 | every parameter is pointed at the function's scope and nothing else about it changes |
| Resolver.Resolve | bindinganalyzer.js:137-193 | pass 2 keeps the arena's size and only appends records to it; the node's information changes only in `boundIn` |
| Resolver.ResolveAll | bindinganalyzer.js:141-146 | pass 2 over a list gives one node per element and keeps the arena's size |
| Resolver.ResolveKeepsTree | bindinganalyzer.js:137-193 | pass 2 keeps the whole tree: every node keeps its kind, identity, range, rendered flag and number of children; only `boundIn` changes |
| Resolver.ResolveFixesNames | bindinganalyzer.js:151-174 | the lookups of pass 2 add names only to the global scope, and `this` records only; no other scope gains or loses a name |
| Resolver.ResolveRecords | bindinganalyzer.js:137-193 | the references pass 2 records are exactly the reference definition `Refs`; this skips property keys, non-computed member names and (Current) counts `this` |
| Resolver.ResolveAllRecords | bindinganalyzer.js:141-146 | the same holds for a list |
| Resolver.ResolveKeepsDecls | bindinganalyzer.js:137-193 | pass 2 never adds or removes a declaration |
| Resolver.ResolveResolves | bindinganalyzer.js:151-191 | after pass 2 every identifier (and `this`, for Current) points at an existing scope that records it, and every parameter points at its function's scope |
| Resolver.ResolveBindsNearest | bindinganalyzer.js:151-191 | after pass 2 every identifier in the tree points at the nearest scope holding its name as pass 1 left the scopes (the global scope when none does); `this` (Current) points at the current scope; parameters point at their function's scope |
| Resolver.ResolveAllResolves | bindinganalyzer.js:141-146 | the same holds for a list |
| Resolver.BindParamsBound | bindinganalyzer.js:162-164 | after binding, every parameter points at the function's scope, which declares it |
| Resolver.ResolveIdentifier | bindinganalyzer.js:152-155 | an identifier is bound to the nearest scope on the chain that has its name (the global one when none has it), and its uid is appended to that scope's references |
| Resolver.ResolveThis | bindinganalyzer.js:172-174 | Current binds `this` to the current scope without a lookup; Legacy leaves it untouched (contexthighlighting.js has no such case) |
| Resolver.DeclareKeepsRefs | bindinganalyzer.js:82-135 | pass 1 does not change what pass 2 will look at |
| Resolver.FunctionKeepsRefs | bindinganalyzer.js:101-121 | annotating a function with its scope and running pass 1 over its body keeps the references pass 2 will record |
| Resolver.DeclareNoReferences | bindinganalyzer.js:82-135 | pass 1 records no references |
| Resolver.DeclareAllNoReferences | bindinganalyzer.js:86-92 | the same holds for a list |
| Resolver.Prepare | bindinganalyzer.js:195-198 | the global scope is scope 0, has no parent and belongs to the program; every other scope has a parent; every function node is annotated |
| Resolver.PerformBindingAnalysis | bindinganalyzer.js:195-200 | the result has one global scope at the root of every chain, the program owns it, every identifier and parameter is resolved, and every identifier is bound to its nearest declaring scope |
| Resolver.AnalysisKeepsTree | bindinganalyzer.js:195-200 | the analysis returns the same tree with annotations added: shapes, ranges, flags and the set of identities are kept |
| Resolver.RootIsGlobal | bindinganalyzer.js:195 | when only scope 0 lacks a parent, every chain ends at scope 0 |
| Resolver.AnalysisDeclares | bindinganalyzer.js:195-198 | the global scope's declarations are exactly the hoisted declarations of the program |
| Resolver.AnalysisRecords | bindinganalyzer.js:195-199 | the references in the resulting arena are exactly the reference definition `Refs` of the program |
| Reparse.JoinLength | src/editor.js:186 | joining lines with `'\n'` yields their characters plus one per gap |
| Reparse.ChangeLengthSumsBatch | src/editor.js:185-192 | the change length is the inserted span minus the removed span, summed over the whole batch |
| Reparse.FindPathToPos | src/editor.js:198-214 | a function found for a position is a function node of the tree whose range contains the position; no tree finds nothing |
| Reparse.ScanSound | src/editor.js:201-212 | the walk only remembers enclosing functions it passed |
| Reparse.LastEnclosing | src/editor.js:208-210 | the reference index is the last enclosing function in pre-order |
| Reparse.PreOrderLaminar | src/editor.js:201-205 | with nested ranges, pre-order starts are ordered and ranges are nested or disjoint |
| Reparse.ScanFindsLast | src/editor.js:201-212 | on such a listing, stopping at the first node past the position still finds the last enclosing function |
| Reparse.FindPathToPosInnermost | src/editor.js:198-214 | nothing is found exactly when no function encloses the position; otherwise the result lies inside every enclosing function |
| Reparse.PartialRequestMapsBack | src/editor.js:96-105 | the text sent is the function's edited text, in parentheses for an expression; each character maps back to the document by `idxCorr`; its length is the old length plus the change |
| Reparse.MovedParts | src/editor.js:127-131 | moving a node moves its range and moves each child the same way |
| Reparse.MovedCompose | src/editor.js:127-131 | two moves compose into one move by the sum |
| Reparse.MovedIdentity | src/editor.js:127-131 | a move by zero changes nothing |
| Reparse.MovedInverse | src/editor.js:127-131 | moving back by the negated amount undoes a move |
| Reparse.CleanTreeClean | src/editor.js:329-347 | after clean-up no node is marked rendered, and cleaning again changes nothing |
| Reparse.MovedNested | src/editor.js:127-131 | moving keeps ranges properly nested |
| Reparse.CleanUp | src/editor.js:329-347 | clean-up clears only the `rendered` flag |
| Reparse.SpliceUntouched | src/editor.js:138-150 | a tree that does not hold the target, walked before the target is seen, comes back unchanged |
| Reparse.SpliceShifts | src/editor.js:145-163 | a tree walked after the target is seen is moved by the change length and cleaned up |
| Reparse.SpliceRelocates | src/editor.js:135-165 | the replacing traversal equals the positional reference definition: the function becomes the re-parsed one, every position at or after its end moves by the change length, and every node reaching its end is cleaned up |
| Reparse.RelocateBefore | src/editor.js:145-163 | a node ending before the function is left unchanged |
| Reparse.RelocateAfter | src/editor.js:145-163 | a node starting after the function is moved and cleaned up |
| Reparse.TargetWithin | src/editor.js:139 | an ancestor of the function encloses its range |
| Reparse.CleanWithinCleans | src/editor.js:271-274 | after the clean-up of the old function, every node carrying its identity, and everything inside it, is unrendered |
| Reparse.CleanWithinUntouched | src/editor.js:271-274 | a tree that no longer holds the old function is left unchanged by the clean-up |
| Reparse.CleanWithinOnlyFlags | src/editor.js:329-347 | the clean-up changes rendered flags and nothing else |
| Reparse.RelocateNested | src/editor.js:126-165 | when the re-parsed function fits the edited span, the spliced tree is properly nested again and its range grows by at most the change |
| Engine.Process | src/editor.js:265-267 | the analysis of every answer keeps the tree's shape, ranges, flags and identities |
| Engine.Post | src/editor.js:80-91 | posting installs the handler and queues the request behind every request in flight; in a numbered state the handler belongs to none of those earlier requests, and the state stays numbered |
| Engine.Terminate | src/editor.js:61-69 | killing the worker drops every request in flight and changes nothing else |
| Engine.ParseFull | src/editor.js:78-92 | a full parse queues the whole document, answered by the full handler; timer and tree are kept |
| Engine.ParsePartial | src/editor.js:94-183 | a partial parse queues the function's edited text and installs a handler holding the document, the function, the edit length and the position correction |
| Engine.OnEdit | src/editor.js:49-76 | every edit marks the worker running, clears the timer and queues one new request last; which request, and whether a running parse is stopped, is stated by Engine.EditPosts |
| Engine.EditPosts | src/editor.js:49-76 | an edit posts a partial parse of the function around it exactly when no timer was set and a function is found, else a full parse of the document; the requests in flight are dropped exactly when a busy worker is killed |
| Engine.EditOutsideFunction | src/editor.js:56-75 | an edit outside every function, with no timer set, kills a busy worker and posts a full parse |
| Engine.EditWithTimerSet | src/editor.js:51-54 | an edit while the timer is armed or after it fired clears it and posts a full parse without looking for a function; only the corrected editor kills a busy worker first |
| Engine.EditStartsPartial | src/editor.js:56-72 | an edit inside a function of an idle editor posts a partial parse of the new document as the only request |
| Engine.AppendedEdit | src/editor.js:56-75 | an edit inside a function with no timer set posts a partial parse, keeping the queue of an idle worker and dropping that of a busy one |
| Engine.Extract | src/editor.js:115-123 | the partial handler takes the first statement (or, for an expression, its inner expression); an empty program throws for an expression |
| Engine.OnRespond | src/editor.js:109-111 | an answer goes to the installed handler, drops the oldest request and leaves the worker idle; what each handler makes of a success or a failure is stated by Engine.RespondHandles |
| Engine.RespondHandles | src/editor.js:80-178 | a parse clears the timer and installs the analysed tree (full) or the analysed splice (partial, when there is a tree and taking the statement out does not throw); a failure keeps the tree, arms an unset timer (partial) or leaves it alone (full) |
| Engine.PartialAnswerRelocates | src/editor.js:109-168 | a partial answer with a statement installs the analysed reference relocation: the function replaced by the statement moved back by `idxCorr`, later positions moved by the edit length |
| Engine.PartialAnswerKeepsFunction | src/editor.js:265-274 | a partial answer without a statement keeps the old function in the relocated tree, and the clean-up leaves it and everything in it unrendered |
| Engine.PartialFailureArms | src/editor.js:171-178 | a failed partial parse with no timer set arms the timer with the handler's document and changes nothing else but the queue |
| Engine.FullFailureDrops | src/editor.js:85-87 | a failed full parse only takes the answered request off the queue |
| Engine.OnTimer | src/editor.js:173-176 | the timer firing posts a full parse of the document captured when it was armed and marks the timer fired |
| Engine.TimerStartsFull | src/editor.js:173-176 | with nothing in flight, the fired timer's full parse is the only request |
| Engine.StepNumbered | src/editor.js:49-183 | every event of either editor keeps the requests in flight numbered in posting order, none newer than the handler's request |
| Engine.RunNumbered | src/editor.js:49-183 | the same holds for any sequence of events |
| Engine.OlderAnswerMisrouted | src/editor.js:78-111 | in a numbered state with two requests in flight, the next answer is for a request other than the one the handler was installed for |
| Engine.InitRouted | src/editor.js:45-47 | the initial editor routes answers correctly |
| Engine.StepRouted | src/editor.js:49-183 | with the corrected recovery path each event keeps at most one request in flight, and it is the one the handler was installed for |
| Engine.RunRouted | src/editor.js:49-183 | the same holds for any sequence of events |
| Engine.AsWrittenMisroutes | src/editor.js:51-54 | as written, a concrete event sequence leaves two requests in flight and the next answer reaches the wrong handler |
| Engine.CorrectedRoutes | src/editor.js:171-178 | on the same events the corrected editor keeps one request in flight, routed to its handler |
| Html.EscapeConcat | htmlconverter.js:95-103 | escaping distributes over concatenation |
| Html.EscapeNoAngle | htmlconverter.js:96-101 | escaped text has no angle brackets |
| Html.EscapeKeepsExactly | htmlconverter.js:96-101 | escaping changes nothing exactly when there is no `&`, `<` or `>` |
| Html.EscapeLength | htmlconverter.js:96-101 | escaping never shortens text |
| Html.UnescapeEscape | htmlconverter.js:95-103 | unescaping inverts escaping |
| Html.ShownConcat | htmlconverter.js:20-36 | the text the tag stripper `Shown` keeps of a concatenation is what it keeps of each part, carrying over whether it is inside a tag |
| Html.EscapeShown | htmlconverter.js:95-103 | escaped text is shown as written and leaves no tag open |
| Html.ElementShown | htmlconverter.js:20-36 | an element with safe attributes shows exactly its contents |
| Html.NatText | htmlconverter.js:210 | the decimal text of a level is non-empty and made of digits |
| Html.NatTextValue | htmlconverter.js:210 | the decimal text reads back as the number |
| Html.ScopeIdsDistinct | htmlconverter.js:189-194 | two generated scope ids are equal exactly when their counters are |
| Html.SortByStart | htmlconverter.js:110 | sorting is a permutation |
| Html.SortSorted | htmlconverter.js:110 | sorting orders the slices by start |
| Html.SortDisjoint | htmlconverter.js:110 | sorting keeps non-overlapping slices non-overlapping |
| Html.Collect | htmlconverter.js:52-90 | as written, one slice is pushed per token, with the token's range |
| Html.CollectRanges | htmlconverter.js:52-90 | every collected slice has the range of some token |
| Html.Filter | htmlconverter.js:116-118 | the reference selection keeps exactly the pool slices inside the range |
| Html.ScanIsFilter | htmlconverter.js:112-120 | on a sorted, non-overlapping pool of non-empty slices, the early-stopping scan finds exactly the slices inside the range |
| Html.SelectDisjoint | htmlconverter.js:116-118 | the selected slices do not overlap |
| Html.ScanDisjoint | htmlconverter.js:114-120 | the early-stopping scan keeps only non-overlapping slices when the pool has no overlaps |
| Html.FilterDisjoint | htmlconverter.js:116-118 | the reference selection keeps only non-overlapping slices when the pool has no overlaps |
| Html.GapsNarrow | htmlconverter.js:141-156 | every gap filled from the token slices is narrower than the range being filled, so the mutual recursion terminates |
| Html.FunctionParts | htmlconverter.js:207 | a function's parts are its children in the order id, body, parameters |
| Html.ToText | htmlconverter.js:196-263 | every rendered node yields a slice over its own range (the program over the whole text) |
| Html.AllToText | htmlconverter.js:161-187 | a list yields one slice per node, each over that node's range |
| Html.PoolSolid | htmlconverter.js:52-90 | slices of non-empty tokens are non-empty |
| Html.SliceTextShows | htmlconverter.js:95-103 | escaped source text shows exactly the source |
| Html.SpanShows | htmlconverter.js:20-36 | wrapping text that shows a range in a span with safe attributes still shows that range |
| Html.FillShows | htmlconverter.js:141-156 | filling the gaps between faithful slices shows the whole range |
| Html.SliceWithTokensShows | htmlconverter.js:108-127 | with a faithful token pool, `sliceWithTokens` shows exactly the source of any range |
| Html.MergeShows | htmlconverter.js:132-159 | merging faithful, non-overlapping slices inside a range shows exactly that range's source |
| Html.IdentifierShows | htmlconverter.js:213-222 | an identifier's markup shows exactly its source text, bound or unbound |
| Html.ToTextShows | htmlconverter.js:196-263 | every node's slice shows exactly the node's source |
| Html.AllToTextShows | htmlconverter.js:161-187 | every slice of a list shows exactly its node's source |
| Html.TokenMarkupShows | htmlconverter.js:62-75 | with the value escaped, a token's markup shows exactly the token's source |
| Html.CollectOk | htmlconverter.js:52-90 | with values escaped and unlisted token types skipped, the token pool is faithful and non-overlapping |
| Html.CorrectedPoolOk | htmlconverter.js:52-127 | the sorted, corrected pool is faithful |
| Html.RenderShowsSource | htmlconverter.js:5-265 | the corrected HTML of an analysed program shows exactly the escaped source text, and unescaping that gives back the source |
| Html.UnescapedValueMisshown | htmlconverter.js:66-67 | as written, the string literal `'<b>x</b>'` is copied into the markup unescaped and is shown as `'x'`; the corrected markup shows exactly the literal |
| Html.AnalysisRenderable | htmlconverter.js:207-222 | the analysis of a freshly parsed program gives every function a scope in the arena, and every scope annotation points into the arena, so the renderer never reads a missing scope |
| Html.ReusedMarkupMisshown | htmlconverter.js:57-86 | as written, the unlisted token `true` in `x = true` gets the markup of the `=` before it; the corrected pool is faithful |
| Visitor.Args | visitor.js:34-36 | the handler receives one argument per listed field, each the node's field |
| Visitor.PairsAt | visitor.js:309-315 | the list built for an object expression holds each property's key followed by its value |
| Visitor.LeafTypes | visitor.js:47-51 | exactly the empty statement, `this`, identifiers and literals have no default traversal |
| Visitor.TraverseDispatch | visitor.js:21-495 | a non-node or unknown type gives `undefined`; a type with a handler calls it with the listed fields; a leaf without one gives `undefined` |
| Visitor.ObjectDefault | visitor.js:305-316 | without a handler an object expression traverses its keys and values in order |
| Visitor.NothingToTraverse | visitor.js:4-16 | no arguments, or a single empty array, give `undefined` |
| Visitor.SpreadSingle | visitor.js:10-15 | a single array argument is spread |
| Visitor.LastFirst | visitor.js:4-18 | the last argument is traversed first and merged in front of the rest |
| Visitor.UndefinedHidesLeft | visitor.js:5-8 | an `undefined` argument hides every argument to its left |
| Visitor.NullMerged | visitor.js:18 | `null` is traversed to `undefined` and merged like any other value |
| Visitor.TraverseAllFolds | visitor.js:4-19 | with an associative merge whose identity is `undefined`, and no `undefined` anywhere, `traverseAll` folds the flattened arguments from right to left |

## Left out

- DOM and display: `updateViewport`, markers, brackets, widgets and the `viewportChange` handler are left out, because they only read the tree.
  The `rendered` flag is modelled only as the state clean-up clears.
- The worker, the timers and CodeMirror are not run. A worker answer, a timer firing and a document change are events of `Engine`.
  The document text and the change's start offset (`indexFromPos`) are inputs.
- parser.js and src/parser.js (esprima) are not part of this model. A parse result is an input tree, and the token list is an input to `Html`.
- estraverse is assumed to visit a node's children in field order; `Ast.Children` fixes that order.
  `for … in` over a node's own keys is assumed to follow the same order.
- `processFile` (contexthighlighting.js) reads files, so it is left out.
- Engine.Process: a parsed tree whose function or declarator names are not identifiers is kept unanalysed.
  esprima never produces such a tree for ES5.
- Engine.OnRespond: the editor re-runs the binding analysis over the whole spliced tree, as `processAST` does, not only over the new function.
- Resolver.EnterFunction: `arguments` goes into the enclosing scope, as bindinganalyzer.js:107 does. It is not put into the function's own scope.
- Engine.OnRespond: a failed full parse leaves the state unchanged apart from `running`. Nothing retries it, as in the code.
- Html.SliceWithTokens: an empty token would make `sliceWithTokens` recurse on the same range forever.
  The rendering therefore requires non-empty tokens (`TokensSolid`).
- Html.ToText: a function node without `bindings`, or an identifier whose scope is missing, throws in the code.
  The rendering requires an analysed tree (`Renderable`) instead.
- Html.SortByStart: `Array.prototype.sort` is modelled as a stable insertion sort by start. The order among equal starts is not fixed by the language.
- Visitor.Traverse: handlers are pure functions of the node and its fields. A handler that calls back into the visitor is modelled only by its result.
- Visitor.KeysValues: a `properties` field that is missing, `null` or not an array throws a TypeError in the code, and so does a `null` or missing property entry.
  In the model the first gives no arguments, and the second gives `undefined` key and value. An array-like `properties` with a `length` field is not modelled.
- Visitor.TraverseDispatch: `!!visit.X` is modelled as the presence of a handler for `X`. A handler stored under a falsy value is not modelled.
- Html.ScopeName: `scope_id` is the id `toText` generated for the scope's function. A scope with no id yet joins as "" in htmlconverter.js and concatenates as "undefined" in contexthighlighting.js.
  The program's scope starts out named "globalscope", as the analysis names it.
- Numbers, booleans and regular-expression values inside tokens are text. Floating point is not modelled.
- Positions and lengths are counted in Dafny characters (code points). JavaScript counts UTF-16 code units in `indexFromPos`, `slice` and `length` (src/editor.js:57, 96-99, 186; htmlconverter.js:96).
  Text outside the Basic Multilingual Plane would give different offsets in the code.
- Html.Shown: a simplified tag stripper that stands for the text a browser displays; every `<` opens a tag. In the table above, "shows" means "what `Shown` keeps".
  An HTML parser reads a `<` that is not followed by a letter, `/`, `!` or `?` as text. The renderer's own markup puts `<` only before tag names.
- Resolver.AnalysisRecords: the analysed tree holds syntax nodes only. `processFile` parses with `tokens: true` (contexthighlighting.js:411-415), and the default case walks every own field (bindinganalyzer.js:186-191), including the program's token list.
  Each identifier token there would be recorded as a reference to the name "undefined" (bindinganalyzer.js:152-155). Those records are not modelled.
- Resolver.ResolveBindsNearest: an identifier spelt `this` is left out of the nearest-scope claim. `this` is a keyword, so the parser never produces such an identifier.
  The current variant records `this` in inner scopes, which would change such an identifier's nearest scope.
- Html.AnalysisRenderable: it requires a tree as the parser gives it (`Unanalysed`): no annotations yet, and every parameter an identifier, as ES5 guarantees.
- Engine.PartialAnswerKeepsFunction: `processAST` draws the viewport before it cleans up the old function (src/editor.js:269-274). The display is not modelled, so only the resulting flags are.

## Findings

| source | as written | input that shows it | evidently intended | confidence | as-written member | corrected member |
|---|---|---|---|---|---|---|
| src/editor.js:51-54, 171-178 | when the recovery timer has fired, the next edit starts a full parse without terminating a worker that is still busy with the previous full parse | a partial parse fails, the timer fires, an edit arrives, the first full parse fails, another edit arrives inside a function | a busy worker is terminated before every new request, so each answer reaches its own handler | not executed | Engine.AsWrittenMisroutes | Engine.CorrectedRoutes |
| htmlconverter.js:63-75 (also contexthighlighting.js:226-237) | keyword, punctuator and constant token values (string literals among them) are copied into the markup without escaping | source `'<b>x</b>'`, token String `'<b>x</b>'` at [0, 10) | token values escaped like every other source text | not executed | Html.UnescapedValueMisshown | Html.RenderShowsSource |
| htmlconverter.js:57-86 | a token type not listed in the switch (for example `Boolean` or `Identifier`) pushes a slice holding the previous token's markup | source `x = true`, tokens Punctuator `=` at [2, 3) and Boolean `true` at [4, 8) | unlisted tokens contribute no slice, so their text is filled from the source | not executed | Html.ReusedMarkupMisshown | Html.CollectOk |
