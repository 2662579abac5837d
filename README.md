# scout-audit-ai dependency resolver and LLM configuration, in Dafny

This project models the part of `scout_ai_poc` that decides which Rust files an
audit run looks at, plus the small pure helpers that pick and configure the
language model.

**The local dependency resolver** (`dependency_analyzer.py`) has three layers:

- **`RustSyntax`.** The Tree-sitter syntax tree is an input datatype `Node`
  (kind, field name, text, children). The two explicit-stack walks are methods
  proved equal to recursive specifications:
  - `_extract_module_names` finds `mod foo;` items;
  - `_extract_use_entries` flattens `use` trees into `UseEntry(segments, isGlob)`.
  Lemmas then state what those specifications mean. `RustSyntaxExamples` works
  them out on concrete `use` and `mod` trees.
- **`PathResolver`.** A path is a sequence of segments. The filesystem is the
  set of canonical paths that exist, a `canonical` function standing for
  `Path.resolve()`, and the parsed tree of every readable file. This module
  covers:
  - the base directory a `use` path starts from;
  - the candidate files (`<x>.rs` before `<x>/mod.rs`);
  - the parent-module fallback;
  - the rule that only files under the project root are followed.
- **`DependencyTraversal`.** `include_dependencies` is modelled as the loops it
  is: the seed loop and the `while queue` loop with its inner loop. They keep
  the same variables as the source: `ordered_files`, `seen_strings`,
  `traversed_paths` and the queue. A ghost log of every queued item carries the
  invariants. The main result is proved over the whole run:
  - the queue is visited breadth-first;
  - the files expanded are exactly those reachable from the existing seeds in
    fewer steps than the clamped depth limit;
  - the output lists the seed strings first, then the dependency strings, each
    string once.

**The smaller cores:**

- `LlmModes`: `normalize_llm_mode`.
- `LlmConfig`: the parameter tables, the three `*_conf` builders, and the
  `MODEL_CONFIGS` / `MODEL_ALIASES` tables.
- `Providers`: the `PROVIDERS` table and `infer_provider`.
- `Runner`: `format_known_vulnerabilities`.

**Shared helpers:**

- `Text` models Python's `str.strip` (over the `str.isspace` characters),
  `str.lower` on ASCII letters, and decimal rendering of a number.
- `Seqs` holds order-preserving deduplication and `str.join`.
- `Wrappers` holds `Option` and `Result`.

For each dependency of an expanded file, the code adds the
display string to the output list *before* it checks whether the path was
already traversed (`scout_ai_poc/dependency_analyzer.py:398-404`). So a
dependency's string is listed even when that file was reached before by
another route. It is still only listed once, because the list is deduplicated
by string. `DependencyTraversal.QueueDependencies` and
`DependencyTraversal.IncludeDependencies` state this: every dependency of an
expanded file contributes its string.

## Model

| member | source | states |
|---|---|---|
| RustSyntax.FieldChild | scout_ai_poc/dependency_analyzer.py:57-58 | `child_by_field_name`: the child found is the first child under that field (no earlier child has it); when none is found no child has the field |
| RustSyntax.AliasTarget | scout_ai_poc/dependency_analyzer.py:80-94 | the position of the first child whose kind may stand for a path, with neither `as` nor another such child before it; none exactly when every such child has an `as` before it |
| RustSyntax.WildcardPath | scout_ai_poc/dependency_analyzer.py:96-100 | the path of a wildcard is the first child that is neither `::` nor `*` (every earlier child is one of those); when there is none, every child is `::` or `*` |
| RustSyntax.WildcardEntries | scout_ai_poc/dependency_analyzer.py:96-104 | a wildcard with a path child yields exactly one glob entry, the prefix followed by that child's flattened segments; without one it yields nothing |
| RustSyntax.Flatten | scout_ai_poc/dependency_analyzer.py:36-47 | an identifier-like token spells its own text; a scoped path spells its children's segments in order; any other node spells nothing. Every segment is the text of a token in the subtree |
| RustSyntax.FlattenChildren | scout_ai_poc/dependency_analyzer.py:42-44 | every segment spelled by the children from `i` on is the text of a token in the subtree |
| RustSyntax.Collect | scout_ai_poc/dependency_analyzer.py:66-138 | below a `use` declaration, every entry flattened under a prefix starts with that prefix |
| RustSyntax.CollectEach | scout_ai_poc/dependency_analyzer.py:106-119 | every entry the members of a group give under a prefix starts with that prefix |
| RustSyntax.ScopedHeadOnly | scout_ai_poc/dependency_analyzer.py:114-116 | a scoped use list with only a head path and no list part gives the one non-glob entry of the prefix followed by the head's segments |
| RustSyntax.ChildrenNoDeclaration | scout_ai_poc/dependency_analyzer.py:131-136 | a subtree with no `use` declaration has none below any of its children |
| RustSyntax.CollectShift | scout_ai_poc/dependency_analyzer.py:66-129 | below a `use` declaration, flattening under prefix `p` gives the entries flattened from the empty prefix, each with `p` put in front. So a group distributes its prefix over every leaf, giving independent entries |
| RustSyntax.ExtractModuleNames | scout_ai_poc/dependency_analyzer.py:50-63 | the stack walk returns exactly `ModulesOf(root)`: each node's own `mod` name, then those below its children, last child first |
| RustSyntax.ModulesOfComplete | scout_ai_poc/dependency_analyzer.py:55-61 | a name is reported iff some node in the tree is a `mod` item without a `body` field whose `name` child has that text. Items inside inline module bodies count |
| RustSyntax.ModulesOfFound | scout_ai_poc/dependency_analyzer.py:55-61 | every reported name comes from a bodiless `mod` item in the tree |
| RustSyntax.ModulesOfReports | scout_ai_poc/dependency_analyzer.py:55-61 | every bodiless named `mod` item in the tree is reported |
| RustSyntax.ExtractUseEntries | scout_ai_poc/dependency_analyzer.py:141-150 | the stack walk returns exactly `UsesOf(root)`. A `use` declaration is flattened from the empty prefix and not entered; any other node has its children pushed |
| RustSyntax.UsesOfComplete | scout_ai_poc/dependency_analyzer.py:141-150 | an entry is reported iff it comes from flattening, from the empty prefix, a `use` declaration the walk reaches (one not nested in another declaration) |
| RustSyntax.DeclarationInIsDeclaration | scout_ai_poc/dependency_analyzer.py:145-147 | the nodes the use walk flattens are `use` declarations of the tree |
| RustSyntax.AddPrefixCompose | scout_ai_poc/dependency_analyzer.py:113 | adding prefix `q` and then `p` adds `p + q`, as a group nested in a group extends the prefix twice |
| RustSyntax.AddPrefixConcat | scout_ai_poc/dependency_analyzer.py:117-118 | adding a prefix distributes over concatenation of entry lists |
| RustSyntax.CollectEachShift | scout_ai_poc/dependency_analyzer.py:106-119 | flattening the members of a group under prefix `p` puts `p` in front of every entry they give from the empty prefix |
| RustSyntax.ChildNoDeclaration | scout_ai_poc/dependency_analyzer.py:131-136 | a subtree with no `use` declaration has none below any child |
| RustSyntax.PendingPush | scout_ai_poc/dependency_analyzer.py:61 | pushing children onto the stack puts what they report before what the rest of the stack reports |
| RustSyntax.PendingMembers | scout_ai_poc/dependency_analyzer.py:55-61 | what a stack reports is what its nodes report |
| RustSyntax.ModulesBelowPending | scout_ai_poc/dependency_analyzer.py:61 | the modules below a node's first `i` children are what those children report as a stack |
| RustSyntax.UsesBelowPending | scout_ai_poc/dependency_analyzer.py:149 | the same for `use` entries |
| RustSyntax.ModulesStep | scout_ai_poc/dependency_analyzer.py:56-61 | popping a node and pushing its children keeps `modules + pending == ModulesOf(root)` |
| RustSyntax.UsesStep | scout_ai_poc/dependency_analyzer.py:145-149 | popping a node keeps `entries + pending == UsesOf(root)`, whether or not it is a declaration |
| RustSyntax.StackSizePush | scout_ai_poc/dependency_analyzer.py:61 | pushing a node's children adds their sizes to the work left |
| RustSyntax.StackSizeStep | scout_ai_poc/dependency_analyzer.py:55-61 | each pop with its push shrinks the number of nodes left to visit, so the walk terminates |
| RustSyntax.WithoutMembers | scout_ai_poc/dependency_analyzer.py:73-107 | skipping punctuation kinds keeps exactly the children of other kinds |
| RustSyntaxExamples.FlattenScoped | scout_ai_poc/dependency_analyzer.py:36-44 | `a::b` spells the segments of `a` then those of `b`; `::` adds nothing |
| RustSyntaxExamples.UseDeclEntries | scout_ai_poc/dependency_analyzer.py:131-136 | `use <arg>;` flattens `arg` from the empty prefix |
| RustSyntaxExamples.GroupEntries | scout_ai_poc/dependency_analyzer.py:106-119 | `<head>::<group>` flattens the group under the prefix extended by the head |
| RustSyntaxExamples.GroupedImport | scout_ai_poc/dependency_analyzer.py:73-78 | `use a::{b, c::d};` gives `[a, b]` and `[a, c, d]` |
| RustSyntaxExamples.GroupedList | scout_ai_poc/dependency_analyzer.py:73-78 | the list `{b, c::d}` under prefix `a` gives `[a, b]` and `[a, c, d]` |
| RustSyntaxExamples.AliasedImport | scout_ai_poc/dependency_analyzer.py:80-94 | `use a::b as c;` gives only `[a, b]` |
| RustSyntaxExamples.WildcardImport | scout_ai_poc/dependency_analyzer.py:96-104 | `use a::b::*;` gives the one glob entry `[a, b]` |
| RustSyntaxExamples.BareWildcardInGroup | scout_ai_poc/dependency_analyzer.py:96-104 | `use a::{*};` gives nothing: the inner wildcard has no path child |
| RustSyntaxExamples.BareWildcardList | scout_ai_poc/dependency_analyzer.py:73-104 | the list `{*}` under prefix `a` gives nothing |
| RustSyntaxExamples.ModDeclOwn | scout_ai_poc/dependency_analyzer.py:57-60 | `mod name;` is a bodiless `mod` item named `name` |
| RustSyntaxExamples.ModDeclModules | scout_ai_poc/dependency_analyzer.py:50-63 | `mod name;` declares exactly `name` |
| RustSyntaxExamples.NoModules | scout_ai_poc/dependency_analyzer.py:57 | a childless node that is not a `mod` item declares nothing |
| RustSyntaxExamples.LeavesDeclareNothing | scout_ai_poc/dependency_analyzer.py:61 | childless non-`mod` children declare nothing |
| RustSyntaxExamples.InlineBodyModules | scout_ai_poc/dependency_analyzer.py:61 | the walk enters an inline body `{ mod inner; }` and finds `inner` |
| RustSyntaxExamples.NestedModule | scout_ai_poc/dependency_analyzer.py:57-61 | `mod outer { mod inner; }` reports `inner` and not `outer` |
| RustSyntaxExamples.ModulesInReverseOrder | scout_ai_poc/dependency_analyzer.py:55-61 | `mod adapters; mod risk;` comes out as `[risk, adapters]`, since the stack pops the last child first |
| PathResolver.Parent | scout_ai_poc/dependency_analyzer.py:237-239 | `path.parent` drops the last segment; the filesystem root is its own parent |
| PathResolver.ConsumeNavigationRest | scout_ai_poc/dependency_analyzer.py:230-244 | the segments left after the loop are a suffix of the input. Every token consumed is `crate`/`self`/`super`, and the first one left is not |
| PathResolver.DeriveBase | scout_ai_poc/dependency_analyzer.py:220-244 | the remaining segments are exactly the path from its first plain identifier on, and empty input gives `(parent, [])` |
| PathResolver.DeriveUseBaseDirectory | scout_ai_poc/dependency_analyzer.py:220-244 | the index/base-directory loop computes `DeriveBase` |
| PathResolver.Ancestor | scout_ai_poc/dependency_analyzer.py:236-239 | the `k`-th ancestor is a leading part of the path, `k` segments shorter, stopping at the filesystem root |
| PathResolver.SuperStep | scout_ai_poc/dependency_analyzer.py:236-239 | a `super` token moves the base to its parent |
| PathResolver.StopStep | scout_ai_poc/dependency_analyzer.py:240-241 | a plain identifier ends the loop with the base unchanged |
| PathResolver.ClimbOneMore | scout_ai_poc/dependency_analyzer.py:236-239 | one more `super` in front of a climb of `k - 1` levels climbs `k` levels |
| PathResolver.AncestorOfParent | scout_ai_poc/dependency_analyzer.py:237 | the `k`-th ancestor of the parent is the `(k+1)`-th ancestor |
| PathResolver.SupersClimb | scout_ai_poc/dependency_analyzer.py:236-239 | `k` consecutive `super` tokens climb exactly `k` directories. They stop only at the filesystem root, not at the project root |
| PathResolver.LeadingSupers | scout_ai_poc/dependency_analyzer.py:227-244 | `super::…::super::x` (`k` times) resolves `x` from the `k`-th ancestor of the file's directory |
| PathResolver.CrateThenSupers | scout_ai_poc/dependency_analyzer.py:232-239 | `crate::super::…::x` resolves `x` from the `k`-th ancestor of the project root |
| PathResolver.SelfResets | scout_ai_poc/dependency_analyzer.py:234-235 | `self` resets the base to the file's directory, whatever came before it |
| PathResolver.Supers | scout_ai_poc/dependency_analyzer.py:236 | `k` copies of `super` |
| PathResolver.ModuleCandidatesAreSegmentCandidates | scout_ai_poc/dependency_analyzer.py:153-157 | a module name tries the same two files as a one-segment `use` path |
| PathResolver.CandidatePaths | scout_ai_poc/dependency_analyzer.py:153-157 | exactly two candidates: `<name>.rs` in the parent directory, then `<name>/mod.rs` below it |
| PathResolver.SegmentCandidates | scout_ai_poc/dependency_analyzer.py:263-267 | exactly two candidates under the base directory: the segments with `.rs` on the last, then the segments followed by `mod.rs` |
| PathResolver.FirstExisting | scout_ai_poc/dependency_analyzer.py:160-166 | the result is the canonical form of the first candidate that exists; it is none iff no candidate exists |
| PathResolver.ResolveModulePath | scout_ai_poc/dependency_analyzer.py:160-166 | a resolved module path exists |
| PathResolver.FlatFileWins | scout_ai_poc/dependency_analyzer.py:153-166 | when `<name>.rs` exists it wins, whether or not `<name>/mod.rs` exists |
| PathResolver.ModFileFallback | scout_ai_poc/dependency_analyzer.py:153-166 | without `<name>.rs` the module resolves to `<name>/mod.rs` if that exists, else to nothing |
| PathResolver.ResolveSegmentsToPath | scout_ai_poc/dependency_analyzer.py:260-272 | empty segments resolve to nothing; a resolved path exists |
| PathResolver.CandidateSegmentLists | scout_ai_poc/dependency_analyzer.py:247-257 | no lists for no segments, else the segments first. The parent-module list is added iff the entry is not a glob and has more than one segment, and it is the segments without the last |
| PathResolver.FirstInsideRoot | scout_ai_poc/dependency_analyzer.py:285-306 | a returned path exists and lies under the project root |
| PathResolver.FirstInsideRootOne | scout_ai_poc/dependency_analyzer.py:285-297 | one list gives its file only when that lies under the root |
| PathResolver.FirstInsideRootTwo | scout_ai_poc/dependency_analyzer.py:285-306 | the first list's file wins when it lies under the root. Otherwise, outside the root or missing, the second list is tried |
| PathResolver.ResolveUseEntry | scout_ai_poc/dependency_analyzer.py:275-306 | a resolved `use` target exists and lies under the root; no segments left after navigation means no target |
| PathResolver.FullPathFirst | scout_ai_poc/dependency_analyzer.py:285-305 | a full path that resolves under the root is taken; its parent module is not tried |
| PathResolver.Display | scout_ai_poc/dependency_analyzer.py:179-183 | a path under the root is shown relative to it, the root itself as `.`; a path outside the root is shown absolute, starting with `/` |
| PathResolver.GlobHasNoFallback | scout_ai_poc/dependency_analyzer.py:247-306 | a glob only tries its own path |
| PathResolver.ParentModuleFallback | scout_ai_poc/dependency_analyzer.py:247-306 | a non-glob path of two or more segments whose own file is missing or outside the root falls back to its parent module's file |
| PathResolver.SingleSegmentNoFallback | scout_ai_poc/dependency_analyzer.py:247-306 | a one-segment path that does not resolve under the root gives nothing |
| PathResolver.DeclaredModuleFile | scout_ai_poc/dependency_analyzer.py:191-216 | a declared module's file exists and lies under the root |
| PathResolver.DeclaredModules | scout_ai_poc/dependency_analyzer.py:186-217 | at most one file per declared name, each existing and under the root |
| PathResolver.OutsideModuleDropped | scout_ai_poc/dependency_analyzer.py:191-208 | a module whose `<name>.rs` exists outside the root is dropped, even when its `mod.rs` is under the root |
| PathResolver.ResolveDeclaredModules | scout_ai_poc/dependency_analyzer.py:186-217 | the loop computes `DeclaredModules` |
| PathResolver.ResolvedUses | scout_ai_poc/dependency_analyzer.py:315-316 | at most one file per entry, each existing and under the root |
| PathResolver.UseDependencies | scout_ai_poc/dependency_analyzer.py:309-321 | no file twice, and exactly the files some entry resolves to, each existing and under the root |
| PathResolver.ResolvedUsesStep | scout_ai_poc/dependency_analyzer.py:315-320 | one more entry appends its file when it has one |
| PathResolver.ResolveUseDependencies | scout_ai_poc/dependency_analyzer.py:309-321 | the loop with its `seen` set computes `UseDependencies` |
| DependencyTraversal.Deps | scout_ai_poc/dependency_analyzer.py:324-349 | an unreadable file has no dependencies; every dependency exists and lies under the root |
| DependencyTraversal.DepsModulesFirst | scout_ai_poc/dependency_analyzer.py:341-349 | the declared modules' files come first, then the `use` files, which have no repetitions |
| DependencyTraversal.FindLocalModuleFiles | scout_ai_poc/dependency_analyzer.py:324-349 | extracting and resolving computes `Deps` |
| DependencyTraversal.Split | scout_ai_poc/dependency_analyzer.py:373 | splitting a seed entry on `/` gives at least one piece, none holding `/` |
| DependencyTraversal.SplitJoin | scout_ai_poc/dependency_analyzer.py:373 | joining the pieces with `/` gives back the entry |
| DependencyTraversal.Segments | scout_ai_poc/dependency_analyzer.py:373 | the segments kept are pieces of the entry, none empty or `.` |
| DependencyTraversal.JoinEntry | scout_ai_poc/dependency_analyzer.py:373 | `target_root / entry` has no `/` inside a segment it added |
| DependencyTraversal.SplitPlain | scout_ai_poc/dependency_analyzer.py:373 | a string without the separator splits into itself |
| DependencyTraversal.SplitAfter | scout_ai_poc/dependency_analyzer.py:373 | splitting `a/t`, with no separator in `a`, gives `a` followed by the pieces of `t` |
| DependencyTraversal.SplitOfJoin | scout_ai_poc/dependency_analyzer.py:373 | splitting pieces joined with the separator gives the pieces back when none holds the separator |
| DependencyTraversal.SegmentsKeep | scout_ai_poc/dependency_analyzer.py:373 | plain names are all kept as segments |
| DependencyTraversal.SegmentsSkipEmpty | scout_ai_poc/dependency_analyzer.py:373 | a leading empty piece, as from a leading `/`, is dropped |
| DependencyTraversal.JoinRelative | scout_ai_poc/dependency_analyzer.py:373 | plain names joined with `/` and joined onto the root extend the root |
| DependencyTraversal.JoinAbsolute | scout_ai_poc/dependency_analyzer.py:373 | plain names joined with `/` after a leading `/` replace the root |
| DependencyTraversal.DisplayRoundTrip | scout_ai_poc/dependency_analyzer.py:179-183 | the display string of a path of plain names, joined back onto the root as a seed is, names that path again |
| DependencyTraversal.ExistingSeeds | scout_ai_poc/dependency_analyzer.py:371-380 | the seeds queued are existing files |
| DependencyTraversal.SeedOrder | scout_ai_poc/dependency_analyzer.py:371-380 | the existing seeds' canonical paths in input order, each once: no repetitions, and exactly the existing seeds |
| DependencyTraversal.ReachExists | scout_ai_poc/dependency_analyzer.py:371-404 | every file reachable from the existing seeds exists. Those that are not seeds lie under the root |
| DependencyTraversal.ReachGrows | scout_ai_poc/dependency_analyzer.py:389-404 | more steps reach at least as much |
| DependencyTraversal.ReachStep | scout_ai_poc/dependency_analyzer.py:398-404 | a dependency of a file reached in `d` steps is reached in `d + 1` |
| DependencyTraversal.Limit | scout_ai_poc/dependency_analyzer.py:356-358 | a depth below 1 is clamped to 0; otherwise it is kept |
| DependencyTraversal.Displays | scout_ai_poc/dependency_analyzer.py:399 | the display string of each dependency, in order |
| DependencyTraversal.BelowLimitSnoc | scout_ai_poc/dependency_analyzer.py:391-392 | one more item is expanded iff its depth is below the limit |
| DependencyTraversal.DisplaysOfAdd | scout_ai_poc/dependency_analyzer.py:398-400 | expanding one more file adds the strings of its dependencies |
| DependencyTraversal.OfferedMembers | scout_ai_poc/dependency_analyzer.py:389-404 | the strings offered are exactly those of the dependencies of the items below the limit |
| DependencyTraversal.NothingOffered | scout_ai_poc/dependency_analyzer.py:356-392 | with limit 0 nothing is expanded and nothing is offered |
| DependencyTraversal.OfferNothing | scout_ai_poc/dependency_analyzer.py:395-396 | an item with no dependencies offers nothing |
| DependencyTraversal.ReachQueued | scout_ai_poc/dependency_analyzer.py:389-404 | once all items are finished, every file reachable in `d <= limit` steps is queued at depth `d` or less |
| DependencyTraversal.QueuedIsReach | scout_ai_poc/dependency_analyzer.py:389-404 | at the end, the traversed paths are exactly the files reachable within the limit |
| DependencyTraversal.BelowLimitReached | scout_ai_poc/dependency_analyzer.py:391-394 | every expanded item is reachable in fewer steps than the limit |
| DependencyTraversal.BelowLimitIsExpanded | scout_ai_poc/dependency_analyzer.py:389-404 | at the end, the items expanded are exactly the files reachable in fewer steps than the limit |
| DependencyTraversal.ExpandedBelowLimit | scout_ai_poc/dependency_analyzer.py:389-404 | at the end, every file reachable in fewer steps than the limit was expanded |
| DependencyTraversal.ExistingSeedsStep | scout_ai_poc/dependency_analyzer.py:373-380 | one more seed adds its canonical path iff that exists |
| DependencyTraversal.QueueKeepsRecord | scout_ai_poc/dependency_analyzer.py:401-404 | queuing a path not traversed before keeps each path queued once, existing, within the limit |
| DependencyTraversal.QueueKeepsSound | scout_ai_poc/dependency_analyzer.py:401-404 | a dependency queued at `depth + 1` is reachable in that many steps |
| DependencyTraversal.QueueKeepsFifo | scout_ai_poc/dependency_analyzer.py:404 | appending at one level deeper keeps the queue in nondecreasing depth |
| DependencyTraversal.FifoAdvance | scout_ai_poc/dependency_analyzer.py:390 | the item popped is at the current level or one past it |
| DependencyTraversal.ClosedLonger | scout_ai_poc/dependency_analyzer.py:401-404 | growing the queue keeps finished items finished |
| DependencyTraversal.QueueKeepsInvariants | scout_ai_poc/dependency_analyzer.py:401-404 | queuing a new dependency keeps every invariant of the queue |
| DependencyTraversal.SkipItem | scout_ai_poc/dependency_analyzer.py:391-392 | an item at or past the limit is finished and offers nothing |
| DependencyTraversal.FinishItem | scout_ai_poc/dependency_analyzer.py:398-404 | once all its dependencies are queued, an item is finished |
| DependencyTraversal.OfferItem | scout_ai_poc/dependency_analyzer.py:398-400 | expanding an item below the limit offers its dependencies' strings, in order |
| DependencyTraversal.AddFileString | scout_ai_poc/dependency_analyzer.py:366-369 | appending a string unless already seen keeps the list equal to the deduplication of all strings offered, and `seen_strings` equal to its contents |
| DependencyTraversal.QueueSeed | scout_ai_poc/dependency_analyzer.py:373-380 | an existing seed path not traversed yet is traversed and queued at depth 0. A missing or repeated one changes nothing |
| DependencyTraversal.QueueSeeds | scout_ai_poc/dependency_analyzer.py:371-380 | the seed loop lists the deduplicated seed strings in order. It traverses exactly the existing seeds' canonical paths, and the queue is `SeedOrder` at depth 0: input order, each path once |
| DependencyTraversal.ListSeed | scout_ai_poc/dependency_analyzer.py:366-372 | one seed string is appended iff not seen before, keeping the list the deduplication of the seeds so far |
| DependencyTraversal.SeedTurn | scout_ai_poc/dependency_analyzer.py:373-380 | one turn of the seed loop queues the seed's path iff it exists and is new, so the queue stays `SeedOrder` of the seeds so far |
| DependencyTraversal.SeedOrderStep | scout_ai_poc/dependency_analyzer.py:373-380 | one more seed appends its canonical path to `SeedOrder` iff it exists and is not yet there |
| DependencyTraversal.SeedQueueStep | scout_ai_poc/dependency_analyzer.py:377-380 | the queue after one more seed is `SeedOrder` at depth 0 of one more seed |
| DependencyTraversal.ItemsSnoc | scout_ai_poc/dependency_analyzer.py:380 | queuing one more path at a depth appends one item |
| DependencyTraversal.QueuedWithinStep | scout_ai_poc/dependency_analyzer.py:398-404 | after the next dependency, one more of them is queued within the bound |
| DependencyTraversal.ExtendsTrans | scout_ai_poc/dependency_analyzer.py:389-404 | growing the queue record is transitive |
| DependencyTraversal.FreshSpec | scout_ai_poc/dependency_analyzer.py:401-404 | the dependencies newly queued are exactly those not traversed before, each once |
| DependencyTraversal.FreshStep | scout_ai_poc/dependency_analyzer.py:401-404 | one more dependency is newly queued iff it was neither traversed nor queued earlier in the list |
| DependencyTraversal.Items | scout_ai_poc/dependency_analyzer.py:404 | the queue items for a list of paths, all at one depth |
| DependencyTraversal.AssignKeys | scout_ai_poc/dependency_analyzer.py:403 | the traversed set grows by exactly the paths newly queued |
| DependencyTraversal.QueueNewDependency | scout_ai_poc/dependency_analyzer.py:401-404 | queuing one more new dependency keeps the expansion invariant |
| DependencyTraversal.FreshGrowth | scout_ai_poc/dependency_analyzer.py:401-404 | how the newly queued list, the queue and the depth record grow with one more dependency |
| DependencyTraversal.ExpandNone | scout_ai_poc/dependency_analyzer.py:398 | before any dependency, nothing is added |
| DependencyTraversal.ExpandQueued | scout_ai_poc/dependency_analyzer.py:401-402 | a dependency already traversed adds nothing |
| DependencyTraversal.ExpandNew | scout_ai_poc/dependency_analyzer.py:403-404 | a new dependency is queued one level deeper, keeping the invariant |
| DependencyTraversal.ExpandPrefix | scout_ai_poc/dependency_analyzer.py:398-404 | the inner loop over the first `k` dependencies keeps every invariant |
| DependencyTraversal.ExpandOne | scout_ai_poc/dependency_analyzer.py:398-404 | taking dependency `k - 1` into account keeps every invariant |
| DependencyTraversal.QueueGrowth | scout_ai_poc/dependency_analyzer.py:401-404 | how the queue and traversed set grow with one more dependency |
| DependencyTraversal.QueueDependencies | scout_ai_poc/dependency_analyzer.py:398-404 | the inner loop offers every dependency's string in order. It queues, one level deeper, exactly the dependencies not traversed before, each once, in order of first appearance |
| DependencyTraversal.SeedsFrontier | scout_ai_poc/dependency_analyzer.py:371-380 | after the seed loop, every invariant holds with nothing expanded |
| DependencyTraversal.AppendToLog | scout_ai_poc/dependency_analyzer.py:404 | appending to the queue keeps the items before it |
| DependencyTraversal.PopFront | scout_ai_poc/dependency_analyzer.py:390 | `popleft` takes the oldest queued item |
| DependencyTraversal.ExpandItem | scout_ai_poc/dependency_analyzer.py:394-404 | expanding an item below the limit queues its new dependencies and finishes it, keeping every invariant |
| DependencyTraversal.ExpandNext | scout_ai_poc/dependency_analyzer.py:394-404 | an item below the limit is expanded. The list stays the deduplication of everything offered, and the traversed set only grows; when it does not grow, the queue is unchanged |
| DependencyTraversal.ExpandWith | scout_ai_poc/dependency_analyzer.py:394-404 | with the dependencies read, the queue grows by exactly the new ones, one level deeper, in order, and the traversed set by exactly those |
| DependencyTraversal.Trace | scout_ai_poc/dependency_analyzer.py:389-404 | the queue record the loop produces from a given point: items at or past the limit add nothing; an item below it appends its dependencies not traversed yet, in order, one level deeper |
| DependencyTraversal.FreshLeavesLess | scout_ai_poc/dependency_analyzer.py:401-404 | queuing new dependencies shrinks the set of existing files not yet traversed, so `Trace` is well defined |
| DependencyTraversal.VisitNext | scout_ai_poc/dependency_analyzer.py:389-404 | one turn of the loop keeps every invariant and advances `Trace` by one item, so the record the loop will reach does not change. Either the traversed set grows or the queue shrinks, so the loop terminates on a finite filesystem |
| DependencyTraversal.TraversalOutcome | scout_ai_poc/dependency_analyzer.py:389-404 | with the queue empty, the queue record is breadth-first. Every path appears once, in nondecreasing depth, at its exact distance from the seeds, and the paths are exactly those reachable within the limit. The items expanded are the files reachable in fewer steps |
| DependencyTraversal.ListedFiles | scout_ai_poc/dependency_analyzer.py:366-413 | the output has no duplicate strings and starts with the deduplicated seeds. It holds exactly the seed strings and the strings of the expanded files' dependencies; with limit 0, only the seeds |
| DependencyTraversal.DrainQueue | scout_ai_poc/dependency_analyzer.py:389-404 | the `while queue` loop ends with every queued item finished, with the queue record equal to `Trace` from the start, and the list is the deduplication of the seeds and everything offered |
| DependencyTraversal.IncludeDependencies | scout_ai_poc/dependency_analyzer.py:352-413 | `include_dependencies` lists no string twice, starts with the deduplicated seed strings and lists exactly the seed strings and the dependency strings of the files reachable in fewer steps than the clamped limit. The visit order is fixed: the queue record is `Trace` from `SeedOrder`, and the list is the deduplication of the seeds followed by the strings offered in that order. `max_depth < 1` gives only the seeds |
| LlmModes.NormalizeLlmMode | scout_ai_poc/llm_modes.py:9-15 | `None` iff `None`. A result is one of `LLM_MODES`. An error iff the stripped, lower-cased mode is not a mode, and the error carries the mode as given |
| LlmModes.NormalizePadded | scout_ai_poc/llm_modes.py:12 | any spelling of a mode, padded with whitespace, normalizes to the mode |
| LlmModes.NormalizeCreative | scout_ai_poc/llm_modes.py:12-15 | `" Creative "` gives `"creative"` |
| LlmModes.NormalizeIdempotent | scout_ai_poc/llm_modes.py:12-15 | normalizing a normalized mode returns it unchanged |
| LlmConfig.LLMConfig.AsKwargs | scout_ai_poc/llm_config.py:38-39 | the same keys, each with the same value |
| LlmConfig.OverlaysUnique | scout_ai_poc/llm_config.py:48 | the result of laying overrides over a base is determined by the two maps |
| LlmConfig.Merge | scout_ai_poc/llm_config.py:42-56 | `{**base, **overrides}` has the keys of both. An override's value wins, and a base key not overridden keeps its value |
| LlmConfig.MergeTwice | scout_ai_poc/llm_config.py:48 | laying two sets of overrides in turn is laying their merge once |
| LlmConfig.OpenAiConf | scout_ai_poc/llm_config.py:42-48 | the reasoning base iff `reasoning`, with the overrides laid over it |
| LlmConfig.AnthropicConf | scout_ai_poc/llm_config.py:51-52 | the Anthropic base with the overrides laid over it |
| LlmConfig.GeminiConf | scout_ai_poc/llm_config.py:55-56 | the Gemini base with the overrides laid over it |
| LlmConfig.DefaultsWithoutOverrides | scout_ai_poc/llm_config.py:42-56 | without overrides each builder gives exactly its provider's defaults |
| LlmConfig.Names | scout_ai_poc/llm_config.py:59-98 | the model names of a table, in order |
| LlmConfig.AliasTargetsConfigured | scout_ai_poc/llm_config.py:59-109 | every alias target names a model of the same provider |
| Providers.Normalize | scout_ai_poc/providers.py:96-97 | `_normalize` gives a name no longer than the input, with no surrounding whitespace and no upper-case letter |
| Providers.NormalizeTwice | scout_ai_poc/providers.py:96-97 | `_normalize` is idempotent |
| Providers.NormalizePadded | scout_ai_poc/providers.py:96-97 | surrounding whitespace is dropped and the letters lower-cased |
| Providers.SamePaddedForm | scout_ai_poc/providers.py:96-97 | a padded name has the same normal form as the name |
| Providers.FirstModel | scout_ai_poc/providers.py:105-107 | the first model of a provider, in table order, whose normalized name matches; none iff no model matches |
| Providers.FirstMatch | scout_ai_poc/providers.py:104-107 | the first match in search order (providers in order, then models), with no match before it; none iff no model of any provider matches |
| Providers.Listing | scout_ai_poc/providers.py:108-111 | one `name: model, model, ...` string per provider, in order |
| Providers.Inferred | scout_ai_poc/providers.py:100-114 | an empty name is the empty-name error. A result is a provider with the config stored under a matching model. An unsupported-model error names the model and comes only when nothing matches |
| Providers.Message | scout_ai_poc/providers.py:100-114 | the unsupported-model message starts `Model '` followed by the name as given; the empty-name message is the fixed text |
| Providers.UnsupportedText | scout_ai_poc/providers.py:108-114 | the message starts `Model '` followed by the name as given, and ends with the listing of options |
| Providers.FirstMatchIs | scout_ai_poc/providers.py:104-107 | a match with no earlier match is the one found |
| Providers.InferredFirst | scout_ai_poc/providers.py:104-107 | the first match in search order wins |
| Providers.InferredPadded | scout_ai_poc/providers.py:96-107 | whitespace around a name and the case of its letters do not change which model is found |
| Providers.FindMatch | scout_ai_poc/providers.py:104-107 | the nested loop finds `FirstMatch` |
| Providers.InferProvider | scout_ai_poc/providers.py:100-114 | `infer_provider` computes `Inferred` |
| Runner.Entries | scout_ai_poc/runner.py:105 | no more entries kept than given |
| Runner.EntriesAppend | scout_ai_poc/runner.py:105 | the filter keeps input order: the entries of `a + b` are those of `a` then those of `b` |
| Runner.EntriesStripped | scout_ai_poc/runner.py:105 | every entry kept is non-blank and stripped |
| Runner.NumberedLines | scout_ai_poc/runner.py:108-110 | line `i` is `Line(i + 1, entries[i])`: four spaces, the number from 1, `. ` and the entry |
| Runner.Line | scout_ai_poc/runner.py:109 | four spaces, the decimal number, `. `, then the entry; no newline unless the entry has one |
| Runner.FormatKnownVulnerabilities | scout_ai_poc/runner.py:103-110 | the text starts with a newline, and is `"\n- None documented."` iff no entry is kept |
| Runner.FormatBlank | scout_ai_poc/runner.py:105 | a blank or whitespace-only entry changes nothing |
| Runner.FormatFirst | scout_ai_poc/runner.py:106-110 | the first kept entry becomes `"\n    1. <entry>"`, stripped |
| Runner.FormatAppend | scout_ai_poc/runner.py:108-110 | each further kept entry adds one line, numbered one past the last |
| Runner.JoinOneMore | scout_ai_poc/runner.py:108-110 | joining one more line after a newline adds a newline and the line |
| Seqs.DedupSpec | scout_ai_poc/dependency_analyzer.py:362-369 | the deduplicated list has no repetitions and holds exactly the elements of the input |
| Seqs.DedupSnoc | scout_ai_poc/dependency_analyzer.py:366-369 | one more string is appended iff it was not seen before |
| Seqs.DedupPrefix | scout_ai_poc/dependency_analyzer.py:366-380 | deduplicating a longer list keeps the deduplicated shorter list as its head, so the seeds stay first |
| Seqs.JoinHead | scout_ai_poc/runner.py:108 | a join starts with its first part |
| Seqs.JoinSnoc | scout_ai_poc/runner.py:108 | joining one more part adds the separator and the part |
| Text.SpaceEndSpec | scout_ai_poc/llm_modes.py:12 | the scan stops at the first non-whitespace character |
| Text.StripStartSpec | scout_ai_poc/llm_modes.py:12 | `lstrip` removes exactly the leading whitespace |
| Text.StripEndSpec | scout_ai_poc/llm_modes.py:12 | `rstrip` removes exactly the trailing whitespace |
| Text.StripSpec | scout_ai_poc/llm_modes.py:12 | `strip` gives a slice of the input with whitespace only around it, and no whitespace at either end |
| Text.StripStartPadded | scout_ai_poc/llm_modes.py:12 | stripping leading whitespace off a padded text gives the text |
| Text.StripEndPadded | scout_ai_poc/llm_modes.py:12 | stripping trailing whitespace off a padded text gives the text |
| Text.StripPadded | scout_ai_poc/llm_modes.py:12 | stripping whitespace padding from a word with non-space ends gives the word |
| Text.StripIdempotent | scout_ai_poc/llm_modes.py:12 | a text without whitespace at either end strips to itself |
| Text.StripTwice | scout_ai_poc/llm_modes.py:12 | stripping twice is stripping once |
| Text.StripEmpty | scout_ai_poc/runner.py:105 | the stripped text is empty iff the input is all whitespace |
| Text.Lower | scout_ai_poc/llm_modes.py:12 | `lower` keeps the length and maps each character |
| Text.LowerIdempotent | scout_ai_poc/llm_modes.py:12 | lower-casing twice is lower-casing once |
| Text.LowerKeepsSpace | scout_ai_poc/llm_modes.py:12 | lower-casing keeps whitespace where it is |
| Text.NatToString | scout_ai_poc/runner.py:109 | the decimal rendering of a number is non-empty, all digits, and without a leading zero unless it is `0` |
| Text.NatToStringRoundTrip | scout_ai_poc/runner.py:109 | reading the rendered digits back gives the number |

## Left out

- The Tree-sitter parser and `_node_text` UTF-8 decoding are foreign code. The syntax tree is an input, and each node carries its own text.
- Reading a file, with its `FileNotFoundError` and `UnicodeDecodeError` paths, is abstracted: a file is readable iff the filesystem's `parsed` map has a tree for it.
- `Path.resolve()` (symlinks, `..`) and `exists()` are abstracted as the `canonical` function and the set of existing canonical paths. How `resolve` rewrites a path is not modelled.
- Seed joining (`target_root / entry`) splits on `/` and drops empty and `.` segments. `..` segments are left to `canonical`.
- `_format_relative_path` is modelled with `/` as the separator and `.` for the root itself. Its round trip back through the seed join is proved only for paths of plain names; `..` and symlinks are left to `canonical`.
- `DependencyTraversal.Deps`: reading a path that is a directory, or one the process may not read, raises `IsADirectoryError` or `PermissionError` out of `include_dependencies` in the code (`scout_ai_poc/dependency_analyzer.py:169-176`, reached from line 394). The model has no exceptions there: every path without a parsed tree has no dependencies.
- All logging is left out; it has no effect on results.
- `LlmModes.NormalizeLlmMode`: the error carries the mode as given, but the exact message text (a Python `repr`) is not modelled.
- `Text.Lower`: lower-casing covers ASCII letters only. Python's `str.lower` also maps other Unicode letters.
- `LlmConfig`: parameter values are opaque literals. The key order of the dictionaries is not modelled, since nothing reads it. That model names are unique within each table is not proved; the tables are sequences in table order.
- `MODEL_ALIASES` is modelled and checked against `MODEL_CONFIGS`, but `infer_provider` does not consult it, and neither does the model.
- The three `_build_*` SDK constructors wrap external libraries. They appear only as the `Builder` tag of a provider.
- The rest of `runner.py`, `data_loader.py`, `cli.py`, `main.py` and `paths.py` are I/O, environment or orchestration, not part of the resolver and configuration logic modelled here.
