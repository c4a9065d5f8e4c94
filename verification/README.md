# Sandbox kit specification: a verified model

This project models the parts of the sandbox kit specification's Go code where a mistake would be
silent, and proves what those parts are for. It has five pieces.

**Overlay filesystem and file collisions.** `Trees` and `Layers` define filesystem trees as maps from
paths to entries, and the union mount of one tree over another: whiteouts stay as leaves, opaque
directories hide what is below them. `FsNodes`, `Stacking`, `Overlay` and `Resolvers` are the program's
own form of it: classes whose directories are changed in place, hard links that share a node, a
resolver that remembers the directories it has resolved. Every method is proved against the functions
of the tree the nodes show. `PathNames`, `PathStrings`, `Walks` and `WalkFacts` are paths and the walks
of them bounded by symlink counts; `Routes` says where a path through symlinks resolves, and `Kernel`
and `KernelRoutes` that the kernel's own walk ends there. `Extraction` and `Landing` say what one
archive header does to a layer; `Links` finds the symlinks a mount leaves dangling. `Inventory`, `Ownership`, `Collisions` and `FileCheck` are the
collision check, with `Damage` its definition over all pairs of kits and all paths.

**Versions and constraints.** `Versions` has the comparison, the successor that makes the order
discrete above each version, and the canonical spelling. `Constraints` decides which constraint sets
any version meets. `Spellings` and `Renderings` show what the canonical string of a require decides,
and `RequireTexts`, the grammar requires are read by, that it reads back as what it renders.
A version is *tame* when every segment that is not a number is on one side of all numbers: it starts
with a letter or a hyphen, or with nines and then a letter. The successor and equality laws hold for
the whole grammar; the order is transitive on tame versions, and `Wilds` shows that no other version
can join them. `Refusals` says which constraint sets on tame versions a version outside the order
meets though the check refuses them.

**Resolution and flattening.** `Graphs` is the removal of ready nodes that both orderings use, for any
node type and any strict total order. `Kits` and `Resolving` are the coherence checks and the
composition order of a closed set, and `Rules` what they come to in the kits' own fields;
`Contributions` orders a set's own declarations with its kits.
`Merging` folds the relations of several kits into one; `Flattening` shows that this keeps the
coherence verdict, `Circles` exactly when it keeps the composition order, and `Staging` that stages do
not matter.

**Authority.** `Patterns`, `HttpGrants`, `Networks` and `SshGrants` say what an entry admits, as a
statement about requests; `Surfaces` projects a kit's capabilities onto what the host must grant;
`Widenings` compares two surfaces; `Gates` is the lock as a state that silent updates replace.

**Two contracts.** `Packages` derives the provides that package listings agree on; `Args` is the
contract that lets a set's argument stand in for a kit's.

`Strings` and `Texts` hold the byte order of strings, sorting, splitting and joining.

How the program's things are represented:

- A slash-separated string is given by its segments, which correspond to it one to one; a clean
  absolute path by its components. Lengths against the Linux limit are counted on the string.
- Byte strings are sequences of characters compared by code.
- A version is a string throughout; comparisons split it at the dots.
- A relation is its text with what it parses to, since the merge removes repeats by text. A kit's
  `version` is the one its bare provides take, which the frontend fills in before either the resolver
  or the merge reads it (`resolve/resolve.go:309-317`, `cmd/frontend/set.go:748`).
- The runtime's matcher is a parameter: which host patterns match which names is arbitrary, except
  that `*` and `**` match every host; which runs of path segments a wildcard segment matches is
  arbitrary, except that `**` matches any, and a segment without a wildcard matches itself. Statements
  about hosts and paths hold for every matcher.
- Errors are values: a result without a value, a count of problems, or a verdict.
- Errors of the decoder and the archive reader come before this model; it starts from decoded headers
  and policies, and resolution from relations already parsed.

Conditions the theorems state, and where the program gives them: references are distinct and, for the
order and for flattening, each capability name has one owner (the resolver refuses other sets);
collision checks name their kits by non-empty references, the empty one being the index's root;
network hosts have no slash or space and a port after any colon, paths start with a slash, and phases,
SSH namespaces and destinations are single words, a destination a server or a named user at one.

## Model

| member | source | states |
|---|---|---|
| Trees.StackedWellFormed | internal/overlayfs/fs.go:505-531 | A tree stacked on a tree is a tree: every path of the mount still hangs below a directory. |
| Trees.HiddenStacked | internal/overlayfs/fs.go:505-531 | Two layers folded together hide below them exactly the paths that either of them hides. |
| Trees.StackAssociative | internal/overlayfs/fs.go:500-531 | Folding two upper layers first and mounting the result gives the kinds, links, opaque marks and children that mounting them one by one gives, for all trees. |
| Trees.StackMetadataExact | internal/overlayfs/fs.go:505-516 | Owners and modes do not follow that law: the two orders differ at a path exactly where the top layer has a bare directory over a non-directory that stands over a directory with metadata of its own. |
| Layers.FoldIsLookup | internal/overlayfs/fs.go:79-82 | For any number of layers and any path, the folded mount shows what a top-down union lookup finds: the highest layer that has the path, unless a higher one covers an ancestor; and a shown directory is opaque exactly when a layer the lookup still reaches blocks there. |
| Layers.FoldAppend | internal/overlayfs/fs.go:79-82 | Folding a stack of layers on its own and placing it over another stack is folding all the layers in turn, for stacks of any length. |
| Layers.FoldOfFolds | internal/overlayfs/fs.go:79-82 | Kits folded each on its own and then mounted show what mounting every layer of every kit one by one shows. |
| FsNodes.ShownWellFormed | internal/overlayfs/fs.go:37-54 | A node graph whose directories form a tree shows a well-formed tree. |
| FsNodes.SetChild | internal/overlayfs/fs.go:505-531 | Writing one name of a directory replaces that path and all below it, and nothing else, even where leaves are shared between paths. |
| FsNodes.DropChildren | internal/overlayfs/fs.go:505-512 | Clearing names of a directory removes exactly what stands at and below them. |
| FsNodes.Mark | internal/overlayfs/fs.go:505-516 | Changing a directory's own marks changes that one path of the tree and no other. |
| Stacking.PartlyDirectory | internal/overlayfs/fs.go:518-530 | Merging one subdirectory of a partly merged mount, made afresh and opaque over a non-directory, advances the whole merge by exactly that name. |
| Stacking.Absorb | internal/overlayfs/fs.go:505-516 | The lower directory takes the upper one's marks, losing its contents first when the upper one is opaque. |
| Stacking.EnsureDirectory | internal/overlayfs/fs.go:520-529 | There is a directory to merge into; one made over a non-directory is opaque, and the rest of the mount is as it was. |
| Stacking.MergeChild | internal/overlayfs/fs.go:517-530 | One name of the upper directory is merged, whatever order the names come in. |
| Stacking.Stack | internal/overlayfs/fs.go:505-531 | The in-place merge of one node graph onto another computes the pure union of the trees they show; the upper graph is not changed, and no directory of it enters the mount. |
| Stacking.StackedUnderRoot | internal/overlayfs/fs.go:505-531 | Merging at the root is the union mount of the whole trees. |
| Walks.HostLookupStep | internal/overlayfs/fs.go:433-456 | Resolving d/base from scratch is one step from where resolving d led, except at a symlink: the fact that lets directories be resolved through remembered prefixes. |
| Resolvers.FreshLookup | internal/overlayfs/fs.go:462-498 | The kernel-style walk ends, on expansions left and components pending, at the node, the absence or the failure (ENOTDIR, or a 41st symlink) that its function of the tree names. |
| Resolvers.Resolver.Dir | internal/overlayfs/fs.go:433-456 | For every clean absolute path the memoised resolution returns the node, the absence or the failure a fresh walk would, and everything it remembers is still what a fresh walk would find. |
| Resolvers.Resolver.Lstat | internal/overlayfs/fs.go:419-429 | The directory is resolved as the kernel does and the last component taken as it is, links included. |
| Resolvers.Resolver.Pass | internal/overlayfs/fs.go:365-411 | One pass returns what the recursive definition says over the tree, carrying the count of expanded symlinks. |
| Resolvers.CrossesSymlink | internal/overlayfs/fs.go:319-341 | Answers whether walking the path meets anything but directories. |
| Resolvers.ResolveRoot | internal/overlayfs/fs.go:295-315 | Repeating passes until one expands nothing ends on every tree, and returns the path its definition names or refuses. |
| Walks.WalkLinks | internal/overlayfs/fs.go:365-411 | However long the chain, a pass that is not refused has expanded at most 256 symlinks in all. |
| WalkFacts.RootPathClear | internal/overlayfs/fs.go:289-315 | A path that resolves is clean, has only directories at its proper prefixes as far as they exist, and no symlink anywhere on it. |
| WalkFacts.ShortcutExact | internal/overlayfs/fs.go:295-341 | Where the path crosses no symlink, the repeated walk would return the path just cleaned, unless some cleaned prefix is longer than a Linux path: the shortcut's answer. |
| PathStrings.RawIsText | internal/overlayfs/fs.go:318-336 | The lengths held against the Linux limit are those of the path's string, and a path is absolute when its string starts with a slash. |
| PathStrings.AbsIsText | internal/overlayfs/fs.go:360-411 | A resolved path's string is a slash before each of its components, or one slash alone, and its length is counted so. |
| PathStrings.SplitIsText | internal/overlayfs/fs.go:149-149 | Splitting cuts the string after its last slash: the two parts put together are the string, and the second has no slash. |
| PathStrings.CleanMeans | internal/overlayfs/fs.go:142-142 | A cleaned path leads, from any directory, where the path itself leads, has the same root, and has nothing left to clean. |
| Routes.StraightPass | internal/overlayfs/fs.go:365-411 | One pass over a path whose symlinks each lead straight to a directory ends at that directory, each link's target taken from the directory the link is in, or from the root if it is absolute; it has counted every link. |
| Routes.LinkResolves | internal/overlayfs/fs.go:289-315 | A symlink in a directory that is reached through no other resolves to its target cleaned, from that directory for a relative link and from the root for an absolute one. |
| Routes.RouteResolves | internal/overlayfs/fs.go:289-315 | So does any chain: a path that comes, by links to links, to one whose links lead straight to directories resolves to where the last of them leads, if they are at most 255 in all. |
| Routes.TooManyLinks | internal/overlayfs/fs.go:343-411 | A chain of 257 links or more, or a circle, is refused. |
| KernelRoutes.ResolvesAsKernel | internal/overlayfs/fs.go:289-315 | Where the kernel's walk of such a path ends at all, it ends where the extractor resolves the path, and it followed at most 40 links. |
| Walks.LookupClear | internal/overlayfs/fs.go:462-498 | Over a path of directories only, the walk finds the path itself if it exists and nothing otherwise. |
| Kernel.HostWalkIsKernels | internal/overlayfs/fs.go:458-498 | Wherever the extractor's confined walk ends at a directory, the kernel's walk of the mount ends at the same one. |
| Kernel.HostWalkExact | internal/overlayfs/fs.go:458-498 | And exactly: the confined walk finds nothing where it would leave the layer, by an absolute link or above its root, and otherwise ends at a directory if and only if the kernel's walk does, at the same one. |
| Kernel.SelfLinkFails | internal/overlayfs/fs.go:458-498 | A link to itself fails the walk, wherever it is met, rather than finding nothing. |
| Kernel.KernelReaches | internal/overlayfs/fs.go:533-582 | The kernel's walk ends at a directory or a file, never at a link or a whiteout. |
| KernelRoutes.AbsoluteStartsAgain | internal/overlayfs/fs.go:533-582 | An absolute link met in the middle of the kernel's walk continues it from the root, with what was pending after it. |
| Links.DanglesFromRoot | internal/overlayfs/fs.go:110-135 | A symlink dangles exactly when the kernel's walk of the link's own path from the root ends nowhere. |
| Links.KernelLookup | internal/overlayfs/fs.go:533-582 | Ends on expansions left and components pending, at the node the kernel's walk reaches or at none. |
| Links.DanglingSymlinks | internal/overlayfs/fs.go:110-135 | Lists exactly the symlinks of the mount whose targets the mount does not carry, the link itself counting as the first expansion. |
| Extraction.ExtractedWellFormed | internal/overlayfs/fs.go:137-225 | Every header, taken or refused, leaves the layer a tree whose root is not opaque. |
| Extraction.LayerTreeWellFormed | internal/overlayfs/fs.go:137-225 | So does any sequence of headers: no layer has an opaque root. |
| Extraction.LayerTreeInTurn | internal/overlayfs/fs.go:137-225 | An archive read in two parts gives the layer it gives read whole, or is refused alike: each header lands over those before it. |
| Landing.EntryShows | internal/overlayfs/fs.go:181-224 | What a taken entry shows under its name, flag by flag: a regular file a file, a directory one with the header's metadata, a symlink its target as written, a character device a whiteout exactly when it is 0/0 and a file otherwise, a hard link the node its target names, a global header nothing. |
| Landing.EntryTaken | internal/overlayfs/fs.go:181-213 | An entry whose directory is there is refused only as a symlink without a target that fits, or as a hard link to a directory or to nothing. |
| Landing.MarkerShows | internal/overlayfs/fs.go:158-178 | A whiteout marker puts a whiteout exactly where nothing stood and changes nothing elsewhere; an opaque marker marks its directory unless that is the root. |
| Landing.SkippedIsNothing | internal/overlayfs/fs.go:138-144 | A name that is the root or above it is passed over: taken, and nothing changes. |
| Landing.InheritFromClear | internal/overlayfs/fs.go:260-287 | What a layer below says of a path it reaches through no link: a directory its own metadata, anything else root's. |
| Landing.InheritIsNearest | internal/overlayfs/fs.go:260-287 | A made directory takes the metadata of the nearest layer below that resolves its path: that directory's own, or root's where something else stands there; a refusal there refuses the entry, and where no layer resolves it the directory states none. |
| Landing.EntryLands | internal/overlayfs/fs.go:137-258 | A taken entry changes only where it lands and below: what stood elsewhere is unchanged and the only other new paths are directories on the way to it; a directory over a directory and the markers keep what the layer has there and below, lifting no opaque mark; anything else replaces all of it. |
| Overlay.InheritInfo | internal/overlayfs/fs.go:260-287 | The search through the layers below returns what the nearest one that speaks says, changing none of them. |
| Overlay.MkParent | internal/overlayfs/fs.go:227-258 | Makes exactly the missing directories of the path, in the layer alone. |
| Overlay.NodeFor | internal/overlayfs/fs.go:176-224 | The node an entry places is new, except for a hard link, which places the very node its target names. |
| Overlay.LinkTarget | internal/overlayfs/fs.go:199-212 | A hard link's target is found by resolving its directory and taking the last component as it is; a directory or nothing there refuses it. |
| Overlay.PlaceMarker | internal/overlayfs/fs.go:158-178 | Opaque markers mark any directory but the root, and whiteouts hide only what the layer itself does not have. |
| Overlay.Extract | internal/overlayfs/fs.go:137-225 | The in-place extractor leaves the node graph showing what the entry makes of the tree, refuses exactly the entries it refuses, and changes no layer below. |
| Overlay.Layer.Add | internal/overlayfs/fs.go:78-78 | Adding an entry keeps the layer a tree of directories of its own, disjoint from every layer below, with its root unmarked. |
| Overlay.StackLayer | internal/overlayfs/fs.go:79-82 | Stacking keeps the mount the fold of its layers, with no directory shared between the mount and a layer or between two layers. |
| Overlay.FS.NewLayer | internal/overlayfs/fs.go:77-77 | A new layer is empty, shares nothing, and sees the layers applied so far. |
| Overlay.FS.Apply | internal/overlayfs/fs.go:79-82 | Over any run of layers: the mount becomes the fold with one more, the layers already applied and the new one still show the trees they did, and every directory in the mount was in it or is new. |
| Strings.SortNames | internal/overlayfs/fs.go:618-622 | The names are listed in ascending order, each once. |
| Inventory.PreorderCovers | internal/overlayfs/fs.go:607-631 | The preorder visits exactly the paths of the mount at or below its start, starting there. |
| Inventory.PreorderInOrder | internal/overlayfs/fs.go:607-631 | And in order: a directory before what is in it, and names compared as strings where two paths part. |
| Inventory.Walk | internal/overlayfs/fs.go:607-631 | The visit reports, in preorder by name, every path of the mount with its depth, kind and marks. |
| Ownership.DescendantIff | fetch/assemble_collisions.go:12-22 | The invariant of the index: a node's descendant is set if and only if some owned path lies strictly below it, and is then a child of it. |
| Ownership.Claim | fetch/assemble_collisions.go:92-104 | Entering a path keeps the index one tree with its invariant, adding that path alone. |
| Ownership.PathOf | fetch/assemble_collisions.go:24-31 | Following parents gives back the path the node is indexed at. |
| Damage.CompatibleExposes | fetch/assemble_collisions.go:33-115 | If no kit damages an earlier one's path, every path any kit contributes is shown by the stack of all kits, as its own kind. |
| Damage.SharingDirectories | fetch/assemble_collisions.go:54-77 | Kits that delete nothing and hide nothing are compatible if and only if all they have in common is directories. |
| Damage.CompatibleKitsExpose | fetch/assemble_collisions.go:33-115 | The same for the mount of all layers of all kits, one by one. |
| Collisions.InoffensiveIsHarmless | fetch/assemble_collisions.go:54-78 | Entries that offend nothing in the index damage nothing any earlier kit contributes: the index agrees with the definition over all pairs and paths. |
| Collisions.VictimIsDamaged | fetch/assemble_collisions.go:69-75 | A reported path is one that an earlier kit contributes and this kit replaces, deletes or hides. |
| Collisions.FindVictim | fetch/assemble_collisions.go:54-80 | The walk beside the index finds an offending entry if there is one, and names a really damaged path and its owner. |
| Collisions.ClaimAll | fetch/assemble_collisions.go:81-112 | The second walk adds exactly the kit's contributed paths; deletions claim nothing. |
| FileCheck.BuildKit | fetch/assemble_collisions.go:39-53 | A kit's mount is the fold of its layers, each extracted over those before it; refused exactly when some header is. |
| FileCheck.CheckKit | fetch/assemble_collisions.go:35-112 | One kit passes exactly when it damages no earlier kit, and the index then holds it too. |
| FileCheck.CheckFileCollisions | fetch/assemble_collisions.go:33-115 | Clear exactly when every kit extracts and no kit replaces, deletes or hides a path an earlier one contributes; otherwise the verdict names a real unextractable kit, or a real path with its contributor and the kit that damages it. |
| Texts.SplitJoin | spec/version.go:607-613 | Splitting undoes joining of separator-free parts. |
| Texts.JoinSplit | spec/version.go:299-299 | Joining undoes splitting. |
| Versions.CompareDigitsIsValue | spec/version.go:592-605 | Digit strings of any length, with any leading zeros, compare as the numbers they write. |
| Versions.CompareVersions | spec/version.go:541-576 | The index-by-index comparison, padding the shorter version, is the segment-wise comparison. |
| Versions.TotalPreorder | spec/version.go:541-576 | Over tame versions the comparison is a total preorder: reflexive, antisymmetric up to equality, transitive, for any number and length of segments. |
| Wilds.TameIsOneSided | spec/version.go:541-605 | A segment of the grammar that is no number is above every number or below every number if and only if it is tame: it starts with no digit, or with nines and then a letter. |
| Wilds.WildSegmentBreaks | spec/version.go:541-605 | Any other is above one number and below another that is no greater as a number, so with those two transitivity fails. |
| Wilds.TameIsLargest | spec/version.go:541-576 | No version can be added: a version of the grammar is tame if and only if the order stays transitive when it is put beside the tame ones. |
| Wilds.WildCircle | spec/version.go:541-576 | A circle: 1.9 < 1.10 < 1.1a < 1.9. |
| Versions.SuccessorIsNext | spec/version.go:466-481 | Over the whole grammar: w > v if and only if w >= v with ".-" appended. |
| Versions.CanonicalVersion | spec/version.go:285-300 | The segment loop computes the canonical spelling. |
| Versions.CanonicalDecides | spec/version.go:285-300 | Over the whole grammar: two versions compare equal if and only if their canonical spellings are the same string. |
| Versions.CanonicalIsVersion | spec/version.go:285-300 | The canonical spelling is a version, of the same point, and is its own canonical spelling. |
| Constraints.FloorIsLeast | spec/version.go:412-418 | Every version of the grammar is at least 0. |
| Constraints.PinDecides | spec/version.go:391-410 | A set with a pin is satisfiable exactly when the pin itself meets every constraint. |
| Constraints.BoundsDecide | spec/version.go:419-461 | A set without one is satisfiable exactly when the least version over its tightest lower bound, or over 0, is under its tightest upper bound. |
| Constraints.CheckConstraintsSatisfiable | spec/version.go:386-464 | Accepts a set of constraints on tame versions if and only if some tame version satisfies all of them; accepting any set with a pin, it has a pin that satisfies all of it. |
| Refusals.PinIsExact | spec/version.go:391-410 | For a set on tame versions with a pin, some version of the whole grammar meets it if and only if a tame one does: the check is exact. |
| Refusals.RefusedPair | spec/version.go:412-461 | A lower and an upper bound that the check refuses are met by some version of the grammar if and only if their versions are alike up to a segment where both have numbers, the lower bound's before the upper's as strings. |
| Refusals.RefusedSet | spec/version.go:412-461 | A set of any number of bounds that the check refuses is met by some version if and only if one of finitely many meets it: a lower bound of the set cut at a number, with a hyphen put after that. |
| Refusals.WildMeetsRefused | spec/version.go:386-464 | The least case: 1.1a satisfies >= 1.10 and <= 1.9, which no tame version does. |
| Spellings.InclusiveMeans | spec/version.go:233-248 | Rewriting an exclusive bound as the inclusive one it equals changes which versions it admits for none, and leaves no exclusive lower bound and no exclusive upper bound at a successor. |
| Spellings.NoGreatestBelow | spec/version.go:235-240 | Below a version that names no successor there is no greatest version: the successor of each is still below. |
| Spellings.OwnVersion | spec/version.go:523-540 | Which of the five comparisons with a version hold of the version itself, which of its successor, and which with the successor hold of the version. |
| Spellings.OneForm | spec/version.go:222-283 | Two reduced sets that the same tame versions meet are the same form up to the spelling of their versions. |
| Renderings.SimplifyConstraints | spec/version.go:222-283 | For constraints on tame versions the result is a reduced form: met by exactly the tame versions that meet the set, if any does, stating a lower bound exactly when the set does, and empty only if it is. |
| Renderings.RenderDecides | spec/version.go:213-220 | Two renderings are the same string exactly when the names are and the reduced forms are up to spelling. |
| Renderings.CanonicalRequire | spec/version.go:208-220 | Returns a canonical string of a require on tame versions. |
| Renderings.CanonicalRequireDecides | spec/version.go:208-220 | Two satisfiable requires over tame versions have one canonical string if and only if the same provides satisfy both, unversioned ones included, and both or neither state how low a version may be. |
| Renderings.UnstatedFloor | spec/version.go:222-283 | That last condition is needed: "<= v" and ">= 0, <= v" mean the same and render apart. |
| RequireTexts.ReadsGrammar | spec/version.go:302-384 | A text reads as a require if and only if it writes it: a valid capability name, then comparisons each with a version and a comma between two, with any white space between these; a bare name gains the default namespace. |
| RequireTexts.ParseRequire | spec/version.go:302-384 | Parsing returns what the grammar reads or refuses; what it reads, on tame versions, it refuses exactly when no version can meet it. |
| RequireTexts.NormalizedIsValid | spec/version.go:77-157 | Every valid name has a valid qualified form, which is its own. |
| RequireTexts.TextSays | spec/version.go:213-220 | A rendered constraint starts with > if it bounds from below, with < from above, with = if it pins, and its second character is = exactly when a bound includes its version. |
| RequireTexts.CanonicalReads | spec/version.go:208-384 | The round trip: the canonical string of a require that was read reads back as one that the same provides satisfy, and that string is its only canonical one. |
| Graphs.LeastIsUnique | resolve/resolve.go:451-454 | A graph has at most one lexicographically least topological order. |
| Graphs.GreedyIsLeast | resolve/resolve.go:482-496 | Always taking the least of the ready nodes yields the lexicographically least of all topological orders. |
| Graphs.StuckIsCyclic | resolve/resolve.go:498-508 | If the removal stops early, the nodes left contain a cycle. |
| Graphs.CyclicHasNoOrder | resolve/resolve.go:498-508 | A graph with a cycle has no topological order. |
| Graphs.Release | resolve/resolve.go:490-495 | Lowering the counts of a removed node's dependents keeps every count the number of needs still waiting and lists exactly the nodes that became ready. |
| Graphs.Drain | resolve/resolve.go:482-496 | Every node taken was the least one ready, and at the end none is. |
| Graphs.TopologicalSort | resolve/resolve.go:455-510 | Returns the least topological order, or nothing exactly when the graph has a cycle. |
| Graphs.LeastTakesLeast | resolve/resolve.go:482-488 | In the least order each node is the least of those whose needs are all placed before it. |
| Kits.IndexOffers | resolve/resolve.go:270-297 | The index lists every offer under its name in order, with its owner and its version filled in. |
| Kits.FirstAnswerDecides | resolve/resolve.go:413-426 | The search finds a kit other than the asker that satisfies the ask exactly when the set has one. |
| Rules.OffersInFields | resolve/resolve.go:286-294 | A kit offers a name at a version exactly when it lists the name at that version, or lists it bare and has that version itself. |
| Rules.AnswersInFields | resolve/resolve.go:413-426 | A kit answers an ask exactly when some listed provide has its name and either nothing is asked of a version or the provide's own version, or else its kit's, meets all that is. |
| Resolving.CheckOneWorkload | resolve/resolve.go:167-186 | No problem exactly when the set has one workload, or at most one if it is partial; and it finds that one. |
| Resolving.CheckOneProviderPerName | resolve/resolve.go:188-226 | No problem exactly when no capability name is offered by two kits; one kit offering a name several times is one owner. |
| Resolving.CheckRequires | resolve/resolve.go:352-375 | No problem exactly when every require of every kit is satisfied by another kit of the set. |
| Resolving.CheckIntegrates | resolve/resolve.go:377-400 | No problem exactly when every integration whose name another kit offers is satisfied by another kit. |
| Resolving.CheckConflicts | resolve/resolve.go:436-449 | No problem exactly when no kit offers a name another kit conflicts with. |
| Resolving.Order | resolve/resolve.go:451-510 | With distinct references and one owner per name, the order is the lexicographically least topological order of the dependency graph of the set, and an error exactly when that graph has a cycle. |
| Resolving.Dependencies | resolve/resolve.go:110-165 | Resolves exactly the coherent, acyclic sets, with the workload apart and the mixins in the order the graph gives. |
| Resolving.ResolutionIsOfTheSet | resolve/resolve.go:451-510 | Every listing of the same set resolves alike: same verdict, same workload, same order. |
| Rules.NoWorkload | resolve/resolve.go:167-186 | A set without a workload is refused exactly when it is not partial. |
| Rules.CoherentPair | resolve/resolve.go:110-165 | Two kits are coherent exactly when each finds what it requires in the other, and what it integrates if the other has the name, neither conflicts with the other, they share no name, and at most one is a workload, exactly one unless the set is partial. |
| Rules.AnswerComesFirst | resolve/resolve.go:456-481 | A kit that answers what another requires or integrates comes before it. |
| Rules.LesserComesFirst | resolve/resolve.go:482-488 | Of the kits whose needs are all placed, the one with the least reference comes next. |
| Contributions.FindOwners | cmd/frontend/set.go:430-441 | Every contribution but its own that satisfies the entry is an edge, not only the first. |
| Contributions.OrderContributions | cmd/frontend/set.go:397-475 | The index-least topological order over the set's own declarations and its kits, or an error exactly when they need each other in a circle; kits that arrive in order and do not need the set keep their order with the set last. |
| Contributions.AlreadyOrdered | cmd/frontend/set.go:447-452 | Contributions none of which needs a later one have their own order as the index-least one. |
| Merging.DerivedKind | spec/merge.go:154-179 | A workload if one contribution is, a mixin if none is, an error for two workloads or a set that was never merged. |
| Merging.Merge | spec/merge.go:284-368 | The merged kit offers each materialized provide once, keeps the asks and integrations no other contribution satisfies, and keeps every conflict, each list in order of first mention. |
| Merging.MergeGrows | spec/merge.go:284-368 | Contributions added after others add to the end: what those provide, exclude and still ask for stays in front, in the same order. |
| Flattening.MergedAnswers | spec/merge.go:259-270 | The merged kit satisfies an ask exactly when one of its parts does. |
| Flattening.MergedEntries | spec/merge.go:329-356 | It keeps an entry exactly when some part states it and no other part satisfies it; a part's own offer never does. |
| Flattening.RequiresKept | resolve/resolve.go:352-375 | The requires check passes around the parts exactly when it passes around the merge. |
| Flattening.IntegratesKept | resolve/resolve.go:377-400 | So does the integrates check, given that the parts violate no integration among themselves. |
| Flattening.ConflictsKept | resolve/resolve.go:436-449 | So does the conflicts check, given that the parts do not conflict among themselves. |
| Flattening.OwnersKept | resolve/resolve.go:188-226 | So does the one-owner check, given one owner per name among the parts. |
| Flattening.WorkloadKept | resolve/resolve.go:167-186 | So does the one-workload check, for every set that can be merged. |
| Flattening.FlatteningKeepsVerdict | spec/merge.go:284-368 | For such a set, with all its provides versioned if the merge is published under a version, and any kits around it, the coherence verdict on the parts with those kits is the verdict on the merge with them. |
| Circles.FlatteningCircles | resolve/resolve.go:451-510 | The composition order: a merge and the kits around it are in a circle if and only if those kits are among themselves, or some walk of them is needed, at one end, by a part for something no other part answers and needs a part at the other. |
| Circles.FlatteningKeepsOrder | resolve/resolve.go:451-510 | So kits that can be ordered around the parts can be ordered around their merge exactly when no such walk exists. |
| Circles.FlatteningHidesOnlyInner | resolve/resolve.go:451-510 | The other way, with one owner per name in all, merging removes no circle but one among the parts themselves. |
| Circles.OrderLost | resolve/resolve.go:498-508 | The order can be lost: for any names, two parts and a kit between them that have an order and whose merge with that kit has none. |
| Staging.StagedEntries | spec/merge.go:284-368 | Dropping what some contributions satisfy among themselves and then what the rest satisfy leaves the same entries in the same order as dropping both at once. |
| Staging.StagedMergeIsMerge | spec/merge.go:284-368 | Merging some contributions and then the result with others yields the same role, provides, requires, integrates and conflicts as merging them all in one pass. |
| Patterns.HostCoversExact | spec/surface.go:404-426 | Host coverage is containment under every matcher the runtime may have: a pattern covers another if and only if it matches every host and port the other matches. |
| Patterns.CoversContains | spec/surface.go:489-500 | Path coverage implies containment for all path globs, wherever they have wildcards and whatever the runtime takes a wildcard to match. |
| Patterns.PathCoversExact | spec/surface.go:489-500 | Where the granted glob has `**` only at its end, path coverage is containment under every matcher: equal, or a subtree pattern over what lies at or below its directory. |
| Patterns.SettledIsExact | spec/surface.go:489-500 | And only there: a granted glob's coverage sees everything it contains if and only if no segment of it but the last is `**`; for the others the gate asks again for what was granted. |
| HttpGrants.ParseRendered | spec/surface.go:474-487 | An HTTP grant reads back as it was written, method, host and path. |
| HttpGrants.CoveredIsContained | spec/surface.go:366-389 | A grant that covers another in the gate's sense admits every request the other admits. |
| HttpGrants.EntryCoversExact | spec/surface.go:366-389 | Where the granted path has `**` only at its end, one grant covers another in the gate's sense if and only if it admits every request the other admits. |
| Networks.NormalizeRules | spec/merge.go:896-939 | Collapsing a phase's entries changes which requests its allows admit for no request and no matcher, nor which its denies refuse, and leaves no host granted outright by one entry and bounded by another. |
| Networks.FirstVersionMeans | spec/capabilities.go:136-166 | A first-version policy allows, in the phase it states them for, every request to its allowed hosts and no other, and denies by its denied hosts. |
| Networks.SecondVersionMeans | spec/merge.go:855-866 | A second-version policy admits in each phase by that phase's own entries, and a phase it does not state admits nothing. |
| Networks.NoPolicyAdmitsNothing | spec/capabilities.go:120-151 | A request that states no policy allows and denies nothing. |
| Networks.DowngradeRules | spec/merge.go:962-989 | Entries that bound nothing grant, as bare hosts, exactly what they did. |
| Networks.MergedNetwork | spec/merge.go:826-885 | For each phase, the merged policy allows a request if and only if some contributor's policy allows it, and denies one if and only if some contributor's denies it; it is of the second version exactly when some contributor's is. |
| SshGrants.MergeSshAgents | spec/ssh_agent.go:109-138 | The merged agent may sign exactly what either agent may. |
| SshGrants.EntriesExact | spec/ssh_agent.go:140-157 | The listed grants permit exactly the signatures the ask permits; a destination without a user is every user at that host. |
| SshGrants.SshAgentWidenings | spec/ssh_agent.go:159-188 | Reports exactly the entries that nothing granted covers. |
| SshGrants.SshCoverageContains | spec/ssh_agent.go:174-184 | A covered entry permits no signature that the granted entries do not. |
| SshGrants.SshCoversExact | spec/ssh_agent.go:174-184 | One entry covers another in the gate's sense if and only if it permits every signature the other does. |
| Surfaces.EntrySurface | spec/surface.go:216-242 | One grant for each host, verb and path an entry names, the wildcard verb standing for all. |
| Surfaces.SurfaceOf | spec/surface.go:77-200 | The projection of a kit's capabilities, phase by phase, each list sorted and without repeats. |
| Gates.SurfaceExact | spec/surface.go:77-83 | A kit's surface permits a request if and only if its capabilities do: nothing it asks for escapes the surface and nothing is added. |
| Gates.NothingImplied | spec/surface.go:502-527 | For a surface of a kit, reconstructing the grants an old lock leaves implied adds nothing. |
| Gates.OldGrantsMean | spec/surface.go:502-527 | For a lock written before the HTTP lists, a surface allows a request if a listed grant does, or if an allowed host no grant names a port of matches it, and no other. |
| Widenings.CompleteHttpGrants | spec/surface.go:502-527 | Adds the unbounded HTTP grant for each allowed host no entry names, and returns the list itself if there is none. |
| Widenings.SuppressedExactly | spec/surface.go:347-370 | A grant is left to the report of a new host exactly when its host with that port, or its bare name, is newly allowed; or, for a bare host, when some spelling of it is allowed and each of those is new. One whose host was granted on some port is reported. |
| Widenings.HttpWidenings | spec/surface.go:333-402 | Reports exactly the candidate's grants that are neither covered nor accounted for by a newly allowed host. |
| Widenings.HttpDenyRemovals | spec/surface.go:428-472 | Reports exactly the granted refusals that nothing in the candidate covers, but for those of a dropped host. |
| Widenings.EmptyReport | spec/surface.go:347-402 | With no host added or dropped nothing is suppressed: an empty report means every grant is covered. |
| Widenings.DiffWidenings | spec/surface.go:288-331 | Reports exactly the ways the candidate exceeds the granted surface, each under its category, and nothing if and only if the candidate is within it. |
| Widenings.CategoriesApart | spec/surface.go:300-331 | No two categories of plain grants are reported under one name, nor under that of another kind. |
| Gates.WithinPermits | spec/surface.go:288-331 | A kit whose surface is within a granted one permits, for every matcher, no request that one does not. |
| Gates.LockFrom | resolve/lock.go:37-51 | The lock records each kit's surface under its reference. |
| Gates.Gate | resolve/lock.go:71-88 | Reports for every kit of the update exactly the ways it exceeds what the lock grants its reference, a new reference being granted nothing; so nothing if and only if every kit is within its grant. |
| Gates.LockRecords | resolve/lock.go:37-85 | A lock written from kits with distinct references grants every one of them its whole surface. |
| Gates.UnchangedIsSilent | resolve/lock.go:71-88 | An update that changes nothing is silent against the lock written from it. |
| Gates.FewerIsSilent | resolve/lock.go:71-88 | So is an update that only drops kits. |
| Gates.UnlistedIsNothing | resolve/lock.go:71-76 | A reference the lock does not list is granted nothing. |
| Gates.AuthorityNeverDrifts | resolve/lock.go:71-88 | After any number of updates that were each silent against the lock they replaced, every request a kit permits was permitted by the first lock for its reference: allowed by it, and neither denied as a request nor, by host, with its connection; even by an old lock that lists hosts only. |
| Gates.ApprovedAtTheStart | resolve/lock.go:71-88 | From a lock this program wrote: what a kit's capabilities permit at the end, the capabilities of a kit approved under the same reference permitted at the start. |
| Packages.TallyListing | spec/packages.go:164-202 | After each listing a name has a version exactly when all its records so far agree on it, and counts the listings it is in. |
| Packages.DerivedProvides | spec/packages.go:142-215 | Emits name@version if and only if there are listings, the version can be published, every listing has the name, and every record of it in every listing has that version, so each listing's own check accepts it; sorted, each once. |
| Packages.EmittedInFields | spec/packages.go:169-213 | In the records' own fields: an entry is the namespace, a slash, a package's name, an at sign and a version, exactly when the name is valid and every listing records the package, at that one version throughout, which is not empty. |
| Args.ResolveArgs | spec/expand.go:30-60 | Refuses exactly when a name is undeclared, a required value is missing or a value is not accepted; otherwise every supplied value stands, every argument left out takes its default if it has one, and nothing else has a value. |
| Args.CheckReExport | spec/merge.go:1111-1151 | Accepts exactly the declarations that stand in for the kit's: declared, required or defaulted where the kit's is, and restating its bounds. |
| Args.ReExportsResolve | spec/merge.go:1111-1123 | When every argument of a kit is re-exported to one the check accepts, whatever the set's declarations accept, the kit's accept, and every argument the kit requires or defaults has a value. |
| Args.StandsInExactly | spec/merge.go:1111-1151 | What the check accepts lets through nothing the kit refuses if and only if the kit lists its values, states no pattern, or its pattern matches every value the set lists; so always for a declaration that validation admits. |
| Args.BothStatedIsLooser | spec/validate.go:1243-1245 | This rests on validation: a declaration stating an enum and a pattern passes the check and lets through a value the kit would refuse. |

## Left out

- Owner and mode in the stacking algebra: inherited from the layers below by design, so associativity is stated without them; `Trees.StackMetadataExact` says exactly where they differ.
- File contents, sizes and times: a file is a kind; what hard links share is the node.
- Context cancellation in `checkFileCollisions`: the check runs to its verdict.
- The resolver cache `mkparent` keeps for each lower layer during one entry: each question starts a resolver of its own, and `Resolvers.Resolver.Dir` shows a kept one would answer the same.
- `DirStat`: a literal descent through the mount, with no property beyond its own steps.
- Links.DanglingSymlinks: does not sort its list by path string, the order of a report only.
- Registry, HTTP, BuildKit and file I/O, YAML and JSON, archive reading and compression, digests: decoded values come in.
- Parsing of provides from text, and the wording of errors for malformed ones; an untame require is parsed, and whether its constraints are then refused is said for tame versions only.
- `VersionFromReference` and `PackageVersion`: which version a reference or a package record publishes is a field or a parameter.
- Constraints.CheckConstraintsSatisfiable: says little of constraints on versions that are not tame, because outside them the comparison is not an order and no bound is tightest (`Wilds.TameIsLargest`).
- Renderings.SimplifyConstraints: says nothing of constraints on versions that are not tame, for the same reason.
- Renderings.CanonicalRequire: says nothing of them either.
- RequireTexts.ParseRequire: does not say which untame sets it refuses, for the same reason.
- KernelRoutes.ResolvesAsKernel: covers paths whose links lead to directories, or are the whole path up to its end; a link in mid-path to a link, or a ".." that climbs back over a link's target, is walked by the code, and for those only `WalkFacts.RootPathClear` is stated.
- Credential ownership and the selection of capability groups in `resolve`: `Resolving.Dependencies` is the variant without them.
- Merging of capabilities other than network policy and SSH agent, licenses, and the text of the merged agent context.
- The name and optionality of the merged network entry: bookkeeping beside the grants.
- `VerifyRecreate`, digests, images and arguments in a lock: compared for equality only.
- Surface categories compared by plain difference (credentials, storage, skills, ports, USB, services): one list of tagged grants, neither sorted nor without repeats.
- The order of the widenings reported, and how often each is.
- Regular expressions: the version grammar is written out; which values an argument's pattern matches is a parameter, and a pattern that does not compile matches none.
- Expansion of argument references into commands and descriptors.
- `checkSetRelations` and the field rules of validation: branch by branch, with no property that spans them.
- The wording of errors, and the order in which problems are listed.
- The conformance suite's runtime adapters: they drive external processes.
