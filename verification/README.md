# go-git: hash-algorithm registry and tree diff, modelled in Dafny

This project models two small sequential pieces of go-git.

1. **The hash-algorithm registry** (`plumbing/hash/hash.go`). It is a process-wide map from a
   `crypto.Hash` identifier to a hasher constructor. `init` runs `reset`, which installs the
   sha1cd SHA-1 and the standard SHA-256 constructors. `RegisterHash` overrides one of those
   two entries; it refuses a nil constructor and any other identifier. `New` looks an
   identifier up and panics on a miss. `FromObjectFormat` maps a repository's object format
   onto `New`, or returns `ErrInvalidObjectFormat`.
   The model is a set of pure transitions over `map<HashId, Ctor>`, with constructors as
   opaque tokens. The registry's domain is always exactly {SHA1, SHA256}. From that, every
   lookup `FromObjectFormat` makes satisfies `New`'s requirement, so it never panics.

2. **The tree diff and its change model**, as `plumbing/object/difftree_test.go` fixes them.
   - A tree is a `Node`: a leaf, or a directory whose children are ordered by name. Each
     node carries a content hash and a file mode.
   - The noder hash is the content hash plus the mode. The deprecated group-writable mode
     counts as a regular file.
   - `Diff(a, b)` walks the two trees in step by name. It skips every pair whose noder
     hashes agree. A changed leaf is one Modify. An entry present on one side only expands
     into one Insert or Delete per leaf beneath it. When a directory and a leaf share a
     name, both sides expand that way, deletes first. Directories are never reported.
   - A `Change` has an optional `from` side and an optional `to` side. `ActionOf` derives
     Insert, Delete or Modify from which sides are present. `SortByName` orders a change
     list by its `/`-joined path.

The merkletrie walk (`utils/merkletrie`), `treeNoder` and the `Change` type are not part of this
model's sources; only their test is. The diff walk here models what that test requires, and
these points are modelling choices where the test leaves room:

- **Names are compared lexicographically.** Names are Dafny strings of code points (`PathOrder`).
  Go compares raw bytes; for names that are valid UTF-8 the two orders agree, because UTF-8
  encoding preserves code-point order.
- **Only the directory/non-directory split matters.** The noder hash carries the mode, so a leaf
  that changes mode between non-directory kinds with the same name is one Modify. Examples are
  regular to executable and file to symlink. The walk only tells directories from
  non-directories, and only the regular/deprecated pair is aliased.
- **Roots are pruned first.** Two present roots with equal hashes diff to nothing. Otherwise
  their entries are walked.
- **A change's name prefers the `to` side.** It falls back to `from`. `DiffReported` shows
  that for every change the diff produces, the two sides share one path, so this choice
  cannot change any name or order.
- **The mirror law holds as a multiset.** When a directory and a leaf swap places, both
  directions emit the deletes before the inserts. So `Diff(b, a)` is the mirror of
  `Diff(a, b)` as a multiset, not as a sequence. The test compares after sorting, where
  the two agree.

Files:

| file | module | contents |
|---|---|---|
| `wrappers.dfy` | `Wrappers` | `Option`, `Result` |
| `path_order.dfy` | `PathOrder` | lexicographic name order, `/`-joining, and its injectivity |
| `hash_registry.dfy` | `HashRegistry` | the registry and its invariant |
| `tree_noder.dfy` | `TreeNoder` | file modes, nodes, noder hash, well-formed trees |
| `changes.dfy` | `Changes` | changes, actions, mirror, sorting, `equalChanges` |
| `difftree.dfy` | `DiffTree` | the diff walk |
| `difftree_laws.dfy` | `DiffTreeLaws` | identity, leaf enumeration, mirror, shape, single modification |
| `difftree_order.dfy` | `DiffTreeOrder` | distinct paths and the unique presentation order |
| `difftree_provenance.dfy` | `DiffTreeProvenance` | where each reported side comes from; the Modify law amid other changes |
| `difftree_alias.dfy` | `DiffTreeAlias` | Modifies join differing hashes; one-sided changes name paths absent on the other side; the regular/deprecated alias amid other changes |
| `difftree_scenarios.dfy` | `DiffTreeScenarios` | rows of the test table on small trees |

## Model

| member | source | states |
|---|---|---|
| HashRegistry.Reset | plumbing/hash/hash.go:26-31 | `reset` registers SHA1 as sha1cd and SHA256 as crypto SHA-256, adds no other key, and keeps every other entry |
| HashRegistry.Initial | plumbing/hash/hash.go:19-24 | after `init` the registry's domain is exactly {SHA1, SHA256}, holding the two default constructors |
| HashRegistry.ResetIdempotent | plumbing/hash/hash.go:28-31 | running `reset` a second time leaves the map as the first run left it, and keeps the domain {SHA1, SHA256} |
| HashRegistry.RegisterHash | plumbing/hash/hash.go:36-50 | a nil constructor is refused, whatever the id, and the registry is unchanged. Any id other than SHA1/SHA256 is refused with `ErrUnsupportedHashFunction(h)`, registry unchanged. Otherwise nil is returned, the id maps to `f`, and every other entry is untouched. The call succeeds exactly when `f` is non-nil and the id is supported |
| HashRegistry.TransitionsKeepComplete | plumbing/hash/hash.go:28-50 | from a registry with domain {SHA1, SHA256}, neither `reset` nor any `RegisterHash` call changes the domain |
| HashRegistry.RunComplete | plumbing/hash/hash.go:20-50 | every registry reachable from `init` through any sequence of `reset`/`RegisterHash` calls has domain exactly {SHA1, SHA256} |
| HashRegistry.New | plumbing/hash/hash.go:58-66 | `New(h)` demands that `h` is registered (it panics otherwise) and returns an instance made by the registered constructor |
| HashRegistry.FromObjectFormat | plumbing/hash/hash.go:68-80 | format SHA1 gives `New(SHA1)`, SHA256 gives `New(SHA256)`, and any other format gives `ErrInvalidObjectFormat`. On a complete registry, `New`'s requirement is met on both calls |
| HashRegistry.ConfigureAndResolve | plumbing/hash/hash.go:20-80 | after `init` and any configuration calls, resolving an object format never panics. It fails exactly for an unrecognised format, with `ErrInvalidObjectFormat` |
| TreeNoder.Normalize | plumbing/object/difftree_test.go:355-356 | the deprecated mode is read as regular and every other mode is kept; a normalised mode is regular exactly when the mode was regular or deprecated |
| TreeNoder.HashOf | plumbing/object/difftree_test.go:354-378 | `treeNoder.Hash()` carries the content hash. It carries the regular mode's bits exactly when the mode is regular or deprecated. Its partner `HashOfEqual` characterises when two noder hashes agree |
| TreeNoder.HashOfEqual | plumbing/object/difftree_test.go:354-378 | two noders hash alike if and only if their content hashes are equal and their modes agree once deprecated is read as regular |
| TreeNoder.RegularDeprecatedAlias | plumbing/object/difftree_test.go:354-378 | Regular and Deprecated noders with the same content hash have equal hashes; for either mode, different content hashes give different noder hashes |
| TreeNoder.ModeChangeVisible | plumbing/object/difftree_test.go:354-378 | with equal contents, any mode change other than regular/deprecated changes the noder hash |
| Changes.ActionOf | plumbing/object/difftree_test.go:70-88 | Insert exactly when only `to` is present, Delete exactly when only `from` is, Modify exactly when both are, and a malformed-change error exactly when neither is |
| Changes.MirrorAction | plumbing/object/difftree_test.go:249-274 | exchanging a change's sides swaps Insert and Delete, keeps Modify, and is its own inverse |
| Changes.SortByName | plumbing/object/difftree_test.go:95-104 | `sort.Sort` on changes returns a permutation (same multiset) of its input in ascending order of name |
| Changes.SortedPairwise | plumbing/object/difftree_test.go:95-104 | in a sorted change list every earlier change's name sorts before or equal to every later one's |
| Changes.SortSorted | plumbing/object/difftree_test.go:95-104 | sorting a list that is already in name order returns it unchanged |
| Changes.SortIdempotent | plumbing/object/difftree_test.go:95-104 | sorting twice gives the same list as sorting once |
| Changes.SortDistinct | plumbing/object/difftree_test.go:95-104 | a change list with distinct names sorts into strictly ascending name order, still with distinct names |
| Changes.Name | plumbing/object/difftree_test.go:101 | `name()` is the `/`-joined path of the `to` side when present, else of the `from` side. When both sides share a path, the name is that path whichever side is read |
| Changes.EqualChanges | plumbing/object/difftree_test.go:90-107 | `equalChanges`: the lists have the same length, and after `sort.Sort` each change has the expected row's action and name, row by row |
| Changes.AllActionable | plumbing/object/difftree_test.go:70-88 | `assertChanges`: every change's `Action()` succeeds. Its partner `DiffReported` proves this for every diff |
| Changes.SortedUnique | plumbing/object/difftree_test.go:95-104 | two name-sorted lists of the same changes with distinct names are the same list, so `sort.Sort`'s result does not depend on the input order |
| Changes.EqualChangesPermutation | plumbing/object/difftree_test.go:90-107 | `equalChanges` gives the same verdict on any reordering of a change list with distinct names |
| DiffTree.Diff | plumbing/object/difftree_test.go:337-344 | `DiffTree(tree1, tree2)`, with `Tree.Diff` the same function. Diffing any tree against itself gives nothing. Its laws are `DiffFromNothing`, `DiffToNothing`, `DiffMirror`, `DiffReported`, `DiffProvenance`, `DiffLeafModified`, `DiffModifyApart`, `DiffOneSidedGone` and `DiffDistinct` |
| DiffTreeLaws.DiffSelf | plumbing/object/difftree_test.go:116-127 | diffing any tree against itself, or nil against nil, reports nothing |
| DiffTreeLaws.DiffEntriesHashAlike | plumbing/object/difftree_test.go:160-165 | two trees whose top-level entries pair up by name with equal noder hashes report nothing, even when the roots' hashes differ |
| DiffTreeLaws.DiffSeqPairwiseSame | plumbing/object/difftree_test.go:186-191 | sibling lists that pair up by name with equal noder hashes report nothing, whatever lies beneath them |
| DiffTreeLaws.LeavesAllExactly | plumbing/object/difftree_test.go:192-203 | the leaf enumeration holds exactly the leaves that some path of names reaches in the tree, each listed under that path |
| DiffTreeLaws.DiffFromNothing | plumbing/object/difftree_test.go:192-203 | diffing nil against a tree gives one Insert per leaf reachable in the tree, under its `/`-joined full path. It reports no directory and no Delete or Modify |
| DiffTreeLaws.DiffToNothing | plumbing/object/difftree_test.go:204-215 | diffing a tree against nil gives one Delete per reachable leaf, under its full path, and nothing else |
| DiffTreeLaws.DiffMirror | plumbing/object/difftree_test.go:249-274 | `Diff(b, a)` is, as a multiset, `Diff(a, b)` with every change's sides exchanged. A change is in one exactly when its mirror is in the other |
| DiffTreeLaws.DiffReported | plumbing/object/difftree_test.go:70-88 | every reported change has an action (the `assertChanges` check passes). Each present side is a leaf whose path ends in its own name. A Modify's two sides share one path, so its name does not depend on the side read |
| DiffTreeLaws.DiffSeqOneApart | plumbing/object/difftree_test.go:241-248 | sibling lists equal but for one same-named pair report exactly that pair's changes; unchanged siblings add nothing |
| DiffTreeLaws.DiffOneLeafModified | plumbing/object/difftree_test.go:309-316 | two trees that differ only in one leaf's noder hash (at any depth) diff to exactly one Modify. It is named by that leaf's `/`-joined path and has the old leaf as `from` and the new one as `to` |
| DiffTreeLaws.DiffModeAliasOnly | plumbing/object/difftree_test.go:354-365 | when the only difference between two trees is one leaf, at any depth, changing between the regular and deprecated modes with its content unchanged, the diff is empty. This holds even when the directories above it carry different hashes, so the walk descends to it. `DiffTreeAlias.DiffAliasUnreported` covers the same leaf beside any other changes |
| DiffTreeOrder.DiffDistinct | plumbing/object/difftree_test.go:90-107 | on well-formed trees no two reported changes share a path or a name |
| DiffTreeOrder.DiffPresentationOrder | plumbing/object/difftree_test.go:95-104 | sorting the diff of well-formed trees yields a permutation in strictly ascending name order, so the order `equalChanges` compares against is unique |
| DiffTreeOrder.DiffOrderFree | plumbing/object/difftree_test.go:90-107 | for well-formed trees, `equalChanges` accepts an expected list for the diff exactly when it accepts it for any reordering of the diff |
| DiffTreeProvenance.DiffProvenance | plumbing/object/difftree_test.go:222-316 | every reported `from` side is a leaf of the first tree and every `to` side a leaf of the second. Each is reached in its tree by the change's own path |
| DiffTreeProvenance.DiffLeafModified | plumbing/object/difftree_test.go:230-308 | on well-formed trees, take a leaf reached by the same path in both trees, whose noder hash differs at every step of that path. It is reported as a Modify at that path, with the old leaf as `from` and the new one as `to`. No other change carries that name, whatever else changed beside it |
| DiffTreeAlias.DiffModifyApart | plumbing/object/difftree_test.go:354-365 | every Modify the diff reports joins two leaves whose noder hashes differ, for any two trees. So a pair of leaves with the same content, each regular or deprecated, is never reported as a Modify, whatever else changed |
| DiffTreeAlias.DiffOneSidedGone | plumbing/object/difftree_test.go:230-308 | on well-formed trees, a reported Delete's path reaches no leaf of the second tree, and a reported Insert's path reaches no leaf of the first. A leaf present at one path in both trees is never reported as removed or added |
| DiffTreeAlias.DiffAliasUnreported | plumbing/object/difftree_test.go:354-365 | on well-formed trees, take a leaf reached by the same path in both trees that only changes between the regular and deprecated modes, with its content unchanged. No reported change carries that path on either side, whatever else changed in the trees |
| DiffTreeScenarios.GemEvalModified | plumbing/object/difftree_test.go:222-229 | a tree with one changed file beside two unchanged ones diffs to `[Modify "gem_eval.rb"]` under `equalChanges` |
| DiffTreeScenarios.RemoveAndAdd | plumbing/object/difftree_test.go:90-107 | with one file unchanged, one removed and one added, `equalChanges` accepts `[Delete "b", Insert "c"]` |
| DiffTreeScenarios.NestedInsert | plumbing/object/difftree_test.go:192-203 | the ts3 layout inserted from nothing gives the table's five Inserts, including `examples/bot.go` and `examples/raw_shell.go`, in name order |

## Left out

- The digest computation behind a constructor (`sha1cd.New`, `crypto.SHA256.New`, the `hash.Hash` streaming interface) is a foreign library. Constructors are opaque tokens and a hasher is identified by the constructor that made it.
- Error text built with `fmt.Errorf` is not modelled; errors are enum values.
- Concurrent access to the global `algos` map is not modelled, since registration happens at configuration time.
- HashRegistry.New: the panic on an unregistered id is a precondition, not a modelled crash.
- Object ids are byte sequences of any length. The 20-byte (SHA-1) and 32-byte (SHA-256) widths are not enforced because no property here depends on them.
- The formats of the object-format enum come from `plumbing/format/config`, which is not part of this model. Any format other than SHA1 and SHA256 is one `FormatOther` case.
- Fixture loading, packfile decoding into storage, commit lookup and object storers (difftree_test.go:27-59, 318-335) are storage collaborators. Trees are in-memory values here, so a read failure during the walk cannot happen and is not modelled.
- `internal/transport/test/common.go` prepares filesystem fixtures and allocates TCP ports. It is test I/O plumbing.
- Rename detection and context cancellation around the diff are not modelled.
- Tree entry names are modelled as strings of code points. A name that is not valid UTF-8 has no counterpart in the model. The name order is therefore proved only for valid UTF-8 names, where code-point order and Go's byte order agree.
- DiffTreeLaws.DiffMirror: states the mirror law as equality of multisets, not of sequences, because a directory/leaf replacement is reported deletes-first in both directions.
