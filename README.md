# NJreestimate, modelled in Dafny

NJreestimate re-estimates branch lengths of a reference phylogeny for a set of
sequences that contains exact duplicates. Two driver scripts do this.
`run_NJreestimate.py` is the current one and `main.py` the older one. Each script
works in four steps:

1. It groups the reference sequences by identical content (`seqdict`). It aborts
   unless there are more than three distinct sequences.
2. It picks one representative name per group:
   - `run_NJreestimate.py` climbs the reference tree from every member while all
     leaves under the ancestor belong to the group. The representative is the one
     whose clade is largest, ties going to the larger name.
   - `main.py` takes the first name of each group.
3. It lets FastTree infer a tree over the representatives. This step is not modelled.
4. It puts every collapsed group back into the inferred tree. The representative's
   leaf is detached from its parent. A `nodecopy` of a clade of the reference tree is
   attached to the same parent, carrying the detached leaf's branch length.
   - `run_NJreestimate.py` grafts the clade found by the climb.
   - `main.py` grafts the group's most recent common ancestor (MRCA), and only when
     that clade has exactly as many leaves as the group has names.

The Dafny model, module by module:

- `Wrappers`, `Dicts` (`wrappers.dfy`): `Option`, `Result`, the errors that end a
  run, and Python's insertion-ordered `dict`.
- `Trees` (`trees.dfy`): the reference tree as a value. It has labelled nodes and
  branch lengths as `real`s. Nodes are named by paths of child indices, and the
  ancestors of a node are the prefixes of its path. This module also holds
  `get_labels`, the leaf dictionary, `nodecopy` and the common ancestor of a set of
  leaves.
- `Grouping` (`grouping.dfy`): building `seqdict`, the abort on too few sequences,
  `alltags` and (for `main.py`) the first names.
- `Selection` (`selection.dfy`): the ancestor climb and the choice of representatives
  in `run_NJreestimate.py`. It is imperative: loops over `visited` and
  `all_choices`, proved against predicates on the tree.
- `Arena` (`arena.dfy`): the inferred tree, which the scripts change in place.
  - It is a class `NJTree` whose nodes are numbers. The fields hold each node's
    label, branch length, children and parent.
  - Its methods are proved against pure functions on a snapshot `Store`:
    `Build` for creating a copy node by node, and `Grafted` for one replacement.
- `Reinflation` (`reinflate.dfy`): the graft loop shared by both scripts, as a
  sequence of turns (`Plan`s) folded over the store.
  - It stops at the first failure, as the scripts do when an exception escapes.
  - It proves when such a run gets through, what it changed and what it left alone,
    and why it stops when it fails.
- `GraftLoops` (`loops.dfy`): the turns of `run_NJreestimate.py`, what its loop
  achieves, and the loop itself as a method on `NJTree`.
- `MrcaGrafts` (`mrca.dfy`): the same for `main.py`, together with `mrca` and the
  leaf-count test.

The model follows the code in these details:

- Ties between clades of equal size go to the larger name, because `max` compares
  the key `(count, name)` and returns the greatest.
- The climb tests whether each leaf belongs to the group (a key of `visited`), not
  whether it is still unvisited.
- The key recorded for a climb is the loop variable `i` as the inner marking loop
  leaves it. That is the last leaf of the final clade in postorder, not the seed.
- `nodecopy` sets `edge_length = 0` on every node it creates, leaves included.
- The climb runs over the whole reference tree. No smaller region of it is
  computed first.
- The graft turns run in order, and a later turn sees the tree as the earlier ones
  left it. A replacement is never undone by a later turn, because the leaves replaced
  are distinct (`Reinflation.GraftedLeafKept`).

## Model

| member | source | states |
|---|---|---|
| Dicts.Dict.Put | run_NJreestimate.py:100 | `d[k] = v` maps `k` to `v`. An existing key keeps its place, a new key goes last, and the keys stay distinct. |
| Trees.NodeCopy | run_NJreestimate.py:10-19 | The copy has the same shape as the original and the same leaf labels in the same order. Every branch length is 0 and no internal node is labelled. |
| Trees.NodeCopyIdempotent | main.py:10-19 | Copying a copy gives the copy back. |
| Trees.NodeCopyUnique | run_NJreestimate.py:10-19 | Any tree with the original's shape and leaf labels in order, all branch lengths 0 and no labelled internal node is the copy: these four facts determine `nodecopy`'s result. |
| Trees.LeafPathsLabels | run_NJreestimate.py:24-25 | Entry j of `get_labels` is the label of the j-th leaf in postorder, and that node is a leaf of the tree. The list is as long as the leaf count. |
| Trees.LeafPathsComplete | run_NJreestimate.py:24-25 | Every leaf under the node appears in the postorder leaf list. |
| Trees.AncestorLabels | run_NJreestimate.py:89-90 | The leaf labels under a node are among the leaf labels under each of its ancestors. |
| Trees.IndexLeaves | run_NJreestimate.py:63-65 | `leafs_with_dups_map` has a key for exactly the labels found on leaves. Each maps to a leaf bearing it: the last such leaf in postorder. |
| Trees.Mrca | main.py:97 | The common ancestor of a set of nodes lies above each of them. |
| Trees.MrcaDeepest | main.py:97 | Every node above all of them lies above their common ancestor. |
| Grouping.GroupBySequence | run_NJreestimate.py:43-49 | `seqdict` has one key per distinct sequence, in first-seen order. Each key maps to the names carrying that sequence, in input order. |
| Grouping.GroupRecords | run_NJreestimate.py:43-50 | The run gets past line 50 exactly when there are more than three distinct sequences, and then `seqdict` is the grouping above. Otherwise it fails with the number of distinct sequences. `main.py:39-46` is the same code. |
| Grouping.GroupingCount | run_NJreestimate.py:50 | `len(seqdict)` is the number of distinct sequences in the input. |
| Grouping.NameInOwnGroup | run_NJreestimate.py:46-49 | Every input name is in the group of its own sequence. |
| Grouping.GroupsPartitionNames | run_NJreestimate.py:43-49 | The groups, taken in key order, hold every input name exactly as often as it occurs. |
| Grouping.GroupingWellFormed | main.py:39-45 | No group is empty, so `v[0]` always exists. |
| Grouping.AllTags | run_NJreestimate.py:52-54 | `alltags` lists the groups one after another, in key order. |
| Grouping.AllTagsPermutation | run_NJreestimate.py:52-54 | `alltags` is a permutation of the input names. |
| Grouping.FirstTags | main.py:50-54 | `uniqtags` has one entry per group, in key order: the group's first name. `alltags` lists the groups one after another. |
| Grouping.FirstTagsFirstNames | main.py:50-53 | The i-th entry of `uniqtags` is the name of the first input record carrying the i-th sequence. |
| Selection.StrLessIrreflexive | run_NJreestimate.py:99 | No string is less than itself under Python's string order. |
| Selection.StrLessTransitive | run_NJreestimate.py:99 | Python's string order is transitive. |
| Selection.StrLessTotal | run_NJreestimate.py:99 | Any two distinct strings are ordered, so `max` over names has a single answer. |
| Selection.MarkLabels | run_NJreestimate.py:94-95 | `visited` keeps its keys. A key is set afterwards exactly when it was set before or labels a leaf in the list. The rebound `i` is the list's last label. |
| Selection.ClimbStep | run_NJreestimate.py:89-90 | The next ancestor on the climb is the parent, and it holds every leaf of the child. |
| Selection.Climb | run_NJreestimate.py:85-97 | The clade reached contains the seed leaf. Every leaf under it is a group member, and the count is its number of leaves. The key labels its last leaf in postorder. The climb stopped at the root or below a parent with a leaf outside the group. Exactly the clade's leaves are newly marked. |
| Selection.MaxChoice | run_NJreestimate.py:99 | The key returned is recorded, and every other recorded key ranks strictly lower by (count, name): fewer leaves, or as many and a smaller name. |
| Selection.Visit | run_NJreestimate.py:74-98 | A visited member changes nothing. Otherwise the member becomes visited, and the lookup fails exactly when its name is not a leaf. After a successful lookup, a clade the climb may stop at and lying above the member's leaf is recorded under its key (`Records`). Exactly that clade's leaves become marked besides the member, and `visited` keeps its keys. |
| Selection.VisitAll | run_NJreestimate.py:72-98 | The keys of `visited` are the group. The loop fails exactly when some member is not a leaf of the tree, naming such a member. Otherwise every member ends up visited and every recorded clade is one the climb may stop at. With unique leaf labels, every member lies in some recorded clade. |
| Selection.StoppedUnique | run_NJreestimate.py:85-97 | Above any node there is at most one clade the climb may stop at: two such clades above the same node are equal and carry the same key. |
| Selection.BestOfCovering | run_NJreestimate.py:99-100 | With unique leaf labels, when the recorded clades cover the group, the top-ranked recorded clade is the group's best clade. |
| Selection.SelectRepresentative | run_NJreestimate.py:72-100 | The representative's clade is recorded and every other recorded clade ranks strictly below it. With unique leaf labels it is the group's best clade (`BestClade`): every clade the climb may stop at, recorded or not, is that clade or ranks strictly below it by (count, name). A missing member makes the selection fail. |
| Selection.GroupRepresentative | run_NJreestimate.py:69-100 | A singleton maps its only name to `(seq, None)`. For a larger group, the key labels the last leaf of a clade the climb may stop at, and with unique leaf labels that clade is the group's best. It fails exactly when a member of a larger group is not a leaf. |
| Selection.ChooseRepresentatives | run_NJreestimate.py:63-100 | Every entry of `uniqtags` is as the selection describes, the group's best clade included. The run fails only on a member of a larger group that labels no leaf, and success means every such member labels one. |
| Arena.RemoveFirst | run_NJreestimate.py:151 | `remove_child` on the children list drops one occurrence of the child and keeps the rest. |
| Arena.RemoveDistinct | run_NJreestimate.py:151 | In a list without repetitions, removing a child keeps every other child once, in order. |
| Arena.AttachLinked | run_NJreestimate.py:154 | `add_child` of a node without a parent keeps children lists and parent links in agreement. |
| Arena.DetachLinked | run_NJreestimate.py:151 | `remove_child` of a child from its parent keeps children lists and parent links in agreement. |
| Arena.BuildSpec | run_NJreestimate.py:18-20 | Building a copy node by node leaves every existing node as it was. The new root has no parent, and the new nodes spell out the tree. |
| Arena.GraftSpec | run_NJreestimate.py:149-154 | One graft: the parent loses the leaf and gains, as its last child, a new node spelling out the clade. The leaf has no parent any more, and no other existing node changes. |
| Arena.NJTree.FromTree | run_NJreestimate.py:139 | The parsed inferred tree as linked nodes: the root is node 0 and spells out the tree. |
| Arena.NJTree.AddSubtree | run_NJreestimate.py:18-20 | Creates the nodes of a tree after the existing ones, as `Build` describes, keeping the root. |
| Arena.NJTree.LeafMap | run_NJreestimate.py:140-142 | Every entry of `leaf_map` names a leaf bearing its key, and every labelled leaf's label is a key. |
| Arena.NJTree.Graft | run_NJreestimate.py:149-154 | Detaches the leaf and attaches `nodecopy(clade)` with the leaf's branch length, as `Grafted` describes. A leaf without a parent changes nothing and reports failure. |
| Reinflation.ReplaceLeaf | run_NJreestimate.py:149-154 | One turn on the tree object does what `Apply` says. A missing key fails with `MissingRepresentative`, a leaf without a parent fails with `NoParent`, and otherwise the leaf is grafted. |
| Reinflation.FailureSticks | run_NJreestimate.py:144-154 | Once an exception has escaped, later turns change nothing. |
| Reinflation.GraftedLeafKept | run_NJreestimate.py:144-154 | Grafting another leaf leaves an earlier replacement in place. |
| Reinflation.ReinflatedProgress | run_NJreestimate.py:144-154 | A run gets through exactly when no turn aborts, every leaf to replace is in `leaf_map` with a parent, and no name is replaced twice. Then labels and branch lengths are untouched, only replaced leaves lost their parent, only their parents changed children, and each replaced leaf's parent holds a copy of its clade. |
| Reinflation.FailureCause | run_NJreestimate.py:144-154 | A failed run stopped at a definite turn, for a reason given by that turn: an abort, a missing key, or a leaf without a parent (from the start, or replaced by an earlier turn). |
| GraftLoops.TipReinflationPasses | run_NJreestimate.py:144-154 | The loop gets through exactly when every key of a group with several names is in `leaf_map` and its leaf has a parent. |
| GraftLoops.TipReinflationGrafts | run_NJreestimate.py:144-154 | After a run that gets through, the leaf of every such key hangs from nothing. A new node under its former parent spells out `nodecopy` of the recorded clade with the leaf's branch length. |
| GraftLoops.TipReinflationFrame | run_NJreestimate.py:144-154 | Such a run changes no existing label or branch length. Only replaced leaves lose their parent, and only their former parents change children. Singleton groups cause no change. |
| GraftLoops.TipReinflationFails | run_NJreestimate.py:144-154 | A failed run names a key of a group with several names. That key is either missing from `leaf_map` (exactly the `MissingRepresentative` case) or its leaf had no parent to begin with. |
| GraftLoops.Reinflate | run_NJreestimate.py:144-154 | The loop over `uniqtags` leaves the tree object and outcome that the fold of its turns describes, so the four lemmas above hold of it. |
| MrcaGrafts.LeafDict | main.py:97 | The label dictionary `mrca` consults maps every leaf label to a leaf bearing it. |
| MrcaGrafts.MrcaOf | main.py:97 | `mrca(v)` raises exactly when no name of the group labels a leaf. Otherwise it is a node of the tree lying above the leaf of every name that labels one. |
| MrcaGrafts.MrcaCovers | main.py:97-98 | Every name of the group found in the tree is among `mrca_labels`. |
| MrcaGrafts.MrcaOfDeepest | main.py:97 | No node strictly below `mrca(v)` lies above all the group's leaves. |
| MrcaGrafts.MrcaCladeExact | main.py:98-99 | For distinct names all present: the clade has at least as many leaves as the group has names. Exactly as many means its leaves bear exactly the group's names. |
| MrcaGrafts.MrcaTurnStep | main.py:94-105 | One turn for a group does what its plan says: skip a singleton, abort when `mrca` raises, graft `v[0]` when the leaf count matches, skip otherwise. |
| MrcaGrafts.MrcaReinflationPasses | main.py:94-105 | The loop gets through exactly under three conditions: `mrca` places every group of several names; the first name of every grafting group has a leaf with a parent; and no two grafting groups share their first name. |
| MrcaGrafts.MrcaReinflationGrafts | main.py:94-105 | After a run that gets through, the leaf of `v[0]` of every grafting group is replaced by a copy of the MRCA clade carrying its branch length. |
| MrcaGrafts.MrcaReinflationFrame | main.py:94-105 | Such a run changes no existing label or branch length. Only replaced leaves lose their parent, and only their former parents change children. |
| MrcaGrafts.MrcaReinflationFails | main.py:94-105 | A failed run names one of three causes: a group `mrca` could not place; a grafting group's first name missing from `leaf_map`; or such a name whose leaf has no parent (the root, or already replaced for an earlier group). |
| MrcaGrafts.ReinflateByMrca | main.py:94-105 | The loop over `seqdict` leaves the tree object and outcome that the fold of its turns describes. |

## Left out

- Option parsing, reading FASTA with `readfq`, temporary files and printing are I/O.
  The records arrive as a sequence of `(name, sequence)` pairs, and the quality
  string is dropped.
- The platform dispatch and the FastTree subprocess are an external program. The
  inferred tree enters as a parsed `Tree`, through `NJTree.FromTree`.
- `read_tree_newick`, `read_tree`, `extract_tree`, `resolve_polytomies`, `is_rooted`
  and `write_tree_newick` are library calls. The reference tree enters already
  extracted and resolved, and the output is not serialised.
- `mrca` is the library's. It is modelled as the deepest common ancestor of the leaves
  named in the group. Names found on no leaf are passed over, and it raises only when
  no name is found. Labels on internal nodes are not consulted.
- Edge lengths are `real` values that are only copied or set to 0. Floating point is
  not modelled.
- Python object identity is modelled by node numbers. Two grafts never share a copied
  node because each copy is built from fresh numbers.
- Arena.NJTree.LeafMap: when a label appears on several leaves, does not say which leaf
  `leaf_map` keeps, because nodes are scanned in number order rather than postorder.
- Selection.VisitAll: states that the recorded clades cover the group only when no
  label is on two leaves. With a repeated label, `leafs_with_dups_map` keeps one of its
  leaves, and clades around the other one are never climbed.
- Selection.SelectRepresentative: states that the representative's clade is the best
  of its group only when leaf labels are unique, for the same reason.
- Selection.GroupRepresentative: carries that best-clade statement under the same
  condition.
- MrcaGrafts.LeafDict: for a label on several leaves, keeps the last leaf in
  postorder. Which leaf the library's own label dictionary keeps is not modelled.
- Selection.ChooseRepresentatives: does not state that every group keeps an entry in
  `uniqtags`, because a name shared by two groups is overwritten by the later group.
- The fatal `assert`, a `KeyError` and an `AttributeError` on a missing parent are
  modelled as `Failure`/`Fail` values that end the run. They are not exceptions.
