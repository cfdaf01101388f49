/**
 * The graft loop of main.py (lines 94-105): every group of several names whose most recent
 * common ancestor in the reference tree spans exactly as many leaves as the group has
 * names is put back under the leaf of its first name.
 */
module MrcaGrafts {
  import opened Wrappers
  import opened Dicts
  import opened Trees
  import opened Grouping
  import opened Selection
  import opened Arena
  import opened Reinflation

  // ---------------------------------------------------------------------------
  // Counting distinct values

  lemma {:induction false} SetOfSeqSize<T>(a: seq<T>)
    ensures |set z | z in a| <= |a|
  {
    if a != [] {
      var a' := a[..|a| - 1];
      SetOfSeqSize(a');
      assert (set z | z in a) == (set z | z in a') + {a[|a| - 1]};
    }
  }

  lemma SubsetSize<T>(x: set<T>, y: set<T>)
    requires x <= y
    ensures |x| <= |y|
  {
    assert y == x + (y - x);
  }

  /**
   * When `b` lists as many distinct values as `a` has entries and `a` holds all of them,
   * `a` holds nothing else.
   */
  lemma Pigeonhole<T>(a: seq<T>, b: seq<T>)
    requires |a| <= |b| && forall i, j :: 0 <= i < j < |b| ==> b[i] != b[j]
    requires forall y :: y in b ==> y in a
    ensures forall z :: z in a ==> z in b
  {
    var sa, sb := set z | z in a, set y | y in b;
    SetOfSeqSize(a);
    DistinctCount(b);
    SubsetSize(sb, sa);
    forall z | z in a ensures z in b {
      if z !in b {
        SubsetSize(sb + {z}, sa);
      }
    }
  }

  // ---------------------------------------------------------------------------
  // `mrca` on the reference tree

  /**
   * The dictionary from label to node that `mrca` consults: every leaf label, mapped to
   * a leaf bearing it. For a label on several leaves this model keeps the last in
   * postorder; the library's own choice is not modelled.
   */
  function LeafDict(t: Tree): (r: map<string, Path>)
    ensures LeafIndex(t, r)
  {
    LeafPathsLabels(t);
    map y | y in Labels(t) && y.Some? :: y.value := LeafPaths(t)[LastIndex(Labels(t), y)]
  }

  /** The names of `v` that label a leaf, in order. */
  function Present(leaves: map<string, Path>, v: seq<string>): (r: seq<string>)
    ensures forall x :: x in r <==> x in v && x in leaves
  {
    if v == [] then [] else (if v[0] in leaves then [v[0]] else []) + Present(leaves, v[1..])
  }

  function PathsOf(leaves: map<string, Path>, u: seq<string>): (ps: seq<Path>)
    requires forall x :: x in u ==> x in leaves
  {
    seq(|u|, i requires 0 <= i < |u| => leaves[u[i]])
  }

  /**
   * `tree.mrca(v)`: the deepest node above the leaves named in `v`. Names that label no
   * leaf are passed over; when none does, `mrca` raises.
   */
  function MrcaOf(t: Tree, leaves: map<string, Path>, v: seq<string>): (r: Result<Path>)
    requires LeafIndex(t, leaves)
    ensures r.Failure? <==> forall x :: x in v ==> Some(x) !in Labels(t)
    ensures r.Failure? ==> r.error == NoMrca(v)
    ensures r.Success? ==> ValidPath(t, r.value)
    ensures r.Success? ==> forall x :: x in v && x in leaves ==> r.value <= leaves[x]
  {
    var u := Present(leaves, v);
    if u == [] then Failure(NoMrca(v))
    else
      var ps := PathsOf(leaves, u);
      var m := Mrca(ps);
      assert ps[0][..|m|] == m;
      PrefixValid(t, ps[0], |m|);
      MrcaAbove(leaves, u, v);
      Success(m)
  }

  lemma MrcaAbove(leaves: map<string, Path>, u: seq<string>, v: seq<string>)
    requires u == Present(leaves, v) && u != []
    ensures forall x :: x in v && x in leaves ==> Mrca(PathsOf(leaves, u)) <= leaves[x]
  {
    var ps := PathsOf(leaves, u);
    forall x | x in v && x in leaves ensures Mrca(ps) <= leaves[x] {
      var i :| 0 <= i < |u| && u[i] == x;
      assert ps[i] == leaves[x];
    }
  }

  /** Every name of the group that labels a leaf lies under the common ancestor. */
  lemma MrcaCovers(t: Tree, leaves: map<string, Path>, v: seq<string>)
    requires LeafIndex(t, leaves) && MrcaOf(t, leaves, v).Success?
    ensures forall x :: x in v && x in leaves ==> Some(x) in Labels(Subtree(t, MrcaOf(t, leaves, v).value))
  {
    var m := MrcaOf(t, leaves, v).value;
    forall x | x in v && x in leaves ensures Some(x) in Labels(Subtree(t, m)) {
      assert Labels(Subtree(t, leaves[x])) == [Some(x)];
      AncestorLabels(t, m, leaves[x], Some(x));
    }
  }

  /** No node strictly below the common ancestor lies above all the leaves of the group. */
  lemma MrcaOfDeepest(t: Tree, leaves: map<string, Path>, v: seq<string>, q: Path)
    requires LeafIndex(t, leaves) && MrcaOf(t, leaves, v).Success?
    requires forall x :: x in v && x in leaves ==> q <= leaves[x]
    ensures q <= MrcaOf(t, leaves, v).value
  {
    var u := Present(leaves, v);
    var ps := PathsOf(leaves, u);
    forall i | 0 <= i < |ps| ensures q <= ps[i] {
      assert u[i] in v;
    }
    MrcaDeepest(ps, q);
  }

  /**
   * The size test of line 98: when the group's names are distinct and all label leaves,
   * the common ancestor spans at least as many leaves as the group has names, and exactly
   * as many only when every leaf under it bears a name of the group.
   */
  lemma {:induction false} MrcaCladeExact(t: Tree, leaves: map<string, Path>, v: seq<string>)
    requires LeafIndex(t, leaves) && MrcaOf(t, leaves, v).Success?
    requires forall i, j :: 0 <= i < j < |v| ==> v[i] != v[j]
    requires forall x :: x in v ==> x in leaves
    ensures |Labels(Subtree(t, MrcaOf(t, leaves, v).value))| >= |v|
    ensures |Labels(Subtree(t, MrcaOf(t, leaves, v).value))| == |v| ==>
      forall y :: y in Labels(Subtree(t, MrcaOf(t, leaves, v).value)) <==> y.Some? && y.value in v
  {
    var c := Labels(Subtree(t, MrcaOf(t, leaves, v).value));
    var b := Named(v);
    MrcaCovers(t, leaves, v);
    assert forall y :: y in b ==> y in c;
    CountAtLeast(c, b);
    if |c| == |v| {
      Pigeonhole(c, b);
    }
  }

  /** The labels `Some(x)` for the names `x` of `v`. */
  function Named(v: seq<string>): (b: seq<Option<string>>)
    ensures |b| == |v| && forall y :: y in b <==> y.Some? && y.value in v
    ensures (forall i, j :: 0 <= i < j < |v| ==> v[i] != v[j]) ==> forall i, j :: 0 <= i < j < |b| ==> b[i] != b[j]
  {
    var b := seq(|v|, i requires 0 <= i < |v| => Some(v[i]));
    assert forall y: Option<string> :: y.Some? && y.value in v ==> y in b by {
      forall y: Option<string> | y.Some? && y.value in v ensures y in b {
        var i :| 0 <= i < |v| && v[i] == y.value;
        assert b[i] == y;
      }
    }
    b
  }

  /** A sequence holding all of `|b|` distinct values has at least `|b|` entries. */
  lemma CountAtLeast<T>(a: seq<T>, b: seq<T>)
    requires forall i, j :: 0 <= i < j < |b| ==> b[i] != b[j]
    requires forall y :: y in b ==> y in a
    ensures |a| >= |b|
  {
    DistinctCount(b);
    SetOfSeqSize(a);
    SubsetSize(set y | y in b, set z | z in a);
  }

  // ---------------------------------------------------------------------------
  // main.py, lines 94-105: one turn per group of `seqdict`

  /**
   * A singleton group is skipped; a group whose `mrca` raises aborts the run; otherwise the
   * leaf of the first name is to be replaced by the common ancestor's clade when that
   * clade has exactly as many leaves as the group has names.
   */
  function MrcaPlan(t: Tree, leaves: map<string, Path>, v: seq<string>): Plan
    requires LeafIndex(t, leaves) && |v| > 0
  {
    if |v| == 1 then Skip
    else match MrcaOf(t, leaves, v)
      case Failure(err) => Abort(err)
      case Success(m) => if |Labels(Subtree(t, m))| == |v| then Replace(v[0], Subtree(t, m)) else Skip
  }

  function MrcaPlans(t: Tree, leaves: map<string, Path>, d: SeqDict, ks: seq<string>): (r: seq<Plan>)
    requires LeafIndex(t, leaves) && WellFormedGroups(d) && forall s :: s in ks ==> s in d.values
    ensures |r| == |ks| && forall j :: 0 <= j < |ks| ==> r[j] == MrcaPlan(t, leaves, d.values[ks[j]])
    decreases |ks|
  {
    if ks == [] then []
    else MrcaPlans(t, leaves, d, ks[..|ks| - 1]) + [MrcaPlan(t, leaves, d.values[ks[|ks| - 1]])]
  }

  /** A group of several names none of which labels a leaf of the reference tree: `mrca` raises. */
  ghost predicate Unplaced(t: Tree, leaves: map<string, Path>, d: SeqDict, s: string)
    requires LeafIndex(t, leaves)
  {
    s in d.values && |d.values[s]| > 1 && MrcaOf(t, leaves, d.values[s]).Failure?
  }

  /** A group of several names whose common ancestor spans as many leaves as it has names. */
  ghost predicate Grafting(t: Tree, leaves: map<string, Path>, d: SeqDict, s: string)
    requires LeafIndex(t, leaves)
  {
    && s in d.values && |d.values[s]| > 1 && MrcaOf(t, leaves, d.values[s]).Success?
    && |Labels(Subtree(t, MrcaOf(t, leaves, d.values[s]).value))| == |d.values[s]|
  }

  /** The clade a grafting group puts back. */
  function Clade(t: Tree, leaves: map<string, Path>, d: SeqDict, s: string): Tree
    requires LeafIndex(t, leaves) && Grafting(t, leaves, d, s)
  {
    Subtree(t, MrcaOf(t, leaves, d.values[s]).value)
  }

  /** Two grafting groups, the `i`-th and a later one, both have `x` as their first name. */
  ghost predicate SharedFirst(t: Tree, leaves: map<string, Path>, d: SeqDict, x: string)
    requires LeafIndex(t, leaves)
  {
    exists i, j :: 0 <= i < j < |d.keys| && Grafting(t, leaves, d, d.keys[i]) && Grafting(t, leaves, d, d.keys[j])
      && d.values[d.keys[i]][0] == x && d.values[d.keys[j]][0] == x
  }

  ghost predicate MrcaTurn(t: Tree, leaves: map<string, Path>, d: SeqDict, s: string, p: Plan)
    requires LeafIndex(t, leaves)
  {
    && s in d.values
    && (p.Abort? <==> Unplaced(t, leaves, d, s))
    && (p.Abort? ==> p.error == NoMrca(d.values[s]))
    && (p.Replace? <==> Grafting(t, leaves, d, s))
    && (p.Replace? ==> p.name == d.values[s][0] && p.clade == Clade(t, leaves, d, s))
  }

  ghost predicate MrcaTurns(t: Tree, leaves: map<string, Path>, d: SeqDict, ps: seq<Plan>)
    requires LeafIndex(t, leaves)
  {
    d.Valid() && |ps| == |d.keys| && forall j :: 0 <= j < |ps| ==> MrcaTurn(t, leaves, d, d.keys[j], ps[j])
  }

  lemma MrcaPlanTurn(t: Tree, leaves: map<string, Path>, d: SeqDict, s: string)
    requires LeafIndex(t, leaves) && WellFormedGroups(d) && s in d.values
    ensures MrcaTurn(t, leaves, d, s, MrcaPlan(t, leaves, d.values[s]))
  {
  }

  lemma MrcaPlansTurns(t: Tree, leaves: map<string, Path>, d: SeqDict)
    requires LeafIndex(t, leaves) && WellFormedGroups(d)
    ensures MrcaTurns(t, leaves, d, MrcaPlans(t, leaves, d, d.keys))
  {
    var ps := MrcaPlans(t, leaves, d, d.keys);
    forall j | 0 <= j < |ps| ensures MrcaTurn(t, leaves, d, d.keys[j], ps[j]) {
      MrcaPlanTurn(t, leaves, d, d.keys[j]);
    }
  }

  /** What lines 94-105 need of the data to get through every turn. */
  ghost predicate MrcaReady(s0: Store, t: Tree, leaves: map<string, Path>, d: SeqDict, leafMap: map<string, nat>)
    requires LeafIndex(t, leaves) && LeafEntries(s0, leafMap) && |s0.parent| == |s0.names|
  {
    && (forall s :: !Unplaced(t, leaves, d, s))
    && (forall s :: Grafting(t, leaves, d, s) ==> d.values[s][0] in leafMap && s0.parent[leafMap[d.values[s][0]]].Some?)
    && (forall x :: !SharedFirst(t, leaves, d, x))
  }

  lemma ReadyClean(s0: Store, t: Tree, leaves: map<string, Path>, d: SeqDict, leafMap: map<string, nat>, ps: seq<Plan>)
    requires LeafIndex(t, leaves) && LeafEntries(s0, leafMap) && |s0.parent| == |s0.names|
    requires MrcaTurns(t, leaves, d, ps) && MrcaReady(s0, t, leaves, d, leafMap)
    ensures Clean(s0, leafMap, ps)
  {
    forall j | 0 <= j < |ps| ensures !ps[j].Abort? {
      assert MrcaTurn(t, leaves, d, d.keys[j], ps[j]);
    }
    forall j | 0 <= j < |ps| && ps[j].Replace?
      ensures ps[j].name in leafMap && leafMap[ps[j].name] < |s0.parent| && s0.parent[leafMap[ps[j].name]].Some?
    {
      assert MrcaTurn(t, leaves, d, d.keys[j], ps[j]);
    }
    forall i, j | 0 <= i < j < |ps| && ps[i].Replace? && ps[j].Replace? ensures ps[i].name != ps[j].name {
      assert MrcaTurn(t, leaves, d, d.keys[i], ps[i]) && MrcaTurn(t, leaves, d, d.keys[j], ps[j]);
      assert !SharedFirst(t, leaves, d, ps[i].name);
    }
  }

  lemma CleanReady(s0: Store, t: Tree, leaves: map<string, Path>, d: SeqDict, leafMap: map<string, nat>, ps: seq<Plan>)
    requires LeafIndex(t, leaves) && LeafEntries(s0, leafMap) && |s0.parent| == |s0.names|
    requires MrcaTurns(t, leaves, d, ps) && Clean(s0, leafMap, ps)
    ensures MrcaReady(s0, t, leaves, d, leafMap)
  {
    forall j | 0 <= j < |d.keys| ensures !Unplaced(t, leaves, d, d.keys[j]) {
      assert MrcaTurn(t, leaves, d, d.keys[j], ps[j]);
    }
    forall s | Grafting(t, leaves, d, s)
      ensures d.values[s][0] in leafMap && s0.parent[leafMap[d.values[s][0]]].Some?
    {
      var j :| 0 <= j < |d.keys| && d.keys[j] == s;
      assert MrcaTurn(t, leaves, d, s, ps[j]);
    }
    forall i, j | 0 <= i < j < |d.keys| && Grafting(t, leaves, d, d.keys[i]) && Grafting(t, leaves, d, d.keys[j])
      ensures d.values[d.keys[i]][0] != d.values[d.keys[j]][0]
    {
      assert MrcaTurn(t, leaves, d, d.keys[i], ps[i]) && MrcaTurn(t, leaves, d, d.keys[j], ps[j]);
    }
  }

  /**
   * Lines 94-105 of main.py get through exactly when `mrca` finds every group of several
   * names, the first name of every grafting group has a leaf with a parent in the tree
   * FastTree returned, and no two grafting groups share their first name.
   */
  lemma MrcaReinflationPasses(s0: Store, t: Tree, leaves: map<string, Path>, d: SeqDict, leafMap: map<string, nat>)
    requires Linked(s0) && LeafEntries(s0, leafMap) && LeafIndex(t, leaves) && WellFormedGroups(d)
    ensures Reinflated(s0, leafMap, MrcaPlans(t, leaves, d, d.keys)).out.Pass? <==> MrcaReady(s0, t, leaves, d, leafMap)
  {
    var ps := MrcaPlans(t, leaves, d, d.keys);
    ReinflatedProgress(s0, leafMap, ps);
    MrcaPlansTurns(t, leaves, d);
    if MrcaReady(s0, t, leaves, d, leafMap) {
      ReadyClean(s0, t, leaves, d, leafMap, ps);
    }
    if Clean(s0, leafMap, ps) {
      CleanReady(s0, t, leaves, d, leafMap, ps);
    }
  }

  lemma MrcaTurnsGrafts(s0: Store, s: Store, t: Tree, leaves: map<string, Path>, d: SeqDict, leafMap: map<string, nat>, ps: seq<Plan>)
    requires LeafIndex(t, leaves) && MrcaTurns(t, leaves, d, ps)
    requires Progress(s0, s, leafMap, ps) && Clean(s0, leafMap, ps)
    ensures forall g :: Grafting(t, leaves, d, g) ==>
      d.values[g][0] in leafMap && GraftedLeaf(s0, s, leafMap[d.values[g][0]], Clade(t, leaves, d, g))
  {
    forall g | Grafting(t, leaves, d, g)
      ensures d.values[g][0] in leafMap && GraftedLeaf(s0, s, leafMap[d.values[g][0]], Clade(t, leaves, d, g))
    {
      var j :| 0 <= j < |d.keys| && d.keys[j] == g;
      assert MrcaTurn(t, leaves, d, g, ps[j]);
    }
  }

  /**
   * After a run of lines 94-105 that gets through, the leaf of the first name of every
   * grafting group has been replaced by a copy of the group's common-ancestor clade, hung
   * from the leaf's former parent and carrying the leaf's branch length.
   */
  lemma MrcaReinflationGrafts(s0: Store, t: Tree, leaves: map<string, Path>, d: SeqDict, leafMap: map<string, nat>)
    requires Linked(s0) && LeafEntries(s0, leafMap) && LeafIndex(t, leaves) && WellFormedGroups(d)
    ensures var r := Reinflated(s0, leafMap, MrcaPlans(t, leaves, d, d.keys));
      r.out.Pass? ==> forall g :: Grafting(t, leaves, d, g) ==>
        d.values[g][0] in leafMap && GraftedLeaf(s0, r.store, leafMap[d.values[g][0]], Clade(t, leaves, d, g))
  {
    var ps := MrcaPlans(t, leaves, d, d.keys);
    var r := Reinflated(s0, leafMap, ps);
    ReinflatedProgress(s0, leafMap, ps);
    MrcaPlansTurns(t, leaves, d);
    if r.out.Pass? {
      MrcaTurnsGrafts(s0, r.store, t, leaves, d, leafMap, ps);
    }
  }

  lemma MrcaTurnsFrame(s0: Store, s: Store, t: Tree, leaves: map<string, Path>, d: SeqDict, leafMap: map<string, nat>, ps: seq<Plan>)
    requires LeafIndex(t, leaves) && MrcaTurns(t, leaves, d, ps) && Progress(s0, s, leafMap, ps)
    ensures forall n :: 0 <= n < |s0.names| && s.parent[n] != s0.parent[n] ==>
      exists g :: Grafting(t, leaves, d, g) && d.values[g][0] in leafMap && leafMap[d.values[g][0]] == n
    ensures forall n :: 0 <= n < |s0.names| && s.kids[n] != s0.kids[n] ==>
      exists g :: Grafting(t, leaves, d, g) && d.values[g][0] in leafMap && s0.parent[leafMap[d.values[g][0]]] == Some(n)
  {
    forall n | 0 <= n < |s0.names| && s.parent[n] != s0.parent[n]
      ensures exists g :: Grafting(t, leaves, d, g) && d.values[g][0] in leafMap && leafMap[d.values[g][0]] == n
    {
      ReplacedWitness(leafMap, ps, n);
      var j :| 0 <= j < |ps| && ps[j].Replace? && ps[j].name in leafMap && leafMap[ps[j].name] == n;
      assert MrcaTurn(t, leaves, d, d.keys[j], ps[j]);
    }
    forall n | 0 <= n < |s0.names| && s.kids[n] != s0.kids[n]
      ensures exists g :: Grafting(t, leaves, d, g) && d.values[g][0] in leafMap && s0.parent[leafMap[d.values[g][0]]] == Some(n)
    {
      var e :| e in Replaced(leafMap, ps) && e < |s0.parent| && s0.parent[e] == Some(n);
      ReplacedWitness(leafMap, ps, e);
      var j :| 0 <= j < |ps| && ps[j].Replace? && ps[j].name in leafMap && leafMap[ps[j].name] == e;
      assert MrcaTurn(t, leaves, d, d.keys[j], ps[j]);
    }
  }

  /**
   * A run of lines 94-105 that gets through changes no label or branch length of an
   * existing node; only the replaced leaves lose their parent, and only their former parents
   * change their children.
   */
  lemma MrcaReinflationFrame(s0: Store, t: Tree, leaves: map<string, Path>, d: SeqDict, leafMap: map<string, nat>)
    requires Linked(s0) && LeafEntries(s0, leafMap) && LeafIndex(t, leaves) && WellFormedGroups(d)
    ensures var r := Reinflated(s0, leafMap, MrcaPlans(t, leaves, d, d.keys));
      r.out.Pass? ==> forall n :: 0 <= n < |s0.names| ==> r.store.names[n] == s0.names[n] && r.store.edges[n] == s0.edges[n]
    ensures var r := Reinflated(s0, leafMap, MrcaPlans(t, leaves, d, d.keys));
      r.out.Pass? ==> forall n :: 0 <= n < |s0.names| && r.store.parent[n] != s0.parent[n] ==>
        exists g :: Grafting(t, leaves, d, g) && d.values[g][0] in leafMap && leafMap[d.values[g][0]] == n
    ensures var r := Reinflated(s0, leafMap, MrcaPlans(t, leaves, d, d.keys));
      r.out.Pass? ==> forall n :: 0 <= n < |s0.names| && r.store.kids[n] != s0.kids[n] ==>
        exists g :: Grafting(t, leaves, d, g) && d.values[g][0] in leafMap && s0.parent[leafMap[d.values[g][0]]] == Some(n)
  {
    var ps := MrcaPlans(t, leaves, d, d.keys);
    var r := Reinflated(s0, leafMap, ps);
    ReinflatedProgress(s0, leafMap, ps);
    MrcaPlansTurns(t, leaves, d);
    if r.out.Pass? {
      MrcaTurnsFrame(s0, r.store, t, leaves, d, leafMap, ps);
    }
  }

  /** The reasons a run of lines 94-105 can stop. */
  ghost predicate MrcaCause(s0: Store, t: Tree, leaves: map<string, Path>, d: SeqDict, leafMap: map<string, nat>, err: Error)
    requires LeafIndex(t, leaves)
  {
    || (exists s :: Unplaced(t, leaves, d, s) && err == NoMrca(d.values[s]))
    || (&& (err.MissingRepresentative? || err.NoParent?)
        && (exists g :: Grafting(t, leaves, d, g) && d.values[g][0] == err.name)
        && (err.MissingRepresentative? <==> err.name !in leafMap)
        && (err.NoParent? ==>
              (leafMap[err.name] < |s0.parent|
               && (s0.parent[leafMap[err.name]].None? || SharedFirst(t, leaves, d, err.name)))))
  }

  lemma MrcaTurnsCulprit(s0: Store, t: Tree, leaves: map<string, Path>, d: SeqDict, leafMap: map<string, nat>, ps: seq<Plan>, j: nat, err: Error)
    requires LeafIndex(t, leaves) && MrcaTurns(t, leaves, d, ps) && Culprit(s0, leafMap, ps, j, err)
    ensures MrcaCause(s0, t, leaves, d, leafMap, err)
  {
    var s := d.keys[j];
    assert MrcaTurn(t, leaves, d, s, ps[j]);
    if ps[j].Replace? && err.NoParent? && s0.parent[leafMap[err.name]].Some? {
      var i :| 0 <= i < j && ps[i].Replace? && ps[i].name == ps[j].name;
      assert MrcaTurn(t, leaves, d, d.keys[i], ps[i]);
      assert SharedFirst(t, leaves, d, err.name);
    }
  }

  /**
   * A run of lines 94-105 that stops early names a group `mrca` could not place, or the
   * first name of a grafting group whose leaf is missing from the leaf dictionary (a
   * `KeyError`) or has no parent (the tree's root, or a leaf already replaced for an
   * earlier group with the same first name).
   */
  lemma MrcaReinflationFails(s0: Store, t: Tree, leaves: map<string, Path>, d: SeqDict, leafMap: map<string, nat>)
    requires Linked(s0) && LeafEntries(s0, leafMap) && LeafIndex(t, leaves) && WellFormedGroups(d)
    ensures var r := Reinflated(s0, leafMap, MrcaPlans(t, leaves, d, d.keys));
      r.out.Fail? ==> MrcaCause(s0, t, leaves, d, leafMap, r.out.error)
  {
    var ps := MrcaPlans(t, leaves, d, d.keys);
    var r := Reinflated(s0, leafMap, ps);
    if r.out.Fail? {
      FailureCause(s0, leafMap, ps);
      var j: nat :| Culprit(s0, leafMap, ps, j, r.out.error);
      MrcaPlansTurns(t, leaves, d);
      MrcaTurnsCulprit(s0, t, leaves, d, leafMap, ps, j, r.out.error);
    }
  }

  /**
   * One turn of lines 94-105 for the group `v`: skip a singleton, find the common ancestor,
   * and replace the leaf of the first name when the ancestor's clade has `len(v)` leaves.
   */
  method MrcaTurnStep(nj: NJTree, t: Tree, leaves: map<string, Path>, v: seq<string>, leafMap: map<string, nat>)
    returns (out: Outcome)
    requires nj.Valid() && InRange(nj.View(), leafMap) && LeafIndex(t, leaves) && |v| > 0
    modifies nj
    ensures nj.Valid() && nj.root == old(nj.root)
    ensures Run(out, nj.View()) == Apply(old(nj.View()), leafMap, MrcaPlan(t, leaves, v))
  {
    out := Pass;
    if |v| == 1 {
      return;
    }
    var mrca := MrcaOf(t, leaves, v);
    if mrca.Failure? {
      assert MrcaPlan(t, leaves, v) == Abort(mrca.error);
      out := Fail(mrca.error);
      return;
    }
    var labels := Labels(Subtree(t, mrca.value));
    if |labels| == |v| {
      var c := Subtree(t, mrca.value);
      assert MrcaPlan(t, leaves, v) == Replace(v[0], c);
      out := ReplaceLeaf(nj, leafMap, v[0], c);
    } else {
      assert MrcaPlan(t, leaves, v) == Skip;
    }
  }

  /**
   * Lines 94-105 of main.py: one turn per group of `seqdict`, in order, stopping at the
   * first failure. Every `mrca` call consults the same leaf dictionary of the reference tree.
   */
  method ReinflateByMrca(nj: NJTree, t: Tree, d: SeqDict, leafMap: map<string, nat>) returns (out: Outcome)
    requires nj.Valid() && LeafEntries(nj.View(), leafMap) && WellFormedGroups(d)
    modifies nj
    ensures nj.Valid() && nj.root == old(nj.root)
    ensures Run(out, nj.View()) == Reinflated(old(nj.View()), leafMap, MrcaPlans(t, LeafDict(t), d, d.keys))
  {
    var leaves := LeafDict(t);
    ghost var s0 := nj.View();
    ghost var plans := MrcaPlans(t, leaves, d, d.keys);
    for i := 0 to |d.keys|
      invariant nj.Valid() && nj.root == old(nj.root)
      invariant Run(Pass, nj.View()) == Reinflated(s0, leafMap, plans[..i])
    {
      ReinflatedStep(s0, leafMap, plans, i);
      out := MrcaTurnStep(nj, t, leaves, d.values[d.keys[i]], leafMap);
      if out.Fail? {
        StopsAt(s0, leafMap, plans, i);
        return;
      }
    }
    out := Pass;
    assert plans[..|d.keys|] == plans;
  }
}
