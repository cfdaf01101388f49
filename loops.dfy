/**
 * The graft loops of the two scripts: the turns each computes from its own data, and what
 * the loop over those turns achieves.
 */
module GraftLoops {
  import opened Wrappers
  import opened Dicts
  import opened Trees
  import opened Grouping
  import opened Selection
  import opened Arena
  import opened Reinflation

  // ---------------------------------------------------------------------------
  // run_NJreestimate.py, lines 144-154: one turn per entry of `uniqtags`

  /** The representatives chosen for the groups, as the selection loop records them. */
  ghost predicate Entries(t: Tree, d: SeqDict, uniq: Dict<string, Tip>)
  {
    uniq.Valid() && forall k :: k in uniq.values ==> RepresentativeEntry(t, d, k, uniq.values[k])
  }

  /** A singleton group is skipped; any other key's leaf is to be replaced by the clade recorded for it. */
  function TipPlan(t: Tree, d: SeqDict, k: string, tip: Tip): Plan
    requires RepresentativeEntry(t, d, k, tip)
  {
    if |d.values[tip.sequence]| == 1 then Skip else Replace(k, Subtree(t, tip.clade.value))
  }

  function TipPlans(t: Tree, d: SeqDict, uniq: Dict<string, Tip>, ks: seq<string>): (r: seq<Plan>)
    requires Entries(t, d, uniq) && forall k :: k in ks ==> k in uniq.values
    ensures |r| == |ks| && forall j :: 0 <= j < |ks| ==> r[j] == TipPlan(t, d, ks[j], uniq.values[ks[j]])
    decreases |ks|
  {
    if ks == [] then []
    else TipPlans(t, d, uniq, ks[..|ks| - 1]) + [TipPlan(t, d, ks[|ks| - 1], uniq.values[ks[|ks| - 1]])]
  }

  /** The keys of `uniqtags` whose group has more than one name: the leaves the loop replaces. */
  ghost predicate Collapsed(d: SeqDict, uniq: Dict<string, Tip>, k: string)
  {
    k in uniq.values && uniq.values[k].sequence in d.values && |d.values[uniq.values[k].sequence]| > 1
  }

  /** The turn for key `k` of `uniqtags` replaces exactly a collapsed key's leaf, by its clade, and never aborts. */
  ghost predicate TipTurn(t: Tree, d: SeqDict, uniq: Dict<string, Tip>, k: string, p: Plan)
  {
    && k in uniq.values && !p.Abort?
    && (p.Replace? <==> Collapsed(d, uniq, k))
    && (p.Replace? ==> p.name == k && uniq.values[k].clade.Some? && ValidPath(t, uniq.values[k].clade.value)
                        && p.clade == Subtree(t, uniq.values[k].clade.value))
  }

  ghost predicate TipTurns(t: Tree, d: SeqDict, uniq: Dict<string, Tip>, ps: seq<Plan>)
  {
    uniq.Valid() && |ps| == |uniq.keys| && forall j :: 0 <= j < |ps| ==> TipTurn(t, d, uniq, uniq.keys[j], ps[j])
  }

  lemma TipPlansTurns(t: Tree, d: SeqDict, uniq: Dict<string, Tip>)
    requires Entries(t, d, uniq)
    ensures TipTurns(t, d, uniq, TipPlans(t, d, uniq, uniq.keys))
  {
  }

  /** Turns over `uniqtags` are `Clean` exactly when every collapsed key has a leaf with a parent. */
  lemma TipTurnsClean(s0: Store, t: Tree, d: SeqDict, uniq: Dict<string, Tip>, leafMap: map<string, nat>, ps: seq<Plan>)
    requires LeafEntries(s0, leafMap) && |s0.parent| == |s0.names| && TipTurns(t, d, uniq, ps)
    ensures Clean(s0, leafMap, ps) <==> forall k :: Collapsed(d, uniq, k) ==> k in leafMap && s0.parent[leafMap[k]].Some?
  {
    if forall k :: Collapsed(d, uniq, k) ==> k in leafMap && s0.parent[leafMap[k]].Some? {
      forall i, j | 0 <= i < j < |ps| && ps[i].Replace? && ps[j].Replace? ensures ps[i].name != ps[j].name {
        assert TipTurn(t, d, uniq, uniq.keys[i], ps[i]) && TipTurn(t, d, uniq, uniq.keys[j], ps[j]);
      }
    }
    if Clean(s0, leafMap, ps) {
      forall k | Collapsed(d, uniq, k) ensures k in leafMap && s0.parent[leafMap[k]].Some? {
        var j :| 0 <= j < |uniq.keys| && uniq.keys[j] == k;
        assert TipTurn(t, d, uniq, k, ps[j]);
      }
    }
  }

  /**
   * Lines 144-154 of run_NJreestimate.py get through exactly when the leaf of every
   * collapsed key is in the leaf dictionary and has a parent.
   */
  lemma TipReinflationPasses(s0: Store, t: Tree, d: SeqDict, uniq: Dict<string, Tip>, leafMap: map<string, nat>)
    requires Linked(s0) && LeafEntries(s0, leafMap) && Entries(t, d, uniq)
    ensures Reinflated(s0, leafMap, TipPlans(t, d, uniq, uniq.keys)).out.Pass? <==>
      forall k :: Collapsed(d, uniq, k) ==> k in leafMap && s0.parent[leafMap[k]].Some?
  {
    var ps := TipPlans(t, d, uniq, uniq.keys);
    ReinflatedProgress(s0, leafMap, ps);
    TipPlansTurns(t, d, uniq);
    TipTurnsClean(s0, t, d, uniq, leafMap, ps);
  }

  lemma TipTurnsGrafts(s0: Store, s: Store, t: Tree, d: SeqDict, uniq: Dict<string, Tip>, leafMap: map<string, nat>, ps: seq<Plan>)
    requires TipTurns(t, d, uniq, ps) && Progress(s0, s, leafMap, ps) && Clean(s0, leafMap, ps)
    ensures forall k :: Collapsed(d, uniq, k) ==>
      k in leafMap && GraftedLeaf(s0, s, leafMap[k], Subtree(t, uniq.values[k].clade.value))
  {
    forall k | Collapsed(d, uniq, k)
      ensures k in leafMap && GraftedLeaf(s0, s, leafMap[k], Subtree(t, uniq.values[k].clade.value))
    {
      var j :| 0 <= j < |uniq.keys| && uniq.keys[j] == k;
      assert TipTurn(t, d, uniq, k, ps[j]);
    }
  }

  /**
   * After a run of lines 144-154 that gets through, the leaf of every collapsed key has been
   * replaced by a copy of the clade recorded for it, hung from the leaf's former parent and
   * carrying the leaf's branch length.
   */
  lemma TipReinflationGrafts(s0: Store, t: Tree, d: SeqDict, uniq: Dict<string, Tip>, leafMap: map<string, nat>)
    requires Linked(s0) && LeafEntries(s0, leafMap) && Entries(t, d, uniq)
    ensures var r := Reinflated(s0, leafMap, TipPlans(t, d, uniq, uniq.keys));
      r.out.Pass? ==> forall k :: Collapsed(d, uniq, k) ==>
        k in leafMap && GraftedLeaf(s0, r.store, leafMap[k], Subtree(t, uniq.values[k].clade.value))
  {
    var ps := TipPlans(t, d, uniq, uniq.keys);
    var r := Reinflated(s0, leafMap, ps);
    ReinflatedProgress(s0, leafMap, ps);
    TipPlansTurns(t, d, uniq);
    if r.out.Pass? {
      TipTurnsGrafts(s0, r.store, t, d, uniq, leafMap, ps);
    }
  }

  lemma TipTurnsFrame(s0: Store, s: Store, t: Tree, d: SeqDict, uniq: Dict<string, Tip>, leafMap: map<string, nat>, ps: seq<Plan>)
    requires TipTurns(t, d, uniq, ps) && Progress(s0, s, leafMap, ps)
    ensures forall n :: 0 <= n < |s0.names| && s.parent[n] != s0.parent[n] ==>
      exists k :: Collapsed(d, uniq, k) && k in leafMap && leafMap[k] == n
    ensures forall n :: 0 <= n < |s0.names| && s.kids[n] != s0.kids[n] ==>
      exists k :: Collapsed(d, uniq, k) && k in leafMap && s0.parent[leafMap[k]] == Some(n)
  {
    forall n | 0 <= n < |s0.names| && s.parent[n] != s0.parent[n]
      ensures exists k :: Collapsed(d, uniq, k) && k in leafMap && leafMap[k] == n
    {
      ReplacedWitness(leafMap, ps, n);
      var j :| 0 <= j < |ps| && ps[j].Replace? && ps[j].name in leafMap && leafMap[ps[j].name] == n;
      assert TipTurn(t, d, uniq, uniq.keys[j], ps[j]);
    }
    forall n | 0 <= n < |s0.names| && s.kids[n] != s0.kids[n]
      ensures exists k :: Collapsed(d, uniq, k) && k in leafMap && s0.parent[leafMap[k]] == Some(n)
    {
      var e :| e in Replaced(leafMap, ps) && e < |s0.parent| && s0.parent[e] == Some(n);
      ReplacedWitness(leafMap, ps, e);
      var j :| 0 <= j < |ps| && ps[j].Replace? && ps[j].name in leafMap && leafMap[ps[j].name] == e;
      assert TipTurn(t, d, uniq, uniq.keys[j], ps[j]);
    }
  }

  /**
   * A run of lines 144-154 that gets through changes no label or branch length of an
   * existing node; only the replaced leaves lose their parent, and only their former parents
   * change their children.
   */
  lemma TipReinflationFrame(s0: Store, t: Tree, d: SeqDict, uniq: Dict<string, Tip>, leafMap: map<string, nat>)
    requires Linked(s0) && LeafEntries(s0, leafMap) && Entries(t, d, uniq)
    ensures var r := Reinflated(s0, leafMap, TipPlans(t, d, uniq, uniq.keys));
      r.out.Pass? ==> forall n :: 0 <= n < |s0.names| ==> r.store.names[n] == s0.names[n] && r.store.edges[n] == s0.edges[n]
    ensures var r := Reinflated(s0, leafMap, TipPlans(t, d, uniq, uniq.keys));
      r.out.Pass? ==> forall n :: 0 <= n < |s0.names| && r.store.parent[n] != s0.parent[n] ==>
        exists k :: Collapsed(d, uniq, k) && k in leafMap && leafMap[k] == n
    ensures var r := Reinflated(s0, leafMap, TipPlans(t, d, uniq, uniq.keys));
      r.out.Pass? ==> forall n :: 0 <= n < |s0.names| && r.store.kids[n] != s0.kids[n] ==>
        exists k :: Collapsed(d, uniq, k) && k in leafMap && s0.parent[leafMap[k]] == Some(n)
  {
    var ps := TipPlans(t, d, uniq, uniq.keys);
    var r := Reinflated(s0, leafMap, ps);
    ReinflatedProgress(s0, leafMap, ps);
    TipPlansTurns(t, d, uniq);
    if r.out.Pass? {
      TipTurnsFrame(s0, r.store, t, d, uniq, leafMap, ps);
    }
  }

  lemma TipTurnsCulprit(s0: Store, t: Tree, d: SeqDict, uniq: Dict<string, Tip>, leafMap: map<string, nat>, ps: seq<Plan>, j: nat, err: Error)
    requires TipTurns(t, d, uniq, ps) && Culprit(s0, leafMap, ps, j, err)
    ensures && (err.MissingRepresentative? || err.NoParent?)
            && Collapsed(d, uniq, err.name)
            && (err.MissingRepresentative? <==> err.name !in leafMap)
            && (err.NoParent? ==> leafMap[err.name] < |s0.parent| && s0.parent[leafMap[err.name]].None?)
  {
    assert TipTurn(t, d, uniq, uniq.keys[j], ps[j]);
    forall i | 0 <= i < j && ps[i].Replace? ensures ps[i].name != ps[j].name {
      assert TipTurn(t, d, uniq, uniq.keys[i], ps[i]);
    }
  }

  /**
   * A run of lines 144-154 that stops early names a collapsed key whose leaf is missing
   * from the leaf dictionary (a `KeyError`) or has no parent in the tree FastTree returned.
   */
  lemma TipReinflationFails(s0: Store, t: Tree, d: SeqDict, uniq: Dict<string, Tip>, leafMap: map<string, nat>)
    requires Linked(s0) && LeafEntries(s0, leafMap) && Entries(t, d, uniq)
    ensures var r := Reinflated(s0, leafMap, TipPlans(t, d, uniq, uniq.keys));
      r.out.Fail? ==>
        && (r.out.error.MissingRepresentative? || r.out.error.NoParent?)
        && Collapsed(d, uniq, r.out.error.name)
        && (r.out.error.MissingRepresentative? <==> r.out.error.name !in leafMap)
        && (r.out.error.NoParent? ==> s0.parent[leafMap[r.out.error.name]].None?)
  {
    var ps := TipPlans(t, d, uniq, uniq.keys);
    var r := Reinflated(s0, leafMap, ps);
    if r.out.Fail? {
      FailureCause(s0, leafMap, ps);
      var j: nat :| Culprit(s0, leafMap, ps, j, r.out.error);
      TipPlansTurns(t, d, uniq);
      TipTurnsCulprit(s0, t, d, uniq, leafMap, ps, j, r.out.error);
    }
  }

  /**
   * Lines 144-154 of run_NJreestimate.py: for each entry of `uniqtags` whose group has
   * several names, the leaf named by the key is replaced by a copy of the clade recorded
   * for it. A key missing from `leaf_map`, or a leaf without a parent, ends the run.
   */
  method Reinflate(nj: NJTree, t: Tree, d: SeqDict, uniq: Dict<string, Tip>, leafMap: map<string, nat>)
    returns (out: Outcome)
    requires nj.Valid() && LeafEntries(nj.View(), leafMap) && Entries(t, d, uniq)
    modifies nj
    ensures nj.Valid() && nj.root == old(nj.root)
    ensures Run(out, nj.View()) == Reinflated(old(nj.View()), leafMap, TipPlans(t, d, uniq, uniq.keys))
  {
    ghost var s0 := nj.View();
    ghost var plans := TipPlans(t, d, uniq, uniq.keys);
    for i := 0 to |uniq.keys|
      invariant nj.Valid() && nj.root == old(nj.root)
      invariant Run(Pass, nj.View()) == Reinflated(s0, leafMap, plans[..i])
    {
      var k := uniq.keys[i];
      var tip := uniq.values[k];
      ReinflatedStep(s0, leafMap, plans, i);
      if |d.values[tip.sequence]| == 1 {
        continue;
      }
      assert plans[i] == Replace(k, Subtree(t, tip.clade.value));
      out := ReplaceLeaf(nj, leafMap, k, Subtree(t, tip.clade.value));
      if out.Fail? {
        StopsAt(s0, leafMap, plans, i);
        return;
      }
    }
    out := Pass;
    assert plans[..|uniq.keys|] == plans;
  }
}
