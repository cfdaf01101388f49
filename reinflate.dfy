/**
 * Reinflation: the last loop of both scripts. For every group of identical sequences
 * that was collapsed to one representative before FastTree ran, the representative's leaf
 * in the inferred tree is replaced by a copy of a clade of the reference tree.
 *
 * Each turn of the loop is first described by a `Plan` (nothing to do, an error, or "replace
 * the leaf named k by a copy of clade c"); `Reinflated` applies the plans in turn to the node
 * store of the inferred tree and stops at the first failure, as the scripts do when an
 * exception escapes. The two scripts differ only in how they compute the plans.
 */
module Reinflation {
  import opened Wrappers
  import opened Trees
  import opened Arena

  /** What one turn of a graft loop does. */
  datatype Plan = Skip | Abort(error: Error) | Replace(name: string, clade: Tree)

  /** How far a run got, and the node store it left behind. */
  datatype Run = Run(out: Outcome, store: Store)

  /** `leaf_map` of the inferred tree: every entry names a node of the store that bears its key. */
  ghost predicate LeafEntries(s: Store, leafMap: map<string, nat>)
  {
    forall k :: k in leafMap ==> leafMap[k] < |s.names| && s.names[leafMap[k]] == Some(k)
  }

  ghost predicate InRange(s: Store, leafMap: map<string, nat>)
  {
    forall k :: k in leafMap ==> leafMap[k] < |s.names|
  }

  /**
   * One turn: `existing = leaf_map[k]` (a missing key aborts the run), `existing.parent`
   * (a leaf without parent aborts the run too), then the graft.
   */
  ghost function Apply(s: Store, leafMap: map<string, nat>, plan: Plan): (r: Run)
    requires Linked(s) && InRange(s, leafMap)
    ensures Linked(r.store) && |s.names| <= |r.store.names|
  {
    match plan
    case Skip => Run(Pass, s)
    case Abort(err) => Run(Fail(err), s)
    case Replace(k, c) =>
      if k !in leafMap then Run(Fail(MissingRepresentative(k)), s)
      else if s.parent[leafMap[k]].None? then Run(Fail(NoParent(k)), s)
      else
        var e := leafMap[k];
        GraftSpec(s, e, NodeCopy(c).(edge := s.edges[e]));
        Run(Pass, Grafted(s, e, NodeCopy(c).(edge := s.edges[e])))
  }

  /** The turns in order, stopping at the first failure. */
  ghost function Reinflated(s: Store, leafMap: map<string, nat>, plans: seq<Plan>): (r: Run)
    requires Linked(s) && InRange(s, leafMap)
    ensures Linked(r.store) && |s.names| <= |r.store.names|
    decreases |plans|
  {
    if plans == [] then Run(Pass, s)
    else
      var r := Reinflated(s, leafMap, plans[..|plans| - 1]);
      if r.out.Fail? then r else Apply(r.store, leafMap, plans[|plans| - 1])
  }

  /**
   * Lines 149-154 of run_NJreestimate.py (100-105 of main.py): look the leaf named `k` up
   * in `leaf_map` and replace it by a copy of `clade`; the turn `Replace(k, clade)`.
   */
  method ReplaceLeaf(nj: NJTree, leafMap: map<string, nat>, k: string, clade: Tree) returns (out: Outcome)
    requires nj.Valid() && InRange(nj.View(), leafMap)
    modifies nj
    ensures nj.Valid() && nj.root == old(nj.root)
    ensures Run(out, nj.View()) == Apply(old(nj.View()), leafMap, Replace(k, clade))
  {
    if k !in leafMap {
      return Fail(MissingRepresentative(k));
    }
    var ok := nj.Graft(leafMap[k], clade);
    out := if ok then Pass else Fail(NoParent(k));
  }

  /** A run that has passed the first `i` turns takes turn `i` next. */
  lemma ReinflatedStep(s: Store, leafMap: map<string, nat>, plans: seq<Plan>, i: nat)
    requires Linked(s) && InRange(s, leafMap) && i < |plans|
    requires Reinflated(s, leafMap, plans[..i]).out.Pass?
    ensures Reinflated(s, leafMap, plans[..i + 1])
         == Apply(Reinflated(s, leafMap, plans[..i]).store, leafMap, plans[i])
  {
    assert plans[..i + 1][..i] == plans[..i];
  }

  /** A run that fails at turn `i` ends with that failure. */
  lemma StopsAt(s: Store, leafMap: map<string, nat>, plans: seq<Plan>, i: nat)
    requires Linked(s) && InRange(s, leafMap) && i < |plans|
    requires Reinflated(s, leafMap, plans[..i + 1]).out.Fail?
    ensures Reinflated(s, leafMap, plans) == Reinflated(s, leafMap, plans[..i + 1])
  {
    SplitAt(plans, i + 1);
    FailureSticks(s, leafMap, plans[..i + 1], plans[i + 1..]);
  }

  lemma SplitAt<T>(a: seq<T>, n: nat)
    requires n <= |a|
    ensures a[..n] + a[n..] == a
  {
  }

  /** Once a run has failed, further turns change nothing. */
  lemma {:induction false} FailureSticks(s: Store, leafMap: map<string, nat>, plans: seq<Plan>, more: seq<Plan>)
    requires Linked(s) && InRange(s, leafMap) && Reinflated(s, leafMap, plans).out.Fail?
    ensures Reinflated(s, leafMap, plans + more) == Reinflated(s, leafMap, plans)
    decreases |more|
  {
    if more != [] {
      var m := more[..|more| - 1];
      FailureSticks(s, leafMap, plans, m);
      assert (plans + more)[..|plans + more| - 1] == plans + m;
    } else {
      assert plans + more == plans;
    }
  }

  // ---------------------------------------------------------------------------
  // What a run that gets through has done

  /** The nodes the `Replace` plans look up in the leaf dictionary. */
  ghost function Replaced(leafMap: map<string, nat>, plans: seq<Plan>): set<nat>
    decreases |plans|
  {
    if plans == [] then {}
    else
      var last := plans[|plans| - 1];
      Replaced(leafMap, plans[..|plans| - 1]) +
        (if last.Replace? && last.name in leafMap then {leafMap[last.name]} else {})
  }

  lemma {:induction false} ReplacedWitness(leafMap: map<string, nat>, plans: seq<Plan>, e: nat)
    requires e in Replaced(leafMap, plans)
    ensures exists j :: 0 <= j < |plans| && plans[j].Replace? && plans[j].name in leafMap && leafMap[plans[j].name] == e
    decreases |plans|
  {
    var last := plans[|plans| - 1];
    if !(last.Replace? && last.name in leafMap && leafMap[last.name] == e) {
      ReplacedWitness(leafMap, plans[..|plans| - 1], e);
      var j :| 0 <= j < |plans| - 1 && plans[..|plans| - 1][j].Replace? && plans[..|plans| - 1][j].name in leafMap
        && leafMap[plans[..|plans| - 1][j].name] == e;
      assert plans[j] == plans[..|plans| - 1][j];
    }
  }

  /**
   * The run would succeed: no turn aborts, every leaf to replace is in the leaf dictionary
   * and has a parent in the tree as FastTree returned it, and no name is replaced twice.
   */
  ghost predicate Clean(s0: Store, leafMap: map<string, nat>, plans: seq<Plan>)
  {
    && (forall j :: 0 <= j < |plans| ==> !plans[j].Abort?)
    && (forall j :: 0 <= j < |plans| && plans[j].Replace? ==>
          plans[j].name in leafMap && leafMap[plans[j].name] < |s0.parent| && s0.parent[leafMap[plans[j].name]].Some?)
    && (forall i, j :: 0 <= i < j < |plans| && plans[i].Replace? && plans[j].Replace? ==> plans[i].name != plans[j].name)
  }

  /**
   * Leaf `e` of the original store has been replaced: it has no parent any more, and a node
   * added since hangs from `e`'s former parent and spells out the copy of `c` carrying `e`'s
   * branch length.
   */
  ghost predicate GraftedLeaf(s0: Store, s: Store, e: nat, c: Tree)
  {
    && e < |s0.names| && e < |s0.parent| && e < |s0.edges| && s0.parent[e].Some?
    && e < |s.parent| && s.parent[e].None?
    && var p := s0.parent[e].value;
       && p < |s0.names| && p < |s.kids|
       && exists g :: |s0.names| <= g < |s.parent| && s.parent[g] == Some(p) && g in s.kids[p]
            && Denotes(s, g, NodeCopy(c).(edge := s0.edges[e]), g)
  }

  /**
   * What the turns so far have done to the store `s0`: labels and branch lengths of its
   * nodes are untouched, only replaced leaves lost their parent, only their former parents
   * changed their children, and every replaced leaf is as `GraftedLeaf` says.
   */
  ghost predicate Progress(s0: Store, s: Store, leafMap: map<string, nat>, plans: seq<Plan>)
  {
    && Sized(s0) && Sized(s) && |s0.names| <= |s.names|
    && (forall n :: 0 <= n < |s0.names| ==> s.names[n] == s0.names[n] && s.edges[n] == s0.edges[n])
    && (forall n :: 0 <= n < |s0.names| && n !in Replaced(leafMap, plans) ==> s.parent[n] == s0.parent[n])
    && (forall n :: 0 <= n < |s0.names| && s.kids[n] != s0.kids[n] ==>
          exists e :: e in Replaced(leafMap, plans) && e < |s0.parent| && s0.parent[e] == Some(n))
    && (forall j :: 0 <= j < |plans| && plans[j].Replace? && plans[j].name in leafMap ==>
          GraftedLeaf(s0, s, leafMap[plans[j].name], plans[j].clade))
  }

  /** A later graft of another leaf `e` leaves an earlier replacement in place. */
  lemma GraftedLeafKept(s0: Store, s: Store, e: nat, c: Tree, e': nat, c': Tree)
    requires Linked(s) && Sized(s0) && |s0.names| <= |s.names| && GraftedLeaf(s0, s, e', c')
    requires e < |s0.names| && e != e' && s.parent[e].Some? && s.parent[e].value < |s0.names|
    ensures GraftedLeaf(s0, Grafted(s, e, c), e', c')
  {
    var s' := Grafted(s, e, c);
    var p := s.parent[e].value;
    GraftSpec(s, e, c);
    var p' := s0.parent[e'].value;
    var g :| |s0.names| <= g < |s.parent| && s.parent[g] == Some(p') && g in s.kids[p']
      && Denotes(s, g, NodeCopy(c').(edge := s0.edges[e']), g);
    assert s'.parent[g] == Some(p');
    if p' == p {
      DetachLinked(s, p, e);
      RemoveDistinct(s.kids[p], e);
      assert g in RemoveFirst(s.kids[p], e);
    }
    assert Agree(s, s', g);
    DenotesFrame(s, s', g, NodeCopy(c').(edge := s0.edges[e']), g);
  }

  /** The leaf a `Replace` plan looks up is among the replaced nodes. */
  lemma ReplacedAt(leafMap: map<string, nat>, plans: seq<Plan>, j: nat)
    requires j < |plans| && plans[j].Replace? && plans[j].name in leafMap
    ensures leafMap[plans[j].name] in Replaced(leafMap, plans)
  {
    assert plans[..j + 1][..j] == plans[..j];
    ReplacedPrefix(leafMap, plans, j + 1, leafMap[plans[j].name]);
  }

  /** The graft of `e` leaves `e` replaced as `GraftedLeaf` says. */
  lemma NewGraftedLeaf(s0: Store, s: Store, e: nat, c: Tree)
    requires Linked(s) && Sized(s0) && |s0.names| <= |s.names| && e < |s0.names|
    requires s.parent[e].Some? && s.parent[e] == s0.parent[e] && s.parent[e].value < |s0.names| && s.edges[e] == s0.edges[e]
    ensures GraftedLeaf(s0, Grafted(s, e, NodeCopy(c).(edge := s.edges[e])), e, c)
  {
    var copy := NodeCopy(c).(edge := s.edges[e]);
    GraftSpec(s, e, copy);
    var s' := Grafted(s, e, copy);
    var p := s.parent[e].value;
    assert s'.parent[|s.names|] == Some(p) && |s.names| in s'.kids[p];
  }

  /** After one more graft, every leaf replaced so far, and the new one, is as `GraftedLeaf` says. */
  lemma GraftStepLeaves(s0: Store, s: Store, leafMap: map<string, nat>, plans: seq<Plan>, k: string, c: Tree)
    requires Linked(s) && Sized(s0) && |s0.names| <= |s.names|
    requires k in leafMap && leafMap[k] < |s0.names| && leafMap[k] !in Replaced(leafMap, plans)
    requires s.parent[leafMap[k]].Some? && s.parent[leafMap[k]] == s0.parent[leafMap[k]]
    requires s.parent[leafMap[k]].value < |s0.names| && s.edges[leafMap[k]] == s0.edges[leafMap[k]]
    requires forall j :: 0 <= j < |plans| && plans[j].Replace? && plans[j].name in leafMap ==>
      GraftedLeaf(s0, s, leafMap[plans[j].name], plans[j].clade)
    ensures var s' := Grafted(s, leafMap[k], NodeCopy(c).(edge := s.edges[leafMap[k]])); var plans' := plans + [Replace(k, c)];
      forall j :: 0 <= j < |plans'| && plans'[j].Replace? && plans'[j].name in leafMap ==>
        GraftedLeaf(s0, s', leafMap[plans'[j].name], plans'[j].clade)
  {
    var e := leafMap[k];
    var copy := NodeCopy(c).(edge := s.edges[e]);
    var plans' := plans + [Replace(k, c)];
    forall j | 0 <= j < |plans'| && plans'[j].Replace? && plans'[j].name in leafMap
      ensures GraftedLeaf(s0, Grafted(s, e, copy), leafMap[plans'[j].name], plans'[j].clade)
    {
      if j < |plans| {
        assert plans'[j] == plans[j];
        ReplacedAt(leafMap, plans, j);
        GraftedLeafKept(s0, s, e, copy, leafMap[plans[j].name], plans[j].clade);
      } else {
        NewGraftedLeaf(s0, s, e, c);
      }
    }
  }

  /** After one more graft, only former parents of replaced leaves have changed their children. */
  lemma GraftStepKids(s0: Store, s: Store, leafMap: map<string, nat>, plans: seq<Plan>, k: string, c: Tree)
    requires Linked(s0) && Linked(s) && Progress(s0, s, leafMap, plans)
    requires k in leafMap && leafMap[k] < |s0.names| && s.parent[leafMap[k]].Some? && s.parent[leafMap[k]] == s0.parent[leafMap[k]]
    requires Replaced(leafMap, plans + [Replace(k, c)]) == Replaced(leafMap, plans) + {leafMap[k]}
    ensures var s' := Grafted(s, leafMap[k], NodeCopy(c).(edge := s.edges[leafMap[k]]));
      forall n :: 0 <= n < |s0.names| && s'.kids[n] != s0.kids[n] ==>
        exists e' :: e' in Replaced(leafMap, plans + [Replace(k, c)]) && e' < |s0.parent| && s0.parent[e'] == Some(n)
  {
    var e := leafMap[k];
    var copy := NodeCopy(c).(edge := s.edges[e]);
    GraftSpec(s, e, copy);
    var s' := Grafted(s, e, copy);
    forall n | 0 <= n < |s0.names| && s'.kids[n] != s0.kids[n]
      ensures exists e' :: e' in Replaced(leafMap, plans + [Replace(k, c)]) && e' < |s0.parent| && s0.parent[e'] == Some(n)
    {
      if s.kids[n] == s0.kids[n] {
        assert n == s.parent[e].value;
      }
    }
  }

  /** A leaf that still has a parent has not been replaced yet, so it keeps its first parent. */
  lemma NotYetReplaced(s0: Store, s: Store, leafMap: map<string, nat>, plans: seq<Plan>, e: nat)
    requires Progress(s0, s, leafMap, plans) && e < |s0.names| && s.parent[e].Some?
    ensures e !in Replaced(leafMap, plans) && s.parent[e] == s0.parent[e]
  {
    if e in Replaced(leafMap, plans) {
      ReplacedWitness(leafMap, plans, e);
      assert false;
    }
  }

  /** After one more graft, labels and branch lengths are as they were, and only replaced leaves lost their parent. */
  lemma GraftStepFrame(s0: Store, s: Store, leafMap: map<string, nat>, plans: seq<Plan>, k: string, c: Tree)
    requires Linked(s) && Progress(s0, s, leafMap, plans)
    requires k in leafMap && leafMap[k] < |s0.names| && s.parent[leafMap[k]].Some?
    ensures var s' := Grafted(s, leafMap[k], NodeCopy(c).(edge := s.edges[leafMap[k]]));
      && Sized(s') && |s0.names| <= |s'.names|
      && (forall n :: 0 <= n < |s0.names| ==> s'.names[n] == s0.names[n] && s'.edges[n] == s0.edges[n])
      && (forall n :: 0 <= n < |s0.names| && n !in Replaced(leafMap, plans + [Replace(k, c)]) ==> s'.parent[n] == s0.parent[n])
  {
    var plans' := plans + [Replace(k, c)];
    GraftSpec(s, leafMap[k], NodeCopy(c).(edge := s.edges[leafMap[k]]));
    assert plans'[..|plans'| - 1] == plans;
    assert Replaced(leafMap, plans') == Replaced(leafMap, plans) + {leafMap[k]};
  }

  /** The effect of one successful graft on the progress made so far. */
  lemma GraftStep(s0: Store, s: Store, leafMap: map<string, nat>, plans: seq<Plan>, k: string, c: Tree)
    requires Linked(s0) && Linked(s) && LeafEntries(s0, leafMap) && Progress(s0, s, leafMap, plans)
    requires k in leafMap && s.parent[leafMap[k]].Some?
    ensures leafMap[k] !in Replaced(leafMap, plans) && s.parent[leafMap[k]] == s0.parent[leafMap[k]]
    ensures Progress(s0, Grafted(s, leafMap[k], NodeCopy(c).(edge := s.edges[leafMap[k]])), leafMap, plans + [Replace(k, c)])
  {
    var plans' := plans + [Replace(k, c)];
    NotYetReplaced(s0, s, leafMap, plans, leafMap[k]);
    assert plans'[..|plans'| - 1] == plans;
    GraftStepFrame(s0, s, leafMap, plans, k, c);
    GraftStepKids(s0, s, leafMap, plans, k, c);
    GraftStepLeaves(s0, s, leafMap, plans, k, c);
  }

  /** `Clean` for one more plan. */
  lemma CleanSnoc(s0: Store, leafMap: map<string, nat>, plans: seq<Plan>, last: Plan)
    ensures Clean(s0, leafMap, plans + [last]) <==>
      && Clean(s0, leafMap, plans)
      && !last.Abort?
      && (last.Replace? ==>
            && last.name in leafMap && leafMap[last.name] < |s0.parent| && s0.parent[leafMap[last.name]].Some?
            && forall j :: 0 <= j < |plans| && plans[j].Replace? ==> plans[j].name != last.name)
  {
    var ps := plans + [last];
    assert forall j :: 0 <= j < |plans| ==> ps[j] == plans[j];
    assert ps[|plans|] == last;
  }

  /** A turn that does nothing keeps the progress made so far. */
  lemma ProgressSkip(s0: Store, s: Store, leafMap: map<string, nat>, ps: seq<Plan>)
    requires Progress(s0, s, leafMap, ps)
    ensures Progress(s0, s, leafMap, ps + [Skip])
  {
    var plans := ps + [Skip];
    assert plans[..|plans| - 1] == ps;
    assert Replaced(leafMap, plans) == Replaced(leafMap, ps);
    forall j | 0 <= j < |plans| && plans[j].Replace? && plans[j].name in leafMap
      ensures GraftedLeaf(s0, s, leafMap[plans[j].name], plans[j].clade)
    {
      assert plans[j] == ps[j];
    }
  }

  /** One more turn after a run that got through so far. */
  lemma ProgressStep(s0: Store, s: Store, leafMap: map<string, nat>, ps: seq<Plan>, last: Plan)
    requires Linked(s0) && LeafEntries(s0, leafMap) && Linked(s) && InRange(s, leafMap)
    requires Clean(s0, leafMap, ps) && Progress(s0, s, leafMap, ps)
    ensures var a := Apply(s, leafMap, last);
      && (a.out.Pass? <==> Clean(s0, leafMap, ps + [last]))
      && (a.out.Pass? ==> Progress(s0, a.store, leafMap, ps + [last]))
  {
    CleanSnoc(s0, leafMap, ps, last);
    match last
    case Skip =>
      ProgressSkip(s0, s, leafMap, ps);
    case Abort(_) =>
    case Replace(k, c) =>
      if k in leafMap {
        var e := leafMap[k];
        if s.parent[e].Some? {
          GraftStep(s0, s, leafMap, ps, k, c);
          forall j | 0 <= j < |ps| && ps[j].Replace? ensures ps[j].name != k {
            if ps[j].name in leafMap {
              ReplacedAt(leafMap, ps, j);
            }
          }
        } else if s0.parent[e].Some? {
          assert e in Replaced(leafMap, ps);
          ReplacedWitness(leafMap, ps, e);
          var j :| 0 <= j < |ps| && ps[j].Replace? && ps[j].name in leafMap && leafMap[ps[j].name] == e;
          assert s0.names[e] == Some(ps[j].name);
        }
      }
  }

  /**
   * A run gets through exactly when its plans are `Clean`, and then it has made the
   * `Progress` its plans describe.
   */
  lemma {:induction false} ReinflatedProgress(s0: Store, leafMap: map<string, nat>, plans: seq<Plan>)
    requires Linked(s0) && LeafEntries(s0, leafMap)
    ensures var r := Reinflated(s0, leafMap, plans);
      && (r.out.Pass? <==> Clean(s0, leafMap, plans))
      && (r.out.Pass? ==> Progress(s0, r.store, leafMap, plans))
    decreases |plans|
  {
    if plans != [] {
      var ps, last := plans[..|plans| - 1], plans[|plans| - 1];
      assert plans == ps + [last];
      ReinflatedProgress(s0, leafMap, ps);
      var r := Reinflated(s0, leafMap, ps);
      if r.out.Pass? {
        ProgressStep(s0, r.store, leafMap, ps, last);
        assert Reinflated(s0, leafMap, plans) == Apply(r.store, leafMap, last);
      } else {
        CleanSnoc(s0, leafMap, ps, last);
      }
    }
  }

  /** Replacements made by a prefix of the plans are replacements of the plans. */
  lemma {:induction false} ReplacedPrefix(leafMap: map<string, nat>, plans: seq<Plan>, i: nat, e: nat)
    requires i <= |plans| && e in Replaced(leafMap, plans[..i])
    ensures e in Replaced(leafMap, plans)
    decreases |plans| - i
  {
    if i < |plans| {
      assert plans[..i + 1][..i] == plans[..i];
      ReplacedPrefix(leafMap, plans, i + 1, e);
    } else {
      assert plans[..i] == plans;
    }
  }

  /**
   * Which turn a failed run stopped at, and why: an aborting turn; a name missing from the
   * leaf dictionary; or a leaf without a parent, because it had none to begin with or because
   * an earlier turn already replaced it.
   */
  ghost predicate Culprit(s0: Store, leafMap: map<string, nat>, plans: seq<Plan>, j: nat, err: Error)
  {
    && j < |plans|
    && match plans[j]
       case Skip => false
       case Abort(e) => err == e
       case Replace(k, _) =>
         || (k !in leafMap && err == MissingRepresentative(k))
         || (k in leafMap && err == NoParent(k) && leafMap[k] < |s0.parent| &&
             (s0.parent[leafMap[k]].None? || exists i :: 0 <= i < j && plans[i].Replace? && plans[i].name == k))
  }

  lemma CulpritPrefix(s0: Store, leafMap: map<string, nat>, ps: seq<Plan>, last: Plan, j: nat, err: Error)
    requires Culprit(s0, leafMap, ps, j, err)
    ensures Culprit(s0, leafMap, ps + [last], j, err)
  {
    assert forall i :: 0 <= i <= j ==> (ps + [last])[i] == ps[i];
  }

  /** A turn that fails after a run that got through so far is the culprit. */
  lemma StepCulprit(s0: Store, s: Store, leafMap: map<string, nat>, ps: seq<Plan>, last: Plan)
    requires Linked(s0) && LeafEntries(s0, leafMap) && Linked(s) && InRange(s, leafMap)
    requires Progress(s0, s, leafMap, ps) && Apply(s, leafMap, last).out.Fail?
    ensures Culprit(s0, leafMap, ps + [last], |ps|, Apply(s, leafMap, last).out.error)
  {
    var plans := ps + [last];
    assert plans[|ps|] == last;
    if last.Replace? && last.name in leafMap {
      var e := leafMap[last.name];
      if s0.parent[e].Some? {
        ReplacedWitness(leafMap, ps, e);
        var i :| 0 <= i < |ps| && ps[i].Replace? && ps[i].name in leafMap && leafMap[ps[i].name] == e;
        assert plans[i] == ps[i];
      }
    }
  }

  lemma {:induction false} FailureCause(s0: Store, leafMap: map<string, nat>, plans: seq<Plan>)
    requires Linked(s0) && LeafEntries(s0, leafMap) && Reinflated(s0, leafMap, plans).out.Fail?
    ensures exists j: nat :: Culprit(s0, leafMap, plans, j, Reinflated(s0, leafMap, plans).out.error)
    decreases |plans|
  {
    var ps, last := plans[..|plans| - 1], plans[|plans| - 1];
    assert plans == ps + [last];
    var r := Reinflated(s0, leafMap, ps);
    if r.out.Fail? {
      FailureCause(s0, leafMap, ps);
      var j: nat :| Culprit(s0, leafMap, ps, j, r.out.error);
      CulpritPrefix(s0, leafMap, ps, last, j, r.out.error);
    } else {
      ReinflatedProgress(s0, leafMap, ps);
      StepCulprit(s0, r.store, leafMap, ps, last);
    }
  }
}
