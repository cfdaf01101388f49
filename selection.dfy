/**
 * Choosing one representative per group of identical sequences (run_NJreestimate.py):
 * from every member not yet visited, climb the reference tree while all leaves under the
 * ancestor belong to the group, record the clade reached, then keep the clade with the
 * most leaves, ties going to the larger name.
 */
module Selection {
  import opened Wrappers
  import opened Dicts
  import opened Trees
  import opened Grouping

  // ---------------------------------------------------------------------------
  // Python's ordering of strings and of (count, name) tuples

  /** `a < b` on Python strings: code point by code point, a proper prefix first. */
  predicate StrLess(a: string, b: string)
  {
    |b| > 0 && (|a| == 0 || a[0] < b[0] || (a[0] == b[0] && StrLess(a[1..], b[1..])))
  }

  lemma {:induction false} StrLessIrreflexive(a: string)
    ensures !StrLess(a, a)
  {
    if |a| > 0 {
      StrLessIrreflexive(a[1..]);
    }
  }

  lemma {:induction false} StrLessTransitive(a: string, b: string, c: string)
    requires StrLess(a, b) && StrLess(b, c)
    ensures StrLess(a, c)
  {
    if |a| > 0 && a[0] == b[0] && b[0] == c[0] {
      StrLessTransitive(a[1..], b[1..], c[1..]);
    }
  }

  lemma {:induction false} StrLessTotal(a: string, b: string)
    requires a != b
    ensures StrLess(a, b) || StrLess(b, a)
  {
    if |a| > 0 && |b| > 0 && a[0] == b[0] {
      assert a == [a[0]] + a[1..] && b == [b[0]] + b[1..];
      StrLessTotal(a[1..], b[1..]);
    }
  }

  /** `(c1, n1) < (c2, n2)` on Python tuples: the count first, then the name. */
  predicate RankLess(c1: nat, n1: string, c2: nat, n2: string)
  {
    c1 < c2 || (c1 == c2 && StrLess(n1, n2))
  }

  // ---------------------------------------------------------------------------
  // The climb

  /** A recorded clade: the number of leaves under it and the node itself. */
  datatype Choice = Choice(count: nat, clade: Path)

  /** `all([i in visited for i in labels])`: every label is a key of `visited`. */
  predicate AllMembers(labels: seq<Option<string>>, group: set<string>)
  {
    forall l :: l in labels ==> l.Some? && l.value in group
  }

  /**
   * `after` is `before` after `visited[i] = True` for every label `i` in `labels`: the same
   * keys, and a key is set exactly when it was set before or labels a leaf of `labels`.
   */
  ghost predicate MarkedBy(before: map<string, bool>, after: map<string, bool>, labels: seq<Option<string>>)
  {
    && (forall x :: x in after <==> x in before)
    && (forall x :: x in before ==> after[x] == (before[x] || Some(x) in labels))
  }

  /** Marking a sub-collection first and then a super-collection is marking the latter. */
  lemma MarkedAbsorb(v0: map<string, bool>, v1: map<string, bool>, v2: map<string, bool>,
                     small: seq<Option<string>>, large: seq<Option<string>>)
    requires MarkedBy(v0, v1, small) && MarkedBy(v1, v2, large)
    requires forall l :: l in small ==> l in large
    ensures MarkedBy(v0, v2, large)
  {
  }

  /**
   * A clade the climb may stop at: it lies in the tree, every leaf under it is a member
   * of the group, `count` is its number of leaves, `key` labels its last leaf in
   * postorder, and it is the root or its parent has a leaf outside the group.
   */
  ghost predicate StoppedClade(t: Tree, group: set<string>, key: string, c: Choice)
  {
    && ValidPath(t, c.clade)
    && AllMembers(Labels(Subtree(t, c.clade)), group)
    && c.count == |Labels(Subtree(t, c.clade))|
    && Labels(Subtree(t, c.clade))[c.count - 1] == Some(key)
    && (c.clade == [] || (ValidPath(t, c.clade[..|c.clade| - 1]) &&
                          !AllMembers(Labels(Subtree(t, c.clade[..|c.clade| - 1])), group)))
  }

  /** The key of a clade the climb may stop at labels one of its leaves. */
  lemma StoppedKey(t: Tree, group: set<string>, key: string, c: Choice)
    requires StoppedClade(t, group, key, c)
    ensures Some(key) in Labels(Subtree(t, c.clade))
  {
  }

  /** Every recorded clade is one the climb may stop at for the group. */
  ghost predicate AllStopped(t: Tree, group: set<string>, choices: Dict<string, Choice>)
  {
    forall c :: c in choices.values ==> StoppedClade(t, group, c, choices.values[c])
  }

  /** Recording a clade the climb may stop at keeps every recorded clade one. */
  lemma AllStoppedPut(t: Tree, group: set<string>, choices: Dict<string, Choice>, key: string, c: Choice)
    requires choices.Valid() && AllStopped(t, group, choices) && StoppedClade(t, group, key, c)
    ensures AllStopped(t, group, choices.Put(key, c))
  {
  }

  /** No proper ancestor of a clade the climb may stop at holds only group members. */
  lemma StoppedTop(t: Tree, group: set<string>, key: string, c: Choice, a: Path)
    requires StoppedClade(t, group, key, c)
    requires ValidPath(t, a) && a <= c.clade && AllMembers(Labels(Subtree(t, a)), group)
    ensures a == c.clade
  {
    if a != c.clade {
      var parent := c.clade[..|c.clade| - 1];
      assert a <= parent;
      forall l | l in Labels(Subtree(t, parent)) ensures l.Some? && l.value in group {
        AncestorLabels(t, a, parent, l);
      }
      assert false;
    }
  }

  /**
   * Above a given node there is at most one clade the climb may stop at: the highest
   * ancestor all of whose leaves are group members.
   */
  lemma StoppedUnique(t: Tree, group: set<string>, k1: string, c1: Choice, k2: string, c2: Choice, q: Path)
    requires StoppedClade(t, group, k1, c1) && StoppedClade(t, group, k2, c2)
    requires c1.clade <= q && c2.clade <= q
    ensures k1 == k2 && c1 == c2
  {
    if |c1.clade| <= |c2.clade| {
      PrefixesNested(c1.clade, c2.clade, q);
      StoppedTop(t, group, k2, c2, c1.clade);
    } else {
      PrefixesNested(c2.clade, c1.clade, q);
      StoppedTop(t, group, k1, c1, c2.clade);
    }
  }

  /**
   * Lines 94-95: `for i in sibling_labels: visited[i] = True`. The loop variable `i` is the
   * one of the enclosing loop, so it comes out as the last label of `labels`.
   */
  method MarkLabels(visited: map<string, bool>, labels: seq<Option<string>>, i: string)
    returns (visited': map<string, bool>, i': string)
    requires |labels| > 0 && AllMembers(labels, visited.Keys)
    ensures MarkedBy(visited, visited', labels)
    ensures labels[|labels| - 1] == Some(i')
  {
    visited', i' := visited, i;
    for j := 0 to |labels|
      invariant MarkedBy(visited, visited', labels[..j])
      invariant j > 0 ==> labels[j - 1] == Some(i')
    {
      assert labels[..j + 1] == labels[..j] + [labels[j]];
      i' := labels[j].value;
      visited' := visited'[i' := true];
    }
    assert labels[..|labels|] == labels;
  }

  /**
   * Lines 85-97: climb from the seed leaf through its ancestors while every leaf under the
   * ancestor is a key of `visited`, marking the leaves of each accepted ancestor. The key
   * returned is the loop variable `i` as the inner loop leaves it: the last leaf of the
   * clade reached, or the seed itself when no ancestor was accepted.
   */
  method Climb(t: Tree, leaf: Path, seed: string, visited: map<string, bool>)
    returns (mrca: Path, count: nat, key: string, visited': map<string, bool>)
    requires ValidPath(t, leaf) && Subtree(t, leaf).children == [] && Subtree(t, leaf).name == Some(seed)
    requires seed in visited && visited[seed]
    ensures mrca <= leaf
    ensures StoppedClade(t, visited.Keys, key, Choice(count, mrca))
    ensures MarkedBy(visited, visited', Labels(Subtree(t, mrca)))
  {
    mrca, count, key, visited' := leaf, 1, seed, visited;
    assert Labels(Subtree(t, leaf)) == [Some(seed)];
    while |mrca| > 0
      invariant mrca <= leaf
      invariant Climbed(t, visited, mrca, count, key, visited')
      decreases |mrca|
    {
      ClimbStep(t, mrca);
      if !AllMembers(Labels(Subtree(t, mrca[..|mrca| - 1])), visited'.Keys) {
        ClimbedStopped(t, visited, mrca, count, key, visited');
        return;
      }
      mrca, count, key, visited' := AcceptParent(t, visited, mrca, count, key, visited');
    }
    ClimbedStopped(t, visited, mrca, count, key, visited');
  }

  /**
   * Lines 91-95 for an accepted ancestor: the climb moves up to the parent, takes its leaf
   * count and marks its leaves.
   */
  method AcceptParent(t: Tree, visited: map<string, bool>, mrca: Path, count: nat, key: string, visited': map<string, bool>)
    returns (a: Path, count': nat, key': string, marked: map<string, bool>)
    requires |mrca| > 0 && Climbed(t, visited, mrca, count, key, visited')
    requires ValidPath(t, mrca[..|mrca| - 1]) && AllMembers(Labels(Subtree(t, mrca[..|mrca| - 1])), visited'.Keys)
    ensures a == mrca[..|mrca| - 1]
    ensures Climbed(t, visited, a, count', key', marked)
  {
    a := mrca[..|mrca| - 1];
    var labels := Labels(Subtree(t, a));
    marked, key' := MarkLabels(visited', labels, key);
    count' := |labels|;
    ClimbedStep(t, visited, mrca, count, key, visited', a, labels, marked, key');
  }

  /** The state of the climb: the clade reached lies in the group and all its leaves are marked. */
  ghost predicate Climbed(t: Tree, visited: map<string, bool>, mrca: Path, count: nat, key: string, visited': map<string, bool>)
  {
    && ValidPath(t, mrca)
    && AllMembers(Labels(Subtree(t, mrca)), visited.Keys)
    && count == |Labels(Subtree(t, mrca))|
    && Labels(Subtree(t, mrca))[count - 1] == Some(key)
    && MarkedBy(visited, visited', Labels(Subtree(t, mrca)))
  }

  /** The climb stops at the root or below an ancestor with a leaf outside the group. */
  lemma ClimbedStopped(t: Tree, visited: map<string, bool>, mrca: Path, count: nat, key: string, visited': map<string, bool>)
    requires Climbed(t, visited, mrca, count, key, visited')
    requires mrca == [] || (ValidPath(t, mrca[..|mrca| - 1]) &&
                            !AllMembers(Labels(Subtree(t, mrca[..|mrca| - 1])), visited'.Keys))
    ensures StoppedClade(t, visited.Keys, key, Choice(count, mrca))
    ensures MarkedBy(visited, visited', Labels(Subtree(t, mrca)))
  {
    assert visited'.Keys == visited.Keys;
  }

  /** Accepting an ancestor that holds every leaf of the current clade keeps the climb state. */
  lemma ClimbedStep(t: Tree, visited: map<string, bool>, mrca: Path, count: nat, key: string,
                    visited': map<string, bool>, a: Path, labels: seq<Option<string>>, marked: map<string, bool>, last: string)
    requires Climbed(t, visited, mrca, count, key, visited')
    requires |mrca| > 0 && a == mrca[..|mrca| - 1]
    requires ValidPath(t, a) && labels == Labels(Subtree(t, a)) && AllMembers(labels, visited'.Keys)
    requires MarkedBy(visited', marked, labels) && labels[|labels| - 1] == Some(last)
    ensures Climbed(t, visited, a, |labels|, last, marked)
  {
    ClimbStep(t, mrca);
    MarkedAbsorb(visited, visited', marked, Labels(Subtree(t, mrca)), labels);
    assert visited'.Keys == visited.Keys;
  }

  /** The next ancestor on the climb is the parent, and it holds every leaf of the child. */
  lemma ClimbStep(t: Tree, p: Path)
    requires ValidPath(t, p) && |p| > 0
    ensures ValidPath(t, p[..|p| - 1])
    ensures forall l :: l in Labels(Subtree(t, p)) ==> l in Labels(Subtree(t, p[..|p| - 1]))
  {
    var q := p[..|p| - 1];
    ParentOf(t, p);
    forall l | l in Labels(Subtree(t, p)) ensures l in Labels(Subtree(t, q)) {
      ChildLabelsIncluded(Subtree(t, q), p[|p| - 1], l);
    }
  }

  // ---------------------------------------------------------------------------
  // The choice among the recorded clades

  /**
   * `max(all_choices, key=lambda x: (all_choices[x][0], x))`: the recorded clade with the
   * most leaves, ties going to the larger name; a later key replaces the current one only
   * when it ranks strictly higher.
   */
  method MaxChoice(choices: Dict<string, Choice>) returns (best: string)
    requires choices.Valid() && |choices.keys| > 0
    ensures best in choices.values
    ensures forall c :: c in choices.values && c != best ==>
      RankLess(choices.values[c].count, c, choices.values[best].count, best)
  {
    best := choices.keys[0];
    for j := 1 to |choices.keys|
      invariant best in choices.keys[..j]
      invariant forall i :: 0 <= i < j && choices.keys[i] != best ==>
        RankLess(choices.values[choices.keys[i]].count, choices.keys[i], choices.values[best].count, best)
    {
      var c := choices.keys[j];
      if RankLess(choices.values[best].count, best, choices.values[c].count, c) {
        forall i | 0 <= i < j && choices.keys[i] != best
          ensures RankLess(choices.values[choices.keys[i]].count, choices.keys[i], choices.values[c].count, c)
        {
          var n := choices.keys[i];
          if choices.values[n].count == choices.values[best].count == choices.values[c].count {
            StrLessTransitive(n, best, c);
          }
        }
        best := c;
      } else {
        if choices.values[best].count == choices.values[c].count {
          StrLessTotal(best, c);
        }
      }
    }
    assert choices.keys[..|choices.keys|] == choices.keys;
  }

  /** `leaves` maps every leaf name of `t` to the path of a leaf bearing that name. */
  ghost predicate LeafIndex(t: Tree, leaves: map<string, Path>)
  {
    && (forall x :: x in leaves <==> Some(x) in Labels(t))
    && (forall x :: x in leaves ==>
          ValidPath(t, leaves[x]) && Subtree(t, leaves[x]).children == [] && Subtree(t, leaves[x]).name == Some(x))
  }

  /**
   * What visiting the unvisited member whose leaf is `seed` does once `visited` marks it:
   * some clade the climb may stop at lies above the seed, every leaf under it becomes
   * marked and nothing else does, and it is recorded under its key.
   */
  ghost predicate Records(t: Tree, seed: Path, visited: map<string, bool>, visited': map<string, bool>,
                          choices: Dict<string, Choice>, choices': Dict<string, Choice>)
    requires choices.Valid()
  {
    exists key, c :: && StoppedClade(t, visited.Keys, key, c)
                     && c.clade <= seed
                     && MarkedBy(visited, visited', Labels(Subtree(t, c.clade)))
                     && choices' == choices.Put(key, c)
  }

  /**
   * Lines 75-98 for one member `i` of the group: a visited member is skipped; otherwise it
   * is marked, its leaf is looked up (`ok` is false when it is missing), and the clade the
   * climb reaches is recorded under the key the climb leaves in `i`.
   */
  method Visit(t: Tree, leaves: map<string, Path>, i: string, visited: map<string, bool>, choices: Dict<string, Choice>)
    returns (ok: bool, visited': map<string, bool>, choices': Dict<string, Choice>)
    requires LeafIndex(t, leaves)
    requires i in visited
    requires forall x :: x in visited && visited[x] ==> x in leaves
    requires choices.Valid()
    requires AllStopped(t, visited.Keys, choices)
    ensures !ok <==> !visited[i] && i !in leaves
    ensures visited[i] ==> visited' == visited && choices' == choices
    ensures visited'.Keys == visited.Keys && visited'[i]
    ensures forall x :: x in visited && visited[x] ==> visited'[x]
    ensures ok ==> forall x :: x in visited' && visited'[x] ==> x in leaves
    ensures ok ==> choices'.Valid() && (!visited[i] ==> |choices'.keys| > 0)
    ensures ok ==> AllStopped(t, visited.Keys, choices')
    ensures ok && !visited[i] ==> i in leaves && Records(t, leaves[i], visited[i := true], visited', choices, choices')
  {
    ok, visited', choices' := true, visited, choices;
    if visited[i] {
      return;
    }
    visited' := visited[i := true];
    assert visited'.Keys == visited.Keys;
    if i !in leaves {
      ok := false;
      return;
    }
    var mrca, count, key, marked := Climb(t, leaves[i], i, visited');
    MarkedInTree(t, leaves, visited', marked, mrca);
    forall x | x in visited ensures x in marked && (visited[x] ==> marked[x]) {
      assert x in visited' && (visited[x] ==> visited'[x]);
    }
    assert marked.Keys == visited.Keys;
    visited' := marked;
    var c := Choice(count, mrca);
    AllStoppedPut(t, visited.Keys, choices, key, c);
    choices' := choices.Put(key, c);
    RecordsBy(t, leaves[i], visited[i := true], visited', choices, key, c);
  }

  /** A clade meeting the conditions of `Records` witnesses it. */
  lemma RecordsBy(t: Tree, seed: Path, visited: map<string, bool>, visited': map<string, bool>,
                  choices: Dict<string, Choice>, key: string, c: Choice)
    requires choices.Valid()
    requires StoppedClade(t, visited.Keys, key, c) && c.clade <= seed
    requires MarkedBy(visited, visited', Labels(Subtree(t, c.clade)))
    ensures Records(t, seed, visited, visited', choices, choices.Put(key, c))
  {
  }

  /** The clade a visit recorded, its key and its leaf labels. */
  lemma RecordsOpen(t: Tree, seed: Path, visited: map<string, bool>, visited': map<string, bool>,
                    choices: Dict<string, Choice>, choices': Dict<string, Choice>)
    returns (key: string, c: Choice, labels: seq<Option<string>>)
    requires choices.Valid() && Records(t, seed, visited, visited', choices, choices')
    ensures StoppedClade(t, visited.Keys, key, c) && c.clade <= seed
    ensures labels == Labels(Subtree(t, c.clade)) && MarkedBy(visited, visited', labels)
    ensures choices' == choices.Put(key, c)
  {
    key, c :| && StoppedClade(t, visited.Keys, key, c)
              && c.clade <= seed
              && MarkedBy(visited, visited', Labels(Subtree(t, c.clade)))
              && choices' == choices.Put(key, c);
    labels := Labels(Subtree(t, c.clade));
  }

  /** Some recorded clade has a leaf labelled `x`. */
  ghost predicate Covered(t: Tree, choices: Dict<string, Choice>, x: string)
  {
    exists k :: && k in choices.values
                && ValidPath(t, choices.values[k].clade)
                && Some(x) in Labels(Subtree(t, choices.values[k].clade))
  }

  /**
   * With unique leaf labels, recording a clade the climb may stop at keeps every member
   * covered: a key already present stands for the same clade.
   */
  lemma CoveredPut(t: Tree, group: set<string>, choices: Dict<string, Choice>, key: string, c: Choice, x: string)
    requires UniqueLeafLabels(t)
    requires choices.Valid() && AllStopped(t, group, choices) && StoppedClade(t, group, key, c)
    requires Covered(t, choices, x)
    ensures Covered(t, choices.Put(key, c), x)
  {
    var k :| && k in choices.values
             && ValidPath(t, choices.values[k].clade)
             && Some(x) in Labels(Subtree(t, choices.values[k].clade));
    if k == key {
      var c0 := choices.values[key];
      assert StoppedClade(t, group, key, c0);
      StoppedKey(t, group, key, c0);
      StoppedKey(t, group, key, c);
      var q := CommonLeaf(t, c0.clade, c.clade, Some(key));
      StoppedUnique(t, group, key, c0, key, c, q);
    }
    CoveredByKey(t, choices.Put(key, c), k, x);
  }

  /** A recorded clade with a leaf labelled `x` covers `x`. */
  lemma CoveredByKey(t: Tree, choices: Dict<string, Choice>, k: string, x: string)
    requires k in choices.values && ValidPath(t, choices.values[k].clade)
    requires Some(x) in Labels(Subtree(t, choices.values[k].clade))
    ensures Covered(t, choices, x)
  {
  }

  /**
   * A visit leaves every marked member covered, the seed and the newly marked ones
   * included, when leaf labels are unique; a visit of a marked member changes nothing.
   */
  lemma VisitCovers(t: Tree, leaves: map<string, Path>, i: string, visited: map<string, bool>,
                    visited': map<string, bool>, choices: Dict<string, Choice>, choices': Dict<string, Choice>)
    requires LeafIndex(t, leaves)
    requires i in visited && choices.Valid() && AllStopped(t, visited.Keys, choices)
    requires visited[i] ==> visited' == visited && choices' == choices
    requires !visited[i] ==> i in leaves && Records(t, leaves[i], visited[i := true], visited', choices, choices')
    requires UniqueLeafLabels(t) ==> forall x :: x in visited && visited[x] ==> Covered(t, choices, x)
    ensures UniqueLeafLabels(t) ==> forall x :: x in visited' && visited'[x] ==> Covered(t, choices', x)
  {
    if UniqueLeafLabels(t) && !visited[i] {
      var marked := visited[i := true];
      var key, c, labels := RecordsOpen(t, leaves[i], marked, visited', choices, choices');
      assert marked.Keys == visited.Keys;
      CoversAfter(t, leaves, i, visited, visited', choices, key, c, labels);
    }
  }

  /** `VisitCovers` for the clade the visit recorded under `key`, with its leaf labels `labels`. */
  lemma CoversAfter(t: Tree, leaves: map<string, Path>, i: string, visited: map<string, bool>,
                    visited': map<string, bool>, choices: Dict<string, Choice>, key: string, c: Choice,
                    labels: seq<Option<string>>)
    requires LeafIndex(t, leaves) && UniqueLeafLabels(t)
    requires i in visited && i in leaves
    requires choices.Valid() && AllStopped(t, visited.Keys, choices) && StoppedClade(t, visited.Keys, key, c)
    requires c.clade <= leaves[i] && labels == Labels(Subtree(t, c.clade))
    requires MarkedBy(visited[i := true], visited', labels)
    requires forall x :: x in visited && visited[x] ==> Covered(t, choices, x)
    ensures forall x :: x in visited' && visited'[x] ==> Covered(t, choices.Put(key, c), x)
  {
    LeafInClade(t, c.clade, leaves[i]);
    forall x | x in visited' && visited'[x] ensures Covered(t, choices.Put(key, c), x) {
      if x in visited && visited[x] {
        CoveredPut(t, visited.Keys, choices, key, c, x);
      } else {
        CoveredByKey(t, choices.Put(key, c), key, x);
      }
    }
  }

  /**
   * Lines 72-98 for one group `v`: start every member unvisited and visit the members in
   * order. `missing` names the member whose leaf lookup failed, which happens exactly when
   * some member is not a leaf of the tree (a climb marks only leaves of the tree).
   */
  method VisitAll(t: Tree, leaves: map<string, Path>, v: seq<string>)
    returns (missing: Option<string>, visited: map<string, bool>, choices: Dict<string, Choice>)
    requires LeafIndex(t, leaves)
    requires |v| > 0
    ensures visited.Keys == set x | x in v
    ensures missing.None? <==> forall x :: x in v ==> x in leaves
    ensures missing.Some? ==> missing.value in v && missing.value !in leaves
    ensures missing.None? ==> forall x :: x in v ==> visited[x]
    ensures missing.None? ==> choices.Valid() && |choices.keys| > 0 && AllStopped(t, visited.Keys, choices)
    ensures missing.None? && UniqueLeafLabels(t) ==> forall x :: x in v ==> Covered(t, choices, x)
  {
    ghost var group := set x | x in v;
    visited := map x | x in v :: false;
    choices := Empty();
    for idx := 0 to |v|
      invariant visited.Keys == group
      invariant forall j :: 0 <= j < idx ==> visited[v[j]]
      invariant forall x :: x in visited && visited[x] ==> x in leaves
      invariant choices.Valid()
      invariant forall x :: x in visited && visited[x] ==> |choices.keys| > 0
      invariant AllStopped(t, group, choices)
      invariant UniqueLeafLabels(t) ==> forall x :: x in visited && visited[x] ==> Covered(t, choices, x)
    {
      ghost var before, recorded := visited, choices;
      var i, ok := v[idx], false;
      ok, visited, choices := Visit(t, leaves, i, visited, choices);
      if !ok {
        return Some(i), visited, choices;
      }
      VisitCovers(t, leaves, i, before, visited, recorded, choices);
      MarksKept(v, idx, before, visited);
    }
    assert visited[v[0]];
    missing := None;
  }

  /**
   * The clade `c`, recorded under `rep`, is the best the group offers: the climb may stop
   * at it, and every other clade the climb may stop at ranks strictly below it by
   * (count, name).
   */
  ghost predicate BestClade(t: Tree, group: set<string>, rep: string, c: Choice)
  {
    && StoppedClade(t, group, rep, c)
    && forall k, c' :: StoppedClade(t, group, k, c') ==> c'.clade == c.clade || RankLess(c'.count, k, c.count, rep)
  }

  /**
   * With unique leaf labels, when the recorded clades cover the group, the top-ranked
   * recorded clade is the best the group offers: every clade the climb may stop at is a
   * recorded one.
   */
  lemma BestOfCovering(t: Tree, group: set<string>, choices: Dict<string, Choice>, rep: string)
    requires UniqueLeafLabels(t)
    requires choices.Valid() && AllStopped(t, group, choices)
    requires forall x :: x in group ==> Covered(t, choices, x)
    requires rep in choices.values
    requires forall c :: c in choices.values && c != rep ==>
      RankLess(choices.values[c].count, c, choices.values[rep].count, rep)
    ensures BestClade(t, group, rep, choices.values[rep])
  {
    var best := choices.values[rep];
    forall k, c' | StoppedClade(t, group, k, c')
      ensures c'.clade == best.clade || RankLess(c'.count, k, best.count, rep)
    {
      var l := Labels(Subtree(t, c'.clade))[0];
      assert l in Labels(Subtree(t, c'.clade));
      var k0 :| && k0 in choices.values
                && ValidPath(t, choices.values[k0].clade)
                && l in Labels(Subtree(t, choices.values[k0].clade));
      var q := CommonLeaf(t, c'.clade, choices.values[k0].clade, l);
      StoppedUnique(t, group, k, c', k0, choices.values[k0], q);
    }
  }

  /** Marks never disappear, so the members visited so far stay marked. */
  lemma MarksKept(v: seq<string>, idx: nat, before: map<string, bool>, after: map<string, bool>)
    requires idx < |v| && v[idx] in after && after[v[idx]]
    requires forall j :: 0 <= j < idx ==> v[j] in before && before[v[j]]
    requires forall x :: x in before && before[x] ==> x in after && after[x]
    ensures forall j :: 0 <= j <= idx ==> v[j] in after && after[v[j]]
  {
  }

  /**
   * Lines 72-100 for one group `v`: the representative is the key of the best recorded
   * clade; every other recorded clade ranks below it.
   */
  method SelectRepresentative(t: Tree, leaves: map<string, Path>, v: seq<string>)
    returns (r: Result<(string, Choice)>, choices: Dict<string, Choice>, visited: map<string, bool>)
    requires LeafIndex(t, leaves)
    requires |v| > 0
    ensures visited.Keys == set x | x in v
    ensures r.Failure? <==> exists x :: x in v && x !in leaves
    ensures r.Failure? ==> r.error.MissingLeaf? && r.error.name in v && r.error.name !in leaves
    ensures r.Success? ==> forall x :: x in v ==> visited[x]
    ensures r.Success? ==> choices.Valid() && r.value.0 in choices.values && choices.values[r.value.0] == r.value.1
    ensures r.Success? ==> AllStopped(t, visited.Keys, choices)
    ensures r.Success? ==> forall c :: c in choices.values && c != r.value.0 ==>
      RankLess(choices.values[c].count, c, r.value.1.count, r.value.0)
    ensures r.Success? && UniqueLeafLabels(t) ==> BestClade(t, (set x | x in v), r.value.0, r.value.1)
  {
    var missing;
    missing, visited, choices := VisitAll(t, leaves, v);
    if missing.Some? {
      return Failure(MissingLeaf(missing.value)), choices, visited;
    }
    var best := MaxChoice(choices);
    if UniqueLeafLabels(t) {
      BestOfCovering(t, visited.Keys, choices, best);
    }
    r := Success((best, choices.values[best]));
  }

  /** Every name marked by a climb is a leaf of the reference tree. */
  lemma MarkedInTree(t: Tree, leaves: map<string, Path>, visited: map<string, bool>, marked: map<string, bool>, mrca: Path)
    requires forall x :: x in leaves <==> Some(x) in Labels(t)
    requires forall x :: x in visited && visited[x] ==> x in leaves
    requires ValidPath(t, mrca) && MarkedBy(visited, marked, Labels(Subtree(t, mrca)))
    ensures forall x :: x in marked && marked[x] ==> x in leaves
  {
    forall x | x in marked && marked[x] ensures x in leaves {
      if !visited[x] {
        AncestorLabels(t, [], mrca, Some(x));
      }
    }
  }

  // ---------------------------------------------------------------------------
  // The loop over all groups

  /** A value of `uniqtags`: the group's sequence and, for a group of two or more, the clade to restore. */
  datatype Tip = Tip(sequence: string, clade: Option<Path>)

  /** What the loop leaves in `uniqtags` under key `k`. */
  ghost predicate RepresentativeEntry(t: Tree, d: SeqDict, k: string, tip: Tip)
  {
    && tip.sequence in d.values
    && k in d.values[tip.sequence]
    && (tip.clade.None? <==> |d.values[tip.sequence]| == 1)
    && (tip.clade.None? ==> k == d.values[tip.sequence][0])
    && (tip.clade.Some? ==>
          var p := tip.clade.value;
          ValidPath(t, p) &&
          StoppedClade(t, (set x | x in d.values[tip.sequence]), k, Choice(|Labels(Subtree(t, p))|, p)) &&
          (UniqueLeafLabels(t) ==>
             BestClade(t, (set x | x in d.values[tip.sequence]), k, Choice(|Labels(Subtree(t, p))|, p))))
  }

  /**
   * Lines 69-100 for the group of sequence `s`: a single member is its own representative
   * with no clade; a larger group goes through SelectRepresentative.
   */
  method GroupRepresentative(t: Tree, leaves: map<string, Path>, d: SeqDict, s: string)
    returns (r: Result<(string, Tip)>)
    requires WellFormedGroups(d) && s in d.values
    requires LeafIndex(t, leaves)
    ensures r.Failure? <==> |d.values[s]| > 1 && exists x :: x in d.values[s] && x !in leaves
    ensures r.Failure? ==> r.error.MissingLeaf? && r.error.name in d.values[s] && r.error.name !in leaves
    ensures r.Success? ==> r.value.1.sequence == s && RepresentativeEntry(t, d, r.value.0, r.value.1)
    ensures r.Success? && |d.values[s]| > 1 ==> forall x :: x in d.values[s] ==> x in leaves
  {
    var v := d.values[s];
    if |v| == 1 {
      return Success((v[0], Tip(s, None)));
    }
    var sel, choices, visited := SelectRepresentative(t, leaves, v);
    if sel.Failure? {
      return Failure(sel.error);
    }
    var (rep, choice) := sel.value;
    assert StoppedClade(t, (set x | x in v), rep, choice);
    assert Some(rep) in Labels(Subtree(t, choice.clade));
    r := Success((rep, Tip(s, Some(choice.clade))));
  }

  /**
   * Lines 63-100: index the leaves of the reference tree, then for every group in order
   * store its representative in `uniqtags`. A member of a larger group missing from the
   * tree aborts the run.
   */
  method ChooseRepresentatives(t: Tree, d: SeqDict) returns (r: Result<Dict<string, Tip>>)
    requires WellFormedGroups(d)
    ensures r.Failure? ==> r.error.MissingLeaf? && Some(r.error.name) !in Labels(t)
    ensures r.Failure? ==> exists s :: s in d.values && |d.values[s]| > 1 && r.error.name in d.values[s]
    ensures r.Success? ==> r.value.Valid()
    ensures r.Success? ==> forall k :: k in r.value.values ==> RepresentativeEntry(t, d, k, r.value.values[k])
    ensures r.Success? ==> forall s, x :: s in d.values && |d.values[s]| > 1 && x in d.values[s] ==> Some(x) in Labels(t)
  {
    var leaves := IndexLeaves(t);
    assert LeafIndex(t, leaves);
    var uniq: Dict<string, Tip> := Empty();
    for g := 0 to |d.keys|
      invariant uniq.Valid()
      invariant forall k :: k in uniq.values ==> RepresentativeEntry(t, d, k, uniq.values[k])
      invariant forall h, x :: 0 <= h < g && |d.values[d.keys[h]]| > 1 && x in d.values[d.keys[h]] ==> x in leaves
    {
      var e := GroupRepresentative(t, leaves, d, d.keys[g]);
      if e.Failure? {
        return Failure(e.error);
      }
      forall h, x | 0 <= h <= g && |d.values[d.keys[h]]| > 1 && x in d.values[d.keys[h]] ensures x in leaves {
        if h == g {
          assert x in d.values[d.keys[g]];
        }
      }
      uniq := uniq.Put(e.value.0, e.value.1);
    }
    forall s, x | s in d.values && |d.values[s]| > 1 && x in d.values[s] ensures Some(x) in Labels(t) {
      var h :| 0 <= h < |d.keys| && d.keys[h] == s;
    }
    r := Success(uniq);
  }
}
