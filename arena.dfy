/**
 * The tree read back from FastTree (`uniqs_tree_nj`), which run_NJreestimate.py and main.py
 * change in place: a leaf is detached from its parent and a copy of a clade of the
 * reference tree is attached in its stead. Nodes are objects linked both ways (children
 * lists and parent links); here each node is a number, and the node store keeps, per
 * node, its label, its branch length, its list of children and its parent.
 */
module Arena {
  import opened Wrappers
  import opened Trees

  /** A node store: node `n` has label `names[n]`, branch length `edges[n]`, children `kids[n]` and parent `parent[n]`. */
  datatype Store = Store(names: seq<Option<string>>, edges: seq<Option<real>>, kids: seq<seq<nat>>, parent: seq<Option<nat>>)

  /**
   * The links of a store agree: every child points back to the parent whose list holds
   * it, every parent link names a node whose list holds the child, and no list holds
   * a node twice.
   */
  ghost predicate Linked(s: Store)
  {
    && |s.edges| == |s.names| && |s.kids| == |s.names| && |s.parent| == |s.names|
    && (forall n, j :: 0 <= n < |s.kids| && 0 <= j < |s.kids[n]| ==>
          s.kids[n][j] < |s.names| && s.parent[s.kids[n][j]] == Some(n))
    && (forall n :: 0 <= n < |s.parent| && s.parent[n].Some? ==>
          s.parent[n].value < |s.kids| && n in s.kids[s.parent[n].value])
    && (forall n, i, j :: 0 <= n < |s.kids| && 0 <= i < j < |s.kids[n]| ==> s.kids[n][i] != s.kids[n][j])
  }

  /** A node without a parent is nobody's child. */
  lemma DetachedNotChild(s: Store, c: nat)
    requires Linked(s) && c < |s.names| && s.parent[c].None?
    ensures forall n :: 0 <= n < |s.kids| ==> c !in s.kids[n]
  {
    forall n | 0 <= n < |s.kids| ensures c !in s.kids[n] {
      assert forall j :: 0 <= j < |s.kids[n]| ==> s.kids[n][j] != c;
    }
  }

  /**
   * Node `id` and the nodes below it spell out the tree `t` (labels, branch lengths and
   * children in order), and every one of them is numbered `lo` or higher.
   */
  ghost predicate Denotes(s: Store, id: nat, t: Tree, lo: nat)
    decreases t
  {
    && lo <= id < |s.names| && |s.edges| == |s.names| && |s.kids| == |s.names|
    && s.names[id] == t.name && s.edges[id] == t.edge && |s.kids[id]| == |t.children|
    && forall j :: 0 <= j < |t.children| ==> Denotes(s, s.kids[id][j], t.children[j], lo)
  }

  /** `s2` keeps the labels, branch lengths and children of every node of `s1` numbered `lo` or higher. */
  ghost predicate Agree(s1: Store, s2: Store, lo: nat)
  {
    && |s1.names| <= |s2.names| && |s2.edges| == |s2.names| && |s2.kids| == |s2.names|
    && forall n :: lo <= n < |s1.names| && n < |s1.edges| && n < |s1.kids| ==>
         s2.names[n] == s1.names[n] && s2.edges[n] == s1.edges[n] && s2.kids[n] == s1.kids[n]
  }

  /** A subtree survives every change that leaves its own nodes alone. */
  lemma {:induction false} DenotesFrame(s1: Store, s2: Store, id: nat, t: Tree, lo: nat)
    requires Denotes(s1, id, t, lo) && Agree(s1, s2, lo)
    ensures Denotes(s2, id, t, lo)
    decreases t
  {
    forall j | 0 <= j < |t.children| ensures Denotes(s2, s2.kids[id][j], t.children[j], lo) {
      DenotesFrame(s1, s2, s1.kids[id][j], t.children[j], lo);
    }
  }

  /** A bound on the node numbers can always be lowered. */
  lemma {:induction false} DenotesLower(s: Store, id: nat, t: Tree, lo: nat, lo': nat)
    requires Denotes(s, id, t, lo) && lo' <= lo
    ensures Denotes(s, id, t, lo')
    decreases t
  {
    forall j | 0 <= j < |t.children| ensures Denotes(s, s.kids[id][j], t.children[j], lo') {
      DenotesLower(s, s.kids[id][j], t.children[j], lo, lo');
    }
  }

  // ---------------------------------------------------------------------------
  // Python's list.remove

  /** The position of the first occurrence of `x` in `s`. */
  function IndexOf(s: seq<nat>, x: nat): (i: nat)
    requires x in s
    ensures i < |s| && s[i] == x && x !in s[..i]
  {
    if s[0] == x then 0 else 1 + IndexOf(s[1..], x)
  }

  /** `s.remove(x)`: drop the first occurrence of `x`. */
  function RemoveFirst(s: seq<nat>, x: nat): (r: seq<nat>)
    requires x in s
    ensures |r| == |s| - 1
    ensures multiset(r) == multiset(s) - multiset{x}
  {
    var i := IndexOf(s, x);
    assert s == s[..i] + [x] + s[i + 1..];
    s[..i] + s[i + 1..]
  }

  /** In a list without repetitions, removing `x` keeps every other element, in order, once. */
  lemma RemoveDistinct(s: seq<nat>, x: nat)
    requires x in s
    requires forall i, j :: 0 <= i < j < |s| ==> s[i] != s[j]
    ensures forall y :: y in RemoveFirst(s, x) <==> y in s && y != x
    ensures forall i, j :: 0 <= i < j < |RemoveFirst(s, x)| ==> RemoveFirst(s, x)[i] != RemoveFirst(s, x)[j]
    ensures forall i :: 0 <= i < |RemoveFirst(s, x)| ==> RemoveFirst(s, x)[i] == s[if i < IndexOf(s, x) then i else i + 1]
  {
    var k := IndexOf(s, x);
    var r := RemoveFirst(s, x);
    assert r == s[..k] + s[k + 1..];
    assert forall i :: 0 <= i < |r| ==> r[i] == s[if i < k then i else i + 1];
    forall y ensures y in r <==> y in s && y != x {
      if y in r {
        var i :| 0 <= i < |r| && r[i] == y;
        assert s[if i < k then i else i + 1] == y;
      }
      if y in s && y != x {
        var i :| 0 <= i < |s| && s[i] == y;
        assert r[if i < k then i else i - 1] == y;
      }
    }
  }

  // ---------------------------------------------------------------------------
  // The changes a store undergoes

  /** `ts.Node()` with a label and a branch length: a new node with no children and no parent. */
  function AddNode(s: Store, name: Option<string>, edge: Option<real>): Store
  {
    Store(s.names + [name], s.edges + [edge], s.kids + [[]], s.parent + [None])
  }

  /** `p.add_child(c)`: `c` goes to the end of `p`'s children and `p` becomes its parent. */
  function Attach(s: Store, p: nat, c: nat): Store
    requires p < |s.kids| && c < |s.parent|
  {
    s.(kids := s.kids[p := s.kids[p] + [c]], parent := s.parent[c := Some(p)])
  }

  /** `p.remove_child(c)`: `c` leaves `p`'s children and has no parent any more. */
  function Detach(s: Store, p: nat, c: nat): Store
    requires p < |s.kids| && c < |s.parent| && c in s.kids[p]
  {
    s.(kids := s.kids[p := RemoveFirst(s.kids[p], c)], parent := s.parent[c := None])
  }

  lemma AddNodeLinked(s: Store, name: Option<string>, edge: Option<real>)
    requires Linked(s)
    ensures Linked(AddNode(s, name, edge))
  {
  }

  /** Attaching a node without a parent keeps the links in agreement. */
  lemma AttachLinked(s: Store, p: nat, c: nat)
    requires Linked(s) && p < |s.names| && c < |s.names| && s.parent[c].None?
    ensures Linked(Attach(s, p, c))
  {
    DetachedNotChild(s, c);
    var s' := Attach(s, p, c);
    forall n | 0 <= n < |s'.parent| && s'.parent[n].Some?
      ensures s'.parent[n].value < |s'.kids| && n in s'.kids[s'.parent[n].value]
    {
      if n != c {
        var q := s.parent[n].value;
        assert n in s.kids[q];
        if q == p {
          assert s'.kids[q] == s.kids[q] + [c];
        }
      } else {
        assert s'.kids[p] == s.kids[p] + [c];
      }
    }
  }

  /** Detaching a child from its parent keeps the links in agreement. */
  lemma DetachLinked(s: Store, p: nat, c: nat)
    requires Linked(s) && c < |s.names| && s.parent[c] == Some(p)
    ensures p < |s.kids| && c in s.kids[p]
    ensures Linked(Detach(s, p, c))
  {
    RemoveDistinct(s.kids[p], c);
    var s' := Detach(s, p, c);
    forall n, j | 0 <= n < |s'.kids| && 0 <= j < |s'.kids[n]|
      ensures s'.kids[n][j] < |s'.names| && s'.parent[s'.kids[n][j]] == Some(n)
    {
      var m := s'.kids[n][j];
      if n == p {
        assert m in s.kids[p] && m != c;
        var i :| 0 <= i < |s.kids[p]| && s.kids[p][i] == m;
      } else {
        assert s.kids[n][j] == m;
      }
    }
    forall n | 0 <= n < |s'.parent| && s'.parent[n].Some?
      ensures s'.parent[n].value < |s'.kids| && n in s'.kids[s'.parent[n].value]
    {
      var q := s.parent[n].value;
      assert n != c && n in s.kids[q];
    }
  }

  // ---------------------------------------------------------------------------
  // Building a copy of a tree (`nodecopy`, and `read_tree` for a whole tree)

  /** The four columns of the store have one entry per node. */
  ghost predicate Sized(s: Store)
  {
    |s.edges| == |s.names| && |s.kids| == |s.names| && |s.parent| == |s.names|
  }

  /** `s2` has at least the nodes of `s1`, and every node of `s1` numbered below `m` is as it was. */
  ghost predicate Kept(s1: Store, s2: Store, m: nat)
  {
    && Sized(s1) && Sized(s2) && |s1.names| <= |s2.names|
    && forall n :: 0 <= n < m && n < |s1.names| ==>
         s2.names[n] == s1.names[n] && s2.edges[n] == s1.edges[n] && s2.kids[n] == s1.kids[n] && s2.parent[n] == s1.parent[n]
  }

  /**
   * The store after the nodes of `t` are created after those of `s`, root first, each
   * child subtree built in turn and then attached to its parent with `add_child`.
   */
  ghost function Build(s: Store, t: Tree): (r: Store)
    requires Sized(s)
    ensures Sized(r) && |r.names| > |s.names|
    decreases t, 1
  {
    BuildKids(AddNode(s, t.name, t.edge), |s.names|, t, |t.children|)
  }

  /** The store after the first `k` children of `t` are built and attached to node `p`. */
  ghost function BuildKids(s: Store, p: nat, t: Tree, k: nat): (r: Store)
    requires Sized(s) && p < |s.names| && k <= |t.children|
    ensures Sized(r) && |r.names| >= |s.names|
    decreases t, 0, k
  {
    if k == 0 then s
    else
      var s1 := BuildKids(s, p, t, k - 1);
      Attach(Build(s1, t.children[k - 1]), p, |s1.names|)
  }

  /**
   * Building `t` leaves every existing node as it was; its first new node has the label and
   * branch length of `t`, one child per child of `t`, and no parent.
   */
  lemma {:induction false} BuildKept(s: Store, t: Tree)
    requires Sized(s)
    ensures var r := Build(s, t); var n := |s.names|;
      && Kept(s, r, n) && r.names[n] == t.name && r.edges[n] == t.edge && r.parent[n].None?
      && |r.kids[n]| == |t.children| && forall i :: 0 <= i < |r.kids[n]| ==> n < r.kids[n][i]
    decreases t, 1
  {
    BuildKidsKept(AddNode(s, t.name, t.edge), |s.names|, t, |t.children|);
  }

  /**
   * Building and attaching children of the newest node `p` leaves every older node as it
   * was and `p`'s label, length and parent too; `p`'s children are the new nodes, in order.
   */
  lemma {:induction false} BuildKidsKept(s: Store, p: nat, t: Tree, k: nat)
    requires Sized(s) && p + 1 == |s.names| && s.kids[p] == [] && k <= |t.children|
    ensures var r := BuildKids(s, p, t, k);
      && Kept(s, r, p) && r.names[p] == s.names[p] && r.edges[p] == s.edges[p] && r.parent[p] == s.parent[p]
      && |r.kids[p]| == k && forall i :: 0 <= i < k ==> p < r.kids[p][i]
    decreases t, 0, k
  {
    if k > 0 {
      var s1 := BuildKids(s, p, t, k - 1);
      BuildKidsKept(s, p, t, k - 1);
      BuildKept(s1, t.children[k - 1]);
    }
  }

  /** The first new node of a build spells out `t` using new nodes only. */
  lemma {:induction false} BuildDenotes(s: Store, t: Tree)
    requires Sized(s)
    ensures Denotes(Build(s, t), |s.names|, t, |s.names|)
    decreases t, 1
  {
    var n := |s.names|;
    var r := Build(s, t);
    BuildKept(s, t);
    BuildKidsDenotes(AddNode(s, t.name, t.edge), n, t, |t.children|);
    forall j | 0 <= j < |t.children| ensures Denotes(r, r.kids[n][j], t.children[j], n) {
      DenotesLower(r, r.kids[n][j], t.children[j], r.kids[n][j], n);
    }
  }

  /** Attaching below `p` disturbs no subtree numbered above `p` that a build left alone. */
  lemma KeptAttachDenotes(s1: Store, s2: Store, p: nat, c: nat, id: nat, t: Tree)
    requires Denotes(s1, id, t, id) && Kept(s1, s2, |s1.names|) && p < id && p < |s2.names| && c < |s2.names|
    ensures Denotes(Attach(s2, p, c), id, t, id)
  {
    assert Agree(s1, Attach(s2, p, c), id);
    DenotesFrame(s1, Attach(s2, p, c), id, t, id);
  }

  /** The `k` children given to the newest node `p` spell out the first `k` children of `t`. */
  lemma {:induction false} BuildKidsDenotes(s: Store, p: nat, t: Tree, k: nat)
    requires Sized(s) && p + 1 == |s.names| && s.kids[p] == [] && k <= |t.children|
    ensures var r := BuildKids(s, p, t, k);
      |r.kids[p]| == k && forall i :: 0 <= i < k ==> Denotes(r, r.kids[p][i], t.children[i], r.kids[p][i])
    decreases t, 0, k
  {
    if k > 0 {
      var s1 := BuildKids(s, p, t, k - 1);
      BuildKidsKept(s, p, t, k - 1);
      BuildKidsDenotes(s, p, t, k - 1);
      var c := |s1.names|;
      var s2 := Build(s1, t.children[k - 1]);
      BuildKept(s1, t.children[k - 1]);
      BuildDenotes(s1, t.children[k - 1]);
      var r := Attach(s2, p, c);
      assert r.kids[p] == s1.kids[p] + [c];
      forall i | 0 <= i < k ensures Denotes(r, r.kids[p][i], t.children[i], r.kids[p][i]) {
        if i < k - 1 {
          KeptAttachDenotes(s1, s2, p, c, s1.kids[p][i], t.children[i]);
        } else {
          assert Kept(s2, s2, |s2.names|);
          KeptAttachDenotes(s2, s2, p, c, c, t.children[i]);
        }
      }
    }
  }

  /** Building keeps the links of the store in agreement. */
  lemma {:induction false} BuildLinked(s: Store, t: Tree)
    requires Linked(s)
    ensures Linked(Build(s, t))
    decreases t, 1
  {
    AddNodeLinked(s, t.name, t.edge);
    BuildKidsLinked(AddNode(s, t.name, t.edge), |s.names|, t, |t.children|);
  }

  lemma {:induction false} BuildKidsLinked(s: Store, p: nat, t: Tree, k: nat)
    requires Linked(s) && p + 1 == |s.names| && s.kids[p] == [] && k <= |t.children|
    ensures Linked(BuildKids(s, p, t, k))
    decreases t, 0, k
  {
    if k > 0 {
      var s1 := BuildKids(s, p, t, k - 1);
      BuildKidsLinked(s, p, t, k - 1);
      BuildLinked(s1, t.children[k - 1]);
      BuildKept(s1, t.children[k - 1]);
      AttachLinked(Build(s1, t.children[k - 1]), p, |s1.names|);
    }
  }

  /** Everything the tree object relies on about a build. */
  lemma BuildSpec(s: Store, t: Tree)
    requires Linked(s)
    ensures var r := Build(s, t); var n := |s.names|;
      Linked(r) && r.parent[n].None? && Denotes(r, n, t, n) && Kept(s, r, n)
  {
    BuildKept(s, t);
    BuildDenotes(s, t);
    BuildLinked(s, t);
  }

  /**
   * The store after leaf `e` is taken from its parent and a copy of `c` is built after all
   * nodes and attached to that parent in its stead.
   */
  ghost function Grafted(s: Store, e: nat, c: Tree): Store
    requires Linked(s) && e < |s.names| && s.parent[e].Some?
  {
    var p := s.parent[e].value;
    DetachLinked(s, p, e);
    var d := Detach(s, p, e);
    Attach(Build(d, c), p, |s.names|)
  }

  /**
   * A graft keeps the links in agreement; the parent `p` of `e` loses `e` and gains, at the
   * end of its children, a new node that spells out `c` and has `p` as its parent; `e` has
   * no parent any more; no other existing node changes.
   */
  lemma GraftSpec(s: Store, e: nat, c: Tree)
    requires Linked(s) && e < |s.names| && s.parent[e].Some?
    ensures var r := Grafted(s, e, c); var n := |s.names|; var p := s.parent[e].value;
      && Linked(r) && |r.names| > n && p < n && r.parent[e].None? && r.parent[n] == Some(p)
      && r.kids[p] == RemoveFirst(s.kids[p], e) + [n]
      && Denotes(r, n, c, n)
      && (forall m :: 0 <= m < n ==> r.names[m] == s.names[m] && r.edges[m] == s.edges[m])
      && (forall m :: 0 <= m < n && m != p ==> r.kids[m] == s.kids[m])
      && (forall m :: 0 <= m < n && m != e ==> r.parent[m] == s.parent[m])
  {
    var p := s.parent[e].value;
    var n := |s.names|;
    DetachLinked(s, p, e);
    var d := Detach(s, p, e);
    BuildSpec(d, c);
    var b := Build(d, c);
    AttachLinked(b, p, n);
    var r := Attach(b, p, n);
    assert Agree(b, r, n);
    DenotesFrame(b, r, n, c, n);
  }

  // ---------------------------------------------------------------------------
  // The tree object

  class NJTree {
    var names: seq<Option<string>>
    var edges: seq<Option<real>>
    var kids: seq<seq<nat>>
    var parent: seq<Option<nat>>
    var root: nat

    function View(): Store
      reads this
    {
      Store(names, edges, kids, parent)
    }

    ghost predicate Valid()
      reads this
    {
      Linked(View()) && root < |names| && parent[root].None?
    }

    /** `ts.read_tree(tree_string, schema="newick")`, given the parsed tree: its nodes, root first. */
    constructor FromTree(t: Tree)
      ensures Valid() && root == 0 && Denotes(View(), 0, t, 0)
    {
      names, edges, kids, parent, root := [], [], [], [], 0;
      new;
      root := AddSubtree(t);
      BuildSpec(Store([], [], [], []), t);
    }

    /**
     * Builds the nodes of `t` after the existing ones, wiring each child to its parent with
     * `add_child`; the new subtree hangs from no node.
     */
    method AddSubtree(t: Tree) returns (r: nat)
      requires Sized(View())
      modifies this
      ensures r == old(|names|) && View() == Build(old(View()), t) && root == old(root)
      decreases t
    {
      r := |names|;
      names, edges, kids, parent := names + [t.name], edges + [t.edge], kids + [[]], parent + [None];
      for j := 0 to |t.children|
        invariant View() == BuildKids(AddNode(old(View()), t.name, t.edge), r, t, j) && root == old(root)
      {
        var c := AddSubtree(t.children[j]);
        kids := kids[r := kids[r] + [c]];
        parent := parent[c := Some(r)];
      }
    }

    /**
     * `leaf_map[n.label] = n` for every leaf: each label of a leaf maps to a leaf bearing it.
     * Leaves are scanned in node order, so with repeated labels the leaf kept may differ from
     * the postorder traversal's last one.
     */
    method LeafMap() returns (m: map<string, nat>)
      requires Valid()
      ensures forall k :: k in m ==> m[k] < |names| && kids[m[k]] == [] && names[m[k]] == Some(k)
      ensures forall n :: 0 <= n < |names| && kids[n] == [] && names[n].Some? ==> names[n].value in m
    {
      m := map[];
      for n := 0 to |names|
        invariant forall k :: k in m ==> m[k] < n && kids[m[k]] == [] && names[m[k]] == Some(k)
        invariant forall i :: 0 <= i < n && kids[i] == [] && names[i].Some? ==> names[i].value in m
      {
        if kids[n] == [] && names[n].Some? {
          m := m[names[n].value := n];
        }
      }
    }

    /**
     * Lines 150-154 of run_NJreestimate.py (and 101-105 of main.py): take leaf `e` away from
     * its parent, copy `clade` with `nodecopy`, give the copy the branch length of `e` and
     * attach it to the same parent. Fails, changing nothing, when `e` has no parent.
     */
    method Graft(e: nat, clade: Tree) returns (ok: bool)
      requires Valid() && e < |names|
      modifies this
      ensures ok <==> old(parent[e]).Some?
      ensures !ok ==> View() == old(View())
      ensures ok ==> View() == Grafted(old(View()), e, NodeCopy(clade).(edge := old(edges[e])))
      ensures Valid() && root == old(root)
    {
      if parent[e].None? {
        return false;
      }
      ok := true;
      var p := parent[e].value;
      DetachLinked(View(), p, e);
      kids := kids[p := RemoveFirst(kids[p], e)];
      parent := parent[e := None];
      var copy := NodeCopy(clade).(edge := edges[e]);
      var r := AddSubtree(copy);
      kids := kids[p := kids[p] + [r]];
      parent := parent[r := Some(p)];
      GraftSpec(old(View()), e, copy);
    }
  }
}
