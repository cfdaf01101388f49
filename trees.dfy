/**
 * The reference tree as a value: a treeswift node has an optional label, an optional
 * edge length and an ordered list of children, and it is a leaf exactly when that list
 * is empty. A node inside a tree is named by its path, the child indices on the way
 * down from the root, so the ancestors of a node are the prefixes of its path.
 */
module Trees {
  import opened Wrappers

  datatype Tree = Node(name: Option<string>, edge: Option<real>, children: seq<Tree>)

  type Path = seq<nat>

  // ---------------------------------------------------------------------------
  // Sequences of sequences

  function Flatten<T>(ss: seq<seq<T>>): seq<T>
  {
    if ss == [] then [] else ss[0] + Flatten(ss[1..])
  }

  lemma {:induction false} FlattenMember<T>(ss: seq<seq<T>>, x: T)
    ensures x in Flatten(ss) <==> exists i :: 0 <= i < |ss| && x in ss[i]
  {
    if ss != [] {
      FlattenMember(ss[1..], x);
      if x in Flatten(ss[1..]) {
        var i :| 0 <= i < |ss[1..]| && x in ss[1..][i];
        assert x in ss[i + 1];
      }
      if exists i :: 0 <= i < |ss| && x in ss[i] {
        var i :| 0 <= i < |ss| && x in ss[i];
        if i > 0 {
          assert x in ss[1..][i - 1];
        }
      }
    }
  }

  /** Two sequences of sequences of the same lengths flatten to sequences of the same length. */
  lemma {:induction false} FlattenSameLength<T, U>(a: seq<seq<T>>, b: seq<seq<U>>)
    requires |a| == |b|
    requires forall i :: 0 <= i < |a| ==> |a[i]| == |b[i]|
    ensures |Flatten(a)| == |Flatten(b)|
  {
    if a != [] {
      FlattenSameLength(a[1..], b[1..]);
    }
  }

  /** Position `j` of both flattenings comes from the same inner position `(i, k)`. */
  lemma {:induction false} FlattenAt<T, U>(a: seq<seq<T>>, b: seq<seq<U>>, j: nat) returns (i: nat, k: nat)
    requires |a| == |b|
    requires forall i :: 0 <= i < |a| ==> |a[i]| == |b[i]|
    requires j < |Flatten(a)|
    ensures |Flatten(a)| == |Flatten(b)|
    ensures i < |a| && k < |a[i]|
    ensures Flatten(a)[j] == a[i][k] && Flatten(b)[j] == b[i][k]
  {
    FlattenSameLength(a, b);
    if j < |a[0]| {
      i, k := 0, j;
    } else {
      var i', k' := FlattenAt(a[1..], b[1..], j - |a[0]|);
      i, k := i' + 1, k';
    }
  }

  // ---------------------------------------------------------------------------
  // Paths

  predicate ValidPath(t: Tree, p: Path)
    decreases p
  {
    p == [] || (p[0] < |t.children| && ValidPath(t.children[p[0]], p[1..]))
  }

  function Subtree(t: Tree, p: Path): Tree
    requires ValidPath(t, p)
    decreases p
  {
    if p == [] then t else Subtree(t.children[p[0]], p[1..])
  }

  /** Going one more step down a path reaches a child of the node the path names. */
  lemma {:induction false} SubtreeChild(t: Tree, p: Path, i: nat)
    requires ValidPath(t, p) && i < |Subtree(t, p).children|
    ensures ValidPath(t, p + [i])
    ensures Subtree(t, p + [i]) == Subtree(t, p).children[i]
    decreases p
  {
    if p != [] {
      assert (p + [i])[1..] == p[1..] + [i];
      SubtreeChild(t.children[p[0]], p[1..], i);
    }
  }

  /** Every prefix of a valid path is valid: the ancestors of a node exist. */
  lemma {:induction false} PrefixValid(t: Tree, p: Path, k: nat)
    requires ValidPath(t, p) && k <= |p|
    ensures ValidPath(t, p[..k])
    decreases p
  {
    if k > 0 {
      assert p[..k][1..] == p[1..][..k - 1];
      PrefixValid(t.children[p[0]], p[1..], k - 1);
    }
  }

  /** The node named by `p` is the last child index of `p` below its parent. */
  lemma ParentOf(t: Tree, p: Path)
    requires ValidPath(t, p) && |p| > 0
    ensures ValidPath(t, p[..|p| - 1])
    ensures p[|p| - 1] < |Subtree(t, p[..|p| - 1]).children|
    ensures Subtree(t, p) == Subtree(t, p[..|p| - 1]).children[p[|p| - 1]]
  {
    var q, i := p[..|p| - 1], p[|p| - 1];
    assert q + [i] == p;
    ParentStep(t, q, i);
  }

  lemma {:induction false} ParentStep(t: Tree, q: Path, i: nat)
    requires ValidPath(t, q + [i])
    ensures ValidPath(t, q) && i < |Subtree(t, q).children|
    ensures Subtree(t, q + [i]) == Subtree(t, q).children[i]
    decreases q
  {
    if q != [] {
      assert (q + [i])[1..] == q[1..] + [i];
      ParentStep(t.children[q[0]], q[1..], i);
    }
  }

  // ---------------------------------------------------------------------------
  // get_labels: the labels of the leaves under a node, in postorder

  function Labels(t: Tree): (r: seq<Option<string>>)
    ensures |r| > 0
    decreases t, 1
  {
    if t.children == [] then [t.name] else Flatten(ChildLabels(t))
  }

  function ChildLabels(t: Tree): (r: seq<seq<Option<string>>>)
    ensures |r| == |t.children|
    ensures forall i :: 0 <= i < |r| ==> r[i] == Labels(t.children[i])
    decreases t, 0
  {
    seq(|t.children|, i requires 0 <= i < |t.children| => Labels(t.children[i]))
  }

  /** The paths of the leaves of `t`, in postorder (`traverse_postorder(internal=False)`). */
  function LeafPaths(t: Tree): seq<Path>
    decreases t, 1
  {
    if t.children == [] then [[]] else Flatten(ChildLeafPaths(t))
  }

  function ChildLeafPaths(t: Tree): (r: seq<seq<Path>>)
    ensures |r| == |t.children|
    ensures forall i :: 0 <= i < |r| ==> r[i] == Prefixed(i, LeafPaths(t.children[i]))
    decreases t, 0
  {
    seq(|t.children|, i requires 0 <= i < |t.children| => Prefixed(i, LeafPaths(t.children[i])))
  }

  function Prefixed(i: nat, ps: seq<Path>): (r: seq<Path>)
    ensures |r| == |ps| && forall j :: 0 <= j < |ps| ==> r[j] == [i] + ps[j]
  {
    seq(|ps|, j requires 0 <= j < |ps| => [i] + ps[j])
  }

  lemma StepDown(t: Tree, i: nat, q: Path)
    requires i < |t.children| && ValidPath(t.children[i], q)
    ensures ValidPath(t, [i] + q) && Subtree(t, [i] + q) == Subtree(t.children[i], q)
  {
    assert ([i] + q)[1..] == q;
  }

  /**
   * get_labels lists exactly the leaves under a node in postorder: its j-th entry is the
   * label of the leaf at the j-th leaf path, so its length is the number of leaves.
   */
  lemma {:induction false} LeafPathsLabels(t: Tree)
    ensures |LeafPaths(t)| == |Labels(t)|
    ensures forall j :: 0 <= j < |LeafPaths(t)| ==>
      && ValidPath(t, LeafPaths(t)[j])
      && Subtree(t, LeafPaths(t)[j]).children == []
      && Subtree(t, LeafPaths(t)[j]).name == Labels(t)[j]
    decreases t
  {
    if t.children != [] {
      var a, b := ChildLeafPaths(t), ChildLabels(t);
      forall i | 0 <= i < |t.children| ensures |a[i]| == |b[i]| {
        LeafPathsLabels(t.children[i]);
      }
      FlattenSameLength(a, b);
      forall j | 0 <= j < |LeafPaths(t)|
        ensures ValidPath(t, LeafPaths(t)[j])
        ensures Subtree(t, LeafPaths(t)[j]).children == []
        ensures Subtree(t, LeafPaths(t)[j]).name == Labels(t)[j]
      {
        var i, k := FlattenAt(a, b, j);
        LeafPathsLabels(t.children[i]);
        StepDown(t, i, LeafPaths(t.children[i])[k]);
      }
    }
  }

  /** Conversely every leaf of `t` is listed among the leaf paths. */
  lemma {:induction false} LeafPathsComplete(t: Tree, p: Path)
    requires ValidPath(t, p) && Subtree(t, p).children == []
    ensures p in LeafPaths(t)
    decreases p
  {
    if p != [] {
      var c := t.children[p[0]];
      assert p == [p[0]] + p[1..];
      LeafPathsComplete(c, p[1..]);
      var k :| 0 <= k < |LeafPaths(c)| && LeafPaths(c)[k] == p[1..];
      assert p in ChildLeafPaths(t)[p[0]];
      FlattenMember(ChildLeafPaths(t), p);
    }
  }

  /** The labels under a child are among the labels under its parent. */
  lemma ChildLabelsIncluded(t: Tree, i: nat, x: Option<string>)
    requires i < |t.children| && x in Labels(t.children[i])
    ensures x in Labels(t)
  {
    FlattenMember(ChildLabels(t), x);
  }

  /** The labels under a node are among the labels under each of its ancestors. */
  lemma {:induction false} AncestorLabels(t: Tree, q: Path, p: Path, x: Option<string>)
    requires ValidPath(t, p) && q <= p && x in Labels(Subtree(t, p))
    ensures ValidPath(t, q) && x in Labels(Subtree(t, q))
    decreases |p|
  {
    if |q| == |p| {
      assert q == p;
    } else {
      ParentOf(t, p);
      var p' := p[..|p| - 1];
      ChildLabelsIncluded(Subtree(t, p'), p[|p| - 1], x);
      AncestorLabels(t, q, p', x);
    }
  }

  /** Going down `p` and then `r` is going down `p + r`. */
  lemma {:induction false} SubtreeConcat(t: Tree, p: Path, r: Path)
    requires ValidPath(t, p) && ValidPath(Subtree(t, p), r)
    ensures ValidPath(t, p + r) && Subtree(t, p + r) == Subtree(Subtree(t, p), r)
    decreases p
  {
    if p == [] {
      assert p + r == r;
    } else {
      assert (p + r)[0] == p[0] && (p + r)[1..] == p[1..] + r;
      SubtreeConcat(t.children[p[0]], p[1..], r);
    }
  }

  /** Every label under a node is carried by a leaf below it. */
  lemma LeafBelow(t: Tree, p: Path, x: Option<string>) returns (q: Path)
    requires ValidPath(t, p) && x in Labels(Subtree(t, p))
    ensures p <= q && ValidPath(t, q)
    ensures Subtree(t, q).children == [] && Subtree(t, q).name == x
  {
    var s := Subtree(t, p);
    LeafPathsLabels(s);
    var j :| 0 <= j < |Labels(s)| && Labels(s)[j] == x;
    SubtreeConcat(t, p, LeafPaths(s)[j]);
    q := p + LeafPaths(s)[j];
  }

  /** A leaf's label is among the labels under each of its ancestors. */
  lemma LeafInClade(t: Tree, p: Path, q: Path)
    requires ValidPath(t, q) && Subtree(t, q).children == [] && p <= q
    ensures ValidPath(t, p) && Subtree(t, q).name in Labels(Subtree(t, p))
  {
    AncestorLabels(t, p, q, Subtree(t, q).name);
  }

  /** No label is carried by two different leaves. */
  ghost predicate UniqueLeafLabels(t: Tree)
  {
    forall p, q ::
      (&& ValidPath(t, p) && ValidPath(t, q)
       && Subtree(t, p).children == [] && Subtree(t, q).children == []
       && Subtree(t, p).name.Some? && Subtree(t, p).name == Subtree(t, q).name)
      ==> p == q
  }

  /**
   * With unique leaf labels, two nodes under which the same label occurs lie on the
   * path to the one leaf carrying it.
   */
  lemma CommonLeaf(t: Tree, p1: Path, p2: Path, x: Option<string>) returns (q: Path)
    requires UniqueLeafLabels(t) && x.Some?
    requires ValidPath(t, p1) && x in Labels(Subtree(t, p1))
    requires ValidPath(t, p2) && x in Labels(Subtree(t, p2))
    ensures p1 <= q && p2 <= q
  {
    q := LeafBelow(t, p1, x);
    var q2 := LeafBelow(t, p2, x);
    assert q == q2;
  }

  /** Two ancestors of the same node are ancestor and descendant of each other. */
  lemma PrefixesNested(a: Path, b: Path, q: Path)
    requires a <= q && b <= q && |a| <= |b|
    ensures a <= b
  {
    assert a == q[..|a|] && b == q[..|b|];
    assert b[..|a|] == q[..|a|];
  }

  // ---------------------------------------------------------------------------
  // leafs_with_dups_map: label -> leaf, built over the postorder leaves

  function LastIndex<T(==)>(s: seq<T>, x: T): (r: nat)
    requires x in s
    ensures r < |s| && s[r] == x
    ensures forall i :: r < i < |s| ==> s[i] != x
  {
    if s[|s| - 1] == x then |s| - 1 else LastIndex(s[..|s| - 1], x)
  }

  /**
   * The dictionary from leaf label to leaf node, filled in postorder: it has an entry
   * for every label that occurs on a leaf, and a label found on several leaves keeps
   * the last of them.
   */
  method IndexLeaves(t: Tree) returns (m: map<string, Path>)
    ensures |LeafPaths(t)| == |Labels(t)|
    ensures forall x :: x in m <==> Some(x) in Labels(t)
    ensures forall x :: x in m ==> m[x] == LeafPaths(t)[LastIndex(Labels(t), Some(x))]
    ensures forall x :: x in m ==>
      ValidPath(t, m[x]) && Subtree(t, m[x]).children == [] && Subtree(t, m[x]).name == Some(x)
  {
    var ps, ls := LeafPaths(t), Labels(t);
    LeafPathsLabels(t);
    m := map[];
    for j := 0 to |ps|
      invariant forall x :: x in m <==> Some(x) in ls[..j]
      invariant forall x :: x in m ==> m[x] == ps[LastIndex(ls[..j], Some(x))]
    {
      var m' := if ls[j].Some? then m[ls[j].value := ps[j]] else m;
      forall x ensures x in m' <==> Some(x) in ls[..j + 1] {
        assert ls[..j + 1] == ls[..j] + [ls[j]];
      }
      forall x | x in m' ensures m'[x] == ps[LastIndex(ls[..j + 1], Some(x))] {
        LastIndexStep(ls, j, Some(x));
      }
      m := m';
    }
    assert ls[..|ps|] == ls;
    forall x | x in m
      ensures ValidPath(t, m[x]) && Subtree(t, m[x]).children == [] && Subtree(t, m[x]).name == Some(x)
    {
      var j := LastIndex(ls, Some(x));
    }
  }

  lemma LastIndexStep<T>(s: seq<T>, j: nat, y: T)
    requires j < |s| && y in s[..j + 1]
    ensures s[j] != y ==> y in s[..j]
    ensures LastIndex(s[..j + 1], y) == if s[j] == y then j else LastIndex(s[..j], y)
  {
    assert s[..j + 1][..j] == s[..j];
  }

  // ---------------------------------------------------------------------------
  // nodecopy

  /** The trees have the same branching: the same number of children at every node. */
  ghost predicate SameShape(a: Tree, b: Tree)
    decreases a
  {
    |a.children| == |b.children| &&
    forall i :: 0 <= i < |a.children| ==> SameShape(a.children[i], b.children[i])
  }

  ghost predicate ZeroEdges(t: Tree)
    decreases t
  {
    t.edge == Some(0.0) && forall i :: 0 <= i < |t.children| ==> ZeroEdges(t.children[i])
  }

  ghost predicate UnlabelledInternals(t: Tree)
    decreases t
  {
    (t.children != [] ==> t.name == None) &&
    forall i :: 0 <= i < |t.children| ==> UnlabelledInternals(t.children[i])
  }

  /**
   * nodecopy: a fresh tree of the same shape whose leaves carry the same labels in the
   * same order, whose internal nodes carry no label, and whose edge lengths are all 0.
   * These four facts determine the copy completely (`NodeCopyUnique`).
   */
  function NodeCopy(t: Tree): (r: Tree)
    ensures SameShape(r, t)
    ensures Labels(r) == Labels(t)
    ensures ZeroEdges(r)
    ensures UnlabelledInternals(r)
    decreases t, 1
  {
    if t.children == [] then Node(t.name, Some(0.0), [])
    else
      var r := Node(None, Some(0.0), CopyChildren(t));
      assert ChildLabels(r) == ChildLabels(t);
      r
  }

  function CopyChildren(t: Tree): (r: seq<Tree>)
    ensures |r| == |t.children|
    ensures forall i :: 0 <= i < |r| ==> r[i] == NodeCopy(t.children[i])
    decreases t, 0
  {
    seq(|t.children|, i requires 0 <= i < |t.children| => NodeCopy(t.children[i]))
  }

  /** Flattenings that agree, of inner sequences of the same lengths, come from equal sequences. */
  lemma {:induction false} FlattenInjective<T>(a: seq<seq<T>>, b: seq<seq<T>>)
    requires |a| == |b|
    requires forall i :: 0 <= i < |a| ==> |a[i]| == |b[i]|
    requires Flatten(a) == Flatten(b)
    ensures a == b
  {
    if a != [] {
      assert a[0] == Flatten(a)[..|a[0]|] && b[0] == Flatten(b)[..|b[0]|];
      assert Flatten(a[1..]) == Flatten(a)[|a[0]|..] && Flatten(b[1..]) == Flatten(b)[|b[0]|..];
      FlattenInjective(a[1..], b[1..]);
      assert a == [a[0]] + a[1..] && b == [b[0]] + b[1..];
    }
  }

  /** Trees of the same shape have the same number of leaves. */
  lemma {:induction false} SameShapeLeafCount(a: Tree, b: Tree)
    requires SameShape(a, b)
    ensures |Labels(a)| == |Labels(b)|
    decreases a
  {
    if a.children != [] {
      forall i | 0 <= i < |a.children| ensures |ChildLabels(a)[i]| == |ChildLabels(b)[i]| {
        SameShapeLeafCount(a.children[i], b.children[i]);
      }
      FlattenSameLength(ChildLabels(a), ChildLabels(b));
    }
  }

  /** The four facts `NodeCopy` ensures determine the copy: any tree meeting them is the copy. */
  lemma {:induction false} NodeCopyUnique(t: Tree, r: Tree)
    requires SameShape(r, t) && Labels(r) == Labels(t)
    requires ZeroEdges(r) && UnlabelledInternals(r)
    ensures r == NodeCopy(t)
    decreases t
  {
    if t.children != [] {
      forall i | 0 <= i < |t.children| ensures |ChildLabels(r)[i]| == |ChildLabels(t)[i]| {
        SameShapeLeafCount(r.children[i], t.children[i]);
      }
      FlattenInjective(ChildLabels(r), ChildLabels(t));
      forall i | 0 <= i < |t.children| ensures r.children[i] == NodeCopy(t.children[i]) {
        assert Labels(r.children[i]) == ChildLabels(r)[i];
        NodeCopyUnique(t.children[i], r.children[i]);
      }
      assert r.children == CopyChildren(t);
    }
  }

  /** Copying a copy changes nothing. */
  lemma {:induction false} NodeCopyIdempotent(t: Tree)
    ensures NodeCopy(NodeCopy(t)) == NodeCopy(t)
    decreases t
  {
    if t.children != [] {
      var c := NodeCopy(t);
      forall i | 0 <= i < |t.children| ensures NodeCopy(c.children[i]) == c.children[i] {
        NodeCopyIdempotent(t.children[i]);
      }
      assert CopyChildren(c) == c.children;
    }
  }

  // ---------------------------------------------------------------------------
  // The most recent common ancestor of a set of leaves

  function CommonPrefix(p: Path, q: Path): (r: Path)
    ensures r <= p && r <= q
  {
    if p == [] || q == [] || p[0] != q[0] then []
    else [p[0]] + CommonPrefix(p[1..], q[1..])
  }

  lemma {:induction false} CommonPrefixDeepest(p: Path, q: Path, s: Path)
    requires s <= p && s <= q
    ensures s <= CommonPrefix(p, q)
  {
    if s != [] {
      CommonPrefixDeepest(p[1..], q[1..], s[1..]);
    }
  }

  /**
   * The path of the deepest node above all the given nodes: a prefix of every path, and
   * every common prefix is a prefix of it.
   */
  function Mrca(ps: seq<Path>): (r: Path)
    requires |ps| > 0
    ensures forall i :: 0 <= i < |ps| ==> r <= ps[i]
    decreases |ps|
  {
    if |ps| == 1 then ps[0] else CommonPrefix(Mrca(ps[..|ps| - 1]), ps[|ps| - 1])
  }

  lemma {:induction false} MrcaDeepest(ps: seq<Path>, s: Path)
    requires |ps| > 0
    requires forall i :: 0 <= i < |ps| ==> s <= ps[i]
    ensures s <= Mrca(ps)
    decreases |ps|
  {
    if |ps| > 1 {
      MrcaDeepest(ps[..|ps| - 1], s);
      CommonPrefixDeepest(Mrca(ps[..|ps| - 1]), ps[|ps| - 1], s);
    }
  }
}
