/**
 * Grouping of the reference sequences by identical content: `seqdict` maps each distinct
 * sequence to the names that carry it. Both scripts build it the same way and abort
 * unless there are more than three distinct sequences; `alltags` lists every name, and
 * the older script also lists the first name of each group (`uniqtags`).
 */
module Grouping {
  import opened Wrappers
  import opened Dicts

  /** One record of the reference alignment: a tip name and its sequence (the quality string is dropped). */
  datatype Record = Record(name: string, sequence: string)

  type SeqDict = Dict<string, seq<string>>

  function Names(rs: seq<Record>): (ns: seq<string>)
    ensures |ns| == |rs| && forall i :: 0 <= i < |rs| ==> ns[i] == rs[i].name
  {
    seq(|rs|, i requires 0 <= i < |rs| => rs[i].name)
  }

  function Sequences(rs: seq<Record>): set<string>
  {
    set r | r in rs :: r.sequence
  }

  /** The names of the records that carry sequence `s`, in input order. */
  function NamesWith(rs: seq<Record>, s: string): seq<string>
  {
    if rs == [] then []
    else NamesWith(rs[..|rs| - 1], s) + (if rs[|rs| - 1].sequence == s then [rs[|rs| - 1].name] else [])
  }

  /** The names of the records whose sequence lies in `ss`, in input order. */
  function NamesIn(rs: seq<Record>, ss: set<string>): seq<string>
  {
    if rs == [] then []
    else NamesIn(rs[..|rs| - 1], ss) + (if rs[|rs| - 1].sequence in ss then [rs[|rs| - 1].name] else [])
  }

  /** The position of the first record carrying `s`, or `|rs|` when there is none. */
  function FirstIndex(rs: seq<Record>, s: string): (k: nat)
    ensures k <= |rs|
    ensures k < |rs| ==> rs[k].sequence == s
    ensures forall i :: 0 <= i < k ==> rs[i].sequence != s
  {
    if rs == [] then 0 else if rs[0].sequence == s then 0 else 1 + FirstIndex(rs[1..], s)
  }

  /**
   * What `seqdict` holds after reading `rs`: one entry per distinct sequence, the
   * sequences in order of first occurrence, and for each the names carrying it in input order.
   */
  ghost predicate IsGrouping(rs: seq<Record>, d: SeqDict)
  {
    && d.Valid()
    && (forall s :: s in d.values <==> s in Sequences(rs))
    && (forall i, j :: 0 <= i < j < |d.keys| ==> FirstIndex(rs, d.keys[i]) < FirstIndex(rs, d.keys[j]))
    && (forall s :: s in d.values ==> d.values[s] == NamesWith(rs, s))
  }

  // ---------------------------------------------------------------------------
  // Building seqdict

  /** The loop that fills `seqdict` from the records, in input order. */
  method GroupBySequence(rs: seq<Record>) returns (d: SeqDict)
    ensures IsGrouping(rs, d)
  {
    d := Empty();
    for i := 0 to |rs|
      invariant IsGrouping(rs[..i], d)
    {
      GroupingStep(rs, i, d);
      d := AddRecord(d, rs[i]);
    }
    assert rs[..|rs|] == rs;
  }

  lemma {:induction false} FirstIndexAppend(a: seq<Record>, b: seq<Record>, s: string)
    ensures FirstIndex(a + b, s) == if FirstIndex(a, s) < |a| then FirstIndex(a, s) else |a| + FirstIndex(b, s)
  {
    if a == [] {
      assert a + b == b;
    } else {
      assert (a + b)[0] == a[0];
      assert (a + b)[1..] == a[1..] + b;
      FirstIndexAppend(a[1..], b, s);
    }
  }

  lemma FirstIndexBelow(rs: seq<Record>, s: string)
    ensures FirstIndex(rs, s) < |rs| <==> s in Sequences(rs)
  {
    if s in Sequences(rs) {
      var k :| 0 <= k < |rs| && rs[k].sequence == s;
    }
  }

  /** Reading one more record keeps the first occurrences already seen. */
  lemma FirstIndexStep(rs: seq<Record>, i: nat, s: string)
    requires i < |rs|
    ensures FirstIndex(rs[..i + 1], s) ==
      if s in Sequences(rs[..i]) then FirstIndex(rs[..i], s) else if rs[i].sequence == s then i else i + 1
  {
    assert rs[..i + 1] == rs[..i] + [rs[i]];
    FirstIndexAppend(rs[..i], [rs[i]], s);
    FirstIndexBelow(rs[..i], s);
  }

  /** The body of the grouping loop: `seqdict[seq].append(name)` or `seqdict[seq] = [name]`. */
  function AddRecord(d: SeqDict, r: Record): SeqDict
    requires d.Valid()
  {
    if r.sequence in d.values then d.Put(r.sequence, d.values[r.sequence] + [r.name])
    else d.Put(r.sequence, [r.name])
  }

  lemma GroupingStep(rs: seq<Record>, i: nat, d: SeqDict)
    requires i < |rs| && IsGrouping(rs[..i], d)
    ensures IsGrouping(rs[..i + 1], AddRecord(d, rs[i]))
  {
    StepKeys(rs, i, d);
    StepOrder(rs, i, d);
    StepValues(rs, i, d);
  }

  lemma StepKeys(rs: seq<Record>, i: nat, d: SeqDict)
    requires i < |rs| && IsGrouping(rs[..i], d)
    ensures var d' := AddRecord(d, rs[i]);
      d'.Valid() && forall s :: s in d'.values <==> s in Sequences(rs[..i + 1])
  {
    assert rs[..i + 1] == rs[..i] + [rs[i]];
    assert Sequences(rs[..i + 1]) == Sequences(rs[..i]) + {rs[i].sequence};
  }

  lemma StepOrder(rs: seq<Record>, i: nat, d: SeqDict)
    requires i < |rs| && IsGrouping(rs[..i], d)
    ensures var d' := AddRecord(d, rs[i]);
      forall a, b :: 0 <= a < b < |d'.keys| ==> FirstIndex(rs[..i + 1], d'.keys[a]) < FirstIndex(rs[..i + 1], d'.keys[b])
  {
    var d' := AddRecord(d, rs[i]);
    forall a, b | 0 <= a < b < |d'.keys| ensures FirstIndex(rs[..i + 1], d'.keys[a]) < FirstIndex(rs[..i + 1], d'.keys[b]) {
      var x, y := d'.keys[a], d'.keys[b];
      assert x in d.values;
      FirstIndexStep(rs, i, x);
      FirstIndexStep(rs, i, y);
      FirstIndexBelow(rs[..i], x);
      if b < |d.keys| {
        assert y in d.values;
      } else {
        assert y == rs[i].sequence && y !in Sequences(rs[..i]);
      }
    }
  }

  lemma StepValues(rs: seq<Record>, i: nat, d: SeqDict)
    requires i < |rs| && IsGrouping(rs[..i], d)
    ensures var d' := AddRecord(d, rs[i]);
      forall x :: x in d'.values ==> d'.values[x] == NamesWith(rs[..i + 1], x)
  {
    var r := rs[i];
    var d' := AddRecord(d, r);
    assert rs[..i + 1][..i] == rs[..i];
    forall x | x in d'.values ensures d'.values[x] == NamesWith(rs[..i + 1], x) {
      assert NamesWith(rs[..i + 1], x) == NamesWith(rs[..i], x) + (if r.sequence == x then [r.name] else []);
      if x == r.sequence && x !in d.values {
        NamesWithEmpty(rs[..i], x);
      }
    }
  }

  // ---------------------------------------------------------------------------
  // The abort on too few distinct sequences

  lemma {:induction false} DistinctCount<T>(xs: seq<T>)
    requires forall i, j :: 0 <= i < j < |xs| ==> xs[i] != xs[j]
    ensures |set x | x in xs| == |xs|
  {
    if xs != [] {
      var xs' := xs[..|xs| - 1];
      DistinctCount(xs');
      assert (set x | x in xs) == (set x | x in xs') + {xs[|xs| - 1]};
    }
  }

  lemma GroupingCount(rs: seq<Record>, d: SeqDict)
    requires IsGrouping(rs, d)
    ensures |d.keys| == |Sequences(rs)|
  {
    DistinctCount(d.keys);
    assert (set x | x in d.keys) == Sequences(rs);
  }

  /**
   * Lines 43-50 of both scripts: group the records, then abort (the `assert` fails) unless
   * more than three distinct sequences were read.
   */
  method GroupRecords(rs: seq<Record>) returns (r: Result<SeqDict>)
    ensures r.Success? <==> |Sequences(rs)| > 3
    ensures r.Success? ==> IsGrouping(rs, r.value)
    ensures r.Failure? ==> r.error == DegenerateInput(|Sequences(rs)|)
  {
    var d := GroupBySequence(rs);
    GroupingCount(rs, d);
    if |d.keys| > 3 {
      r := Success(d);
    } else {
      r := Failure(DegenerateInput(|d.keys|));
    }
  }

  // ---------------------------------------------------------------------------
  // Partition

  lemma {:induction false} NamesWithMember(rs: seq<Record>, i: nat)
    requires i < |rs|
    ensures rs[i].name in NamesWith(rs, rs[i].sequence)
  {
    var n := |rs| - 1;
    assert rs[..n] + [rs[n]] == rs;
    if i < n {
      NamesWithMember(rs[..n], i);
    }
  }

  /** Every name lands in the group of its own sequence. */
  lemma NameInOwnGroup(rs: seq<Record>, d: SeqDict, i: nat)
    requires IsGrouping(rs, d) && i < |rs|
    ensures rs[i].sequence in d.values && rs[i].name in d.values[rs[i].sequence]
  {
    NamesWithMember(rs, i);
  }

  lemma {:induction false} NamesWithEmpty(rs: seq<Record>, s: string)
    ensures NamesWith(rs, s) == [] <==> s !in Sequences(rs)
  {
    if rs != [] {
      var n := |rs| - 1;
      NamesWithEmpty(rs[..n], s);
      assert rs == rs[..n] + [rs[n]];
      assert Sequences(rs) == Sequences(rs[..n]) + {rs[n].sequence};
    }
  }

  /** The first name of a group is the name of the first record carrying its sequence. */
  lemma {:induction false} FirstOfGroup(rs: seq<Record>, s: string)
    requires s in Sequences(rs)
    ensures NamesWith(rs, s) != [] && FirstIndex(rs, s) < |rs|
    ensures NamesWith(rs, s)[0] == rs[FirstIndex(rs, s)].name
  {
    NamesWithEmpty(rs, s);
    var n := |rs| - 1;
    assert rs == rs[..n] + [rs[n]];
    FirstIndexAppend(rs[..n], [rs[n]], s);
    assert Sequences(rs) == Sequences(rs[..n]) + {rs[n].sequence};
    if s in Sequences(rs[..n]) {
      FirstOfGroup(rs[..n], s);
    } else {
      NamesWithEmpty(rs[..n], s);
    }
  }

  lemma {:induction false} NamesInSplit(rs: seq<Record>, ss: set<string>, s: string)
    requires s !in ss
    ensures multiset(NamesIn(rs, ss + {s})) == multiset(NamesIn(rs, ss)) + multiset(NamesWith(rs, s))
  {
    if rs != [] {
      NamesInSplit(rs[..|rs| - 1], ss, s);
    }
  }

  lemma {:induction false} NamesInAll(rs: seq<Record>, ss: set<string>)
    requires forall r :: r in rs ==> r.sequence in ss
    ensures NamesIn(rs, ss) == Names(rs)
  {
    if rs != [] {
      var n := |rs| - 1;
      assert forall r :: r in rs[..n] ==> r in rs;
      NamesInAll(rs[..n], ss);
      assert Names(rs) == Names(rs[..n]) + [rs[n].name];
    }
  }

  /** The groups of `ks`, one after the other (`alltags += v` over the items). */
  function Members(rs: seq<Record>, ks: seq<string>): seq<string>
  {
    if ks == [] then [] else Members(rs, ks[..|ks| - 1]) + NamesWith(rs, ks[|ks| - 1])
  }

  lemma {:induction false} MembersPermutation(rs: seq<Record>, ks: seq<string>)
    requires forall i, j :: 0 <= i < j < |ks| ==> ks[i] != ks[j]
    ensures multiset(Members(rs, ks)) == multiset(NamesIn(rs, set k | k in ks))
  {
    if ks == [] {
      NamesInEmpty(rs);
      assert (set k | k in ks) == {};
    } else {
      var n := |ks| - 1;
      var ks' := ks[..n];
      MembersPermutation(rs, ks');
      assert (set k | k in ks) == (set k | k in ks') + {ks[n]};
      NamesInSplit(rs, (set k | k in ks'), ks[n]);
    }
  }

  lemma {:induction false} NamesInEmpty(rs: seq<Record>)
    ensures NamesIn(rs, {}) == []
  {
    if rs != [] {
      NamesInEmpty(rs[..|rs| - 1]);
    }
  }

  /** The groups partition the names: concatenated in key order they are a permutation of the input names. */
  lemma GroupsPartitionNames(rs: seq<Record>, d: SeqDict)
    requires IsGrouping(rs, d)
    ensures multiset(Members(rs, d.keys)) == multiset(Names(rs))
  {
    MembersPermutation(rs, d.keys);
    var ks := set k | k in d.keys;
    forall r | r in rs ensures r.sequence in ks {
      assert r.sequence in Sequences(rs);
    }
    NamesInAll(rs, ks);
  }

  // ---------------------------------------------------------------------------
  // alltags and uniqtags

  /** What the loops over `seqdict.items()` rely on: a dictionary whose groups are non-empty. */
  ghost predicate WellFormedGroups(d: SeqDict)
  {
    d.Valid() && forall s :: s in d.values ==> |d.values[s]| > 0
  }

  lemma GroupingWellFormed(rs: seq<Record>, d: SeqDict)
    requires IsGrouping(rs, d)
    ensures WellFormedGroups(d)
  {
    forall s | s in d.values ensures |d.values[s]| > 0 {
      FirstOfGroup(rs, s);
    }
  }

  /** The groups of the keys `ks`, one after the other. */
  function Concat(d: SeqDict, ks: seq<string>): seq<string>
    requires forall k :: k in ks ==> k in d.values
  {
    if ks == [] then [] else Concat(d, ks[..|ks| - 1]) + d.values[ks[|ks| - 1]]
  }

  lemma ConcatStep(d: SeqDict, ks: seq<string>, j: nat)
    requires forall k :: k in ks ==> k in d.values
    requires j < |ks|
    ensures Concat(d, ks[..j + 1]) == Concat(d, ks[..j]) + d.values[ks[j]]
  {
    assert ks[..j + 1][..j] == ks[..j];
  }

  lemma {:induction false} ConcatMembers(rs: seq<Record>, d: SeqDict, ks: seq<string>)
    requires IsGrouping(rs, d)
    requires forall k :: k in ks ==> k in d.values
    ensures Concat(d, ks) == Members(rs, ks)
  {
    if ks != [] {
      ConcatMembers(rs, d, ks[..|ks| - 1]);
    }
  }

  /** `alltags` is a permutation of the input names: every name exactly as often as it was read. */
  lemma AllTagsPermutation(rs: seq<Record>, d: SeqDict)
    requires IsGrouping(rs, d)
    ensures multiset(Concat(d, d.keys)) == multiset(Names(rs))
  {
    ConcatMembers(rs, d, d.keys);
    GroupsPartitionNames(rs, d);
  }

  /** The head of each group is the name of the first record carrying its sequence. */
  lemma FirstTagsFirstNames(rs: seq<Record>, d: SeqDict, i: nat)
    requires IsGrouping(rs, d) && i < |d.keys|
    ensures |d.values[d.keys[i]]| > 0 && FirstIndex(rs, d.keys[i]) < |rs|
    ensures d.values[d.keys[i]][0] == rs[FirstIndex(rs, d.keys[i])].name
  {
    FirstOfGroup(rs, d.keys[i]);
  }

  /** `for k, v in seqdict.items(): alltags += v` (run_NJreestimate.py). */
  method AllTags(d: SeqDict) returns (alltags: seq<string>)
    requires d.Valid()
    ensures alltags == Concat(d, d.keys)
  {
    alltags := [];
    for j := 0 to |d.keys|
      invariant alltags == Concat(d, d.keys[..j])
    {
      ConcatStep(d, d.keys, j);
      alltags := alltags + d.values[d.keys[j]];
    }
    assert d.keys[..|d.keys|] == d.keys;
  }

  /** main.py: the first name of each group, in key order, and all names group by group. */
  method FirstTags(d: SeqDict) returns (uniqtags: seq<string>, alltags: seq<string>)
    requires WellFormedGroups(d)
    ensures |uniqtags| == |d.keys|
    ensures forall i :: 0 <= i < |d.keys| ==> uniqtags[i] == d.values[d.keys[i]][0]
    ensures alltags == Concat(d, d.keys)
  {
    uniqtags, alltags := [], [];
    for j := 0 to |d.keys|
      invariant |uniqtags| == j
      invariant forall i :: 0 <= i < j ==> uniqtags[i] == d.values[d.keys[i]][0]
      invariant alltags == Concat(d, d.keys[..j])
    {
      var v := d.values[d.keys[j]];
      ConcatStep(d, d.keys, j);
      ghost var before := uniqtags;
      uniqtags := uniqtags + [v[0]];
      forall i | 0 <= i <= j ensures uniqtags[i] == d.values[d.keys[i]][0] {
        if i < j {
          assert uniqtags[i] == before[i];
        }
      }
      alltags := alltags + v;
    }
    assert d.keys[..|d.keys|] == d.keys;
  }
}
