/**
 * Determinism of the presented result: on well-formed trees no two
 * reported changes share a path, so ordering the changes by name leaves
 * exactly one possible order.
 */
module DiffTreeOrder {
  import opened Wrappers
  import opened PathOrder
  import opened TreeNoder
  import opened Changes
  import opened DiffTree
  import opened DiffTreeLaws

  /** The names along a change's path: the `to` side's, else the `from` side's. */
  function PathOf(c: Change): seq<string>
  {
    if c.to.Some? then c.to.value.path else if c.from.Some? then c.from.value.path else []
  }

  predicate DistinctPaths(cs: seq<Change>)
  {
    forall i, j :: 0 <= i < j < |cs| ==> PathOf(cs[i]) != PathOf(cs[j])
  }

  predicate DistinctEntries(es: seq<Entry>)
  {
    forall i, j :: 0 <= i < j < |es| ==> es[i].path != es[j].path
  }

  function NamesOf(ns: seq<Node>): set<string>
  {
    set n | n in ns :: n.name
  }

  /** `p` extends `pre` by a first name drawn from `names`, and adds only slash-free names. */
  predicate PathIn(pre: seq<string>, p: seq<string>, names: set<string>)
  {
    |p| > |pre| && p[..|pre|] == pre && p[|pre|] in names && SlashFree(p[|pre|..])
  }

  lemma StrLtLeTransitive(a: string, b: string, c: string)
    requires StrLt(a, b) && StrLe(b, c)
    ensures StrLt(a, c)
  {
    StrLeTransitive(a, b, c);
    if a == c {
      StrLeAntisymmetric(a, b);
    }
  }

  /** The first of strictly ascending siblings sorts strictly before every later one. */
  lemma {:induction false} AscendingHead(ns: seq<Node>)
    requires StrictlyAscending(ns) && |ns| > 0
    ensures StrictlyAscending(ns[1..])
    ensures forall k :: 0 < k < |ns| ==> StrLt(ns[0].name, ns[k].name)
    ensures ns[0].name !in NamesOf(ns[1..])
  {
    assert StrictlyAscending(ns[1..]) by {
      forall i | 0 <= i < |ns| - 2
        ensures StrLt(ns[1..][i].name, ns[1..][i + 1].name)
      {
        assert ns[1..][i] == ns[i + 1] && ns[1..][i + 1] == ns[i + 2];
      }
    }
    if |ns| > 1 {
      AscendingHead(ns[1..]);
      forall k | 1 < k < |ns|
        ensures StrLt(ns[0].name, ns[k].name)
      {
        assert ns[1..][k - 1] == ns[k];
        StrLtLeTransitive(ns[0].name, ns[1].name, ns[k].name);
      }
    }
    forall n | n in ns[1..]
      ensures n.name != ns[0].name
    {
      var k :| 0 <= k < |ns[1..]| && ns[1..][k] == n;
      assert ns[k + 1] == n;
    }
  }

  /** A name sorting strictly before the first of ascending siblings is none of theirs. */
  lemma BelowAll(a: string, ns: seq<Node>)
    requires StrictlyAscending(ns) && |ns| > 0 && StrLt(a, ns[0].name)
    ensures a !in NamesOf(ns)
  {
    AscendingHead(ns);
    forall n | n in ns
      ensures n.name != a
    {
      var k :| 0 <= k < |ns| && ns[k] == n;
      if k > 0 {
        StrLtLeTransitive(a, ns[0].name, n.name);
      }
    }
  }

  lemma RestValid(ns: seq<Node>)
    requires |ns| > 0 && WellFormedAll(ns) && StrictlyAscending(ns) && ValidNames(ns)
    ensures WellFormed(ns[0]) && |ns[0].name| > 0 && '/' !in ns[0].name
    ensures WellFormedAll(ns[1..]) && StrictlyAscending(ns[1..]) && ValidNames(ns[1..])
    ensures ns[0].name !in NamesOf(ns[1..])
  {
    AscendingHead(ns);
    forall i | 0 <= i < |ns| - 1
      ensures |ns[1..][i].name| > 0 && '/' !in ns[1..][i].name
    {
      assert ns[1..][i] == ns[i + 1];
    }
  }

  lemma {:induction false} EntriesAppend(a: seq<Entry>, b: seq<Entry>)
    requires DistinctEntries(a) && DistinctEntries(b)
    requires forall x, y :: x in a && y in b ==> x.path != y.path
    ensures DistinctEntries(a + b)
  {
    var ab := a + b;
    forall i, j | 0 <= i < j < |ab|
      ensures ab[i].path != ab[j].path
    {
      if j < |a| {
        assert ab[i] == a[i] && ab[j] == a[j];
      } else if i >= |a| {
        assert ab[i] == b[i - |a|] && ab[j] == b[j - |a|];
      } else {
        assert ab[i] == a[i] && ab[j] == b[j - |a|];
      }
    }
  }

  lemma {:induction false} ChangesAppend(a: seq<Change>, b: seq<Change>)
    requires DistinctPaths(a) && DistinctPaths(b)
    requires forall x, y :: x in a && y in b ==> PathOf(x) != PathOf(y)
    ensures DistinctPaths(a + b)
  {
    var ab := a + b;
    forall i, j | 0 <= i < j < |ab|
      ensures PathOf(ab[i]) != PathOf(ab[j])
    {
      if j < |a| {
        assert ab[i] == a[i] && ab[j] == a[j];
      } else if i >= |a| {
        assert ab[i] == b[i - |a|] && ab[j] == b[j - |a|];
      } else {
        assert ab[i] == a[i] && ab[j] == b[j - |a|];
      }
    }
  }

  /** Adding a valid first name in front of a path extending `pre + [name]`. */
  lemma PathInStep(pre: seq<string>, name: string, p: seq<string>, names: set<string>)
    requires '/' !in name
    requires PathIn(pre + [name], p, names)
    ensures PathIn(pre, p, {name}) && |p| > |pre| + 1
  {
    assert p[..|pre|] == p[..|pre| + 1][..|pre|];
    assert p[|pre|..] == [name] + p[|pre| + 1..];
    var tail := p[|pre|..];
    forall k | 0 <= k < |tail|
      ensures '/' !in tail[k]
    {
      if k > 0 {
        assert tail[k] == p[|pre| + 1..][k - 1];
      }
    }
  }

  /** The leaves beneath one entry have distinct paths, all starting with that entry's name. */
  lemma {:induction false} LeavesDistinct(pre: seq<string>, n: Node)
    requires WellFormed(n) && '/' !in n.name
    ensures DistinctEntries(Leaves(pre, n))
    ensures forall e :: e in Leaves(pre, n) ==> PathIn(pre, e.path, {n.name})
    ensures n.Tree? ==> forall e :: e in Leaves(pre, n) ==> |e.path| > |pre| + 1
    decreases Size(n), 0
  {
    if n.Leaf? {
      var p := pre + [n.name];
      assert p[..|pre|] == pre && p[|pre|..] == [n.name];
    } else {
      LeavesAllDistinct(pre + [n.name], n.children);
      forall e | e in Leaves(pre, n)
        ensures PathIn(pre, e.path, {n.name}) && |e.path| > |pre| + 1
      {
        PathInStep(pre, n.name, e.path, NamesOf(n.children));
      }
    }
  }

  /** The leaves beneath well-formed siblings have distinct paths, each starting with a sibling's name. */
  lemma {:induction false} LeavesAllDistinct(pre: seq<string>, ns: seq<Node>)
    requires WellFormedAll(ns) && StrictlyAscending(ns) && ValidNames(ns)
    ensures DistinctEntries(LeavesAll(pre, ns))
    ensures forall e :: e in LeavesAll(pre, ns) ==> PathIn(pre, e.path, NamesOf(ns))
    decreases SizeAll(ns), 1
  {
    if |ns| > 0 {
      RestValid(ns);
      LeavesDistinct(pre, ns[0]);
      LeavesAllDistinct(pre, ns[1..]);
      EntriesAppend(Leaves(pre, ns[0]), LeavesAll(pre, ns[1..]));
    }
  }

  /** Inserts of entries carry the entries' paths. */
  lemma InsertedPaths(es: seq<Entry>)
    requires DistinctEntries(es)
    ensures DistinctPaths(Inserted(es))
    ensures forall c :: c in Inserted(es) ==> c.to.Some? && c.to.value in es && PathOf(c) == c.to.value.path
  {
    forall i, j | 0 <= i < j < |es|
      ensures PathOf(Inserted(es)[i]) != PathOf(Inserted(es)[j])
    {
      InsertedIndex(es, i);
      InsertedIndex(es, j);
    }
    InsertedMembership(es);
  }

  /** Deletes of entries carry the entries' paths. */
  lemma DeletedPaths(es: seq<Entry>)
    requires DistinctEntries(es)
    ensures DistinctPaths(Deleted(es))
    ensures forall c :: c in Deleted(es) ==> c.from.Some? && c.to.None? && c.from.value in es && PathOf(c) == c.from.value.path
  {
    forall i, j | 0 <= i < j < |es|
      ensures PathOf(Deleted(es)[i]) != PathOf(Deleted(es)[j])
    {
      DeletedIndex(es, i);
      DeletedIndex(es, j);
    }
    DeletedMembership(es);
  }

  /** The changes for the leaves beneath one entry. */
  lemma ExpandDistinct(pre: seq<string>, n: Node)
    requires WellFormed(n) && '/' !in n.name
    ensures DistinctPaths(Inserted(Leaves(pre, n))) && DistinctPaths(Deleted(Leaves(pre, n)))
    ensures forall c :: c in Inserted(Leaves(pre, n)) ==> PathIn(pre, PathOf(c), {n.name})
    ensures forall c :: c in Deleted(Leaves(pre, n)) ==> PathIn(pre, PathOf(c), {n.name})
    ensures n.Tree? ==> forall c :: c in Inserted(Leaves(pre, n)) ==> |PathOf(c)| > |pre| + 1
    ensures n.Tree? ==> forall c :: c in Deleted(Leaves(pre, n)) ==> |PathOf(c)| > |pre| + 1
  {
    LeavesDistinct(pre, n);
    InsertedPaths(Leaves(pre, n));
    DeletedPaths(Leaves(pre, n));
  }

  lemma {:induction false} DiffPairDistinct(pre: seq<string>, x: Node, y: Node)
    requires x.name == y.name && '/' !in x.name
    requires WellFormed(x) && WellFormed(y)
    ensures DistinctPaths(DiffPair(pre, x, y))
    ensures forall c :: c in DiffPair(pre, x, y) ==> PathIn(pre, PathOf(c), {x.name})
    decreases Size(x) + Size(y), 0
  {
    if HashOf(x) == HashOf(y) {
    } else if x.Tree? && y.Tree? {
      DiffSeqDistinct(pre + [x.name], x.children, y.children);
      forall c | c in DiffPair(pre, x, y)
        ensures PathIn(pre, PathOf(c), {x.name})
      {
        PathInStep(pre, x.name, PathOf(c), NamesOf(x.children) + NamesOf(y.children));
      }
    } else if x.Leaf? && y.Leaf? {
      var p := pre + [x.name];
      assert p[..|pre|] == pre && p[|pre|..] == [x.name];
    } else {
      ExpandDistinct(pre, x);
      ExpandDistinct(pre, y);
      ChangesAppend(Deleted(Leaves(pre, x)), Inserted(Leaves(pre, y)));
    }
  }

  /**
   * The merge walk over well-formed siblings reports distinct paths, each
   * starting with the name of a sibling on one side or the other.
   */
  lemma {:induction false} DiffSeqDistinct(pre: seq<string>, xs: seq<Node>, ys: seq<Node>)
    requires WellFormedAll(xs) && StrictlyAscending(xs) && ValidNames(xs)
    requires WellFormedAll(ys) && StrictlyAscending(ys) && ValidNames(ys)
    ensures DistinctPaths(DiffSeq(pre, xs, ys))
    ensures forall c :: c in DiffSeq(pre, xs, ys) ==> PathIn(pre, PathOf(c), NamesOf(xs) + NamesOf(ys))
    decreases SizeAll(xs) + SizeAll(ys), 1
  {
    if |xs| == 0 && |ys| == 0 {
    } else if |ys| == 0 {
      RestValid(xs);
      ExpandDistinct(pre, xs[0]);
      DiffSeqDistinct(pre, xs[1..], ys);
      SeparateHeads(pre, Deleted(Leaves(pre, xs[0])), DiffSeq(pre, xs[1..], ys), xs[0].name, NamesOf(xs[1..]) + NamesOf(ys), NamesOf(xs) + NamesOf(ys));
    } else if |xs| == 0 {
      RestValid(ys);
      ExpandDistinct(pre, ys[0]);
      DiffSeqDistinct(pre, xs, ys[1..]);
      SeparateHeads(pre, Inserted(Leaves(pre, ys[0])), DiffSeq(pre, xs, ys[1..]), ys[0].name, NamesOf(xs) + NamesOf(ys[1..]), NamesOf(xs) + NamesOf(ys));
    } else if xs[0].name == ys[0].name {
      RestValid(xs);
      RestValid(ys);
      DiffPairDistinct(pre, xs[0], ys[0]);
      DiffSeqDistinct(pre, xs[1..], ys[1..]);
      SeparateHeads(pre, DiffPair(pre, xs[0], ys[0]), DiffSeq(pre, xs[1..], ys[1..]), xs[0].name, NamesOf(xs[1..]) + NamesOf(ys[1..]), NamesOf(xs) + NamesOf(ys));
    } else if StrLe(xs[0].name, ys[0].name) {
      RestValid(xs);
      BelowAll(xs[0].name, ys);
      ExpandDistinct(pre, xs[0]);
      DiffSeqDistinct(pre, xs[1..], ys);
      SeparateHeads(pre, Deleted(Leaves(pre, xs[0])), DiffSeq(pre, xs[1..], ys), xs[0].name, NamesOf(xs[1..]) + NamesOf(ys), NamesOf(xs) + NamesOf(ys));
    } else {
      StrLeTotal(xs[0].name, ys[0].name);
      RestValid(ys);
      BelowAll(ys[0].name, xs);
      ExpandDistinct(pre, ys[0]);
      DiffSeqDistinct(pre, xs, ys[1..]);
      SeparateHeads(pre, Inserted(Leaves(pre, ys[0])), DiffSeq(pre, xs, ys[1..]), ys[0].name, NamesOf(xs) + NamesOf(ys[1..]), NamesOf(xs) + NamesOf(ys));
    }
  }

  /** Changes under one first name and changes under other first names never share a path. */
  lemma SeparateHeads(pre: seq<string>, a: seq<Change>, b: seq<Change>, name: string, rest: set<string>, all: set<string>)
    requires DistinctPaths(a) && DistinctPaths(b)
    requires name !in rest
    requires name in all && rest <= all
    requires forall c :: c in a ==> PathIn(pre, PathOf(c), {name})
    requires forall c :: c in b ==> PathIn(pre, PathOf(c), rest)
    ensures DistinctPaths(a + b)
    ensures forall c :: c in a + b ==> PathIn(pre, PathOf(c), all)
  {
    ChangesAppend(a, b);
  }

  predicate WellFormedRoot(t: Option<TreeNode>)
  {
    t.None? || WellFormed(t.value)
  }

  /** On well-formed trees no two reported changes share a path, nor a name. */
  lemma DiffDistinct(a: Option<TreeNode>, b: Option<TreeNode>)
    requires WellFormedRoot(a) && WellFormedRoot(b)
    ensures DistinctPaths(Diff(a, b))
    ensures DistinctNames(Diff(a, b))
  {
    var d := Diff(a, b);
    if !(a.Some? && b.Some? && HashOf(a.value) == HashOf(b.value)) {
      DiffSeqDistinct([], Entries(a), Entries(b));
    }
    DiffReported(a, b);
    forall i, j | 0 <= i < j < |d|
      ensures Name(d[i]) != Name(d[j])
    {
      if Name(d[i]) == Name(d[j]) {
        assert d[i] in d && d[j] in d;
        assert PathIn([], PathOf(d[i]), NamesOf(Entries(a)) + NamesOf(Entries(b)));
        assert PathIn([], PathOf(d[j]), NamesOf(Entries(a)) + NamesOf(Entries(b)));
        assert PathOf(d[i])[0..] == PathOf(d[i]) && PathOf(d[j])[0..] == PathOf(d[j]);
        JoinInjective(PathOf(d[i]), PathOf(d[j]));
      }
    }
  }

  /**
   * Sorting the diff of two well-formed trees by name is a permutation of
   * it in strictly ascending name order: the presented order is unique.
   */
  lemma DiffPresentationOrder(a: Option<TreeNode>, b: Option<TreeNode>)
    requires WellFormedRoot(a) && WellFormedRoot(b)
    ensures multiset(SortByName(Diff(a, b))) == multiset(Diff(a, b))
    ensures forall i :: 0 <= i < |Diff(a, b)| - 1 ==>
      StrLt(Name(SortByName(Diff(a, b))[i]), Name(SortByName(Diff(a, b))[i + 1]))
  {
    DiffDistinct(a, b);
    SortDistinct(Diff(a, b));
  }

  /**
   * The expected list the test compares against is matched by the diff of
   * two well-formed trees exactly when it is matched by any reordering of
   * that diff: the walk's own order plays no part in the verdict.
   */
  lemma DiffOrderFree(a: Option<TreeNode>, b: Option<TreeNode>, d: seq<Change>, e: seq<Expected>)
    requires WellFormedRoot(a) && WellFormedRoot(b)
    requires multiset(d) == multiset(Diff(a, b))
    ensures EqualChanges(Diff(a, b), e) <==> EqualChanges(d, e)
  {
    DiffDistinct(a, b);
    EqualChangesPermutation(Diff(a, b), d, e);
  }
}
