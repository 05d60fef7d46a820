/**
 * Laws of the tree diff that the diff tests pin down: identity, the
 * one-sided diffs as leaf enumerations, the mirror law, the shape of
 * every reported change, and the single-modification case.
 */
module DiffTreeLaws {
  import opened Wrappers
  import opened PathOrder
  import opened TreeNoder
  import opened Changes
  import opened DiffTree

  lemma {:induction false} InsertedAppend(a: seq<Entry>, b: seq<Entry>)
    ensures Inserted(a + b) == Inserted(a) + Inserted(b)
  {
    if |a| == 0 {
      assert a + b == b;
    } else {
      assert (a + b)[1..] == a[1..] + b;
      InsertedAppend(a[1..], b);
    }
  }

  lemma {:induction false} DeletedAppend(a: seq<Entry>, b: seq<Entry>)
    ensures Deleted(a + b) == Deleted(a) + Deleted(b)
  {
    if |a| == 0 {
      assert a + b == b;
    } else {
      assert (a + b)[1..] == a[1..] + b;
      DeletedAppend(a[1..], b);
    }
  }

  /** Mirroring a run of Inserts gives the Deletes of the same entries, and the reverse. */
  lemma {:induction false} MirrorInsertedDeleted(es: seq<Entry>)
    ensures MirrorAll(Inserted(es)) == Deleted(es)
    ensures MirrorAll(Deleted(es)) == Inserted(es)
  {
    if |es| > 0 {
      MirrorInsertedDeleted(es[1..]);
    }
  }

  /** Swapping two same-named entries mirrors their changes (as a multiset). */
  lemma {:induction false} DiffPairMirror(pre: seq<string>, x: Node, y: Node)
    requires x.name == y.name
    ensures multiset(DiffPair(pre, y, x)) == multiset(MirrorAll(DiffPair(pre, x, y)))
    decreases Size(x) + Size(y), 0
  {
    if HashOf(x) == HashOf(y) {
    } else if x.Tree? && y.Tree? {
      DiffSeqMirror(pre + [x.name], x.children, y.children);
    } else if x.Leaf? && y.Leaf? {
    } else {
      MirrorAllAppend(Deleted(Leaves(pre, x)), Inserted(Leaves(pre, y)));
      MirrorInsertedDeleted(Leaves(pre, x));
      MirrorInsertedDeleted(Leaves(pre, y));
    }
  }

  /** Swapping two sibling lists mirrors the merge walk's changes (as a multiset). */
  lemma {:induction false} DiffSeqMirror(pre: seq<string>, xs: seq<Node>, ys: seq<Node>)
    ensures multiset(DiffSeq(pre, ys, xs)) == multiset(MirrorAll(DiffSeq(pre, xs, ys)))
    decreases SizeAll(xs) + SizeAll(ys), 1
  {
    if |xs| == 0 && |ys| == 0 {
    } else if |ys| == 0 || (|xs| > 0 && xs[0].name != ys[0].name && StrLe(xs[0].name, ys[0].name)) {
      // `xs[0]` comes first: deleted one way, inserted the other
      if |ys| > 0 {
        StrLtTrichotomy(xs[0].name, ys[0].name);
      }
      var d := Deleted(Leaves(pre, xs[0]));
      assert DiffSeq(pre, xs, ys) == d + DiffSeq(pre, xs[1..], ys);
      assert DiffSeq(pre, ys, xs) == Inserted(Leaves(pre, xs[0])) + DiffSeq(pre, ys, xs[1..]);
      DiffSeqMirror(pre, xs[1..], ys);
      MirrorAllAppend(d, DiffSeq(pre, xs[1..], ys));
      MirrorInsertedDeleted(Leaves(pre, xs[0]));
    } else if |xs| == 0 || xs[0].name != ys[0].name {
      // `ys[0]` comes first: inserted one way, deleted the other
      if |xs| > 0 {
        StrLeTotal(xs[0].name, ys[0].name);
      }
      var i := Inserted(Leaves(pre, ys[0]));
      assert DiffSeq(pre, xs, ys) == i + DiffSeq(pre, xs, ys[1..]);
      assert DiffSeq(pre, ys, xs) == Deleted(Leaves(pre, ys[0])) + DiffSeq(pre, ys[1..], xs);
      DiffSeqMirror(pre, xs, ys[1..]);
      MirrorAllAppend(i, DiffSeq(pre, xs, ys[1..]));
      MirrorInsertedDeleted(Leaves(pre, ys[0]));
    } else {
      assert DiffSeq(pre, xs, ys) == DiffPair(pre, xs[0], ys[0]) + DiffSeq(pre, xs[1..], ys[1..]);
      assert DiffSeq(pre, ys, xs) == DiffPair(pre, ys[0], xs[0]) + DiffSeq(pre, ys[1..], xs[1..]);
      DiffPairMirror(pre, xs[0], ys[0]);
      DiffSeqMirror(pre, xs[1..], ys[1..]);
      MirrorAllAppend(DiffPair(pre, xs[0], ys[0]), DiffSeq(pre, xs[1..], ys[1..]));
    }
  }

  /** `diff(b, a)` is `diff(a, b)` with each change's sides exchanged. */
  lemma DiffMirror(a: Option<TreeNode>, b: Option<TreeNode>)
    ensures multiset(Diff(b, a)) == multiset(MirrorAll(Diff(a, b)))
    ensures forall c :: c in Diff(b, a) <==> Mirror(c) in Diff(a, b)
  {
    if !(a.Some? && b.Some? && HashOf(a.value) == HashOf(b.value)) {
      DiffSeqMirror([], Entries(a), Entries(b));
    }
    forall c
      ensures c in Diff(b, a) <==> Mirror(c) in Diff(a, b)
    {
      assert c in Diff(b, a) <==> c in multiset(Diff(b, a));
      assert c in MirrorAll(Diff(a, b)) <==> c in multiset(MirrorAll(Diff(a, b)));
      MirrorAllMembership(Diff(a, b), c);
    }
  }

  /** An entry names a leaf and its path ends in the leaf's own name. */
  predicate LeafEntry(e: Entry)
  {
    e.node.Leaf? && |e.path| > 0 && e.path[|e.path| - 1] == e.node.name
  }

  /** `e`'s path starts with `pre` and goes at least one name further. */
  predicate Below(pre: seq<string>, e: Entry)
  {
    |e.path| > |pre| && e.path[..|pre|] == pre
  }

  /**
   * The shape of every reported change: at least one side, each side a
   * leaf (never a directory), and a Modify's two sides at the same path.
   */
  predicate Reported(c: Change)
  {
    && (c.from.Some? || c.to.Some?)
    && (c.from.Some? ==> LeafEntry(c.from.value))
    && (c.to.Some? ==> LeafEntry(c.to.value))
    && (c.from.Some? && c.to.Some? ==> c.from.value.path == c.to.value.path)
  }

  /** The leaves beneath a node are leaf entries below the prefix. */
  lemma {:induction false} LeavesShape(pre: seq<string>, n: Node)
    ensures forall e :: e in Leaves(pre, n) ==> LeafEntry(e) && Below(pre, e)
    decreases Size(n), 0
  {
    if n.Tree? {
      LeavesAllShape(pre + [n.name], n.children);
      forall e | e in Leaves(pre, n)
        ensures Below(pre, e)
      {
        assert e.path[..|pre|] == e.path[..|pre| + 1][..|pre|];
      }
    }
  }

  lemma {:induction false} LeavesAllShape(pre: seq<string>, ns: seq<Node>)
    ensures forall e :: e in LeavesAll(pre, ns) ==> LeafEntry(e) && Below(pre, e)
    decreases SizeAll(ns), 1
  {
    if |ns| > 0 {
      LeavesShape(pre, ns[0]);
      LeavesAllShape(pre, ns[1..]);
    }
  }

  lemma {:induction false} InsertedIndex(es: seq<Entry>, i: nat)
    requires i < |es|
    ensures Inserted(es)[i] == Change(None, Some(es[i]))
  {
    if i > 0 {
      InsertedIndex(es[1..], i - 1);
    }
  }

  lemma {:induction false} DeletedIndex(es: seq<Entry>, i: nat)
    requires i < |es|
    ensures Deleted(es)[i] == Change(Some(es[i]), None)
  {
    if i > 0 {
      DeletedIndex(es[1..], i - 1);
    }
  }

  /** The Inserts of a list are exactly its entries, each on the `to` side only. */
  lemma InsertedMembership(es: seq<Entry>)
    ensures forall c :: c in Inserted(es) <==> c.from.None? && c.to.Some? && c.to.value in es
  {
    forall c | c in Inserted(es)
      ensures c.from.None? && c.to.Some? && c.to.value in es
    {
      var i :| 0 <= i < |es| && Inserted(es)[i] == c;
      InsertedIndex(es, i);
    }
    forall c: Change | c.from.None? && c.to.Some? && c.to.value in es
      ensures c in Inserted(es)
    {
      var i :| 0 <= i < |es| && es[i] == c.to.value;
      InsertedIndex(es, i);
    }
  }

  /** The Deletes of a list are exactly its entries, each on the `from` side only. */
  lemma DeletedMembership(es: seq<Entry>)
    ensures forall c :: c in Deleted(es) <==> c.from.Some? && c.to.None? && c.from.value in es
  {
    forall c | c in Deleted(es)
      ensures c.from.Some? && c.to.None? && c.from.value in es
    {
      var i :| 0 <= i < |es| && Deleted(es)[i] == c;
      DeletedIndex(es, i);
    }
    forall c: Change | c.from.Some? && c.to.None? && c.from.value in es
      ensures c in Deleted(es)
    {
      var i :| 0 <= i < |es| && es[i] == c.from.value;
      DeletedIndex(es, i);
    }
  }

  lemma ExpandReported(pre: seq<string>, n: Node)
    ensures forall c :: c in Inserted(Leaves(pre, n)) ==> Reported(c)
    ensures forall c :: c in Deleted(Leaves(pre, n)) ==> Reported(c)
  {
    LeavesShape(pre, n);
    InsertedMembership(Leaves(pre, n));
    DeletedMembership(Leaves(pre, n));
  }

  lemma {:induction false} DiffPairReported(pre: seq<string>, x: Node, y: Node)
    requires x.name == y.name
    ensures forall c :: c in DiffPair(pre, x, y) ==> Reported(c)
    decreases Size(x) + Size(y), 0
  {
    if HashOf(x) == HashOf(y) {
    } else if x.Tree? && y.Tree? {
      DiffSeqReported(pre + [x.name], x.children, y.children);
    } else if x.Leaf? && y.Leaf? {
    } else {
      ExpandReported(pre, x);
      ExpandReported(pre, y);
    }
  }

  lemma {:induction false} DiffSeqReported(pre: seq<string>, xs: seq<Node>, ys: seq<Node>)
    ensures forall c :: c in DiffSeq(pre, xs, ys) ==> Reported(c)
    decreases SizeAll(xs) + SizeAll(ys), 1
  {
    if |xs| == 0 && |ys| == 0 {
    } else if |ys| == 0 {
      ExpandReported(pre, xs[0]);
      DiffSeqReported(pre, xs[1..], ys);
    } else if |xs| == 0 {
      ExpandReported(pre, ys[0]);
      DiffSeqReported(pre, xs, ys[1..]);
    } else if xs[0].name == ys[0].name {
      DiffPairReported(pre, xs[0], ys[0]);
      DiffSeqReported(pre, xs[1..], ys[1..]);
    } else if StrLe(xs[0].name, ys[0].name) {
      ExpandReported(pre, xs[0]);
      DiffSeqReported(pre, xs[1..], ys);
    } else {
      ExpandReported(pre, ys[0]);
      DiffSeqReported(pre, xs, ys[1..]);
    }
  }

  /**
   * Every change the diff reports has an action (the check of
   * `assertChanges` passes), names leaves only, and a Modify's two sides
   * share one path, so its name does not depend on the side read.
   */
  lemma DiffReported(a: Option<TreeNode>, b: Option<TreeNode>)
    ensures forall c :: c in Diff(a, b) ==> Reported(c)
    ensures AllActionable(Diff(a, b))
    ensures forall c :: c in Diff(a, b) && c.from.Some? ==> Name(c) == PathName(c.from.value)
  {
    if !(a.Some? && b.Some? && HashOf(a.value) == HashOf(b.value)) {
      DiffSeqReported([], Entries(a), Entries(b));
    }
  }

  /**
   * `path` leads from the sibling list `ns` down to `n`: its first name
   * picks a child, and each further name a child of the directory before.
   */
  predicate Reaches(ns: seq<Node>, path: seq<string>, n: Node)
    decreases |path|
  {
    && |path| > 0
    && exists k :: 0 <= k < |ns| && ns[k].name == path[0] &&
         ((|path| == 1 && ns[k] == n) ||
          (|path| > 1 && ns[k].Tree? && Reaches(ns[k].children, path[1..], n)))
  }

  lemma {:induction false} LeavesAllContains(pre: seq<string>, ns: seq<Node>, k: nat, e: Entry)
    requires k < |ns| && e in Leaves(pre, ns[k])
    ensures e in LeavesAll(pre, ns)
  {
    if k > 0 {
      LeavesAllContains(pre, ns[1..], k - 1, e);
    }
  }

  lemma {:induction false} LeavesAllMember(pre: seq<string>, ns: seq<Node>, e: Entry) returns (k: nat)
    requires e in LeavesAll(pre, ns)
    ensures k < |ns| && e in Leaves(pre, ns[k])
  {
    if e in Leaves(pre, ns[0]) {
      k := 0;
    } else {
      k := LeavesAllMember(pre, ns[1..], e);
      k := k + 1;
    }
  }

  /** Every enumerated leaf is reached by its path below the prefix. */
  lemma {:induction false} LeavesAllReach(pre: seq<string>, ns: seq<Node>, e: Entry)
    requires e in LeavesAll(pre, ns)
    ensures Below(pre, e) && e.node.Leaf? && Reaches(ns, e.path[|pre|..], e.node)
    decreases SizeAll(ns)
  {
    LeavesAllShape(pre, ns);
    var k := LeavesAllMember(pre, ns, e);
    var n := ns[k];
    var rest := e.path[|pre|..];
    SizeAllElement(ns, k);
    if n.Leaf? {
      assert e == Entry(pre + [n.name], n);
      assert rest == [n.name];
    } else {
      var pre' := pre + [n.name];
      LeavesAllReach(pre', n.children, e);
      assert e.path[..|pre'|] == pre';
      assert rest[0] == n.name;
      assert rest[1..] == e.path[|pre'|..];
    }
  }

  lemma {:induction false} SizeAllElement(ns: seq<Node>, k: nat)
    requires k < |ns|
    ensures Size(ns[k]) <= SizeAll(ns)
  {
    if k > 0 {
      SizeAllElement(ns[1..], k - 1);
    }
  }

  /** Every leaf reached by a path is enumerated, under that path. */
  lemma {:induction false} ReachLeavesAll(pre: seq<string>, ns: seq<Node>, e: Entry)
    requires Below(pre, e) && e.node.Leaf? && Reaches(ns, e.path[|pre|..], e.node)
    ensures e in LeavesAll(pre, ns)
    decreases |e.path| - |pre|
  {
    var rest := e.path[|pre|..];
    var k :| 0 <= k < |ns| && ns[k].name == rest[0] &&
         ((|rest| == 1 && ns[k] == e.node) ||
          (|rest| > 1 && ns[k].Tree? && Reaches(ns[k].children, rest[1..], e.node)));
    var n := ns[k];
    var pre' := pre + [n.name];
    if |rest| == 1 {
      assert e.path == e.path[..|pre|] + rest;
      assert e == Entry(pre + [n.name], n);
    } else {
      assert n.Tree?;
      assert e.path[..|pre'|] == pre' by {
        assert e.path[..|pre'|] == e.path[..|pre|] + [rest[0]];
      }
      assert e.path[|pre'|..] == rest[1..];
      ReachLeavesAll(pre', n.children, e);
    }
    LeavesAllContains(pre, ns, k, e);
  }

  /** The leaf enumeration holds exactly the leaves reachable by a path, each under that path. */
  lemma LeavesAllExactly(ns: seq<Node>)
    ensures forall e :: e in LeavesAll([], ns) <==> e.node.Leaf? && Reaches(ns, e.path, e.node)
  {
    forall e: Entry
      ensures e in LeavesAll([], ns) <==> e.node.Leaf? && Reaches(ns, e.path, e.node)
    {
      assert e.path[0..] == e.path;
      assert e.path[..0] == [];
      if e in LeavesAll([], ns) {
        LeavesAllReach([], ns, e);
      } else if e.node.Leaf? && Reaches(ns, e.path, e.node) {
        ReachLeavesAll([], ns, e);
      }
    }
  }

  /** A walk with nothing on the `from` side inserts every leaf of the `to` side. */
  lemma {:induction false} DiffSeqFromNothing(pre: seq<string>, ys: seq<Node>)
    ensures DiffSeq(pre, [], ys) == Inserted(LeavesAll(pre, ys))
  {
    if |ys| > 0 {
      DiffSeqFromNothing(pre, ys[1..]);
      InsertedAppend(Leaves(pre, ys[0]), LeavesAll(pre, ys[1..]));
    }
  }

  /** A walk with nothing on the `to` side deletes every leaf of the `from` side. */
  lemma {:induction false} DiffSeqToNothing(pre: seq<string>, xs: seq<Node>)
    ensures DiffSeq(pre, xs, []) == Deleted(LeavesAll(pre, xs))
  {
    if |xs| > 0 {
      DiffSeqToNothing(pre, xs[1..]);
      DeletedAppend(Leaves(pre, xs[0]), LeavesAll(pre, xs[1..]));
    }
  }

  /**
   * Diffing nil against a tree reports one Insert per leaf, in walk order,
   * under the leaf's full path; the reported changes are exactly the
   * Inserts of the leaves reachable in the tree, and no directory appears.
   */
  lemma DiffFromNothing(t: TreeNode)
    ensures Diff(None, Some(t)) == Inserted(LeavesAll([], t.children))
    ensures forall c :: c in Diff(None, Some(t)) <==>
      c.from.None? && c.to.Some? && c.to.value.node.Leaf? && Reaches(t.children, c.to.value.path, c.to.value.node)
    ensures forall c :: c in Diff(None, Some(t)) ==>
      ActionOf(c) == Success(Insert) && Name(c) == Join(c.to.value.path)
  {
    DiffSeqFromNothing([], t.children);
    InsertedMembership(LeavesAll([], t.children));
    LeavesAllExactly(t.children);
  }

  /** Diffing a tree against nil is the mirror image: one Delete per leaf. */
  lemma DiffToNothing(t: TreeNode)
    ensures Diff(Some(t), None) == Deleted(LeavesAll([], t.children))
    ensures forall c :: c in Diff(Some(t), None) <==>
      c.from.Some? && c.to.None? && c.from.value.node.Leaf? && Reaches(t.children, c.from.value.path, c.from.value.node)
    ensures forall c :: c in Diff(Some(t), None) ==>
      ActionOf(c) == Success(Delete) && Name(c) == Join(c.from.value.path)
  {
    DiffSeqToNothing([], t.children);
    DeletedMembership(LeavesAll([], t.children));
    LeavesAllExactly(t.children);
  }

  /**
   * Siblings that pair up by name with equal noder hashes report nothing,
   * however their subtrees are represented: hash-equal entries are never
   * entered.
   */
  lemma {:induction false} DiffSeqPairwiseSame(pre: seq<string>, xs: seq<Node>, ys: seq<Node>)
    requires |xs| == |ys|
    requires forall i :: 0 <= i < |xs| ==> xs[i].name == ys[i].name && HashOf(xs[i]) == HashOf(ys[i])
    ensures DiffSeq(pre, xs, ys) == []
  {
    if |xs| > 0 {
      DiffSeqPairwiseSame(pre, xs[1..], ys[1..]);
    }
  }

  /** Diffing a tree against itself, or nil against nil, reports nothing. */
  lemma DiffSelf(t: Option<TreeNode>)
    ensures Diff(t, t) == []
  {
  }

  /**
   * Two trees whose top-level entries pair up by name with equal noder
   * hashes diff to nothing, even when the roots' own hashes differ.
   */
  lemma DiffEntriesHashAlike(a: TreeNode, b: TreeNode)
    requires |a.children| == |b.children|
    requires forall i :: 0 <= i < |a.children| ==>
      a.children[i].name == b.children[i].name && HashOf(a.children[i]) == HashOf(b.children[i])
    ensures Diff(Some(a), Some(b)) == []
  {
    DiffSeqPairwiseSame([], a.children, b.children);
  }

  /** Sibling lists equal but for one same-named pair report exactly that pair's changes. */
  lemma {:induction false} DiffSeqOneApart(pre: seq<string>, xs: seq<Node>, ys: seq<Node>, i: nat)
    requires |xs| == |ys| && i < |xs|
    requires forall j :: 0 <= j < |xs| && j != i ==> xs[j] == ys[j]
    requires xs[i].name == ys[i].name
    ensures DiffSeq(pre, xs, ys) == DiffPair(pre, xs[i], ys[i])
  {
    if i == 0 {
      DiffSeqPairwiseSame(pre, xs[1..], ys[1..]);
    } else {
      DiffSeqOneApart(pre, xs[1..], ys[1..], i - 1);
    }
  }

  /**
   * Two sibling lists that differ only along one route of indices: equal
   * everywhere else, same names along the route, different noder hashes
   * along it, and two leaves at its end.
   */
  predicate ApartAt(xs: seq<Node>, ys: seq<Node>, route: seq<nat>)
    decreases |route|
  {
    && |route| > 0
    && |xs| == |ys|
    && route[0] < |xs|
    && (forall j :: 0 <= j < |xs| && j != route[0] ==> xs[j] == ys[j])
    && xs[route[0]].name == ys[route[0]].name
    && HashOf(xs[route[0]]) != HashOf(ys[route[0]])
    && (if |route| == 1 then xs[route[0]].Leaf? && ys[route[0]].Leaf?
        else xs[route[0]].Tree? && ys[route[0]].Tree? &&
             ApartAt(xs[route[0]].children, ys[route[0]].children, route[1..]))
  }

  /** The names along a route. */
  function RouteNames(xs: seq<Node>, ys: seq<Node>, route: seq<nat>): (r: seq<string>)
    requires ApartAt(xs, ys, route)
    ensures |r| == |route|
    decreases |route|
  {
    var x := xs[route[0]];
    if |route| == 1 then [x.name]
    else [x.name] + RouteNames(x.children, ys[route[0]].children, route[1..])
  }

  /** The leaf at the end of a route in the first list (`second` false) or the second. */
  function RouteLeaf(xs: seq<Node>, ys: seq<Node>, route: seq<nat>, second: bool): (r: Node)
    requires ApartAt(xs, ys, route)
    ensures r.Leaf?
    decreases |route|
  {
    var x, y := xs[route[0]], ys[route[0]];
    if |route| == 1 then (if second then y else x)
    else RouteLeaf(x.children, y.children, route[1..], second)
  }

  /** A leaf whose hash changed, and nothing else, is reported as one Modify at its full path. */
  lemma {:induction false} DiffSeqApartAt(pre: seq<string>, xs: seq<Node>, ys: seq<Node>, route: seq<nat>)
    requires ApartAt(xs, ys, route)
    ensures DiffSeq(pre, xs, ys) ==
      [Change(Some(Entry(pre + RouteNames(xs, ys, route), RouteLeaf(xs, ys, route, false))),
              Some(Entry(pre + RouteNames(xs, ys, route), RouteLeaf(xs, ys, route, true))))]
    decreases |route|
  {
    var i := route[0];
    DiffSeqOneApart(pre, xs, ys, i);
    if |route| > 1 {
      var x := xs[i];
      DiffSeqApartAt(pre + [x.name], x.children, ys[i].children, route[1..]);
      assert pre + [x.name] + RouteNames(x.children, ys[i].children, route[1..]) == pre + RouteNames(xs, ys, route);
    }
  }

  /**
   * Two trees that differ only in one leaf's content (or in any way that
   * changes that leaf's noder hash) diff to exactly one Modify at the
   * leaf's slash-joined path; its unchanged siblings report nothing.
   */
  lemma DiffOneLeafModified(a: TreeNode, b: TreeNode, route: seq<nat>)
    requires HashOf(a) != HashOf(b)
    requires ApartAt(a.children, b.children, route)
    ensures |Diff(Some(a), Some(b))| == 1
    ensures ActionOf(Diff(Some(a), Some(b))[0]) == Success(Modify)
    ensures Name(Diff(Some(a), Some(b))[0]) == Join(RouteNames(a.children, b.children, route))
    ensures Diff(Some(a), Some(b))[0].from.value.node == RouteLeaf(a.children, b.children, route, false)
    ensures Diff(Some(a), Some(b))[0].to.value.node == RouteLeaf(a.children, b.children, route, true)
  {
    DiffSeqApartAt([], a.children, b.children, route);
    assert [] + RouteNames(a.children, b.children, route) == RouteNames(a.children, b.children, route);
  }

  /**
   * Two sibling lists that differ only along one route of indices: equal
   * everywhere else, same names along the route, and at its end two leaves
   * with the same content whose modes are each regular or deprecated. The
   * directories on the way may have different hashes of their own.
   */
  predicate AliasAt(xs: seq<Node>, ys: seq<Node>, route: seq<nat>)
    decreases |route|
  {
    && |route| > 0
    && |xs| == |ys|
    && route[0] < |xs|
    && (forall j :: 0 <= j < |xs| && j != route[0] ==> xs[j] == ys[j])
    && xs[route[0]].name == ys[route[0]].name
    && (if |route| == 1 then
          && xs[route[0]].Leaf? && ys[route[0]].Leaf?
          && xs[route[0]].hash == ys[route[0]].hash
          && {xs[route[0]].mode, ys[route[0]].mode} <= {Regular, Deprecated}
        else xs[route[0]].Tree? && ys[route[0]].Tree? &&
             AliasAt(xs[route[0]].children, ys[route[0]].children, route[1..]))
  }

  lemma {:induction false} DiffSeqAliasAt(pre: seq<string>, xs: seq<Node>, ys: seq<Node>, route: seq<nat>)
    requires AliasAt(xs, ys, route)
    ensures DiffSeq(pre, xs, ys) == []
    decreases |route|
  {
    var i := route[0];
    DiffSeqOneApart(pre, xs, ys, i);
    if |route| == 1 {
      HashOfEqual(xs[i], ys[i]);
    } else if HashOf(xs[i]) != HashOf(ys[i]) {
      DiffSeqAliasAt(pre + [xs[i].name], xs[i].children, ys[i].children, route[1..]);
    }
  }

  /**
   * A leaf, at any depth, whose only change is between the regular and the
   * deprecated mode, with its content unchanged, is not reported: every
   * other entry being equal, the diff is empty even though the directories
   * above the leaf may carry different hashes.
   */
  lemma DiffModeAliasOnly(a: TreeNode, b: TreeNode, route: seq<nat>)
    requires AliasAt(a.children, b.children, route)
    ensures Diff(Some(a), Some(b)) == []
  {
    DiffSeqAliasAt([], a.children, b.children, route);
  }
}
