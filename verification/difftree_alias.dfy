/**
 * A leaf whose only change is between the regular and the deprecated mode
 * is never reported, whatever else changed beside it: a Modify always joins
 * two leaves whose noder hashes differ, and on well-formed trees a Delete
 * names a path that reaches no leaf of the second tree, an Insert one that
 * reaches no leaf of the first.
 */
module DiffTreeAlias {
  import opened Wrappers
  import opened PathOrder
  import opened TreeNoder
  import opened Changes
  import opened DiffTree
  import opened DiffTreeLaws
  import opened DiffTreeOrder
  import opened DiffTreeProvenance

  /** Every change with both sides joins two nodes whose noder hashes differ. */
  predicate HashesApart(cs: seq<Change>)
  {
    forall c :: c in cs && c.from.Some? && c.to.Some? ==>
      HashOf(c.from.value.node) != HashOf(c.to.value.node)
  }

  lemma OneSidedApart(pre: seq<string>, n: Node)
    ensures HashesApart(Inserted(Leaves(pre, n)))
    ensures HashesApart(Deleted(Leaves(pre, n)))
  {
    InsertedMembership(Leaves(pre, n));
    DeletedMembership(Leaves(pre, n));
  }

  lemma {:induction false} DiffPairApart(pre: seq<string>, x: Node, y: Node)
    ensures HashesApart(DiffPair(pre, x, y))
    decreases Size(x) + Size(y), 0
  {
    if HashOf(x) == HashOf(y) {
    } else if x.Tree? && y.Tree? {
      DiffSeqApart(pre + [x.name], x.children, y.children);
    } else if x.Leaf? && y.Leaf? {
    } else {
      OneSidedApart(pre, x);
      OneSidedApart(pre, y);
    }
  }

  lemma {:induction false} DiffSeqApart(pre: seq<string>, xs: seq<Node>, ys: seq<Node>)
    ensures HashesApart(DiffSeq(pre, xs, ys))
    decreases SizeAll(xs) + SizeAll(ys), 1
  {
    if |xs| == 0 && |ys| == 0 {
    } else if |ys| == 0 {
      OneSidedApart(pre, xs[0]);
      DiffSeqApart(pre, xs[1..], ys);
    } else if |xs| == 0 {
      OneSidedApart(pre, ys[0]);
      DiffSeqApart(pre, xs, ys[1..]);
    } else if xs[0].name == ys[0].name {
      DiffPairApart(pre, xs[0], ys[0]);
      DiffSeqApart(pre, xs[1..], ys[1..]);
    } else if StrLe(xs[0].name, ys[0].name) {
      OneSidedApart(pre, xs[0]);
      DiffSeqApart(pre, xs[1..], ys);
    } else {
      OneSidedApart(pre, ys[0]);
      DiffSeqApart(pre, xs, ys[1..]);
    }
  }

  /** Two leaves with the same content, each in the regular or the deprecated mode. */
  predicate Alias(x: Node, y: Node)
  {
    x.Leaf? && y.Leaf? && x.hash == y.hash && {x.mode, y.mode} <= {Regular, Deprecated}
  }

  /**
   * Every Modify the diff reports joins two leaves whose noder hashes
   * differ, so no Modify ever joins an alias pair, whatever else changed.
   */
  lemma DiffModifyApart(a: Option<TreeNode>, b: Option<TreeNode>)
    ensures forall c :: c in Diff(a, b) && c.from.Some? && c.to.Some? ==>
      HashOf(c.from.value.node) != HashOf(c.to.value.node)
    ensures forall c :: c in Diff(a, b) && c.from.Some? && c.to.Some? ==>
      !Alias(c.from.value.node, c.to.value.node)
  {
    if !(a.Some? && b.Some? && HashOf(a.value) == HashOf(b.value)) {
      DiffSeqApart([], Entries(a), Entries(b));
    }
    forall c | c in Diff(a, b) && c.from.Some? && c.to.Some?
      ensures !Alias(c.from.value.node, c.to.value.node)
    {
      HashOfEqual(c.from.value.node, c.to.value.node);
    }
  }

  /** `e` lies below `pre`, and the rest of its path reaches no leaf among `ns`. */
  ghost predicate Gone(pre: seq<string>, ns: seq<Node>, e: Entry)
  {
    Below(pre, e) && forall n :: Reaches(ns, e.path[|pre|..], n) ==> n.Tree?
  }

  /** Every Delete among `cs` names an entry gone from `ys`. */
  ghost predicate DeletesGone(pre: seq<string>, ys: seq<Node>, cs: seq<Change>)
  {
    forall c :: c in cs && c.from.Some? && c.to.None? ==> Gone(pre, ys, c.from.value)
  }

  /** A path whose first name none of `ns` carries reaches nothing among them. */
  lemma Unreached(ns: seq<Node>, p: seq<string>)
    requires |p| > 0 && p[0] !in NamesOf(ns)
    ensures forall n :: !Reaches(ns, p, n)
  {
    forall n
      ensures !Reaches(ns, p, n)
    {
      assert forall k :: 0 <= k < |ns| ==> ns[k].name in NamesOf(ns);
    }
  }

  /** A path reaching a node among some siblings starts with one of their names. */
  lemma ReachesName(ns: seq<Node>, p: seq<string>, n: Node)
    requires Reaches(ns, p, n)
    ensures p[0] in NamesOf(ns)
  {
    var k :| 0 <= k < |ns| && ns[k].name == p[0] &&
      ((|p| == 1 && ns[k] == n) || (|p| > 1 && ns[k].Tree? && Reaches(ns[k].children, p[1..], n)));
    assert ns[k] in ns;
  }

  /** A path not starting with the head's name reaches among the siblings only through the tail. */
  lemma ReachesTail(ns: seq<Node>, p: seq<string>, n: Node)
    requires |ns| > 0 && Reaches(ns, p, n) && p[0] != ns[0].name
    ensures Reaches(ns[1..], p, n)
  {
    var k :| 0 <= k < |ns| && ns[k].name == p[0] &&
      ((|p| == 1 && ns[k] == n) || (|p| > 1 && ns[k].Tree? && Reaches(ns[k].children, p[1..], n)));
    assert ns[1..][k - 1] == ns[k];
  }

  /** Among strictly ascending siblings, a path starting with the head's name reaches through the head. */
  lemma ReachesHead(ns: seq<Node>, p: seq<string>, n: Node)
    requires StrictlyAscending(ns) && |ns| > 0
    requires Reaches(ns, p, n) && p[0] == ns[0].name
    ensures Reaches([ns[0]], p, n)
  {
    AscendingHead(ns);
    var k :| 0 <= k < |ns| && ns[k].name == p[0] &&
      ((|p| == 1 && ns[k] == n) || (|p| > 1 && ns[k].Tree? && Reaches(ns[k].children, p[1..], n)));
    AscendingDistinct(ns, k, 0);
    assert [ns[0]][0] == ns[k];
  }

  /** The Deletes of one-sided siblings name entries whose first name `ys` lacks. */
  lemma DeletedAbsent(pre: seq<string>, n: Node, ys: seq<Node>)
    requires n.name !in NamesOf(ys)
    ensures DeletesGone(pre, ys, Deleted(Leaves(pre, n)))
  {
    LeavesWithin(pre, n);
    DeletedMembership(Leaves(pre, n));
    forall e | e in Leaves(pre, n)
      ensures Gone(pre, ys, e)
    {
      var p := e.path[|pre|..];
      assert [n][0] == n;
      assert p[0] == n.name;
      Unreached(ys, p);
    }
  }

  lemma InsertedNoDeletes(pre: seq<string>, ys: seq<Node>, n: Node)
    ensures DeletesGone(pre, ys, Inserted(Leaves(pre, n)))
  {
    InsertedMembership(Leaves(pre, n));
  }

  /**
   * Deletes drawn from `xs` and gone from the tail of `ys` are gone from all
   * of `ys` when the head of `ys` carries none of the names of `xs`.
   */
  lemma GoneTail(pre: seq<string>, xs: seq<Node>, ys: seq<Node>, cs: seq<Change>)
    requires |ys| > 0 && ys[0].name !in NamesOf(xs)
    requires Sourced(pre, xs, ys[1..], cs)
    requires DeletesGone(pre, ys[1..], cs)
    ensures DeletesGone(pre, ys, cs)
  {
    forall c | c in cs && c.from.Some? && c.to.None?
      ensures Gone(pre, ys, c.from.value)
    {
      var e := c.from.value;
      var p := e.path[|pre|..];
      ReachesName(xs, p, e.node);
      forall n | Reaches(ys, p, n)
        ensures n.Tree?
      {
        ReachesTail(ys, p, n);
      }
    }
  }

  /** Deletes of a pair gone from its second node are gone from the second node's siblings. */
  lemma GoneHead(pre: seq<string>, x: Node, ys: seq<Node>, cs: seq<Change>)
    requires StrictlyAscending(ys) && |ys| > 0 && x.name == ys[0].name
    requires Sourced(pre, [x], [ys[0]], cs)
    requires DeletesGone(pre, [ys[0]], cs)
    ensures DeletesGone(pre, ys, cs)
  {
    forall c | c in cs && c.from.Some? && c.to.None?
      ensures Gone(pre, ys, c.from.value)
    {
      var e := c.from.value;
      var p := e.path[|pre|..];
      ReachesName([x], p, e.node);
      assert p[0] == ys[0].name;
      forall n | Reaches(ys, p, n)
        ensures n.Tree?
      {
        ReachesHead(ys, p, n);
      }
    }
  }

  /** What is gone from a directory's children, one name further, is gone from `[y]`. */
  lemma GoneLift(pre: seq<string>, y: Node, e: Entry)
    requires y.Tree? && Gone(pre + [y.name], y.children, e)
    ensures Gone(pre, [y], e)
  {
    var p := e.path[|pre|..];
    assert e.path[..|pre|] == e.path[..|pre| + 1][..|pre|];
    assert p[1..] == e.path[|pre| + 1..];
    assert [y][0] == y;
  }

  /** A directory and a leaf of one name: what one side deletes, the other side lacks as a leaf. */
  lemma ExpandGone(pre: seq<string>, x: Node, y: Node)
    requires x.name == y.name && x.Leaf? != y.Leaf?
    ensures DeletesGone(pre, [y], Deleted(Leaves(pre, x)))
  {
    DeletedMembership(Leaves(pre, x));
    LeavesShape(pre, x);
    if x.Tree? {
      LeavesAllShape(pre + [x.name], x.children);
      forall e | e in Leaves(pre, x)
        ensures Gone(pre, [y], e)
      {
        assert e.path[..|pre|] == e.path[..|pre| + 1][..|pre|];
        assert [y][0] == y;
      }
    } else {
      forall e | e in Leaves(pre, x)
        ensures Gone(pre, [y], e)
      {
        assert e.path[|pre|..] == [x.name];
        assert [y][0] == y;
      }
    }
  }

  lemma {:induction false} DiffPairGone(pre: seq<string>, x: Node, y: Node)
    requires x.name == y.name && WellFormed(x) && WellFormed(y)
    ensures DeletesGone(pre, [y], DiffPair(pre, x, y))
    decreases Size(x) + Size(y), 0
  {
    if HashOf(x) == HashOf(y) {
    } else if x.Tree? && y.Tree? {
      var cs := DiffSeq(pre + [x.name], x.children, y.children);
      DiffSeqGone(pre + [x.name], x.children, y.children);
      forall c | c in cs && c.from.Some? && c.to.None?
        ensures Gone(pre, [y], c.from.value)
      {
        GoneLift(pre, y, c.from.value);
      }
    } else if x.Leaf? && y.Leaf? {
    } else {
      ExpandGone(pre, x, y);
      InsertedNoDeletes(pre, [y], y);
    }
  }

  /** On well-formed siblings, every Delete the walk reports names no leaf among `ys`. */
  lemma {:induction false} DiffSeqGone(pre: seq<string>, xs: seq<Node>, ys: seq<Node>)
    requires WellFormedAll(xs) && StrictlyAscending(xs)
    requires WellFormedAll(ys) && StrictlyAscending(ys)
    ensures DeletesGone(pre, ys, DiffSeq(pre, xs, ys))
    decreases SizeAll(xs) + SizeAll(ys), 1
  {
    if |xs| > 0 {
      AscendingHead(xs);
    }
    if |ys| > 0 {
      AscendingHead(ys);
    }
    if |xs| == 0 && |ys| == 0 {
    } else if |ys| == 0 {
      DeletedAbsent(pre, xs[0], ys);
      DiffSeqGone(pre, xs[1..], ys);
    } else if |xs| == 0 {
      InsertedNoDeletes(pre, ys, ys[0]);
      DiffSeqGone(pre, xs, ys[1..]);
      DiffSeqSourced(pre, xs, ys[1..]);
      GoneTail(pre, xs, ys, DiffSeq(pre, xs, ys[1..]));
    } else if xs[0].name == ys[0].name {
      DiffPairGone(pre, xs[0], ys[0]);
      DiffPairSourced(pre, xs[0], ys[0]);
      GoneHead(pre, xs[0], ys, DiffPair(pre, xs[0], ys[0]));
      DiffSeqGone(pre, xs[1..], ys[1..]);
      DiffSeqSourced(pre, xs[1..], ys[1..]);
      GoneTail(pre, xs[1..], ys, DiffSeq(pre, xs[1..], ys[1..]));
    } else if StrLe(xs[0].name, ys[0].name) {
      BelowAll(xs[0].name, ys);
      DeletedAbsent(pre, xs[0], ys);
      DiffSeqGone(pre, xs[1..], ys);
    } else {
      StrLeTotal(xs[0].name, ys[0].name);
      BelowAll(ys[0].name, xs);
      InsertedNoDeletes(pre, ys, ys[0]);
      DiffSeqGone(pre, xs, ys[1..]);
      DiffSeqSourced(pre, xs, ys[1..]);
      GoneTail(pre, xs, ys, DiffSeq(pre, xs, ys[1..]));
    }
  }

  /**
   * On well-formed trees a Delete names a path that reaches no leaf of the
   * second tree, and an Insert one that reaches no leaf of the first: an
   * entry present as a leaf on both sides is never reported as removed or
   * added.
   */
  lemma DiffOneSidedGone(a: Option<TreeNode>, b: Option<TreeNode>)
    requires WellFormedRoot(a) && WellFormedRoot(b)
    ensures forall c, n ::
      (c in Diff(a, b) && c.from.Some? && c.to.None? && Reaches(Entries(b), c.from.value.path, n)) ==> n.Tree?
    ensures forall c, n ::
      (c in Diff(a, b) && c.from.None? && c.to.Some? && Reaches(Entries(a), c.to.value.path, n)) ==> n.Tree?
  {
    DiffDeletesGone(a, b);
    DiffDeletesGone(b, a);
    DiffMirror(a, b);
    forall c | c in Diff(a, b) && c.from.None? && c.to.Some?
      ensures Mirror(c) in Diff(b, a)
    {
      assert Mirror(Mirror(c)) == c;
    }
  }

  lemma DiffDeletesGone(a: Option<TreeNode>, b: Option<TreeNode>)
    requires WellFormedRoot(a) && WellFormedRoot(b)
    ensures forall c, n ::
      (c in Diff(a, b) && c.from.Some? && c.to.None? && Reaches(Entries(b), c.from.value.path, n)) ==> n.Tree?
  {
    if !(a.Some? && b.Some? && HashOf(a.value) == HashOf(b.value)) {
      DiffSeqGone([], Entries(a), Entries(b));
      forall c | c in Diff(a, b) && c.from.Some? && c.to.None?
        ensures forall n :: Reaches(Entries(b), c.from.value.path, n) ==> n.Tree?
      {
        assert c.from.value.path[0..] == c.from.value.path;
      }
    }
  }

  /**
   * A route of index pairs matching same-named entries in two sibling lists,
   * through directories on both sides, ending in an alias pair of leaves.
   * The directories on the way may or may not hash alike, and nothing is
   * said of the other entries.
   */
  predicate AliasRoute(xs: seq<Node>, ys: seq<Node>, route: seq<(nat, nat)>)
    decreases |route|
  {
    && |route| > 0
    && route[0].0 < |xs| && route[0].1 < |ys|
    && xs[route[0].0].name == ys[route[0].1].name
    && (if |route| == 1 then Alias(xs[route[0].0], ys[route[0].1])
        else xs[route[0].0].Tree? && ys[route[0].1].Tree? &&
             AliasRoute(xs[route[0].0].children, ys[route[0].1].children, route[1..]))
  }

  /** The names along an alias route. */
  function AliasNames(xs: seq<Node>, ys: seq<Node>, route: seq<(nat, nat)>): (r: seq<string>)
    requires AliasRoute(xs, ys, route)
    ensures |r| == |route|
    decreases |route|
  {
    var x := xs[route[0].0];
    if |route| == 1 then [x.name]
    else [x.name] + AliasNames(x.children, ys[route[0].1].children, route[1..])
  }

  /** The leaf at the end of an alias route in the first list (`second` false) or the second. */
  function AliasLeaf(xs: seq<Node>, ys: seq<Node>, route: seq<(nat, nat)>, second: bool): (r: Node)
    requires AliasRoute(xs, ys, route)
    ensures r.Leaf?
    decreases |route|
  {
    var x, y := xs[route[0].0], ys[route[0].1];
    if |route| == 1 then (if second then y else x)
    else AliasLeaf(x.children, y.children, route[1..], second)
  }

  /** An alias route's names reach its two leaves, and they are an alias pair. */
  lemma {:induction false} AliasReaches(xs: seq<Node>, ys: seq<Node>, route: seq<(nat, nat)>)
    requires AliasRoute(xs, ys, route)
    ensures Reaches(xs, AliasNames(xs, ys, route), AliasLeaf(xs, ys, route, false))
    ensures Reaches(ys, AliasNames(xs, ys, route), AliasLeaf(xs, ys, route, true))
    ensures Alias(AliasLeaf(xs, ys, route, false), AliasLeaf(xs, ys, route, true))
    decreases |route|
  {
    var (i, j) := route[0];
    var p := AliasNames(xs, ys, route);
    if |route| > 1 {
      AliasReaches(xs[i].children, ys[j].children, route[1..]);
      assert p[1..] == AliasNames(xs[i].children, ys[j].children, route[1..]);
    }
  }

  /** Among distinct-named well-formed siblings, a path reaches at most one node. */
  lemma {:induction false} ReachesUnique(ns: seq<Node>, p: seq<string>, q: seq<string>, m: Node, n: Node)
    requires WellFormedAll(ns) && StrictlyAscending(ns)
    requires Reaches(ns, p, m) && Reaches(ns, q, n)
    ensures p == q ==> m == n
    decreases |p|
  {
    if p == q {
      var k :| 0 <= k < |ns| && ns[k].name == p[0] &&
        ((|p| == 1 && ns[k] == m) || (|p| > 1 && ns[k].Tree? && Reaches(ns[k].children, p[1..], m)));
      var l :| 0 <= l < |ns| && ns[l].name == p[0] &&
        ((|p| == 1 && ns[l] == n) || (|p| > 1 && ns[l].Tree? && Reaches(ns[l].children, p[1..], n)));
      AscendingDistinct(ns, k, l);
      if |p| > 1 {
        WellFormedElement(ns, k);
        ReachesUnique(ns[k].children, p[1..], p[1..], m, n);
      }
    }
  }

  /** Strictly ascending siblings at different indices carry different names. */
  lemma {:induction false} AscendingDistinct(ns: seq<Node>, k: nat, l: nat)
    requires StrictlyAscending(ns) && k < |ns| && l < |ns|
    ensures ns[k].name == ns[l].name ==> k == l
    decreases k + l
  {
    if k > 0 && l > 0 {
      AscendingHead(ns);
      AscendingDistinct(ns[1..], k - 1, l - 1);
      assert ns[1..][k - 1] == ns[k] && ns[1..][l - 1] == ns[l];
    } else if k != l {
      AscendingHead(ns);
    }
  }

  /**
   * On well-formed trees, take a leaf reached by the same path in both
   * trees whose only change is between the regular and the deprecated mode,
   * with its content unchanged. No change the diff reports carries that path
   * on either side (no Modify, Delete or Insert, and so no name), whatever
   * else changed in the trees.
   */
  lemma DiffAliasUnreported(a: TreeNode, b: TreeNode, route: seq<(nat, nat)>)
    requires WellFormedRoot(Some(a)) && WellFormedRoot(Some(b))
    requires AliasRoute(a.children, b.children, route)
    ensures forall c :: c in Diff(Some(a), Some(b)) && c.from.Some? ==>
      c.from.value.path != AliasNames(a.children, b.children, route)
    ensures forall c :: c in Diff(Some(a), Some(b)) && c.to.Some? ==>
      c.to.value.path != AliasNames(a.children, b.children, route)
  {
    var p := AliasNames(a.children, b.children, route);
    var x, y := AliasLeaf(a.children, b.children, route, false), AliasLeaf(a.children, b.children, route, true);
    var xs, ys := Entries(Some(a)), Entries(Some(b));
    AliasReaches(a.children, b.children, route);
    HashOfEqual(x, y);
    assert HashOf(x) == HashOf(y);
    DiffReported(Some(a), Some(b));
    DiffProvenance(Some(a), Some(b));
    DiffModifyApart(Some(a), Some(b));
    DiffOneSidedGone(Some(a), Some(b));
    forall c | c in Diff(Some(a), Some(b))
      ensures c.from.Some? ==> c.from.value.path != p
      ensures c.to.Some? ==> c.to.value.path != p
    {
      if c.from.Some? {
        ReachesUnique(xs, c.from.value.path, p, c.from.value.node, x);
      }
      if c.to.Some? {
        ReachesUnique(ys, c.to.value.path, p, c.to.value.node, y);
      }
      if c.from.Some? && c.to.Some? {
        // a Modify: both sides at one path, joining nodes whose hashes differ
        assert c.from.value.path == c.to.value.path;
        assert HashOf(c.from.value.node) != HashOf(c.to.value.node);
      } else if c.from.Some? {
        // a Delete: its path reaches no leaf of the second tree, and `y` is one
        assert Reaches(ys, p, y) && y.Leaf?;
      } else if c.to.Some? {
        assert Reaches(xs, p, x) && x.Leaf?;
      }
    }
  }
}
