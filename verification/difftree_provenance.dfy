/**
 * Where reported changes come from: every `from` side is a leaf of the
 * first tree and every `to` side a leaf of the second, each under the path
 * that reaches it; and on well-formed trees every leaf whose noder hash
 * changed along its path is reported as a Modify there, whatever else
 * changed beside it.
 */
module DiffTreeProvenance {
  import opened Wrappers
  import opened PathOrder
  import opened TreeNoder
  import opened Changes
  import opened DiffTree
  import opened DiffTreeLaws
  import opened DiffTreeOrder

  /** `e` lies below `pre`, and the rest of its path reaches its node among `ns`. */
  predicate Within(pre: seq<string>, ns: seq<Node>, e: Entry)
  {
    Below(pre, e) && Reaches(ns, e.path[|pre|..], e.node)
  }

  /** Every change's `from` side lies among `xs` and its `to` side among `ys`. */
  predicate Sourced(pre: seq<string>, xs: seq<Node>, ys: seq<Node>, cs: seq<Change>)
  {
    forall c :: c in cs ==>
      (c.from.Some? ==> Within(pre, xs, c.from.value)) &&
      (c.to.Some? ==> Within(pre, ys, c.to.value))
  }

  /** A path reaching a node among some siblings reaches it among any list holding them. */
  lemma ReachesWiden(ns: seq<Node>, ms: seq<Node>, p: seq<string>, n: Node)
    requires forall k :: 0 <= k < |ns| ==> ns[k] in ms
    requires Reaches(ns, p, n)
    ensures Reaches(ms, p, n)
  {
    var k :| 0 <= k < |ns| && ns[k].name == p[0] &&
      ((|p| == 1 && ns[k] == n) || (|p| > 1 && ns[k].Tree? && Reaches(ns[k].children, p[1..], n)));
    var j :| 0 <= j < |ms| && ms[j] == ns[k];
    assert ms[j].name == p[0];
  }

  lemma SourcedWiden(pre: seq<string>, xs: seq<Node>, ys: seq<Node>, xs': seq<Node>, ys': seq<Node>, cs: seq<Change>)
    requires forall k :: 0 <= k < |xs| ==> xs[k] in xs'
    requires forall k :: 0 <= k < |ys| ==> ys[k] in ys'
    requires Sourced(pre, xs, ys, cs)
    ensures Sourced(pre, xs', ys', cs)
  {
    forall c | c in cs
      ensures (c.from.Some? ==> Within(pre, xs', c.from.value)) &&
              (c.to.Some? ==> Within(pre, ys', c.to.value))
    {
      if c.from.Some? {
        ReachesWiden(xs, xs', c.from.value.path[|pre|..], c.from.value.node);
      }
      if c.to.Some? {
        ReachesWiden(ys, ys', c.to.value.path[|pre|..], c.to.value.node);
      }
    }
  }

  /** The head and the tail of a list are both held by it. */
  lemma Parts(ns: seq<Node>)
    requires |ns| > 0
    ensures forall k :: 0 <= k < |[ns[0]]| ==> [ns[0]][k] in ns
    ensures forall k :: 0 <= k < |ns[1..]| ==> ns[1..][k] in ns
  {
    forall k | 0 <= k < |ns[1..]|
      ensures ns[1..][k] in ns
    {
      assert ns[1..][k] == ns[k + 1];
    }
  }

  /** Every leaf beneath `n` is reached from `[n]` by its path below `pre`. */
  lemma LeavesWithin(pre: seq<string>, n: Node)
    ensures forall e :: e in Leaves(pre, n) ==> Within(pre, [n], e)
  {
    assert LeavesAll(pre, [n]) == Leaves(pre, n) + LeavesAll(pre, [n][1..]);
    assert [n][1..] == [];
    forall e | e in Leaves(pre, n)
      ensures Within(pre, [n], e)
    {
      LeavesAllReach(pre, [n], e);
    }
  }

  lemma DeletedSourced(pre: seq<string>, n: Node)
    ensures Sourced(pre, [n], [], Deleted(Leaves(pre, n)))
  {
    LeavesWithin(pre, n);
    DeletedMembership(Leaves(pre, n));
  }

  lemma InsertedSourced(pre: seq<string>, n: Node)
    ensures Sourced(pre, [], [n], Inserted(Leaves(pre, n)))
  {
    LeavesWithin(pre, n);
    InsertedMembership(Leaves(pre, n));
  }

  /** What lies among a directory's children, one name further, lies among `[t]`. */
  lemma WithinLift(pre: seq<string>, t: Node, e: Entry)
    requires t.Tree? && Within(pre + [t.name], t.children, e)
    ensures Within(pre, [t], e)
  {
    var rest := e.path[|pre|..];
    assert e.path[..|pre|] == e.path[..|pre| + 1][..|pre|];
    assert rest[0] == t.name;
    assert rest[1..] == e.path[|pre| + 1..];
    assert [t][0] == t;
  }

  lemma SourcedLift(pre: seq<string>, x: Node, y: Node, cs: seq<Change>)
    requires x.Tree? && y.Tree? && x.name == y.name
    requires Sourced(pre + [x.name], x.children, y.children, cs)
    ensures Sourced(pre, [x], [y], cs)
  {
    forall c | c in cs
      ensures (c.from.Some? ==> Within(pre, [x], c.from.value)) &&
              (c.to.Some? ==> Within(pre, [y], c.to.value))
    {
      if c.from.Some? {
        WithinLift(pre, x, c.from.value);
      }
      if c.to.Some? {
        WithinLift(pre, y, c.to.value);
      }
    }
  }

  lemma {:induction false} DiffPairSourced(pre: seq<string>, x: Node, y: Node)
    requires x.name == y.name
    ensures Sourced(pre, [x], [y], DiffPair(pre, x, y))
    decreases Size(x) + Size(y), 0
  {
    if HashOf(x) == HashOf(y) {
    } else if x.Tree? && y.Tree? {
      DiffSeqSourced(pre + [x.name], x.children, y.children);
      SourcedLift(pre, x, y, DiffSeq(pre + [x.name], x.children, y.children));
    } else if x.Leaf? && y.Leaf? {
      var c := Change(Some(Entry(pre + [x.name], x)), Some(Entry(pre + [y.name], y)));
      assert (pre + [x.name])[|pre|..] == [x.name] && (pre + [x.name])[..|pre|] == pre;
      assert (pre + [y.name])[|pre|..] == [y.name] && (pre + [y.name])[..|pre|] == pre;
      assert [x][0] == x && [y][0] == y;
      assert DiffPair(pre, x, y) == [c];
    } else {
      DeletedSourced(pre, x);
      InsertedSourced(pre, y);
      SourcedWiden(pre, [x], [], [x], [y], Deleted(Leaves(pre, x)));
      SourcedWiden(pre, [], [y], [x], [y], Inserted(Leaves(pre, y)));
    }
  }

  /** The walk over two sibling lists draws `from` sides from the first and `to` sides from the second. */
  lemma {:induction false} DiffSeqSourced(pre: seq<string>, xs: seq<Node>, ys: seq<Node>)
    ensures Sourced(pre, xs, ys, DiffSeq(pre, xs, ys))
    decreases SizeAll(xs) + SizeAll(ys), 1
  {
    if |xs| == 0 && |ys| == 0 {
    } else if |ys| == 0 || (|xs| > 0 && xs[0].name != ys[0].name && StrLe(xs[0].name, ys[0].name)) {
      Parts(xs);
      DeletedSourced(pre, xs[0]);
      SourcedWiden(pre, [xs[0]], [], xs, ys, Deleted(Leaves(pre, xs[0])));
      DiffSeqSourced(pre, xs[1..], ys);
      SourcedWiden(pre, xs[1..], ys, xs, ys, DiffSeq(pre, xs[1..], ys));
    } else if |xs| == 0 || xs[0].name != ys[0].name {
      Parts(ys);
      InsertedSourced(pre, ys[0]);
      SourcedWiden(pre, [], [ys[0]], xs, ys, Inserted(Leaves(pre, ys[0])));
      DiffSeqSourced(pre, xs, ys[1..]);
      SourcedWiden(pre, xs, ys[1..], xs, ys, DiffSeq(pre, xs, ys[1..]));
    } else {
      Parts(xs);
      Parts(ys);
      DiffPairSourced(pre, xs[0], ys[0]);
      SourcedWiden(pre, [xs[0]], [ys[0]], xs, ys, DiffPair(pre, xs[0], ys[0]));
      DiffSeqSourced(pre, xs[1..], ys[1..]);
      SourcedWiden(pre, xs[1..], ys[1..], xs, ys, DiffSeq(pre, xs[1..], ys[1..]));
    }
  }

  /**
   * Every reported `from` side is a leaf of the first tree and every `to`
   * side a leaf of the second, each reached in its tree by the change's path.
   */
  lemma DiffProvenance(a: Option<TreeNode>, b: Option<TreeNode>)
    ensures forall c :: c in Diff(a, b) && c.from.Some? ==>
      Reaches(Entries(a), c.from.value.path, c.from.value.node)
    ensures forall c :: c in Diff(a, b) && c.to.Some? ==>
      Reaches(Entries(b), c.to.value.path, c.to.value.node)
  {
    if !(a.Some? && b.Some? && HashOf(a.value) == HashOf(b.value)) {
      DiffSeqSourced([], Entries(a), Entries(b));
      forall c | c in Diff(a, b)
        ensures c.from.Some? ==> Reaches(Entries(a), c.from.value.path, c.from.value.node)
        ensures c.to.Some? ==> Reaches(Entries(b), c.to.value.path, c.to.value.node)
      {
        if c.from.Some? {
          assert c.from.value.path[0..] == c.from.value.path;
        }
        if c.to.Some? {
          assert c.to.value.path[0..] == c.to.value.path;
        }
      }
    }
  }

  /**
   * A route of index pairs matching same-named entries in two sibling lists
   * whose noder hashes differ at every step, ending in two leaves. Unlike
   * `ApartAt`, nothing is said of the other entries.
   */
  predicate PairedAt(xs: seq<Node>, ys: seq<Node>, route: seq<(nat, nat)>)
    decreases |route|
  {
    && |route| > 0
    && route[0].0 < |xs| && route[0].1 < |ys|
    && xs[route[0].0].name == ys[route[0].1].name
    && HashOf(xs[route[0].0]) != HashOf(ys[route[0].1])
    && (if |route| == 1 then xs[route[0].0].Leaf? && ys[route[0].1].Leaf?
        else xs[route[0].0].Tree? && ys[route[0].1].Tree? &&
             PairedAt(xs[route[0].0].children, ys[route[0].1].children, route[1..]))
  }

  /** The names along a paired route. */
  function PairedNames(xs: seq<Node>, ys: seq<Node>, route: seq<(nat, nat)>): (r: seq<string>)
    requires PairedAt(xs, ys, route)
    ensures |r| == |route|
    decreases |route|
  {
    var x := xs[route[0].0];
    if |route| == 1 then [x.name]
    else [x.name] + PairedNames(x.children, ys[route[0].1].children, route[1..])
  }

  /** The leaf at the end of a paired route in the first list (`second` false) or the second. */
  function PairedLeaf(xs: seq<Node>, ys: seq<Node>, route: seq<(nat, nat)>, second: bool): (r: Node)
    requires PairedAt(xs, ys, route)
    ensures r.Leaf?
    decreases |route|
  {
    var x, y := xs[route[0].0], ys[route[0].1];
    if |route| == 1 then (if second then y else x)
    else PairedLeaf(x.children, y.children, route[1..], second)
  }

  /** The Modify a paired route stands for, under the prefix `pre`. */
  function PairedModify(pre: seq<string>, xs: seq<Node>, ys: seq<Node>, route: seq<(nat, nat)>): Change
    requires PairedAt(xs, ys, route)
  {
    var p := pre + PairedNames(xs, ys, route);
    Change(Some(Entry(p, PairedLeaf(xs, ys, route, false))), Some(Entry(p, PairedLeaf(xs, ys, route, true))))
  }

  /** The walk meets every same-named pair of ascending siblings and reports that pair's changes. */
  lemma {:induction false} DiffSeqMeets(pre: seq<string>, xs: seq<Node>, ys: seq<Node>, i: nat, j: nat, c: Change)
    requires StrictlyAscending(xs) && StrictlyAscending(ys)
    requires i < |xs| && j < |ys| && xs[i].name == ys[j].name
    requires c in DiffPair(pre, xs[i], ys[j])
    ensures c in DiffSeq(pre, xs, ys)
    decreases i + j
  {
    AscendingHead(xs);
    AscendingHead(ys);
    if xs[0].name == ys[0].name {
      if i > 0 && j > 0 {
        assert xs[1..][i - 1] == xs[i] && ys[1..][j - 1] == ys[j];
        DiffSeqMeets(pre, xs[1..], ys[1..], i - 1, j - 1, c);
      } else {
        // a later sibling sorts strictly after the head, so neither index moved
        assert i == 0 && j == 0;
      }
    } else if StrLe(xs[0].name, ys[0].name) {
      StrLtTrichotomy(xs[0].name, ys[0].name);
      assert i > 0;
      assert xs[1..][i - 1] == xs[i];
      DiffSeqMeets(pre, xs[1..], ys, i - 1, j, c);
    } else {
      assert j > 0;
      assert ys[1..][j - 1] == ys[j];
      DiffSeqMeets(pre, xs, ys[1..], i, j - 1, c);
    }
  }

  /** Along a paired route through well-formed siblings, the walk reports the route's Modify. */
  lemma {:induction false} DiffSeqPairedAt(pre: seq<string>, xs: seq<Node>, ys: seq<Node>, route: seq<(nat, nat)>)
    requires WellFormedAll(xs) && StrictlyAscending(xs)
    requires WellFormedAll(ys) && StrictlyAscending(ys)
    requires PairedAt(xs, ys, route)
    ensures PairedModify(pre, xs, ys, route) in DiffSeq(pre, xs, ys)
    decreases |route|
  {
    var (i, j) := route[0];
    var x, y := xs[i], ys[j];
    var c := PairedModify(pre, xs, ys, route);
    if |route| == 1 {
      assert DiffPair(pre, x, y) == [c];
    } else {
      WellFormedElement(xs, i);
      WellFormedElement(ys, j);
      var pre' := pre + [x.name];
      DiffSeqPairedAt(pre', x.children, y.children, route[1..]);
      assert pre' + PairedNames(x.children, y.children, route[1..]) == pre + PairedNames(xs, ys, route);
      assert PairedModify(pre', x.children, y.children, route[1..]) == c;
      assert c in DiffPair(pre, x, y);
    }
    DiffSeqMeets(pre, xs, ys, i, j, c);
  }

  lemma {:induction false} WellFormedElement(ns: seq<Node>, k: nat)
    requires WellFormedAll(ns) && k < |ns|
    ensures WellFormed(ns[k])
  {
    if k > 0 {
      WellFormedElement(ns[1..], k - 1);
    }
  }

  /**
   * On well-formed trees, a leaf reached by the same path in both trees
   * whose noder hash differs at every step of that path is reported as
   * exactly one Modify under the path's joined name, with the old leaf as
   * `from` and the new one as `to`, whatever else changed in the trees.
   */
  lemma DiffLeafModified(a: TreeNode, b: TreeNode, route: seq<(nat, nat)>)
    requires WellFormedRoot(Some(a)) && WellFormedRoot(Some(b))
    requires HashOf(a) != HashOf(b)
    requires PairedAt(a.children, b.children, route)
    ensures PairedModify([], a.children, b.children, route) in Diff(Some(a), Some(b))
    ensures ActionOf(PairedModify([], a.children, b.children, route)) == Success(Modify)
    ensures Name(PairedModify([], a.children, b.children, route)) == Join(PairedNames(a.children, b.children, route))
    ensures forall c :: c in Diff(Some(a), Some(b)) && Name(c) == Join(PairedNames(a.children, b.children, route)) ==>
      c == PairedModify([], a.children, b.children, route)
  {
    var m := PairedModify([], a.children, b.children, route);
    var d := Diff(Some(a), Some(b));
    DiffSeqPairedAt([], a.children, b.children, route);
    assert [] + PairedNames(a.children, b.children, route) == PairedNames(a.children, b.children, route);
    DiffDistinct(Some(a), Some(b));
    forall c | c in d && Name(c) == Name(m)
      ensures c == m
    {
      var i :| 0 <= i < |d| && d[i] == c;
      var j :| 0 <= j < |d| && d[j] == m;
      // distinct names leave no other index holding this name
      assert i == j;
    }
  }
}
