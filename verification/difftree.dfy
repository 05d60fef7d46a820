/**
 * The tree diff: a lock-step walk over two name-ordered trees that skips
 * every pair of entries whose noder hashes agree, reports a changed leaf
 * as one Modify, and expands an entry present on one side only (or a
 * directory replaced by a leaf, or the reverse) into one Insert or Delete
 * per leaf beneath it. Directories themselves are never reported.
 */
module DiffTree {
  import opened Wrappers
  import opened PathOrder
  import opened TreeNoder
  import opened Changes

  /** Every leaf at or below `n`, with its full path under `pre`, in child order. */
  function Leaves(pre: seq<string>, n: Node): seq<Entry>
    decreases Size(n), 1
  {
    if n.Leaf? then [Entry(pre + [n.name], n)]
    else LeavesAll(pre + [n.name], n.children)
  }

  function LeavesAll(pre: seq<string>, ns: seq<Node>): seq<Entry>
    decreases SizeAll(ns), 2
  {
    if |ns| == 0 then [] else Leaves(pre, ns[0]) + LeavesAll(pre, ns[1..])
  }

  /** One Insert per entry. */
  function Inserted(es: seq<Entry>): (r: seq<Change>)
    ensures |r| == |es|
  {
    if |es| == 0 then [] else [Change(None, Some(es[0]))] + Inserted(es[1..])
  }

  /** One Delete per entry. */
  function Deleted(es: seq<Entry>): (r: seq<Change>)
    ensures |r| == |es|
  {
    if |es| == 0 then [] else [Change(Some(es[0]), None)] + Deleted(es[1..])
  }

  /** Two entries with the same name, one from each tree. */
  function DiffPair(pre: seq<string>, x: Node, y: Node): seq<Change>
    decreases Size(x) + Size(y), 0
  {
    if HashOf(x) == HashOf(y) then []
    else if x.Tree? && y.Tree? then DiffSeq(pre + [x.name], x.children, y.children)
    else if x.Leaf? && y.Leaf? then [Change(Some(Entry(pre + [x.name], x)), Some(Entry(pre + [y.name], y)))]
    else Deleted(Leaves(pre, x)) + Inserted(Leaves(pre, y))
  }

  /** The sorted-merge walk over two sibling lists. */
  function DiffSeq(pre: seq<string>, xs: seq<Node>, ys: seq<Node>): seq<Change>
    decreases SizeAll(xs) + SizeAll(ys), 3
  {
    if |xs| == 0 && |ys| == 0 then []
    else if |ys| == 0 then Deleted(Leaves(pre, xs[0])) + DiffSeq(pre, xs[1..], ys)
    else if |xs| == 0 then Inserted(Leaves(pre, ys[0])) + DiffSeq(pre, xs, ys[1..])
    else if xs[0].name == ys[0].name then DiffPair(pre, xs[0], ys[0]) + DiffSeq(pre, xs[1..], ys[1..])
    else if StrLe(xs[0].name, ys[0].name) then Deleted(Leaves(pre, xs[0])) + DiffSeq(pre, xs[1..], ys)
    else Inserted(Leaves(pre, ys[0])) + DiffSeq(pre, xs, ys[1..])
  }

  function Entries(t: Option<TreeNode>): seq<Node>
  {
    if t.None? then [] else t.value.children
  }

  /** `DiffTree(a, b)`: a nil tree is an empty one. */
  function Diff(a: Option<TreeNode>, b: Option<TreeNode>): (r: seq<Change>)
    ensures a == b ==> r == []
  {
    if a.Some? && b.Some? && HashOf(a.value) == HashOf(b.value) then []
    else DiffSeq([], Entries(a), Entries(b))
  }
}
