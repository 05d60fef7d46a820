/**
 * Tree entries as the diff sees them (the `treeNoder` adapter of the
 * object package): a name, a content hash, a file mode, and for a
 * directory its children ordered by name.
 */
module TreeNoder {
  import opened PathOrder

  /** An object id; SHA-1 ids are 20 bytes, SHA-256 ids 32. */
  type Hash = seq<bv8>

  /** The entry modes of the filemode package. */
  datatype FileMode = Empty | Dir | Regular | Deprecated | Executable | Symlink | Submodule

  /** The numeric (octal) value of each mode. */
  function Bits(m: FileMode): nat
  {
    match m
    case Empty => 0
    case Dir => 16384            // 0o040000
    case Regular => 33188        // 0o100644
    case Deprecated => 33204     // 0o100664
    case Executable => 33261     // 0o100755
    case Symlink => 40960        // 0o120000
    case Submodule => 57344      // 0o160000
  }

  /** Distinct modes have distinct numeric values. */
  lemma BitsInjective(m1: FileMode, m2: FileMode)
    ensures Bits(m1) == Bits(m2) <==> m1 == m2
  {
  }

  /** The legacy group-writable mode is read as a regular file; every other mode is kept. */
  function Normalize(m: FileMode): (r: FileMode)
    ensures r != Deprecated
    ensures m != Deprecated ==> r == m
    ensures r == Regular <==> m == Regular || m == Deprecated
  {
    if m == Deprecated then Regular else m
  }

  /**
   * A tree entry. A directory's mode is `Dir`; a leaf is anything else
   * (regular, executable, symlink, submodule, ...).
   */
  datatype Node =
    | Leaf(name: string, hash: Hash, mode: FileMode)
    | Tree(name: string, hash: Hash, children: seq<Node>)

  /** A repository tree object: the root of a diff. */
  type TreeNode = n: Node | n.Tree? witness Tree("", [], [])

  function ModeOf(n: Node): FileMode
  {
    if n.Tree? then Dir else n.mode
  }

  /** The hash a noder is compared by: the content hash followed by the (normalised) mode. */
  datatype NoderHash = NoderHash(content: Hash, modeBits: nat)

  /** `treeNoder.Hash()`. */
  function HashOf(n: Node): (r: NoderHash)
    ensures r.content == n.hash
    ensures r.modeBits == Bits(Regular) <==> ModeOf(n) in {Regular, Deprecated}
  {
    NoderHash(n.hash, Bits(Normalize(ModeOf(n))))
  }

  /**
   * Two noders hash alike exactly when their contents are equal and their
   * modes agree once the deprecated mode is read as regular.
   */
  lemma HashOfEqual(a: Node, b: Node)
    ensures HashOf(a) == HashOf(b) <==>
            a.hash == b.hash && Normalize(ModeOf(a)) == Normalize(ModeOf(b))
  {
    BitsInjective(Normalize(ModeOf(a)), Normalize(ModeOf(b)));
  }

  /** Regular and Deprecated entries with equal contents hash alike; different contents never do. */
  lemma RegularDeprecatedAlias(name: string, h1: Hash, h2: Hash)
    ensures HashOf(Leaf(name, h1, Regular)) == HashOf(Leaf(name, h1, Deprecated))
    ensures h1 != h2 ==> HashOf(Leaf(name, h1, Regular)) != HashOf(Leaf(name, h2, Regular))
    ensures h1 != h2 ==> HashOf(Leaf(name, h1, Deprecated)) != HashOf(Leaf(name, h2, Deprecated))
  {
  }

  /** Any other mode change is visible in the hash even with equal contents. */
  lemma ModeChangeVisible(a: Node, b: Node)
    requires a.hash == b.hash
    requires {ModeOf(a), ModeOf(b)} != {Regular, Deprecated}
    requires ModeOf(a) != ModeOf(b)
    ensures HashOf(a) != HashOf(b)
  {
    HashOfEqual(a, b);
  }

  /** Size measure for termination of the walks over trees. */
  function Size(n: Node): (r: nat)
    ensures r >= 1
  {
    if n.Leaf? then 1 else 1 + SizeAll(n.children)
  }

  function SizeAll(ns: seq<Node>): nat
  {
    if |ns| == 0 then 0 else Size(ns[0]) + SizeAll(ns[1..])
  }

  /**
   * A well-formed tree: leaves are never `Dir`, and each directory's
   * children have valid names in strictly ascending order (so they are
   * also unique).
   */
  predicate WellFormed(n: Node)
    decreases Size(n), 0
  {
    if n.Leaf? then n.mode != Dir
    else WellFormedAll(n.children) && StrictlyAscending(n.children) && ValidNames(n.children)
  }

  predicate WellFormedAll(ns: seq<Node>)
    decreases SizeAll(ns), 1
  {
    |ns| == 0 || (WellFormed(ns[0]) && WellFormedAll(ns[1..]))
  }

  predicate StrictlyAscending(ns: seq<Node>)
  {
    forall i :: 0 <= i < |ns| - 1 ==> StrLt(ns[i].name, ns[i + 1].name)
  }

  /** Entry names are non-empty and never contain the path separator. */
  predicate ValidNames(ns: seq<Node>)
  {
    forall i :: 0 <= i < |ns| ==> |ns[i].name| > 0 && '/' !in ns[i].name
  }
}
