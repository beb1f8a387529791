/**
The depth-20 hash tree over a list of leaves padded with a zero leaf: its nodes, its
inclusion paths, and what a path that reaches the root proves.

The pair hash is any function; nothing here assumes it injective.  Where soundness needs
that two hashed pairs be equal, the pairs that would collide are computed explicitly.
 */
module MerkleTree {
  import opened Arithmetic
  import opened Options

  const DEPTH: nat := 20

  /** Root of an empty subtree of the given height. */
  function Zero<T>(h: (T, T) -> T, z: T, level: nat): T {
    if level == 0 then z else h(Zero(h, z, level - 1), Zero(h, z, level - 1))
  }

  function Leaf<T>(z: T, leaves: seq<T>, i: nat): T {
    if i < |leaves| then leaves[i] else z
  }

  /** Node i of a level of the tree over the leaves followed by zero leaves without end. */
  function Node<T>(h: (T, T) -> T, z: T, leaves: seq<T>, level: nat, i: nat): T {
    if level == 0 then Leaf(z, leaves, i)
    else h(Node(h, z, leaves, level - 1, 2 * i), Node(h, z, leaves, level - 1, 2 * i + 1))
  }

  /** Root of the tree of the given depth. */
  function Root<T>(h: (T, T) -> T, z: T, leaves: seq<T>, depth: nat): T {
    Node(h, z, leaves, depth, 0)
  }

  lemma {:induction false} EmptyNode<T>(h: (T, T) -> T, z: T, leaves: seq<T>, level: nat, i: nat)
    requires |leaves| <= i * Exp2(level)
    ensures Node(h, z, leaves, level, i) == Zero(h, z, level)
  {
    if level > 0 {
      EmptyNode(h, z, leaves, level - 1, 2 * i);
      EmptyNode(h, z, leaves, level - 1, 2 * i + 1);
    }
  }

  // ----- The full tree, layer by layer

  function Paired<T>(h: (T, T) -> T, s: seq<T>): (r: seq<T>)
    requires |s| % 2 == 0
    ensures |r| == |s| / 2
  {
    seq(|s| / 2, i requires 0 <= i < |s| / 2 => h(s[2 * i], s[2 * i + 1]))
  }

  /** The root got by pairing a layer of 2^k nodes k times. */
  function Reduced<T>(h: (T, T) -> T, s: seq<T>, k: nat): T
    requires |s| == Exp2(k)
    decreases k
  {
    if k == 0 then s[0] else Reduced(h, Paired(h, s), k - 1)
  }

  function Padded<T>(z: T, leaves: seq<T>, size: nat): (p: seq<T>)
    requires |leaves| <= size
    ensures |p| == size
  {
    leaves + seq(size - |leaves|, _ => z)
  }

  /** A layer of 2^k nodes is level `level` of the tree. */
  ghost predicate IsLevel<T>(h: (T, T) -> T, z: T, leaves: seq<T>, s: seq<T>, level: nat) {
    forall i: nat {:trigger s[i]} | i < |s| :: s[i] == Node(h, z, leaves, level, i)
  }

  lemma PairedIsLevel<T>(h: (T, T) -> T, z: T, leaves: seq<T>, s: seq<T>, level: nat)
    requires |s| % 2 == 0 && IsLevel(h, z, leaves, s, level)
    ensures IsLevel(h, z, leaves, Paired(h, s), level + 1)
  {
  }

  lemma {:induction false} ReducedIsNode<T>(h: (T, T) -> T, z: T, leaves: seq<T>, s: seq<T>, level: nat, k: nat)
    requires |s| == Exp2(k) && IsLevel(h, z, leaves, s, level)
    ensures Reduced(h, s, k) == Root(h, z, leaves, level + k)
    decreases k
  {
    hide Node, Paired;
    if k > 0 {
      hide IsLevel;
      PairedIsLevel(h, z, leaves, s, level);
      ReducedIsNode(h, z, leaves, Paired(h, s), level + 1, k - 1);
    }
  }

  lemma PaddedIsLevel<T>(h: (T, T) -> T, z: T, leaves: seq<T>, size: nat)
    requires |leaves| <= size
    ensures IsLevel(h, z, leaves, Padded(z, leaves, size), 0)
  {
    var p := Padded(z, leaves, size);
    forall i: nat {:trigger p[i]} | i < |p| ensures p[i] == Node(h, z, leaves, 0, i) {
    }
  }

  /** `Root` is the root of the full tree: all 2^depth leaves, zero-padded, hashed in pairs. */
  lemma FullTreeRoot<T>(h: (T, T) -> T, z: T, leaves: seq<T>, depth: nat)
    requires |leaves| <= Exp2(depth)
    ensures Reduced(h, Padded(z, leaves, Exp2(depth)), depth) == Root(h, z, leaves, depth)
  {
    hide Padded, IsLevel, Reduced, Node, Exp2;
    PaddedIsLevel(h, z, leaves, Exp2(depth));
    ReducedIsNode(h, z, leaves, Padded(z, leaves, Exp2(depth)), 0, depth);
  }

  // ----- Halves

  lemma {:induction false} NodeOfLeft<T>(h: (T, T) -> T, z: T, a: seq<T>, b: seq<T>, level: nat, i: nat)
    requires (i + 1) * Exp2(level) <= |a|
    ensures Node(h, z, a + b, level, i) == Node(h, z, a, level, i)
  {
    if level > 0 {
      var e := Exp2(level - 1);
      assert (2 * i + 2) * e == (i + 1) * Exp2(level);
      assert (2 * i + 1) * e <= (2 * i + 2) * e;
      NodeOfLeft(h, z, a, b, level - 1, 2 * i);
      NodeOfLeft(h, z, a, b, level - 1, 2 * i + 1);
    }
  }

  lemma {:induction false} NodeOfRight<T>(h: (T, T) -> T, z: T, a: seq<T>, b: seq<T>, level: nat, m: nat, i: nat)
    requires |a| == m * Exp2(level)
    ensures Node(h, z, a + b, level, m + i) == Node(h, z, b, level, i)
  {
    if level > 0 {
      assert (2 * m) * Exp2(level - 1) == m * Exp2(level);
      NodeOfRight(h, z, a, b, level - 1, 2 * m, 2 * i);
      NodeOfRight(h, z, a, b, level - 1, 2 * m, 2 * i + 1);
      assert 2 * (m + i) == 2 * m + 2 * i;
    }
  }

  /** The root is the pair hash of the left half's root and the right half's root. */
  lemma RootOfHalves<T>(h: (T, T) -> T, z: T, a: seq<T>, b: seq<T>, depth: nat)
    requires |a| == Exp2(depth)
    ensures Root(h, z, a + b, depth + 1) == h(Root(h, z, a, depth), Root(h, z, b, depth))
  {
    NodeOfLeft(h, z, a, b, depth, 0);
    NodeOfRight(h, z, a, b, depth, 1, 0);
  }

  // ----- Compact trees

  /** A root of height `low` folded up with empty siblings to height `high`. */
  function Folded<T>(h: (T, T) -> T, z: T, root: T, low: nat, high: nat): T
    decreases high
  {
    if high <= low then root else h(Folded(h, z, root, low, high - 1), Zero(h, z, high - 1))
  }

  /** Folding a tree just tall enough for the leaves gives the root of the tall tree. */
  lemma {:induction false} FoldedIsRoot<T>(h: (T, T) -> T, z: T, leaves: seq<T>, low: nat, high: nat)
    requires |leaves| <= Exp2(low) && low <= high
    ensures Folded(h, z, Root(h, z, leaves, low), low, high) == Root(h, z, leaves, high)
    decreases high
  {
    if low < high {
      FoldedIsRoot(h, z, leaves, low, high - 1);
      Exp2Grows(low, high - 1);
      EmptyNode(h, z, leaves, high - 1, 1);
    }
  }

  // ----- Inclusion paths

  /** The value after the first n steps up a path; right[i] says the value is a right child. */
  function FoldPath<T>(h: (T, T) -> T, leaf: T, path: seq<T>, right: seq<bool>, n: nat): T
    requires n <= |path| == |right|
  {
    if n == 0 then leaf
    else
      var current := FoldPath(h, leaf, path, right, n - 1);
      if right[n - 1] then h(path[n - 1], current) else h(current, path[n - 1])
  }

  /** A path starts at the leaf: its first step hashes the leaf with the first sibling, on the side the direction says. */
  lemma {:induction false} FoldFirst<T>(h: (T, T) -> T, leaf: T, path: seq<T>, right: seq<bool>, n: nat)
    requires n < |path| == |right|
    ensures FoldPath(h, leaf, path, right, n + 1)
         == FoldPath(h, if right[0] then h(path[0], leaf) else h(leaf, path[0]), path[1..], right[1..], n)
  {
    if n > 0 {
      FoldFirst(h, leaf, path, right, n - 1);
    }
  }

  /** Index, at a level, of the node a path passes through; the top is node 0. */
  function PathIndex(right: seq<bool>, level: nat): (i: nat)
    requires level <= |right|
    ensures i < Exp2(|right| - level)
    decreases |right| - level
  {
    if level == |right| then 0 else 2 * PathIndex(right, level + 1) + if right[level] then 1 else 0
  }

  function Sibling(i: nat): nat { if i % 2 == 0 then i + 1 else i - 1 }

  /** The index k levels above index i. */
  function Above(i: nat, k: nat): nat { if k == 0 then i else Above(i, k - 1) / 2 }

  /** The siblings met from leaf i up. */
  function PathOf<T>(h: (T, T) -> T, z: T, leaves: seq<T>, i: nat, depth: nat): (path: seq<T>)
    ensures |path| == depth
  {
    seq(depth, l requires 0 <= l < depth => Node(h, z, leaves, l, Sibling(Above(i, l))))
  }

  function RightsOf(i: nat, depth: nat): (right: seq<bool>)
    ensures |right| == depth
  {
    seq(depth, l requires 0 <= l < depth => Above(i, l) % 2 == 1)
  }

  lemma {:induction false} AboveBounded(i: nat, depth: nat, k: nat)
    requires i < Exp2(depth) && k <= depth
    ensures Above(i, k) < Exp2(depth - k)
  {
    if k > 0 {
      AboveBounded(i, depth, k - 1);
      assert Exp2(depth - (k - 1)) == 2 * Exp2(depth - k);
    }
  }

  /** One step up a path from node j, given its sibling. */
  lemma FoldStep<T>(h: (T, T) -> T, z: T, leaves: seq<T>, leaf: T, path: seq<T>, right: seq<bool>, n: nat, j: nat)
    requires 0 < n <= |path| == |right|
    requires FoldPath(h, leaf, path, right, n - 1) == Node(h, z, leaves, n - 1, j)
    requires path[n - 1] == Node(h, z, leaves, n - 1, Sibling(j)) && right[n - 1] == (j % 2 == 1)
    ensures FoldPath(h, leaf, path, right, n) == Node(h, z, leaves, n, j / 2)
  {
    var k := j / 2;
    assert Node(h, z, leaves, n, k) == h(Node(h, z, leaves, n - 1, 2 * k), Node(h, z, leaves, n - 1, 2 * k + 1));
    assert FoldPath(h, leaf, path, right, n)
        == if right[n - 1] then h(path[n - 1], FoldPath(h, leaf, path, right, n - 1))
           else h(FoldPath(h, leaf, path, right, n - 1), path[n - 1]);
    hide Node, FoldPath, Leaf;
  }

  lemma PathAt<T>(h: (T, T) -> T, z: T, leaves: seq<T>, i: nat, depth: nat, l: nat)
    requires l < depth
    ensures PathOf(h, z, leaves, i, depth)[l] == Node(h, z, leaves, l, Sibling(Above(i, l)))
    ensures RightsOf(i, depth)[l] == (Above(i, l) % 2 == 1)
  {
    hide Node;
  }

  /** Completeness: the siblings of a leaf fold to the node above it, at every height. */
  lemma {:induction false} PathFolds<T>(h: (T, T) -> T, z: T, leaves: seq<T>, i: nat, depth: nat, n: nat)
    requires n <= depth
    ensures FoldPath(h, Leaf(z, leaves, i), PathOf(h, z, leaves, i, depth), RightsOf(i, depth), n)
         == Node(h, z, leaves, n, Above(i, n))
  {
    hide PathOf, RightsOf;
    if n > 0 {
      hide Node, FoldPath;
      PathFolds(h, z, leaves, i, depth, n - 1);
      PathAt(h, z, leaves, i, depth, n - 1);
      FoldStep(h, z, leaves, Leaf(z, leaves, i), PathOf(h, z, leaves, i, depth), RightsOf(i, depth), n, Above(i, n - 1));
    }
  }

  lemma PathReachesRoot<T>(h: (T, T) -> T, z: T, leaves: seq<T>, i: nat, depth: nat)
    requires i < Exp2(depth)
    ensures FoldPath(h, Leaf(z, leaves, i), PathOf(h, z, leaves, i, depth), RightsOf(i, depth), depth)
         == Root(h, z, leaves, depth)
  {
    hide PathOf, RightsOf, FoldPath, Node;
    PathFolds(h, z, leaves, i, depth, depth);
    AboveBounded(i, depth, depth);
  }

  /** The directions of a leaf's path spell its index. */
  lemma {:induction false} RightsSpell(i: nat, depth: nat, level: nat)
    requires i < Exp2(depth) && level <= depth
    ensures PathIndex(RightsOf(i, depth), level) == Above(i, level)
    decreases depth - level
  {
    if level == depth {
      AboveBounded(i, depth, depth);
    } else {
      RightsSpell(i, depth, level + 1);
    }
  }

  // ----- Soundness of paths

  /** The pair a path hashes at a level. */
  function PathPair<T>(h: (T, T) -> T, leaf: T, path: seq<T>, right: seq<bool>, level: nat): (T, T)
    requires level < |path| == |right|
  {
    var current := FoldPath(h, leaf, path, right, level);
    if right[level] then (path[level], current) else (current, path[level])
  }

  /** The pair the tree hashes where the path passes. */
  function TreePair<T>(h: (T, T) -> T, z: T, leaves: seq<T>, right: seq<bool>, level: nat): (T, T)
    requires level < |right|
  {
    var i := PathIndex(right, level + 1);
    (Node(h, z, leaves, level, 2 * i), Node(h, z, leaves, level, 2 * i + 1))
  }

  /** The highest level below n at which path and tree hash different pairs. */
  function FindCollision<T(==)>(h: (T, T) -> T, z: T, leaves: seq<T>, leaf: T, path: seq<T>, right: seq<bool>, n: nat): Option<nat>
    requires n <= |path| == |right|
  {
    if n == 0 then None
    else if PathPair(h, leaf, path, right, n - 1) != TreePair(h, z, leaves, right, n - 1) then Some(n - 1)
    else FindCollision(h, z, leaves, leaf, path, right, n - 1)
  }

  /** Two different pairs with one hash. */
  predicate Collides<T(==)>(h: (T, T) -> T, p: (T, T), q: (T, T)) {
    p != q && h(p.0, p.1) == h(q.0, q.1)
  }

  /** The pair the path hashes at a level and the tree's own pair there are a collision. */
  predicate CollidesAt<T(==)>(h: (T, T) -> T, z: T, leaves: seq<T>, leaf: T, path: seq<T>, right: seq<bool>, level: nat)
    requires level < |path| == |right|
  {
    Collides(h, PathPair(h, leaf, path, right, level), TreePair(h, z, leaves, right, level))
  }

  /** leaf and path are those of the tree, at every level below n. */
  ghost predicate Honest<T>(h: (T, T) -> T, z: T, leaves: seq<T>, leaf: T, path: seq<T>, right: seq<bool>, n: nat)
    requires n <= |path| == |right|
  {
    && leaf == Leaf(z, leaves, PathIndex(right, 0))
    && forall l | 0 <= l < n :: path[l] == Node(h, z, leaves, l, Sibling(PathIndex(right, l)))
  }

  /** Where a path passes, one level down from node PathIndex(right, level + 1). */
  lemma PathIndexStep(right: seq<bool>, level: nat)
    requires level < |right|
    ensures var i, j := PathIndex(right, level + 1), PathIndex(right, level);
            && j == (if right[level] then 2 * i + 1 else 2 * i)
            && Sibling(j) == (if right[level] then 2 * i else 2 * i + 1)
            && j / 2 == i && j % 2 == (if right[level] then 1 else 0)
  {
  }

  lemma {:induction false} HonestFolds<T>(h: (T, T) -> T, z: T, leaves: seq<T>, leaf: T, path: seq<T>, right: seq<bool>, n: nat)
    requires n <= |path| == |right| && Honest(h, z, leaves, leaf, path, right, n)
    ensures FoldPath(h, leaf, path, right, n) == Node(h, z, leaves, n, PathIndex(right, n))
  {
    if n > 0 {
      hide PathIndex, Node, FoldPath, Sibling, Exp2;
      var j := PathIndex(right, n - 1);
      HonestFolds(h, z, leaves, leaf, path, right, n - 1);
      PathIndexStep(right, n - 1);
      assert path[n - 1] == Node(h, z, leaves, n - 1, Sibling(j));
      FoldStep(h, z, leaves, leaf, path, right, n, j);
    }
  }

  lemma PairsHash<T>(h: (T, T) -> T, z: T, leaves: seq<T>, leaf: T, path: seq<T>, right: seq<bool>, n: nat)
    requires 0 < n <= |path| == |right|
    ensures var p := PathPair(h, leaf, path, right, n - 1);
            FoldPath(h, leaf, path, right, n) == h(p.0, p.1)
    ensures var q := TreePair(h, z, leaves, right, n - 1);
            Node(h, z, leaves, n, PathIndex(right, n)) == h(q.0, q.1)
  {
  }

  lemma SamePair<T>(h: (T, T) -> T, z: T, leaves: seq<T>, leaf: T, path: seq<T>, right: seq<bool>, n: nat)
    requires 0 < n <= |path| == |right|
    requires PathPair(h, leaf, path, right, n - 1) == TreePair(h, z, leaves, right, n - 1)
    ensures FoldPath(h, leaf, path, right, n - 1) == Node(h, z, leaves, n - 1, PathIndex(right, n - 1))
    ensures path[n - 1] == Node(h, z, leaves, n - 1, Sibling(PathIndex(right, n - 1)))
  {
    hide FoldPath, Node, Exp2, PathIndex, Sibling;
    PathIndexStep(right, n - 1);
  }

  lemma HonestPair<T>(h: (T, T) -> T, z: T, leaves: seq<T>, leaf: T, path: seq<T>, right: seq<bool>, n: nat)
    requires 0 < n <= |path| == |right| && Honest(h, z, leaves, leaf, path, right, n)
    ensures PathPair(h, leaf, path, right, n - 1) == TreePair(h, z, leaves, right, n - 1)
  {
    hide Exp2, FoldPath, Node, PathIndex, Sibling;
    PathIndexStep(right, n - 1);
    HonestFolds(h, z, leaves, leaf, path, right, n - 1);
  }

  /**
   * Binding: a path that folds to the node it claims either is the path of that leaf of the
   * tree, or `FindCollision` names the level where it hashes a pair that collides with the
   * tree's own pair.
   */
  lemma {:induction false} PathBinds<T>(h: (T, T) -> T, z: T, leaves: seq<T>, leaf: T, path: seq<T>, right: seq<bool>, n: nat)
    requires n <= |path| == |right|
    requires FoldPath(h, leaf, path, right, n) == Node(h, z, leaves, n, PathIndex(right, n))
    ensures var level := FindCollision(h, z, leaves, leaf, path, right, n);
            && (level.None? <==> Honest(h, z, leaves, leaf, path, right, n))
            && (level.Some? ==> level.value < n && CollidesAt(h, z, leaves, leaf, path, right, level.value))
  {
    if n > 0 {
      var p, q := PathPair(h, leaf, path, right, n - 1), TreePair(h, z, leaves, right, n - 1);
      PairsHash(h, z, leaves, leaf, path, right, n);
      hide PathPair, TreePair, FoldPath, Node;
      if p == q {
        SamePair(h, z, leaves, leaf, path, right, n);
        PathBinds(h, z, leaves, leaf, path, right, n - 1);
      } else if Honest(h, z, leaves, leaf, path, right, n) {
        HonestPair(h, z, leaves, leaf, path, right, n);
        assert false;
      }
    }
  }

  /** The same, for a whole path against the root of the tree. */
  lemma RootBinds<T>(h: (T, T) -> T, z: T, leaves: seq<T>, leaf: T, path: seq<T>, right: seq<bool>)
    requires |path| == |right|
    requires FoldPath(h, leaf, path, right, |path|) == Root(h, z, leaves, |path|)
    ensures var level := FindCollision(h, z, leaves, leaf, path, right, |path|);
            && (level.None? ==> leaf == Leaf(z, leaves, PathIndex(right, 0)))
            && (level.Some? ==> level.value < |path| && CollidesAt(h, z, leaves, leaf, path, right, level.value))
  {
    PathBinds(h, z, leaves, leaf, path, right, |path|);
  }

  // ----- Changing the node representation

  function Mapped<A, B>(f: A -> B, s: seq<A>): (r: seq<B>)
    ensures |r| == |s|
  {
    seq(|s|, i requires 0 <= i < |s| => f(s[i]))
  }

  /** f turns hashing in one representation into hashing in the other. */
  ghost predicate Carries<A(!new), B>(f: A -> B, h: (A, A) -> A, g: (B, B) -> B) {
    forall a, b {:trigger h(a, b)} :: f(h(a, b)) == g(f(a), f(b))
  }

  lemma {:induction false} NodeCarries<A(!new), B>(f: A -> B, h: (A, A) -> A, g: (B, B) -> B, z: A, leaves: seq<A>, level: nat, i: nat)
    requires Carries(f, h, g)
    ensures Node(g, f(z), Mapped(f, leaves), level, i) == f(Node(h, z, leaves, level, i))
  {
    if level > 0 {
      NodeCarries(f, h, g, z, leaves, level - 1, 2 * i);
      NodeCarries(f, h, g, z, leaves, level - 1, 2 * i + 1);
    }
  }

  lemma {:induction false} FoldPathCarries<A(!new), B>(f: A -> B, h: (A, A) -> A, g: (B, B) -> B, leaf: A, path: seq<A>, right: seq<bool>, n: nat)
    requires Carries(f, h, g) && n <= |path| == |right|
    ensures FoldPath(g, f(leaf), Mapped(f, path), right, n) == f(FoldPath(h, leaf, path, right, n))
  {
    if n > 0 {
      FoldPathCarries(f, h, g, leaf, path, right, n - 1);
    }
  }
}
