/**
Building compact hash trees and reading inclusion paths from them: only the smallest
power-of-two tree is built, then its root is folded up to depth 20.
 */
module MerkleBuild {
  import opened Arithmetic
  import opened Options
  import opened MerkleTree

  /** leaves are padded; nodes[k] is level k of the built part. */
  datatype Tree<T> = Tree(root: T, leaves: seq<T>, nodes: seq<seq<T>>)

  datatype Proof<T> = Proof(leaf: Option<T>, path: seq<T>, indices: seq<nat>, root: T)

  ghost predicate IsPow2(n: nat) {
    exists k :: Exp2(k) == n
  }

  /** The least k with n <= 2^k, from k on. */
  function HeightFrom(n: nat, k: nat): (r: nat)
    ensures r >= k && n <= Exp2(r) && (r > k ==> Exp2(r - 1) < n)
    decreases n - Exp2(k)
  {
    if n <= Exp2(k) then k else HeightFrom(n, k + 1)
  }

  /** The size a list is padded to: the least power of two that fits, capped at 2^20. */
  function PaddedSize(n: nat): (size: nat)
    ensures size >= 1
  {
    var fits := Exp2(HeightFrom(n, 0));
    if fits < Exp2(DEPTH) then fits else Exp2(DEPTH)
  }

  /** The number of leaves of the built part. */
  function PaddedLength(n: nat): (length: nat)
    ensures length >= n
  {
    if n < PaddedSize(n) then PaddedSize(n) else n
  }

  /** What a list too long for the depth and not a power of two makes of the pairing loop. */
  ghost predicate Unpairable(n: nat) { n > Exp2(DEPTH) && !IsPow2(n) }

  ghost predicate Halving<T>(nodes: seq<seq<T>>) {
    forall k | 0 <= k < |nodes| - 1 :: |nodes[k]| == 2 * |nodes[k + 1]|
  }

  /** tree is the compact tree over leaves. */
  ghost predicate TreeOf<T>(h: (T, T) -> T, z: T, leaves: seq<T>, tree: Tree<T>) {
    && |tree.nodes| >= 1
    && tree.nodes[0] == tree.leaves
    && |tree.leaves| == PaddedLength(|leaves|)
    && Halving(tree.nodes)
    && |tree.nodes[|tree.nodes| - 1]| == 1
    && (forall k | 0 <= k < |tree.nodes| :: IsLevel(h, z, leaves, tree.nodes[k], k))
    && tree.root == Folded(h, z, tree.nodes[|tree.nodes| - 1][0], |tree.nodes| - 1, DEPTH)
    && (|leaves| <= Exp2(DEPTH) ==> |tree.nodes| - 1 <= DEPTH && tree.root == Root(h, z, leaves, DEPTH))
  }

  lemma {:induction false} HalvedLength<T>(nodes: seq<seq<T>>, k: nat)
    requires Halving(nodes) && k < |nodes|
    ensures |nodes[0]| == |nodes[k]| * Exp2(k)
  {
    if k > 0 {
      HalvedLength(nodes, k - 1);
      assert |nodes[k - 1]| == 2 * |nodes[k]|;
    }
  }

  /** A list has one compact tree. */
  lemma TreeUnique<T>(h: (T, T) -> T, z: T, leaves: seq<T>, s: Tree<T>, t: Tree<T>)
    requires TreeOf(h, z, leaves, s) && TreeOf(h, z, leaves, t)
    ensures s == t
  {
    hide Node, Folded, PaddedLength, Exp2;
    HalvedLength(s.nodes, |s.nodes| - 1);
    HalvedLength(t.nodes, |t.nodes| - 1);
    Exp2Injective(|s.nodes| - 1, |t.nodes| - 1);
    forall k | 0 <= k < |s.nodes| ensures s.nodes[k] == t.nodes[k] {
      LevelLength(s.nodes, k);
      LevelLength(t.nodes, k);
    }
    assert s.nodes == t.nodes;
  }

  lemma {:induction false} OddTimesPower(m: nat, k: nat, j: nat)
    requires m % 2 == 1 && m > 1
    ensures m * Exp2(k) != Exp2(j)
  {
    if k == 0 {
      assert m * Exp2(0) == m;
    } else if j > 0 {
      OddTimesPower(m, k - 1, j - 1);
      assert m * Exp2(k) == 2 * (m * Exp2(k - 1));
    } else {
      assert m * Exp2(k) == 2 * (m * Exp2(k - 1));
    }
  }

  method ZeroHashAt<T>(h: (T, T) -> T, z: T, level: nat) returns (zero: T)
    ensures zero == Zero(h, z, level)
  {
    zero := z;
    for i := 0 to level
      invariant zero == Zero(h, z, i)
    {
      zero := h(zero, zero);
    }
  }

  ghost predicate ZeroHashes<T>(h: (T, T) -> T, z: T, zeros: seq<T>) {
    |zeros| == DEPTH + 1 && forall l | 0 <= l <= DEPTH :: zeros[l] == Zero(h, z, l)
  }

  method FoldToDepth<T>(h: (T, T) -> T, z: T, zeros: seq<T>, root: T, builtLevels: nat)
    returns (fullRoot: T, ghost hashes: nat)
    requires ZeroHashes(h, z, zeros)
    ensures fullRoot == Folded(h, z, root, builtLevels, DEPTH)
    ensures hashes == if builtLevels < DEPTH then DEPTH - builtLevels else 0
  {
    fullRoot, hashes := root, 0;
    if builtLevels < DEPTH {
      for level := builtLevels to DEPTH
        invariant fullRoot == Folded(h, z, root, builtLevels, level) && hashes == level - builtLevels
      {
        fullRoot, hashes := h(fullRoot, zeros[level]), hashes + 1;
      }
    }
  }

  method PadLeaves<T>(z: T, leaves: seq<T>, size: nat) returns (padded: seq<T>)
    ensures |padded| == if |leaves| < size then size else |leaves|
    ensures forall i | 0 <= i < |padded| :: padded[i] == Leaf(z, leaves, i)
  {
    padded := leaves;
    while |padded| < size
      invariant |padded| >= |leaves| && (|leaves| >= size ==> padded == leaves)
      invariant |leaves| <= size ==> |padded| <= size
      invariant forall i | 0 <= i < |padded| :: padded[i] == Leaf(z, leaves, i)
      decreases size - |padded|
    {
      padded := padded + [z];
    }
  }

  /** Hashes a layer in pairs; a layer of odd length is an error. */
  method NextLayer<T>(h: (T, T) -> T, current: seq<T>) returns (next: Option<seq<T>>, ghost hashes: nat)
    ensures next.Some? ==> hashes == |next.value|
    ensures next == if |current| % 2 == 0 then Some(Paired(h, current)) else None
  {
    var acc: seq<T> := [];
    var i := 0;
    hashes := 0;
    while i < |current|
      invariant 0 <= i <= |current| && i % 2 == 0
      invariant |acc| == i / 2 == hashes
      invariant forall j | 0 <= j < |acc| :: acc[j] == h(current[2 * j], current[2 * j + 1])
    {
      if i + 1 >= |current| {
        return None, hashes;
      }
      acc, hashes := acc + [h(current[i], current[i + 1])], hashes + 1;
      i := i + 2;
    }
    assert acc == Paired(h, current);
    next := Some(acc);
  }

  /** The layers over padded leaves; fails exactly when their number is not a power of two. */
  method BuildLayers<T>(h: (T, T) -> T, z: T, ghost leaves: seq<T>, padded: seq<T>)
    returns (nodes: Option<seq<seq<T>>>, ghost hashes: nat)
    requires |padded| >= 1 && IsLevel(h, z, leaves, padded, 0)
    ensures nodes.None? <==> !IsPow2(|padded|)
    ensures nodes.Some? ==> hashes == |padded| - 1
    ensures nodes.Some? ==>
              var ns := nodes.value;
              && |ns| >= 1 && ns[0] == padded && Halving(ns) && |ns[|ns| - 1]| == 1
              && |padded| == Exp2(|ns| - 1)
              && forall k | 0 <= k < |ns| :: IsLevel(h, z, leaves, ns[k], k)
  {
    hide IsLevel;
    var ns, current := [padded], padded;
    hashes := 0;
    while |current| > 1
      invariant |ns| >= 1 && ns[0] == padded && ns[|ns| - 1] == current && |current| >= 1
      invariant Halving(ns) && hashes == |padded| - |current|
      invariant forall k | 0 <= k < |ns| :: IsLevel(h, z, leaves, ns[k], k)
      decreases |current|
    {
      var next, calls := NextLayer(h, current);
      hashes := hashes + calls;
      if next.None? {
        HalvedLength(ns, |ns| - 1);
        forall j ensures Exp2(j) != |padded| {
          OddTimesPower(|current|, |ns| - 1, j);
        }
        return None, hashes;
      }
      PairedIsLevel(h, z, leaves, current, |ns| - 1);
      ns, current := ns + [next.value], next.value;
    }
    HalvedLength(ns, |ns| - 1);
    nodes := Some(ns);
  }

  lemma PaddedLengthPower(n: nat)
    ensures var length := PaddedLength(n);
            && length >= 1
            && (IsPow2(length) <==> !Unpairable(n))
            && (n <= Exp2(DEPTH) ==> exists k | 0 <= k <= DEPTH :: length == Exp2(k))
  {
    hide Exp2;
    var k := HeightFrom(n, 0);
    if n <= Exp2(DEPTH) {
      if k > DEPTH {
        Exp2Grows(DEPTH, k - 1);
        assert false;
      }
      Exp2Grows(k, DEPTH);
      assert PaddedLength(n) == Exp2(k);
    }
  }

  /** The padded length is the least power of two that holds the list. */
  lemma PaddedLengthLeast(n: nat, k: nat)
    requires n <= Exp2(DEPTH) && n <= Exp2(k)
    ensures PaddedLength(n) <= Exp2(k)
  {
    hide Exp2;
    var r := HeightFrom(n, 0);
    if r > k {
      Exp2Grows(k, r - 1);
    } else {
      Exp2Grows(r, k);
    }
  }

  /** A tree over n leaves costs at most 2n + 18 pair hashes. */
  lemma HashBound(n: nat, k: nat)
    requires 1 <= n <= Exp2(DEPTH) && PaddedLength(n) == Exp2(k)
    ensures Exp2(k) - 1 + DEPTH - k <= 2 * n + 18
  {
    var r := HeightFrom(n, 0);
    if k > 0 && Exp2(k) > 1 {
      if Exp2(k) == Exp2(r) {
        Exp2Injective(k, r);
      }
      assert r > 0;
    }
  }

  lemma RootOfLayers<T>(h: (T, T) -> T, z: T, leaves: seq<T>, nodes: seq<seq<T>>)
    requires |nodes| >= 1 && |nodes[|nodes| - 1]| == 1 && IsLevel(h, z, leaves, nodes[|nodes| - 1], |nodes| - 1)
    ensures nodes[|nodes| - 1][0] == Root(h, z, leaves, |nodes| - 1)
  {
  }

  method BuildMerkleTree<T>(h: (T, T) -> T, z: T, zeros: seq<T>, leaves: seq<T>)
    returns (tree: Option<Tree<T>>, ghost hashes: nat)
    requires ZeroHashes(h, z, zeros)
    ensures tree.None? <==> Unpairable(|leaves|)
    ensures tree.Some? ==> TreeOf(h, z, leaves, tree.value)
    ensures |leaves| <= Exp2(DEPTH) && tree.Some? ==>
              hashes == |tree.value.leaves| - 1 + DEPTH - (|tree.value.nodes| - 1)
    ensures 1 <= |leaves| <= Exp2(DEPTH) ==> hashes <= 2 * |leaves| + 18
  {
    hide Exp2, IsPow2, Folded, Node, HeightFrom;
    var size := PaddedSize(|leaves|);
    var padded := PadLeaves(z, leaves, size);
    PaddedLengthPower(|leaves|);
    assert IsLevel(h, z, leaves, padded, 0) by { LeavesAreLevel(h, z, leaves, padded); }
    var layers, layerCalls := BuildLayers(h, z, leaves, padded);
    if layers.None? {
      return None, layerCalls;
    }
    var nodes := layers.value;
    var builtLevels := |nodes| - 1;
    RootOfLayers(h, z, leaves, nodes);
    var root, foldCalls := FoldToDepth(h, z, zeros, nodes[builtLevels][0], builtLevels);
    hashes := layerCalls + foldCalls;
    if |leaves| <= Exp2(DEPTH) {
      ghost var k :| 0 <= k <= DEPTH && |padded| == Exp2(k);
      Exp2Injective(builtLevels, k);
      FoldedIsRoot(h, z, leaves, builtLevels, DEPTH);
      if |leaves| >= 1 {
        HashBound(|leaves|, builtLevels);
      }
    }
    tree := Some(Tree(root, padded, nodes));
  }

  lemma LeavesAreLevel<T>(h: (T, T) -> T, z: T, leaves: seq<T>, padded: seq<T>)
    requires forall i | 0 <= i < |padded| :: padded[i] == Leaf(z, leaves, i)
    ensures IsLevel(h, z, leaves, padded, 0)
  {
    forall i: nat {:trigger padded[i]} | i < |padded| ensures padded[i] == Node(h, z, leaves, 0, i) {
    }
  }

  // ----- Reading paths

  /** The sibling the service serves at a level. */
  function ServedSibling<T>(zeros: seq<T>, nodes: seq<seq<T>>, level: nat, sibling: nat): T
    requires level < |zeros|
  {
    if level < |nodes| && sibling < |nodes[level]| then nodes[level][sibling] else zeros[level]
  }

  lemma {:induction false} LevelLength<T>(nodes: seq<seq<T>>, k: nat)
    requires Halving(nodes) && k < |nodes| && |nodes[|nodes| - 1]| == 1
    ensures |nodes[k]| == Exp2(|nodes| - 1 - k)
    decreases |nodes| - k
  {
    if k < |nodes| - 1 {
      LevelLength(nodes, k + 1);
    }
  }

  /** Beyond the built part every sibling is an empty subtree. */
  lemma ServedIsNode<T>(h: (T, T) -> T, z: T, zeros: seq<T>, leaves: seq<T>, tree: Tree<T>, i: nat, level: nat)
    requires ZeroHashes(h, z, zeros) && TreeOf(h, z, leaves, tree) && i < |tree.leaves| && level < DEPTH
    ensures ServedSibling(zeros, tree.nodes, level, Sibling(Above(i, level)))
         == Node(h, z, leaves, level, Sibling(Above(i, level)))
  {
    hide Node, Exp2, Above, Zero;
    var nodes := tree.nodes;
    var built := |nodes| - 1;
    var s := Sibling(Above(i, level));
    LevelLength(nodes, 0);
    HalvedLength(nodes, built);
    if level <= built {
      if s < |nodes[level]| {
        assert IsLevel(h, z, leaves, nodes[level], level);
      } else {
        HalvedLength(nodes, level);
        BeyondLayer(s, |nodes[level]|, Exp2(level), |leaves|);
        EmptyNode(h, z, leaves, level, s);
      }
    } else {
      AboveZero(i, built, level);
      SiblingOfZero(h, z, leaves, built, level);
    }
  }

  lemma BeyondLayer(s: nat, length: nat, e: nat, n: nat)
    requires s >= length && n <= length * e
    ensures n <= s * e
  {
    assert s * e == length * e + (s - length) * e;
  }

  lemma AboveZero(i: nat, built: nat, level: nat)
    requires i < Exp2(built) && built <= level
    ensures Above(i, level) == 0
  {
    Exp2Grows(built, level);
    AboveBounded(i, level, level);
  }

  lemma SiblingOfZero<T>(h: (T, T) -> T, z: T, leaves: seq<T>, built: nat, level: nat)
    requires |leaves| <= Exp2(built) && built <= level
    ensures Node(h, z, leaves, level, Sibling(0)) == Zero(h, z, level)
  {
    hide Node, Zero;
    Exp2Grows(built, level);
    EmptyNode(h, z, leaves, level, 1);
  }

  method MerkleProofFromTree<T>(h: (T, T) -> T, z: T, zeros: seq<T>, ghost leaves: seq<T>, tree: Tree<T>, leafIndex: nat)
    returns (proof: Proof<T>)
    requires ZeroHashes(h, z, zeros) && TreeOf(h, z, leaves, tree)
    ensures proof.leaf == if leafIndex < |tree.leaves| then Some(tree.leaves[leafIndex]) else None
    ensures proof.root == tree.root && |proof.path| == |proof.indices| == DEPTH
    ensures leafIndex < |tree.leaves| ==> proof.path == PathOf(h, z, leaves, leafIndex, DEPTH)
    ensures forall l | 0 <= l < DEPTH :: proof.path[l] == ServedSibling(zeros, tree.nodes, l, Sibling(Above(leafIndex, l)))
    ensures forall l | 0 <= l < DEPTH :: proof.indices[l] == Above(leafIndex, l) % 2
  {
    hide Node, TreeOf, ZeroHashes, PathOf, ServedSibling, Sibling, Above, PaddedLength, Exp2;
    AboveNone(leafIndex);
    assert |zeros| == DEPTH + 1 by { ZeroHashesLength(h, z, zeros); }
    var path: seq<T> := [];
    var indices: seq<nat> := [];
    var idx := leafIndex;
    for level := 0 to DEPTH
      invariant idx == Above(leafIndex, level)
      invariant |path| == |indices| == level
      invariant forall l | 0 <= l < level :: path[l] == ServedSibling(zeros, tree.nodes, l, Sibling(Above(leafIndex, l)))
      invariant forall l | 0 <= l < level :: indices[l] == Above(leafIndex, l) % 2
    {
      path := path + [ServedSibling(zeros, tree.nodes, level, Sibling(idx))];
      indices := indices + [idx % 2];
      idx := idx / 2;
      AboveStep(leafIndex, level);
    }
    proof := Proof(if leafIndex < |tree.leaves| then Some(tree.leaves[leafIndex]) else None, path, indices, tree.root);
    if leafIndex < |tree.leaves| {
      ServedIsPath(h, z, zeros, leaves, tree, leafIndex, path);
    }
  }

  lemma AboveNone(i: nat)
    ensures Above(i, 0) == i
  {
  }

  lemma AboveStep(i: nat, level: nat)
    ensures Above(i, level + 1) == Above(i, level) / 2
  {
  }

  lemma ServedIsPath<T>(h: (T, T) -> T, z: T, zeros: seq<T>, leaves: seq<T>, tree: Tree<T>, i: nat, path: seq<T>)
    requires ZeroHashes(h, z, zeros) && TreeOf(h, z, leaves, tree) && i < |tree.leaves|
    requires |path| == DEPTH
    requires forall l | 0 <= l < DEPTH :: path[l] == ServedSibling(zeros, tree.nodes, l, Sibling(Above(i, l)))
    ensures path == PathOf(h, z, leaves, i, DEPTH)
  {
    hide TreeOf, Node, Above, Sibling;
    forall l | 0 <= l < DEPTH ensures path[l] == PathOf(h, z, leaves, i, DEPTH)[l] {
      ServedIsNode(h, z, zeros, leaves, tree, i, l);
    }
  }

  lemma ZeroHashesLength<T>(h: (T, T) -> T, z: T, zeros: seq<T>)
    requires ZeroHashes(h, z, zeros)
    ensures |zeros| == DEPTH + 1
  {
  }

  /** A direction is left exactly when the index is present and zero. */
  function RightsFrom(indices: seq<nat>, length: nat): (right: seq<bool>)
    ensures |right| == length
  {
    seq(length, i requires 0 <= i < length => !(i < |indices| && indices[i] == 0))
  }

  method VerifyProof<T(==)>(h: (T, T) -> T, leaf: T, path: seq<T>, indices: seq<nat>, root: T) returns (ok: bool)
    ensures ok <==> FoldPath(h, leaf, path, RightsFrom(indices, |path|), |path|) == root
  {
    var current := leaf;
    for i := 0 to |path|
      invariant current == FoldPath(h, leaf, path, RightsFrom(indices, |path|), i)
    {
      if i < |indices| && indices[i] == 0 {
        current := h(current, path[i]);
      } else {
        current := h(path[i], current);
      }
    }
    ok := current == root;
  }

  /** Completeness: a path served for a leaf of a tree verifies against its root. */
  lemma ServedProofVerifies<T>(h: (T, T) -> T, z: T, leaves: seq<T>, tree: Tree<T>, i: nat, proof: Proof<T>)
    requires TreeOf(h, z, leaves, tree) && |leaves| <= Exp2(DEPTH) && i < |tree.leaves|
    requires proof.path == PathOf(h, z, leaves, i, DEPTH) && proof.root == tree.root
    requires |proof.indices| == DEPTH && forall l | 0 <= l < DEPTH :: proof.indices[l] == Above(i, l) % 2
    ensures tree.leaves[i] == Leaf(z, leaves, i)
    ensures FoldPath(h, tree.leaves[i], proof.path, RightsFrom(proof.indices, DEPTH), DEPTH) == proof.root
  {
    hide FoldPath, PathOf, Exp2;
    LeafOfTree(h, z, leaves, tree, i);
    assert RightsFrom(proof.indices, DEPTH) == RightsOf(i, DEPTH);
    LevelLength(tree.nodes, 0);
    Exp2Grows(|tree.nodes| - 1, DEPTH);
    PathReachesRoot(h, z, leaves, i, DEPTH);
  }

  lemma LeafOfTree<T>(h: (T, T) -> T, z: T, leaves: seq<T>, tree: Tree<T>, i: nat)
    requires TreeOf(h, z, leaves, tree) && i < |tree.leaves|
    ensures tree.leaves[i] == Leaf(z, leaves, i)
  {
    assert IsLevel(h, z, leaves, tree.nodes[0], 0);
    assert tree.nodes[0][i] == Node(h, z, leaves, 0, i);
  }
}
