/**
The compliance service: the tree over a set of nullifiers, the paths it serves, and the claim
it makes; and the claim handed to the compliance circuit.
 */
module ComplianceService {
  import opened Arithmetic
  import opened Options
  import opened PrimeField
  import opened MerkleTree
  import opened MerkleBuild
  import opened Circuits

  datatype Claim<T> = Claim(
    nullifiers: seq<T>, periodId: string, nullifierSetRoot: T, complianceNullifier: T,
    paths: seq<seq<T>>, indices: seq<seq<nat>>)

  /** The nullifiers that are recorded, in order. */
  function Recorded<T>(nullifiers: seq<T>, isUsed: T -> bool): (verified: seq<T>)
    ensures |verified| <= |nullifiers|
    ensures forall i | 0 <= i < |verified| :: isUsed(verified[i]) && verified[i] in nullifiers
    ensures forall n | n in nullifiers && isUsed(n) :: n in verified
  {
    if nullifiers == [] then []
    else
      var last := nullifiers[|nullifiers| - 1];
      var verified := Recorded(nullifiers[..|nullifiers| - 1], isUsed);
      if isUsed(last) then verified + [last] else verified
  }

  ghost predicate Increasing(p: seq<nat>) { forall j, k | 0 <= j < k < |p| :: p[j] < p[k] }

  /** kept are the elements at some positions of a list, which are all the used ones, in the list's order. */
  ghost predicate Selects<T>(nullifiers: seq<T>, isUsed: T -> bool, kept: seq<T>, positions: seq<nat>) {
    && |kept| == |positions|
    && (forall j | 0 <= j < |positions| :: positions[j] < |nullifiers| && kept[j] == nullifiers[positions[j]])
    && (forall j | 0 <= j < |positions| :: isUsed(nullifiers[positions[j]]))
    && (forall i | 0 <= i < |nullifiers| && isUsed(nullifiers[i]) :: i in positions)
    && Increasing(positions)
  }

  /** Order and multiplicity: each used position contributes its element once, in the order of the list. */
  lemma {:induction false} RecordedSelects<T>(nullifiers: seq<T>, isUsed: T -> bool) returns (positions: seq<nat>)
    ensures Selects(nullifiers, isUsed, Recorded(nullifiers, isUsed), positions)
  {
    if nullifiers == [] {
      positions := [];
    } else {
      var last := |nullifiers| - 1;
      var kept := Recorded(nullifiers[..last], isUsed);
      positions := RecordedSelects(nullifiers[..last], isUsed);
      SelectsNext(nullifiers[..last], isUsed, kept, positions, nullifiers[last]);
      assert nullifiers == nullifiers[..last] + [nullifiers[last]];
      if isUsed(nullifiers[last]) {
        positions := positions + [last];
      }
    }
  }

  lemma SelectsNext<T>(nullifiers: seq<T>, isUsed: T -> bool, kept: seq<T>, positions: seq<nat>, n: T)
    requires Selects(nullifiers, isUsed, kept, positions)
    ensures if isUsed(n) then Selects(nullifiers + [n], isUsed, kept + [n], positions + [|nullifiers|])
            else Selects(nullifiers + [n], isUsed, kept, positions)
  {
  }

  /** First position of a value, as indexOf finds it. */
  function IndexOf<T(==)>(s: seq<T>, x: T): (i: Option<nat>)
    ensures i.Some? ==> i.value < |s| && s[i.value] == x && forall j | 0 <= j < i.value :: s[j] != x
    ensures i.None? ==> x !in s
  {
    if s == [] then None
    else if s[0] == x then Some(0)
    else match IndexOf(s[1..], x)
      case None => None
      case Some(i) => Some(i + 1)
  }

  method BuildNullifierSetTree<T>(h: (T, T) -> T, z: T, nullifiers: seq<T>) returns (tree: Option<Tree<T>>)
    requires |nullifiers| >= 1
    ensures tree.None? <==> Unpairable(|nullifiers|)
    ensures tree.Some? ==> TreeOf(h, z, nullifiers, tree.value)
  {
    hide Exp2, IsPow2, Node, HeightFrom;
    var zero := ZeroHashAt(h, z, 0);
    var leaves := PadLeaves(zero, nullifiers, PaddedSize(|nullifiers|));
    PaddedLengthPower(|nullifiers|);
    assert IsLevel(h, z, nullifiers, leaves, 0) by { LeavesAreLevel(h, z, nullifiers, leaves); }
    var layers, _ := BuildLayers(h, z, nullifiers, leaves);
    if layers.None? {
      return None;
    }
    var nodes := layers.value;
    var builtLevels := |nodes| - 1;
    RootOfLayers(h, z, nullifiers, nodes);
    var fullRoot := nodes[builtLevels][0];
    var level := builtLevels;
    while level < DEPTH
      invariant builtLevels <= level && (level <= DEPTH || level == builtLevels)
      invariant fullRoot == Folded(h, z, nodes[builtLevels][0], builtLevels, level)
    {
      var empty := ZeroHashAt(h, z, level);
      fullRoot := h(fullRoot, empty);
      level := level + 1;
    }
    FoldedAbove(h, z, nodes[builtLevels][0], builtLevels, level);
    if |nullifiers| <= Exp2(DEPTH) {
      ghost var k :| 0 <= k <= DEPTH && |leaves| == Exp2(k);
      Exp2Injective(builtLevels, k);
      FoldedIsRoot(h, z, nullifiers, builtLevels, DEPTH);
    }
    tree := Some(Tree(fullRoot, leaves, nodes));
  }

  lemma FoldedAbove<T>(h: (T, T) -> T, z: T, root: T, low: nat, level: nat)
    requires level == DEPTH || (level == low && DEPTH <= low)
    ensures Folded(h, z, root, low, level) == Folded(h, z, root, low, DEPTH)
  {
  }

  /** The root of a set of nullifiers; of the empty set, the padding leaf itself. */
  method ComputeNullifierSetRoot<T>(h: (T, T) -> T, z: T, nullifiers: seq<T>) returns (root: Option<T>)
    ensures root.None? <==> Unpairable(|nullifiers|)
    ensures nullifiers == [] ==> root == Some(z)
    ensures nullifiers != [] && root.Some? ==> exists tree :: TreeOf(h, z, nullifiers, tree) && root.value == tree.root
    ensures 1 <= |nullifiers| <= Exp2(DEPTH) ==> root == Some(Root(h, z, nullifiers, DEPTH))
  {
    if |nullifiers| == 0 {
      var zero := ZeroHashAt(h, z, 0);
      NotUnpairable(0);
      return Some(zero);
    }
    var tree := BuildNullifierSetTree(h, z, nullifiers);
    if tree.None? {
      return None;
    }
    root := Some(tree.value.root);
  }

  lemma NotUnpairable(n: nat)
    requires n <= Exp2(DEPTH)
    ensures !Unpairable(n)
  {
  }

  /** The path of a nullifier: none when it is not a leaf, an error when the tree cannot be built. */
  method ComputeNullifierSetProof<T(==)>(h: (T, T) -> T, z: T, nullifiers: seq<T>, nullifier: T)
    returns (proof: Option<Option<(seq<T>, seq<nat>)>>)
    ensures proof.None? <==> Unpairable(|nullifiers|)
    ensures proof.Some? && nullifier in nullifiers ==>
              var i := IndexOf(nullifiers, nullifier).value;
              && proof.value.Some?
              && proof.value.value.0 == PathOf(h, z, nullifiers, i, DEPTH)
              && RightsFrom(proof.value.value.1, DEPTH) == RightsOf(i, DEPTH)
    ensures proof.Some? && nullifier !in nullifiers ==>
              var n := |nullifiers|;
              if nullifier == z && 0 < n < PaddedLength(n) then
                && proof.value.Some?
                && proof.value.value.0 == PathOf(h, z, nullifiers, n, DEPTH)
                && RightsFrom(proof.value.value.1, DEPTH) == RightsOf(n, DEPTH)
              else proof.value.None?
  {
    hide Node, Above, Exp2, Sibling, ServedSibling, PathOf, RightsOf, RightsFrom, PaddedSize;
    if |nullifiers| == 0 {
      NotUnpairable(0);
      return Some(None);
    }
    var built := BuildNullifierSetTree(h, z, nullifiers);
    if built.None? {
      return None;
    }
    var tree := built.value;
    LeavesOfTree(h, z, nullifiers, tree);
    var found := IndexOf(tree.leaves, nullifier);
    if nullifier in nullifiers {
      FirstAmongLeaves(z, nullifiers, tree.leaves, nullifier);
    } else {
      PaddingAmongLeaves(z, nullifiers, tree.leaves, nullifier);
    }
    if found.None? {
      return Some(None);
    }
    var path, indices := PathFromTree(h, z, nullifiers, tree, found.value);
    proof := Some(Some((path, indices)));
  }

  lemma LeavesOfTree<T>(h: (T, T) -> T, z: T, leaves: seq<T>, tree: Tree<T>)
    requires TreeOf(h, z, leaves, tree)
    ensures |tree.leaves| == PaddedLength(|leaves|)
    ensures forall i | 0 <= i < |tree.leaves| :: tree.leaves[i] == Leaf(z, leaves, i)
  {
    hide TreeOf;
    forall i | 0 <= i < |tree.leaves| ensures tree.leaves[i] == Leaf(z, leaves, i) {
      LeafOfTree(h, z, leaves, tree, i);
    }
    PaddedLeaves(h, z, leaves, tree);
  }

  lemma PaddedLeaves<T>(h: (T, T) -> T, z: T, leaves: seq<T>, tree: Tree<T>)
    requires TreeOf(h, z, leaves, tree)
    ensures |tree.leaves| == PaddedLength(|leaves|)
  {
  }

  lemma FirstAmongLeaves<T>(z: T, nullifiers: seq<T>, leaves: seq<T>, nullifier: T)
    requires nullifier in nullifiers && |leaves| >= |nullifiers|
    requires forall i | 0 <= i < |leaves| :: leaves[i] == Leaf(z, nullifiers, i)
    ensures IndexOf(leaves, nullifier) == IndexOf(nullifiers, nullifier)
  {
    var i := IndexOf(nullifiers, nullifier).value;
    assert forall j | 0 <= j <= i :: leaves[j] == nullifiers[j];
  }

  lemma PaddingAmongLeaves<T>(z: T, nullifiers: seq<T>, leaves: seq<T>, nullifier: T)
    requires nullifier !in nullifiers && |leaves| >= |nullifiers|
    requires forall i | 0 <= i < |leaves| :: leaves[i] == Leaf(z, nullifiers, i)
    ensures IndexOf(leaves, nullifier) == if nullifier == z && |nullifiers| < |leaves| then Some(|nullifiers|) else None
  {
    hide IndexOf;
    assert forall j | 0 <= j < |nullifiers| :: leaves[j] == nullifiers[j];
    assert forall j | |nullifiers| <= j < |leaves| :: leaves[j] == z;
    if nullifier == z && |nullifiers| < |leaves| {
      assert leaves[|nullifiers|] == nullifier;
      assert IndexOf(leaves, nullifier).Some?;
    }
  }

  method PathFromTree<T>(h: (T, T) -> T, z: T, ghost nullifiers: seq<T>, tree: Tree<T>, leafIndex: nat)
    returns (path: seq<T>, indices: seq<nat>)
    requires TreeOf(h, z, nullifiers, tree) && leafIndex < |tree.leaves|
    ensures path == PathOf(h, z, nullifiers, leafIndex, DEPTH)
    ensures RightsFrom(indices, DEPTH) == RightsOf(leafIndex, DEPTH)
  {
    hide Node, TreeOf, ZeroHashes, PathOf, ServedSibling, Sibling, Above, PaddedLength, Exp2;
    ghost var zeros := seq(DEPTH + 1, l requires 0 <= l <= DEPTH => Zero(h, z, l));
    assert ZeroHashes(h, z, zeros) by { ZerosAreHashes(h, z, zeros); }
    AboveNone(leafIndex);
    path, indices := [], [];
    var idx := leafIndex;
    for level := 0 to DEPTH
      invariant idx == Above(leafIndex, level)
      invariant |path| == |indices| == level
      invariant forall l | 0 <= l < level :: path[l] == ServedSibling(zeros, tree.nodes, l, Sibling(Above(leafIndex, l)))
      invariant forall l | 0 <= l < level :: indices[l] == Above(leafIndex, l) % 2
    {
      var sibling := Sibling(idx);
      var siblingNode := SiblingNode(h, z, tree, level, sibling, zeros);
      path := path + [siblingNode];
      indices := indices + [idx % 2];
      idx := idx / 2;
      AboveStep(leafIndex, level);
    }
    ServedIsPath(h, z, zeros, nullifiers, tree, leafIndex, path);
  }

  lemma ZerosAreHashes<T>(h: (T, T) -> T, z: T, zeros: seq<T>)
    requires |zeros| == DEPTH + 1 && forall l | 0 <= l <= DEPTH :: zeros[l] == Zero(h, z, l)
    ensures ZeroHashes(h, z, zeros)
  {
  }

  method SiblingNode<T>(h: (T, T) -> T, z: T, tree: Tree<T>, level: nat, sibling: nat, ghost zeros: seq<T>) returns (node: T)
    requires level < |zeros| && zeros[level] == Zero(h, z, level)
    ensures node == ServedSibling(zeros, tree.nodes, level, sibling)
  {
    if level < |tree.nodes| && sibling < |tree.nodes[level]| {
      node := tree.nodes[level][sibling];
    } else {
      node := ZeroHashAt(h, z, level);
    }
  }

  method CheckRecorded<T>(nullifiers: seq<T>, isUsed: T -> bool) returns (verified: seq<T>)
    ensures verified == Recorded(nullifiers, isUsed)
  {
    verified := [];
    for i := 0 to |nullifiers|
      invariant verified == Recorded(nullifiers[..i], isUsed)
    {
      assert nullifiers[..i + 1][..i] == nullifiers[..i];
      if isUsed(nullifiers[i]) {
        verified := verified + [nullifiers[i]];
      }
    }
    assert nullifiers[..|nullifiers|] == nullifiers;
  }

  method ClaimPaths<T(==)>(h: (T, T) -> T, z: T, verified: seq<T>) returns (paths: seq<seq<T>>, indices: seq<seq<nat>>)
    requires !Unpairable(|verified|)
    ensures |paths| == |indices| == |verified|
    ensures forall j | 0 <= j < |verified| :: paths[j] == PathOf(h, z, verified, IndexOf(verified, verified[j]).value, DEPTH)
    ensures forall j | 0 <= j < |verified| ::
              RightsFrom(indices[j], DEPTH) == RightsOf(IndexOf(verified, verified[j]).value, DEPTH)
  {
    hide PathOf, RightsOf, RightsFrom, Unpairable, Node, Exp2, IndexOf;
    paths, indices := [], [];
    for i := 0 to |verified|
      invariant |paths| == |indices| == i
      invariant forall j | 0 <= j < i :: paths[j] == PathOf(h, z, verified, IndexOf(verified, verified[j]).value, DEPTH)
      invariant forall j | 0 <= j < i :: RightsFrom(indices[j], DEPTH) == RightsOf(IndexOf(verified, verified[j]).value, DEPTH)
    {
      var proof := ComputeNullifierSetProof(h, z, verified, verified[i]);
      var found := proof.value;
      paths := paths + [if found.Some? then found.value.0 else []];
      indices := indices + [if found.Some? then found.value.1 else []];
    }
  }

  /** The claim for the recorded ones among some nullifiers; an error when their tree cannot be built. */
  method GenerateComplianceClaim<T(==)>(h: (T, T) -> T, z: T, nullifiers: seq<T>, isUsed: T -> bool,
                                        periodId: string, companySecret: string,
                                        complianceNullifier: (string, string) -> T)
    returns (claim: Option<Claim<T>>)
    ensures claim.None? <==> Unpairable(|Recorded(nullifiers, isUsed)|)
    ensures claim.Some? ==> ClaimOf(h, z, Recorded(nullifiers, isUsed), claim.value)
    ensures claim.Some? ==> exists positions :: Selects(nullifiers, isUsed, claim.value.nullifiers, positions)
    ensures claim.Some? ==> claim.value.periodId == periodId
    ensures claim.Some? ==> claim.value.complianceNullifier == complianceNullifier(companySecret, periodId)
  {
    hide PathOf, RightsOf, RightsFrom, Unpairable, Node, Exp2, IndexOf, Recorded, Selects;
    var verified := CheckRecorded(nullifiers, isUsed);
    ghost var positions := RecordedSelects(nullifiers, isUsed);
    var root := ComputeNullifierSetRoot(h, z, verified);
    if root.None? {
      return None;
    }
    var paths, indices := ClaimPaths(h, z, verified);
    claim := Some(Claim(verified, periodId, root.value, complianceNullifier(companySecret, periodId), paths, indices));
  }

  /** claim is about these nullifiers: their root, and the path of the first occurrence of each. */
  ghost predicate ClaimOf<T>(h: (T, T) -> T, z: T, verified: seq<T>, claim: Claim<T>) {
    && claim.nullifiers == verified
    && |claim.paths| == |claim.indices| == |verified|
    && (verified == [] ==> claim.nullifierSetRoot == z)
    && (1 <= |verified| <= Exp2(DEPTH) ==> claim.nullifierSetRoot == Root(h, z, verified, DEPTH))
    && (forall i | 0 <= i < |verified| :: claim.paths[i] == PathOf(h, z, verified, IndexOf(verified, verified[i]).value, DEPTH))
    && forall i | 0 <= i < |verified| ::
         RightsFrom(claim.indices[i], DEPTH) == RightsOf(IndexOf(verified, verified[i]).value, DEPTH)
  }

  // ----- The claim in the circuit

  /** Field elements of a list, filled up with zeros to the circuit's slots. */
  function Slotted<T>(s: seq<T>, filler: T): (r: seq<T>)
    requires |s| <= SLOTS
    ensures |r| == SLOTS
  {
    s + seq(SLOTS - |s|, _ => filler)
  }

  /** The circuit's inputs for a claim, with the prover's volumes and secret. */
  function Witness<T>(f: T -> Fp, claim: Claim<T>, volumes: seq<nat>, companySecret: Fp, periodId: Fp, threshold: nat): Compliance
    requires |claim.paths| == |claim.indices| == |claim.nullifiers| <= SLOTS
    requires |volumes| == |claim.nullifiers|
  {
    var n := |claim.nullifiers|;
    Compliance(
      Slotted(Mapped(f, claim.nullifiers), 0), Slotted(volumes, 0), n, companySecret,
      Slotted(seq(n, i requires 0 <= i < n => Mapped(f, claim.paths[i])), seq(DEPTH, _ => 0)),
      Slotted(seq(n, i requires 0 <= i < n => RightsFrom(claim.indices[i], DEPTH)), seq(DEPTH, _ => false)),
      threshold, periodId, f(claim.complianceNullifier), f(claim.nullifierSetRoot))
  }

  /** One path of a claim, carried over to field elements, reaches the carried-over root. */
  lemma ClaimPathFolds<T(!new)>(H: Hashes, f: T -> Fp, h: (T, T) -> T, z: T, verified: seq<T>, claim: Claim<T>, i: nat)
    requires Carries(f, h, H.hash2) && ClaimOf(h, z, verified, claim)
    requires i < |verified| <= Exp2(DEPTH)
    ensures |Mapped(f, claim.paths[i])| == DEPTH
    ensures FoldPath(H.hash2, f(verified[i]), Mapped(f, claim.paths[i]), RightsFrom(claim.indices[i], DEPTH), DEPTH)
         == f(claim.nullifierSetRoot)
  {
    hide FoldPath, PathOf, RightsOf, RightsFrom, Carries, Node, Exp2;
    var k := IndexOf(verified, verified[i]).value;
    PathReachesRoot(h, z, verified, k, DEPTH);
    FoldPathCarries(f, h, H.hash2, verified[i], claim.paths[i], RightsFrom(claim.indices[i], DEPTH), DEPTH);
  }

  /**
  Completeness: the claim made for 1 to 50 recorded nullifiers is accepted, whatever their
  order and repetitions, with any volumes that reach the threshold without overflow.
   */
  lemma ClaimAccepted<T(!new)>(H: Hashes, f: T -> Fp, h: (T, T) -> T, z: T, verified: seq<T>, claim: Claim<T>,
                               volumes: seq<nat>, companySecret: Fp, periodId: Fp, threshold: nat)
    requires Carries(f, h, H.hash2) && ClaimOf(h, z, verified, claim)
    requires 1 <= |verified| <= SLOTS && |volumes| == |verified| && threshold <= Sum(volumes) < U64
    requires f(claim.complianceNullifier) == H.hash2(companySecret, periodId)
    ensures var w := Witness(f, claim, volumes, companySecret, periodId, threshold);
            w.Typed() && Complies(H, w)
  {
    hide FoldPath, RightsFrom, Sum, ClaimOf, Exp2, Carries;
    ClaimNullifiers(h, z, verified, claim);
    var w := Witness(f, claim, volumes, companySecret, periodId, threshold);
    SlotsFitTree();
    forall i | 0 <= i < |verified|
      ensures |w.paths[i]| == DEPTH && FoldPath(H.hash2, w.nullifiers[i], w.paths[i], w.indices[i], DEPTH) == w.root
    {
      ClaimPathFolds(H, f, h, z, verified, claim, i);
    }
    forall i | 0 <= i < |volumes| ensures volumes[i] < U64 {
      AtMostSum(volumes, i);
    }
    assert w.volumes[..w.active] == volumes;
  }

  lemma ClaimNullifiers<T>(h: (T, T) -> T, z: T, verified: seq<T>, claim: Claim<T>)
    requires ClaimOf(h, z, verified, claim)
    ensures claim.nullifiers == verified && |claim.paths| == |claim.indices| == |verified|
  {
  }

  lemma SlotsFitTree()
    ensures SLOTS <= Exp2(DEPTH)
  {
    assert Exp2(6) == 64;
    Exp2Grows(6, DEPTH);
  }

  lemma AtMostSum(volumes: seq<nat>, i: nat)
    requires i < |volumes|
    ensures volumes[i] <= Sum(volumes)
  {
    SumGrows(volumes, i + 1);
    assert volumes[..i + 1][..i] == volumes[..i];
  }

  /**
  Soundness against a claim's root: each active nullifier is one of the claim's, all of them
  recorded, or the padding leaf, or its path contains the collision `FindCollision` names.
   */
  lemma AcceptedIsClaimed<T(!new)>(H: Hashes, f: T -> Fp, h: (T, T) -> T, z: T, nullifiers: seq<T>, isUsed: T -> bool,
                                   claim: Claim<T>, w: Compliance, i: nat)
    requires Carries(f, h, H.hash2) && f(z) == ZeroLeaf(H)
    requires ClaimOf(h, z, Recorded(nullifiers, isUsed), claim) && 1 <= |claim.nullifiers| <= Exp2(DEPTH)
    requires w.Typed() && Complies(H, w) && w.root == f(claim.nullifierSetRoot) && i < w.active
    ensures var claimed := Mapped(f, claim.nullifiers);
            match FindCollision(H.hash2, ZeroLeaf(H), claimed, w.nullifiers[i], w.paths[i], w.indices[i], DEPTH) {
              case None => (exists n :: n in nullifiers && isUsed(n) && f(n) == w.nullifiers[i]) || w.nullifiers[i] == ZeroLeaf(H)
              case Some(level) =>
                level < DEPTH && CollidesAt(H.hash2, ZeroLeaf(H), claimed, w.nullifiers[i], w.paths[i], w.indices[i], level)
            }
  {
    hide FoldPath, FindCollision, CollidesAt, Carries, Exp2, Node, Sum, PathOf, RightsOf;
    var claimed := Mapped(f, claim.nullifiers);
    NodeCarries(f, h, H.hash2, z, claim.nullifiers, DEPTH, 0);
    ComplianceSound(H, claimed, w);
    if w.nullifiers[i] in claimed {
      var k :| 0 <= k < |claimed| && claimed[k] == w.nullifiers[i];
      assert claim.nullifiers[k] in nullifiers && isUsed(claim.nullifiers[k]) && f(claim.nullifiers[k]) == w.nullifiers[i];
    }
  }
}
