/**
The two circuits as predicates on their witnesses, and what an accepted witness proves about
the tree whose root it was checked against.
 */
module Circuits {
  import opened Arithmetic
  import opened Options
  import opened PrimeField
  import opened MerkleTree

  /** The fields of a credit that its leaf hashes. */
  datatype Quad = Quad(id: Fp, vintage: Fp, volume: Fp, methodology: Fp)

  const EMPTY: Quad := Quad(0, 0, 0, 0)

  datatype Hashes = Hashes(hash2: (Fp, Fp) -> Fp, hash3: (Fp, Fp, Fp) -> Fp, hash4: Quad -> Fp)

  /** The leaf that pads every tree. */
  function ZeroLeaf(H: Hashes): Fp { H.hash4(EMPTY) }

  method VerifyMerkleInclusion(H: Hashes, leaf: Fp, path: seq<Fp>, indices: seq<bool>) returns (computed: Fp)
    requires |path| == |indices| == DEPTH
    ensures computed == FoldPath(H.hash2, leaf, path, indices, DEPTH)
  {
    computed := leaf;
    for i := 0 to DEPTH
      invariant computed == FoldPath(H.hash2, leaf, path, indices, i)
    {
      var sibling := path[i];
      if indices[i] == false {
        computed := H.hash2(computed, sibling);
      } else {
        computed := H.hash2(sibling, computed);
      }
    }
  }

  method ComputeZeroHash(H: Hashes, level: nat) returns (zero: Fp)
    ensures zero == Zero(H.hash2, ZeroLeaf(H), level)
    ensures level == 0 ==> zero == H.hash4(Quad(0, 0, 0, 0))
  {
    zero := H.hash4(Quad(0, 0, 0, 0));
    for i := 0 to level
      invariant zero == Zero(H.hash2, ZeroLeaf(H), i)
    {
      zero := H.hash2(zero, zero);
    }
  }

  // ----- Retirement

  datatype Retirement = Retirement(
    creditId: Fp, creditSecret: Fp, creditHash: Fp,
    vintage: nat, methodology: nat, permanence: nat, volume: nat,
    path: seq<Fp>, indices: seq<bool>,
    nullifier: Fp, root: Fp, minVintage: nat, minPermanence: nat, commitment: Fp, corridorId: Fp)
  {
    /** The ranges the circuit's types impose. */
    predicate Typed() {
      && vintage < U32 && methodology < U32 && permanence < U32 && volume < U64
      && minVintage < U32 && minPermanence < U32
      && |path| == |indices| == DEPTH
    }

    function Credit(): Quad
      requires Typed()
    {
      Quad(creditId, vintage, volume, methodology)
    }
  }

  /** The retirement circuit's constraints. */
  predicate Retires(H: Hashes, w: Retirement)
    requires w.Typed()
  {
    && H.hash4(w.Credit()) == w.creditHash
    && FoldPath(H.hash2, w.creditHash, w.path, w.indices, DEPTH) == w.root
    && w.vintage >= w.minVintage
    && w.permanence >= w.minPermanence
    && H.hash3(w.creditSecret, w.creditId, w.corridorId) == w.nullifier
    && H.hash2(w.volume, w.creditSecret) == w.commitment
    && w.volume > 0
  }

  /** Leaf hashes of a catalogue. */
  function LeavesOf(H: Hashes, catalogue: seq<Quad>): (leaves: seq<Fp>)
    ensures |leaves| == |catalogue|
  {
    Mapped(H.hash4, catalogue)
  }

  /** The credit a leaf position stands for. */
  function CreditAt(catalogue: seq<Quad>, i: nat): Quad {
    if i < |catalogue| then catalogue[i] else EMPTY
  }

  /** How an accepted retirement can fail to be of a catalogue credit. */
  datatype Breach = NodeCollision(level: nat) | LeafCollision(claimed: Quad, listed: Quad)

  /** The catalogue position of an accepted retirement, or the hash collision it contains. */
  function Traced(H: Hashes, catalogue: seq<Quad>, w: Retirement): (r: (nat, Option<Breach>))
    requires w.Typed()
  {
    var i := PathIndex(w.indices, 0);
    match FindCollision(H.hash2, ZeroLeaf(H), LeavesOf(H, catalogue), w.creditHash, w.path, w.indices, DEPTH)
    case Some(level) => (i, Some(NodeCollision(level)))
    case None => (i, if w.Credit() == CreditAt(catalogue, i) then None else Some(LeafCollision(w.Credit(), CreditAt(catalogue, i))))
  }

  /** The breach is a real collision of one of the hashes. */
  predicate RealBreach(H: Hashes, catalogue: seq<Quad>, w: Retirement, breach: Breach)
    requires w.Typed()
  {
    match breach
    case NodeCollision(level) =>
      level < DEPTH && CollidesAt(H.hash2, ZeroLeaf(H), LeavesOf(H, catalogue), w.creditHash, w.path, w.indices, level)
    case LeafCollision(claimed, listed) =>
      claimed != listed && H.hash4(claimed) == H.hash4(listed)
  }

  /**
  A retirement accepted against a catalogue's root is of the catalogue credit at the position
  its indices spell, of at least the minimum vintage; otherwise `Traced` names two different
  inputs with one hash.  A padding leaf cannot be retired, because the volume is not zero.
   */
  lemma RetirementSound(H: Hashes, catalogue: seq<Quad>, w: Retirement)
    requires w.Typed() && Retires(H, w)
    requires w.root == Root(H.hash2, ZeroLeaf(H), LeavesOf(H, catalogue), DEPTH)
    ensures var (i, breach) := Traced(H, catalogue, w);
            && (breach.None? ==> i < |catalogue| && w.Credit() == catalogue[i] && catalogue[i].vintage >= w.minVintage)
            && (breach.Some? ==> RealBreach(H, catalogue, w, breach.value))
    ensures w.nullifier == H.hash3(w.creditSecret, w.creditId, w.corridorId) && w.commitment == H.hash2(w.volume, w.creditSecret)
    ensures w.permanence >= w.minPermanence && 0 < w.volume
  {
    hide FoldPath, FindCollision, CollidesAt, PathIndex;
    RootBinds(H.hash2, ZeroLeaf(H), LeavesOf(H, catalogue), w.creditHash, w.path, w.indices);
  }

  /** The permanence rating is free: an accepted retirement is accepted with any rating from the minimum on. */
  lemma PermanenceFree(H: Hashes, w: Retirement, permanence: nat)
    requires w.Typed() && Retires(H, w) && w.minPermanence <= permanence < U32
    ensures w.(permanence := permanence).Typed() && Retires(H, w.(permanence := permanence))
  {
    hide FoldPath;
  }

  /** Every catalogue credit that meets the minima can be retired, with the path of its leaf. */
  lemma RetirementComplete(H: Hashes, catalogue: seq<Quad>, i: nat, w: Retirement)
    requires w.Typed() && i < |catalogue| <= Exp2(DEPTH) && w.Credit() == catalogue[i] && w.volume > 0
    requires w.vintage >= w.minVintage && w.permanence >= w.minPermanence
    requires w.creditHash == H.hash4(catalogue[i])
    requires w.path == PathOf(H.hash2, ZeroLeaf(H), LeavesOf(H, catalogue), i, DEPTH) && w.indices == RightsOf(i, DEPTH)
    requires w.root == Root(H.hash2, ZeroLeaf(H), LeavesOf(H, catalogue), DEPTH)
    requires w.nullifier == H.hash3(w.creditSecret, w.creditId, w.corridorId)
    requires w.commitment == H.hash2(w.volume, w.creditSecret)
    ensures Retires(H, w)
  {
    hide FoldPath, PathOf, RightsOf;
    PathReachesRoot(H.hash2, ZeroLeaf(H), LeavesOf(H, catalogue), i, DEPTH);
    assert Leaf(ZeroLeaf(H), LeavesOf(H, catalogue), i) == w.creditHash;
  }

  // ----- Compliance

  /** Nullifiers a compliance proof has room for. */
  const SLOTS: nat := 50

  datatype Compliance = Compliance(
    nullifiers: seq<Fp>, volumes: seq<nat>, active: nat, companySecret: Fp,
    paths: seq<seq<Fp>>, indices: seq<seq<bool>>,
    threshold: nat, periodId: Fp, complianceNullifier: Fp, root: Fp)
  {
    /** The ranges the circuit's types impose. */
    predicate Typed() {
      && |nullifiers| == |volumes| == |paths| == |indices| == SLOTS
      && (forall i | 0 <= i < SLOTS :: volumes[i] < U64)
      && (forall i | 0 <= i < SLOTS :: |paths[i]| == |indices[i]| == DEPTH)
      && active < U32 && threshold < U64
    }
  }

  function Sum(volumes: seq<nat>): nat {
    if volumes == [] then 0 else Sum(volumes[..|volumes| - 1]) + volumes[|volumes| - 1]
  }

  lemma {:induction false} SumGrows(volumes: seq<nat>, k: nat)
    requires k <= |volumes|
    ensures Sum(volumes[..k]) <= Sum(volumes)
  {
    if k < |volumes| {
      SumGrows(volumes[..|volumes| - 1], k);
      assert volumes[..|volumes| - 1][..k] == volumes[..k];
    } else {
      assert volumes[..k] == volumes;
    }
  }

  /** Sum adds: over the parts of a list, and for one volume. */
  lemma {:induction false} SumSplits(a: seq<nat>, b: seq<nat>)
    ensures Sum(a + b) == Sum(a) + Sum(b)
    ensures forall v: nat :: Sum([v]) == v
  {
    if b == [] {
      assert a + b == a;
    } else {
      var last := |b| - 1;
      SumSplits(a, b[..last]);
      assert (a + b)[..|a + b| - 1] == a + b[..last];
    }
    forall v: nat ensures Sum([v]) == v {
      assert [v][..0] == [];
    }
  }

  /** Raising one volume by x raises the sum by x. */
  lemma SumRaised(volumes: seq<nat>, i: nat, x: nat)
    requires i < |volumes|
    ensures Sum(volumes[i := volumes[i] + x]) == Sum(volumes) + x
  {
    hide Sum;
    var before, after := volumes[..i], volumes[i + 1..];
    assert volumes == before + ([volumes[i]] + after);
    assert volumes[i := volumes[i] + x] == before + ([volumes[i] + x] + after);
    SumSplits(before, [volumes[i]] + after);
    SumSplits([volumes[i]], after);
    SumSplits(before, [volumes[i] + x] + after);
    SumSplits([volumes[i] + x], after);
  }

  /** The order of the volumes does not matter. */
  lemma {:induction false} SumPermuted(a: seq<nat>, b: seq<nat>)
    requires multiset(a) == multiset(b)
    ensures Sum(a) == Sum(b)
    decreases |a|
  {
    if a == [] {
      assert |multiset(b)| == 0;
    } else {
      var v, rest := a[0], a[1..];
      assert a == [v] + rest;
      assert v in multiset(b);
      var i :| 0 <= i < |b| && b[i] == v;
      assert b == b[..i] + ([v] + b[i + 1..]);
      assert multiset(rest) == multiset(a) - multiset{v};
      assert multiset(b[..i] + b[i + 1..]) == multiset(b) - multiset{v};
      SumPermuted(rest, b[..i] + b[i + 1..]);
      hide Sum;
      SumSplits([v], rest);
      SumSplits(b[..i], [v] + b[i + 1..]);
      SumSplits([v], b[i + 1..]);
      SumSplits(b[..i], b[i + 1..]);
    }
  }

  /** What the compliance circuit is for, in terms of the active nullifiers and their volumes. */
  predicate Complies(H: Hashes, w: Compliance)
    requires w.Typed()
  {
    && w.active <= SLOTS
    && (forall i | w.active <= i < SLOTS :: w.volumes[i] == 0)
    && w.threshold <= Sum(w.volumes[..w.active]) < U64
    && H.hash2(w.companySecret, w.periodId) == w.complianceNullifier
    && forall i | 0 <= i < w.active ::
         FoldPath(H.hash2, w.nullifiers[i], w.paths[i], w.indices[i], DEPTH) == w.root
  }

  /** The volume loop: none when an addition overflows or an inactive volume is not zero. */
  method TotalVolume(volumes: seq<nat>, active: nat) returns (total: Option<nat>)
    requires |volumes| == SLOTS
    ensures var n := if active <= SLOTS then active else SLOTS;
            && (total.Some? <==> Sum(volumes[..n]) < U64 && forall i | active <= i < SLOTS :: volumes[i] == 0)
            && (total.Some? ==> total.value == Sum(volumes[..n]))
  {
    var sum := 0;
    ghost var n := if active <= SLOTS then active else SLOTS;
    for i := 0 to SLOTS
      invariant sum == Sum(volumes[..if i < n then i else n]) < U64
      invariant forall j | active <= j < i :: volumes[j] == 0
    {
      if i < active {
        assert volumes[..i + 1][..i] == volumes[..i];
        sum := sum + volumes[i];
        if sum >= U64 {
          SumGrows(volumes[..n], i + 1);
          assert volumes[..n][..i + 1] == volumes[..i + 1];
          return None;
        }
      } else if volumes[i] != 0 {
        return None;
      }
    }
    total := Some(sum);
  }

  method ProveCompliance(H: Hashes, w: Compliance) returns (accepted: bool)
    requires w.Typed()
    ensures accepted <==> Complies(H, w)
  {
    hide FoldPath, Sum;
    var total := TotalVolume(w.volumes, w.active);
    if total.None? || total.value < w.threshold {
      return false;
    }
    if H.hash2(w.companySecret, w.periodId) != w.complianceNullifier {
      return false;
    }
    for i := 0 to SLOTS
      invariant forall j | 0 <= j < i && j < w.active ::
          FoldPath(H.hash2, w.nullifiers[j], w.paths[j], w.indices[j], DEPTH) == w.root
    {
      if i < w.active {
        var computed := VerifyMerkleInclusion(H, w.nullifiers[i], w.paths[i], w.indices[i]);
        if computed != w.root {
          return false;
        }
      }
    }
    accepted := w.active <= SLOTS;
  }

  /**
  A compliance proof accepted against the root of a set of nullifiers: every active nullifier
  is in the set or is the padding leaf, or `FindCollision` names a colliding pair on its path;
  and the active volumes sum, without wrapping, to at least the threshold.
   */
  lemma ComplianceSound(H: Hashes, claimed: seq<Fp>, w: Compliance)
    requires w.Typed() && Complies(H, w)
    requires w.root == Root(H.hash2, ZeroLeaf(H), claimed, DEPTH)
    ensures w.active <= SLOTS && w.threshold <= Sum(w.volumes) < U64
    ensures w.complianceNullifier == H.hash2(w.companySecret, w.periodId)
    ensures forall i | 0 <= i < w.active ::
              match FindCollision(H.hash2, ZeroLeaf(H), claimed, w.nullifiers[i], w.paths[i], w.indices[i], DEPTH) {
                case None => w.nullifiers[i] in claimed || w.nullifiers[i] == ZeroLeaf(H)
                case Some(level) =>
                  level < DEPTH && CollidesAt(H.hash2, ZeroLeaf(H), claimed, w.nullifiers[i], w.paths[i], w.indices[i], level)
              }
  {
    hide FoldPath, FindCollision, CollidesAt, Sum;
    forall i | 0 <= i < w.active
      ensures match FindCollision(H.hash2, ZeroLeaf(H), claimed, w.nullifiers[i], w.paths[i], w.indices[i], DEPTH) {
          case None => w.nullifiers[i] in claimed || w.nullifiers[i] == ZeroLeaf(H)
          case Some(level) =>
            level < DEPTH && CollidesAt(H.hash2, ZeroLeaf(H), claimed, w.nullifiers[i], w.paths[i], w.indices[i], level)
        }
    {
      RootBinds(H.hash2, ZeroLeaf(H), claimed, w.nullifiers[i], w.paths[i], w.indices[i]);
    }
    SumOfActive(w.volumes, w.active);
  }

  lemma {:induction false} SumOfActive(volumes: seq<nat>, active: nat)
    requires active <= |volumes| && forall i | active <= i < |volumes| :: volumes[i] == 0
    ensures Sum(volumes) == Sum(volumes[..active])
  {
    if active < |volumes| {
      var rest := volumes[..|volumes| - 1];
      SumOfActive(rest, active);
      assert rest[..active] == volumes[..active];
    } else {
      assert volumes[..active] == volumes;
    }
  }

  /**
  Volumes are tied to nothing but their sum: an accepted witness is accepted with any other
  volumes of its active nullifiers if and only if those sum, without overflow, to the threshold
  or more.
   */
  lemma VolumesFree(H: Hashes, w: Compliance, volumes: seq<nat>)
    requires w.Typed() && Complies(H, w) && w.(volumes := volumes).Typed()
    requires forall i | w.active <= i < SLOTS :: volumes[i] == 0
    ensures Complies(H, w.(volumes := volumes)) <==> w.threshold <= Sum(volumes[..w.active]) < U64
  {
    hide FoldPath, Sum;
  }

  /** Raising one active volume of an accepted witness by x raises the total by x: it is accepted exactly if that fits. */
  lemma VolumeRaised(H: Hashes, w: Compliance, i: nat, x: nat)
    requires w.Typed() && Complies(H, w) && i < w.active && w.volumes[i] + x < U64
    ensures var raised := w.(volumes := w.volumes[i := w.volumes[i] + x]);
            && raised.Typed()
            && (Complies(H, raised) <==> Sum(w.volumes[..w.active]) + x < U64)
  {
    hide FoldPath, Sum;
    var volumes := w.volumes[i := w.volumes[i] + x];
    assert volumes[..w.active] == w.volumes[..w.active][i := w.volumes[..w.active][i] + x];
    SumRaised(w.volumes[..w.active], i, x);
    VolumesFree(H, w, volumes);
  }

  /** The active volumes of an accepted witness can be permuted among its nullifiers. */
  lemma VolumesPermuted(H: Hashes, w: Compliance, volumes: seq<nat>)
    requires w.Typed() && Complies(H, w) && w.(volumes := volumes).Typed()
    requires multiset(volumes[..w.active]) == multiset(w.volumes[..w.active])
    requires forall i | w.active <= i < SLOTS :: volumes[i] == 0
    ensures Complies(H, w.(volumes := volumes))
  {
    hide FoldPath, Sum;
    SumPermuted(volumes[..w.active], w.volumes[..w.active]);
    VolumesFree(H, w, volumes);
  }

  /** A witness whose one active nullifier is the padding leaf after the claimed ones. */
  function PaddingWitness(H: Hashes, claimed: seq<Fp>, threshold: nat, companySecret: Fp, periodId: Fp): Compliance {
    var z, i := ZeroLeaf(H), |claimed|;
    Compliance(
      [z] + seq(SLOTS - 1, _ => 0), [threshold] + seq(SLOTS - 1, _ => 0), 1, companySecret,
      [PathOf(H.hash2, z, claimed, i, DEPTH)] + seq(SLOTS - 1, _ => seq(DEPTH, _ => 0)),
      [RightsOf(i, DEPTH)] + seq(SLOTS - 1, _ => seq(DEPTH, _ => false)),
      threshold, periodId, H.hash2(companySecret, periodId), Root(H.hash2, z, claimed, DEPTH))
  }

  /**
  The padding leaf complies: against the root of any list with room to spare, and for every
  threshold, a witness is accepted whose only active nullifier is the padding leaf.  Unlike the
  retirement circuit's volume check, nothing here rules it out.
   */
  lemma PaddingComplies(H: Hashes, claimed: seq<Fp>, threshold: nat, companySecret: Fp, periodId: Fp)
    requires |claimed| < Exp2(DEPTH) && threshold < U64
    ensures var w := PaddingWitness(H, claimed, threshold, companySecret, periodId);
            && w.Typed() && Complies(H, w)
            && w.root == Root(H.hash2, ZeroLeaf(H), claimed, DEPTH) && w.active == 1 && w.nullifiers[0] == ZeroLeaf(H)
  {
    hide FoldPath, PathOf, RightsOf, Exp2, Node;
    var w := PaddingWitness(H, claimed, threshold, companySecret, periodId);
    PathReachesRoot(H.hash2, ZeroLeaf(H), claimed, |claimed|, DEPTH);
    assert w.volumes[..1] == [threshold] && [threshold][..0] == [];
    assert Sum([threshold]) == threshold;
  }
}
