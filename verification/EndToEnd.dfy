/**
The services' hexadecimal strings against the circuits' field elements: what the backend
serves is what the circuits accept, and what they accept is what the backend listed.
 */
module EndToEnd {
  import opened Arithmetic
  import opened Hex
  import opened Labels
  import opened PrimeField
  import opened MerkleTree
  import opened MerkleBuild
  import opened MerkleService
  import opened Circuits
  import opened ComplianceService

  /** Strings the services can read as numbers. */
  type HexString = s: string | FromHex(s).Some? witness "0"

  /** The element the hash sees: its first addition reduces modulo the order. */
  function FieldOf(s: HexString): Fp { FromHex(s).value % ORDER }

  function Written(x: Fp): HexString {
    FromToHex(x);
    ToHex(x)
  }

  function Element(): HexString -> Fp { s => FieldOf(s) }

  /** Pair hash of strings. */
  function MerkleHash(H: Hashes): (HexString, HexString) -> HexString {
    (left, right) => Written(H.hash2(FieldOf(left), FieldOf(right)))
  }

  function ZeroString(H: Hashes): HexString { Written(ZeroLeaf(H)) }

  lemma FieldOfWritten(x: Fp)
    ensures FieldOf(Written(x)) == x
  {
    hide ToHex, FromHex;
    FromToHex(x);
    DivUnique(x, ORDER, 0, x);
  }

  /** A number of any size stands for its remainder by the order. */
  lemma FieldOfNumber(n: nat)
    ensures FromHex(ToHex(n)).Some? && FieldOf(ToHex(n)) == n % ORDER
  {
    hide ToHex, FromHex;
    FromToHex(n);
  }

  /** Hashing strings is hashing the elements they stand for. */
  lemma StringsCarry(H: Hashes)
    ensures Carries(Element(), MerkleHash(H), H.hash2)
  {
    forall l, r: HexString {:trigger MerkleHash(H)(l, r)}
      ensures FieldOf(MerkleHash(H)(l, r)) == H.hash2(FieldOf(l), FieldOf(r))
    {
      FieldOfWritten(H.hash2(FieldOf(l), FieldOf(r)));
    }
  }

  // ----- Paths

  /**
  A path of strings verifies exactly when the path of elements folds to the root's element,
  provided the root is written the way the services write it.
   */
  lemma VerifiedStrings(H: Hashes, leaf: HexString, path: seq<HexString>, right: seq<bool>, root: HexString)
    requires 1 <= |path| == |right|
    ensures FoldPath(MerkleHash(H), leaf, path, right, |path|) == root
            <==> FoldPath(H.hash2, FieldOf(leaf), Mapped(Element(), path), right, |path|) == FieldOf(root)
                 && root == Written(FieldOf(root))
  {
    hide FoldPath, Written, FieldOf;
    StringsCarry(H);
    FoldPathCarries(Element(), MerkleHash(H), H.hash2, leaf, path, right, |path|);
    FoldIsWritten(H, leaf, path, right, |path|);
    assert forall s :: Element()(s) == FieldOf(s);
  }

  /** What a hash returns is written the way the services write it. */
  lemma FoldIsWritten(H: Hashes, leaf: HexString, path: seq<HexString>, right: seq<bool>, n: nat)
    requires 1 <= n <= |path| == |right|
    ensures var folded := FoldPath(MerkleHash(H), leaf, path, right, n);
            folded == Written(FieldOf(folded))
  {
    hide Written, FieldOf;
    var current := FoldPath(MerkleHash(H), leaf, path, right, n - 1);
    FieldOfWritten(H.hash2(FieldOf(path[n - 1]), FieldOf(current)));
    FieldOfWritten(H.hash2(FieldOf(current), FieldOf(path[n - 1])));
  }

  // ----- Retirement

  /** A credit as the registry lists it. */
  datatype Listing = Listing(creditId: string, vintage: nat, volume: nat, methodologyCode: nat)
  {
    predicate Reduced() { vintage < ORDER && volume < ORDER && methodologyCode < ORDER }
  }

  function QuadOf(c: Listing): Quad {
    LabelBelowOrder(c.creditId);
    Quad(CreditIdToField(c.creditId), c.vintage % ORDER, c.volume % ORDER, c.methodologyCode % ORDER)
  }

  function CreditLeafHash(H: Hashes, c: Listing): HexString { Written(H.hash4(QuadOf(c))) }

  function Leaves(H: Hashes, listings: seq<Listing>): (leaves: seq<HexString>)
    ensures |leaves| == |listings|
  {
    Mapped(c => CreditLeafHash(H, c), listings)
  }

  function Quads(listings: seq<Listing>): (quads: seq<Quad>)
    ensures |quads| == |listings|
  {
    Mapped(c => QuadOf(c), listings)
  }

  lemma LeavesCarry(H: Hashes, listings: seq<Listing>)
    ensures Mapped(Element(), Leaves(H, listings)) == LeavesOf(H, Quads(listings))
    ensures Element()(ZeroString(H)) == ZeroLeaf(H)
  {
    hide Written, QuadOf;
    FieldOfWritten(ZeroLeaf(H));
    forall i | 0 <= i < |listings| ensures Mapped(Element(), Leaves(H, listings))[i] == LeavesOf(H, Quads(listings))[i] {
      FieldOfWritten(H.hash4(QuadOf(listings[i])));
    }
  }

  /** The registry root of strings, as an element, is the root the circuits reason about. */
  lemma RootCarries(H: Hashes, listings: seq<Listing>)
    ensures FieldOf(Root(MerkleHash(H), ZeroString(H), Leaves(H, listings), DEPTH))
         == Root(H.hash2, ZeroLeaf(H), LeavesOf(H, Quads(listings)), DEPTH)
  {
    hide Node, FieldOf, Leaves, LeavesOf, Quads;
    StringsCarry(H);
    LeavesCarry(H, listings);
    NodeCarries(Element(), MerkleHash(H), H.hash2, ZeroString(H), Leaves(H, listings), DEPTH, 0);
    assert Element()(Root(MerkleHash(H), ZeroString(H), Leaves(H, listings), DEPTH))
        == FieldOf(Root(MerkleHash(H), ZeroString(H), Leaves(H, listings), DEPTH));
  }

  /**
  End to end: a retirement accepted against the root the backend serves is of a credit the
  registry lists, or contains a named hash collision.
   */
  lemma RetiredIsListed(H: Hashes, listings: seq<Listing>, w: Retirement)
    requires forall i | 0 <= i < |listings| :: listings[i].Reduced()
    requires w.Typed() && Retires(H, w)
    requires w.root == FieldOf(Root(MerkleHash(H), ZeroString(H), Leaves(H, listings), DEPTH))
    ensures var (i, breach) := Traced(H, Quads(listings), w);
            && (breach.None? ==>
                  && i < |listings| && w.creditId == CreditIdToField(listings[i].creditId)
                  && w.vintage == listings[i].vintage >= w.minVintage
                  && w.volume == listings[i].volume && w.methodology == listings[i].methodologyCode)
            && (breach.Some? ==> RealBreach(H, Quads(listings), w, breach.value))
  {
    hide Retires, Traced, RealBreach, Node, Leaves, LeavesOf, CreditIdToField;
    RootCarries(H, listings);
    RetirementSound(H, Quads(listings), w);
    var (i, breach) := Traced(H, Quads(listings), w);
    if breach.None? {
      SmallRemainders(listings[i]);
    }
  }

  lemma SmallRemainders(c: Listing)
    requires c.Reduced()
    ensures QuadOf(c) == Quad(CreditIdToField(c.creditId), c.vintage, c.volume, c.methodologyCode)
  {
    DivUnique(c.vintage, ORDER, 0, c.vintage);
    DivUnique(c.volume, ORDER, 0, c.volume);
    DivUnique(c.methodologyCode, ORDER, 0, c.methodologyCode);
  }

  /** A prover's inputs for listing i, from the proof the backend serves for it. */
  ghost predicate ProvesListing(H: Hashes, c: Listing, proof: Proof<HexString>, w: Retirement) {
    && w.Typed() && c.Reduced()
    && w.creditId == CreditIdToField(c.creditId) && w.vintage == c.vintage && w.volume == c.volume
    && w.methodology == c.methodologyCode && w.creditHash == FieldOf(CreditLeafHash(H, c))
    && w.path == Mapped(Element(), proof.path) && w.indices == RightsFrom(proof.indices, DEPTH)
    && w.root == FieldOf(proof.root)
    && w.nullifier == H.hash3(w.creditSecret, w.creditId, w.corridorId)
    && w.commitment == H.hash2(w.volume, w.creditSecret)
  }

  /** The proof served for any listed credit of positive volume that meets the minima is accepted. */
  lemma ListedIsRetirable(H: Hashes, listings: seq<Listing>, i: nat, tree: Tree<HexString>, proof: Proof<HexString>, w: Retirement)
    requires i < |listings| <= Exp2(DEPTH) && TreeOf(MerkleHash(H), ZeroString(H), Leaves(H, listings), tree)
    requires ServedFrom(MerkleHash(H), ZeroString(H), Leaves(H, listings), tree, i, proof)
    requires ProvesListing(H, listings[i], proof, w)
    requires w.volume > 0 && w.vintage >= w.minVintage && w.permanence >= w.minPermanence
    ensures Retires(H, w)
  {
    hide FoldPath, TreeOf, Exp2, RightsFrom, CreditIdToField, FieldOf, Written;
    ServedFolds(H, listings, i, tree, proof);
    SmallRemainders(listings[i]);
    FieldOfWritten(H.hash4(QuadOf(listings[i])));
  }

  lemma ServedFolds(H: Hashes, listings: seq<Listing>, i: nat, tree: Tree<HexString>, proof: Proof<HexString>)
    requires i < |listings| <= Exp2(DEPTH) && TreeOf(MerkleHash(H), ZeroString(H), Leaves(H, listings), tree)
    requires ServedFrom(MerkleHash(H), ZeroString(H), Leaves(H, listings), tree, i, proof)
    ensures |proof.path| == DEPTH
    ensures FoldPath(H.hash2, FieldOf(CreditLeafHash(H, listings[i])), Mapped(Element(), proof.path), RightsFrom(proof.indices, DEPTH), DEPTH)
         == FieldOf(proof.root)
  {
    hide FoldPath, TreeOf, Exp2, RightsFrom, CreditLeafHash, FieldOf, Node;
    var leaves := Leaves(H, listings);
    TreeRoot(H, leaves, tree);
    LeafOfTree(MerkleHash(H), ZeroString(H), leaves, tree, i);
    ServedVerifies(MerkleHash(H), ZeroString(H), leaves, tree, i, proof);
    StringsCarry(H);
    FoldPathCarries(Element(), MerkleHash(H), H.hash2, leaves[i], proof.path, RightsFrom(proof.indices, DEPTH), DEPTH);
  }

  lemma TreeRoot(H: Hashes, leaves: seq<HexString>, tree: Tree<HexString>)
    requires TreeOf(MerkleHash(H), ZeroString(H), leaves, tree) && |leaves| <= Exp2(DEPTH)
    ensures tree.root == Root(MerkleHash(H), ZeroString(H), leaves, DEPTH) && |tree.leaves| >= |leaves|
  {
  }

  // ----- Compliance

  /** The compliance nullifier of a company and a period. */
  function ComplianceNullifier(H: Hashes, companySecret: string, periodId: string): HexString {
    LabelBelowOrder(companySecret);
    LabelBelowOrder(periodId);
    Written(H.hash2(CreditIdToField(companySecret), CreditIdToField(periodId)))
  }

  /** The claim the backend generates for 1 to 50 recorded nullifiers is accepted by the circuit. */
  lemma GeneratedClaimAccepted(H: Hashes, nullifiers: seq<HexString>, isUsed: HexString -> bool, companySecret: string,
                               claim: Claim<HexString>, volumes: seq<nat>, threshold: nat)
    requires ClaimOf(MerkleHash(H), ZeroString(H), Recorded(nullifiers, isUsed), claim)
    requires claim.complianceNullifier == ComplianceNullifier(H, companySecret, claim.periodId)
    requires 1 <= |claim.nullifiers| <= SLOTS && |volumes| == |claim.nullifiers| && threshold <= Sum(volumes) < U64
    ensures CreditIdToField(companySecret) < ORDER && CreditIdToField(claim.periodId) < ORDER
    ensures |claim.paths| == |claim.indices| == |claim.nullifiers|
    ensures var w := Witness(Element(), claim, volumes, CreditIdToField(companySecret), CreditIdToField(claim.periodId), threshold);
            w.Typed() && Complies(H, w)
  {
    hide ClaimOf, Complies, Witness, Sum, Recorded, FieldOf, CreditIdToField, Written;
    LabelBelowOrder(companySecret);
    LabelBelowOrder(claim.periodId);
    var verified := Recorded(nullifiers, isUsed);
    StringsCarry(H);
    ClaimNullifiers(MerkleHash(H), ZeroString(H), verified, claim);
    FieldOfWritten(H.hash2(CreditIdToField(companySecret), CreditIdToField(claim.periodId)));
    assert Element()(claim.complianceNullifier) == FieldOf(claim.complianceNullifier);
    ClaimAccepted(H, Element(), MerkleHash(H), ZeroString(H), verified, claim, volumes,
                  CreditIdToField(companySecret), CreditIdToField(claim.periodId), threshold);
  }

  /** What the circuit accepts against a generated claim's root was recorded, or is the padding leaf, or collides. */
  lemma AcceptedWasRecorded(H: Hashes, nullifiers: seq<HexString>, isUsed: HexString -> bool, claim: Claim<HexString>, w: Compliance, i: nat)
    requires ClaimOf(MerkleHash(H), ZeroString(H), Recorded(nullifiers, isUsed), claim) && 1 <= |claim.nullifiers| <= Exp2(DEPTH)
    requires w.Typed() && Complies(H, w) && w.root == FieldOf(claim.nullifierSetRoot) && i < w.active
    ensures var claimed := Mapped(Element(), claim.nullifiers);
            match FindCollision(H.hash2, ZeroLeaf(H), claimed, w.nullifiers[i], w.paths[i], w.indices[i], DEPTH) {
              case None => (exists n :: n in nullifiers && isUsed(n) && FieldOf(n) == w.nullifiers[i]) || w.nullifiers[i] == ZeroLeaf(H)
              case Some(level) =>
                level < DEPTH && CollidesAt(H.hash2, ZeroLeaf(H), claimed, w.nullifiers[i], w.paths[i], w.indices[i], level)
            }
  {
    hide ClaimOf, Complies, Recorded, FindCollision, CollidesAt, FieldOf, Exp2;
    StringsCarry(H);
    LeavesCarry(H, []);
    AcceptedIsClaimed(H, Element(), MerkleHash(H), ZeroString(H), nullifiers, isUsed, claim, w, i);
    assert forall n :: Element()(n) == FieldOf(n);
  }
}
