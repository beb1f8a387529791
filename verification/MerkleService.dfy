/**
The registry tree service: which tree a rebuild builds for each registry, where it locates
each credit hash, and when the location it keeps still leads to the hash.
 */
module MerkleService {
  import opened Arithmetic
  import opened Options
  import opened MerkleTree
  import opened MerkleBuild

  datatype Credit<T> = Credit(registry: string, creditHash: T)

  datatype Location = Location(registry: string, index: nat)

  /** One tree built for one registry. */
  datatype Build<T> = Build(registry: string, leaves: seq<T>)

  datatype Reply<T> = Failed | NotFound | Found(proof: Proof<T>)

  // ----- What a catalogue asks to build

  /** The registries of a catalogue, by first occurrence. */
  function Registries<T>(credits: seq<Credit<T>>): (rs: seq<string>)
    ensures forall i, j | 0 <= i < j < |rs| :: rs[i] != rs[j]
  {
    if credits == [] then []
    else
      var rs := Registries(credits[..|credits| - 1]);
      var registry := credits[|credits| - 1].registry;
      if registry in rs then rs else rs + [registry]
  }

  /** The hashes of one registry, in catalogue order. */
  function Group<T>(credits: seq<Credit<T>>, registry: string): seq<T> {
    if credits == [] then []
    else
      var hashes := Group(credits[..|credits| - 1], registry);
      var credit := credits[|credits| - 1];
      if credit.registry == registry then hashes + [credit.creditHash] else hashes
  }

  lemma NoCredits<T>()
    ensures Registries<T>([]) == [] && forall r :: Group<T>([], r) == []
  {
  }

  lemma NextCredit<T>(credits: seq<Credit<T>>, i: nat)
    requires i < |credits|
    ensures var rs := Registries(credits[..i]);
            Registries(credits[..i + 1]) == if credits[i].registry in rs then rs else rs + [credits[i].registry]
    ensures forall r :: Group(credits[..i + 1], r)
                     == Group(credits[..i], r) + if credits[i].registry == r then [credits[i].creditHash] else []
  {
    assert credits[..i + 1][..i] == credits[..i];
  }

  /** A registry's hashes are listed each once and in catalogue order. */
  lemma {:induction false} GroupSplits<T>(a: seq<Credit<T>>, b: seq<Credit<T>>, registry: string)
    ensures Group(a + b, registry) == Group(a, registry) + Group(b, registry)
  {
    if b == [] {
      assert a + b == a;
    } else {
      var last := |b| - 1;
      GroupSplits(a, b[..last], registry);
      assert (a + b)[..|a + b| - 1] == a + b[..last];
      assert (a + b)[|a + b| - 1] == b[last];
    }
  }

  lemma GroupOne<T>(credit: Credit<T>, registry: string)
    ensures Group([credit], registry) == if credit.registry == registry then [credit.creditHash] else []
  {
    assert [credit][..0] == [];
  }

  /** Registries are listed exactly when a credit names them, by first occurrence: more credits only add at the end. */
  lemma {:induction false} RegistriesSplit<T>(a: seq<Credit<T>>, b: seq<Credit<T>>)
    ensures Registries(a) <= Registries(a + b)
    ensures forall r :: r in Registries(a + b) <==> r in Registries(a) || exists c :: c in b && c.registry == r
  {
    if b == [] {
      assert a + b == a;
    } else {
      var last := |b| - 1;
      RegistriesSplit(a, b[..last]);
      assert (a + b)[..|a + b| - 1] == a + b[..last];
      assert forall c :: c in b <==> c in b[..last] || c == b[last];
    }
  }

  function Builds<T>(credits: seq<Credit<T>>): (bs: seq<Build<T>>)
    ensures |bs| == |Registries(credits)|
  {
    var rs := Registries(credits);
    seq(|rs|, i requires 0 <= i < |rs| => Build(rs[i], Group(credits, rs[i])))
  }

  lemma {:induction false} GroupLists<T>(credits: seq<Credit<T>>, credit: Credit<T>)
    requires credit in credits
    ensures credit.registry in Registries(credits) && credit.creditHash in Group(credits, credit.registry)
  {
    var last := |credits| - 1;
    if credit != credits[last] {
      assert credit in credits[..last];
      GroupLists(credits[..last], credit);
    }
  }

  // ----- What a history of builds leaves behind

  /** The last build of a registry, as an index into the history. */
  function LastBuild<T>(history: seq<Build<T>>, registry: string): (k: Option<nat>)
    ensures k.Some? ==> k.value < |history| && history[k.value].registry == registry
    ensures k.None? ==> forall j | 0 <= j < |history| :: history[j].registry != registry
    ensures k.Some? ==> forall j | k.value < j < |history| :: history[j].registry != registry
  {
    if history == [] then None
    else if history[|history| - 1].registry == registry then Some(|history| - 1)
    else LastBuild(history[..|history| - 1], registry)
  }

  /** The last build that lists a hash. */
  function LastListing<T(==)>(history: seq<Build<T>>, hash: T): (k: Option<nat>)
    ensures k.Some? ==> k.value < |history| && hash in history[k.value].leaves
    ensures k.None? ==> forall j | 0 <= j < |history| :: hash !in history[j].leaves
    ensures k.Some? ==> forall j | k.value < j < |history| :: hash !in history[j].leaves
  {
    if history == [] then None
    else if hash in history[|history| - 1].leaves then Some(|history| - 1)
    else LastListing(history[..|history| - 1], hash)
  }

  function LastIndex<T(==)>(leaves: seq<T>, hash: T): (i: nat)
    requires hash in leaves
    ensures i < |leaves| && leaves[i] == hash
    ensures forall j | i < j < |leaves| :: leaves[j] != hash
  {
    if leaves[|leaves| - 1] == hash then |leaves| - 1 else LastIndex(leaves[..|leaves| - 1], hash)
  }

  /** Where the index points for a hash: its last place in the last build that lists it. */
  function Located<T(==)>(history: seq<Build<T>>, hash: T): Option<Location> {
    match LastListing(history, hash)
    case None => None
    case Some(k) => Some(Location(history[k].registry, LastIndex(history[k].leaves, hash)))
  }

  /** The leaves a registry's current tree was built from. */
  function Listed<T>(history: seq<Build<T>>, registry: string): Option<seq<T>> {
    match LastBuild(history, registry)
    case None => None
    case Some(k) => Some(history[k].leaves)
  }

  /** No build after the last one that lists the hash is of the same registry. */
  predicate UpToDate<T(==)>(history: seq<Build<T>>, hash: T) {
    var k := LastListing(history, hash);
    k.Some? && LastBuild(history, history[k.value].registry) == k
  }

  /**
  The leaf served for a located hash is that hash exactly when its registry has not been
  rebuilt without it, unless the hash is the padding leaf and its old place is padding now.
   */
  lemma ServedLeaf<T>(h: (T, T) -> T, z: T, history: seq<Build<T>>, hash: T, leaves: seq<T>, tree: Tree<T>)
    requires Located(history, hash).Some?
    requires Listed(history, Located(history, hash).value.registry) == Some(leaves) && TreeOf(h, z, leaves, tree)
    ensures var i := Located(history, hash).value.index;
            (i < |tree.leaves| && tree.leaves[i] == hash)
            <==> UpToDate(history, hash) || (hash == z && |leaves| <= i < |tree.leaves|)
  {
    var k := LastListing(history, hash).value;
    var i := Located(history, hash).value.index;
    var last := LastBuild(history, history[k].registry).value;
    assert k <= last;
    assert leaves == history[last].leaves;
    if k < last {
      assert hash !in leaves;
    }
    if i < |tree.leaves| {
      LeafOfTree(h, z, leaves, tree, i);
    }
  }

  /** Every located hash has a tree to be served from. */
  lemma LocatedIsListed<T>(history: seq<Build<T>>, hash: T)
    requires Located(history, hash).Some?
    ensures Listed(history, Located(history, hash).value.registry).Some?
  {
  }

  /** Every hash of the latest catalogue is up to date, whatever was built before it. */
  lemma CatalogueUpToDate<T>(earlier: seq<Build<T>>, credits: seq<Credit<T>>, credit: Credit<T>)
    requires credit in credits
    ensures UpToDate(earlier + Builds(credits), credit.creditHash)
  {
    hide Registries, Group, LastIndex;
    var history, rs := earlier + Builds(credits), Registries(credits);
    GroupLists(credits, credit);
    var i :| 0 <= i < |rs| && rs[i] == credit.registry;
    assert history[|earlier| + i] == Build(rs[i], Group(credits, rs[i]));
    var k := LastListing(history, credit.creditHash).value;
    assert k >= |earlier| + i;
    forall j | k < j < |history| ensures history[j].registry != history[k].registry {
      assert history[k].registry == rs[k - |earlier|] && history[j].registry == rs[j - |earlier|];
    }
  }

  /** After a full rebuild every credit of the catalogue is served its own leaf, and the path verifies. */
  lemma CatalogueServed<T>(h: (T, T) -> T, z: T, earlier: seq<Build<T>>, credits: seq<Credit<T>>, credit: Credit<T>,
                           leaves: seq<T>, tree: Tree<T>, proof: Proof<T>)
    requires credit in credits
    requires Located(earlier + Builds(credits), credit.creditHash).Some? ==>
               var loc := Located(earlier + Builds(credits), credit.creditHash).value;
               && Listed(earlier + Builds(credits), loc.registry) == Some(leaves) && |leaves| <= Exp2(DEPTH)
               && TreeOf(h, z, leaves, tree)
               && ServedFrom(h, z, leaves, tree, loc.index, proof)
    ensures Located(earlier + Builds(credits), credit.creditHash).Some?
    ensures proof.leaf == Some(credit.creditHash)
    ensures FoldPath(h, credit.creditHash, proof.path, RightsFrom(proof.indices, |proof.path|), |proof.path|) == Root(h, z, leaves, DEPTH)
  {
    hide TreeOf, FoldPath;
    var history := earlier + Builds(credits);
    CatalogueUpToDate(earlier, credits, credit);
    var i := Located(history, credit.creditHash).value.index;
    ServedLeaf(h, z, history, credit.creditHash, leaves, tree);
    ServedVerifies(h, z, leaves, tree, i, proof);
  }

  /** proof is what the service reads from a tree at a leaf index. */
  ghost predicate ServedFrom<T>(h: (T, T) -> T, z: T, leaves: seq<T>, tree: Tree<T>, i: nat, proof: Proof<T>) {
    && proof.root == tree.root && |proof.path| == |proof.indices| == DEPTH
    && proof.leaf == (if i < |tree.leaves| then Some(tree.leaves[i]) else None)
    && (i < |tree.leaves| ==> proof.path == PathOf(h, z, leaves, i, DEPTH))
    && forall l | 0 <= l < DEPTH :: proof.indices[l] == Above(i, l) % 2
  }

  lemma ServedVerifies<T>(h: (T, T) -> T, z: T, leaves: seq<T>, tree: Tree<T>, i: nat, proof: Proof<T>)
    requires TreeOf(h, z, leaves, tree) && |leaves| <= Exp2(DEPTH) && i < |tree.leaves|
    requires ServedFrom(h, z, leaves, tree, i, proof)
    ensures FoldPath(h, tree.leaves[i], proof.path, RightsFrom(proof.indices, DEPTH), DEPTH) == Root(h, z, leaves, DEPTH)
  {
    hide FoldPath;
    ServedProofVerifies(h, z, leaves, tree, i, proof);
  }

  /** A hash dropped from the catalogue keeps its old location, where another hash is served. */
  lemma StaleLocation<T>(h: (T, T) -> T, z: T, a: T, b: T, tree: Tree<T>)
    requires a != b && TreeOf(h, z, [b], tree)
    ensures var history := [Build("Verra", [a]), Build("Verra", [b])];
            && Located(history, a) == Some(Location("Verra", 0))
            && Listed(history, "Verra") == Some([b])
            && |tree.leaves| > 0 && tree.leaves[0] == b
  {
    var history := [Build("Verra", [a]), Build("Verra", [b])];
    assert history[1].leaves == [b] && history[0].leaves == [a];
    assert LastListing(history, a) == Some(0);
    LeafOfTree(h, z, [b], tree, 0);
  }

  /** A build fails in pairing its leaves, or in storing the snapshot of its tree. */
  ghost predicate BuildFails<T>(build: Build<T>, stored: string -> bool) {
    Unpairable(|build.leaves|) || !stored(build.registry)
  }

  /** The builds done when build i is the first that fails; a tree whose snapshot fails is already in place. */
  ghost predicate StopsAt<T>(builds: seq<Build<T>>, stored: string -> bool, i: int, done: int) {
    && 0 <= i < |builds| && BuildFails(builds[i], stored)
    && (forall j | 0 <= j < i :: !BuildFails(builds[j], stored))
    && done == if Unpairable(|builds[i].leaves|) then i else i + 1
  }

  /** trees holds the current tree of every registry built so far. */
  ghost predicate Serves<T>(h: (T, T) -> T, z: T, history: seq<Build<T>>, trees: map<string, Tree<T>>) {
    && (forall r :: r in trees <==> Listed(history, r).Some?)
    && forall r | r in trees :: TreeOf(h, z, Listed(history, r).value, trees[r])
  }

  /** index holds the location of every hash built into some tree. */
  ghost predicate Locates<T(!new)>(history: seq<Build<T>>, index: map<T, Location>) {
    forall c :: Located(history, c) == if c in index then Some(index[c]) else None
  }

  lemma BuildServes<T>(h: (T, T) -> T, z: T, history: seq<Build<T>>, trees: map<string, Tree<T>>, build: Build<T>, tree: Tree<T>)
    requires Serves(h, z, history, trees) && TreeOf(h, z, build.leaves, tree)
    ensures Serves(h, z, history + [build], trees[build.registry := tree])
  {
    hide TreeOf;
    assert (history + [build])[..|history|] == history;
    forall r ensures Listed(history + [build], r) == if r == build.registry then Some(build.leaves) else Listed(history, r) {
    }
    hide Listed;
  }

  lemma BuildLocates<T(!new)>(history: seq<Build<T>>, before: map<T, Location>, build: Build<T>, index: map<T, Location>)
    requires Locates(history, before)
    requires forall c :: c in index <==> c in before || c in build.leaves
    requires forall c | c in index ::
        index[c] == if c in build.leaves then Location(build.registry, LastIndex(build.leaves, c)) else before[c]
    ensures Locates(history + [build], index)
  {
    assert (history + [build])[..|history|] == history;
  }

  // ----- The service

  class MerkleService<T(==, !new)> {
    const hash: (T, T) -> T
    const zero: T
    const zeroHashes: seq<T>
    var trees: map<string, Tree<T>>
    var creditHashIndex: map<T, Location>
    /** Every tree built so far. */
    ghost var history: seq<Build<T>>

    ghost predicate Valid()
      reads this
    {
      && ZeroHashes(hash, zero, zeroHashes)
      && Serves(hash, zero, history, trees)
      && Locates(history, creditHashIndex)
    }

    constructor (hash: (T, T) -> T, zero: T, zeroHashes: seq<T>)
      requires ZeroHashes(hash, zero, zeroHashes)
      ensures Valid() && history == [] && trees == map[]
      ensures this.hash == hash && this.zero == zero
    {
      this.hash, this.zero, this.zeroHashes := hash, zero, zeroHashes;
      trees, creditHashIndex, history := map[], map[], [];
    }

    /** The hashes of each registry, and the registries by first occurrence. */
    method GroupByRegistry(credits: seq<Credit<T>>) returns (order: seq<string>, byRegistry: map<string, seq<T>>)
      ensures order == Registries(credits)
      ensures forall r :: r in byRegistry <==> r in order
      ensures forall r | r in byRegistry :: byRegistry[r] == Group(credits, r)
    {
      hide Registries, Group;
      order, byRegistry := [], map[];
      assert credits[..0] == [];
      NoCredits<T>();
      for i := 0 to |credits|
        invariant order == Registries(credits[..i])
        invariant forall r :: r in byRegistry <==> r in order
        invariant forall r :: Group(credits[..i], r) == if r in byRegistry then byRegistry[r] else []
      {
        var credit := credits[i];
        NextCredit(credits, i);
        var list := if credit.registry in byRegistry then byRegistry[credit.registry] else [];
        if credit.registry !in byRegistry {
          order := order + [credit.registry];
        }
        byRegistry := byRegistry[credit.registry := list + [credit.creditHash]];
      }
      assert credits[..|credits|] == credits;
    }

    /** Points the index at each leaf in turn. */
    static method Indexed(before: map<T, Location>, registry: string, leaves: seq<T>) returns (index: map<T, Location>)
      ensures forall c :: c in index <==> c in before || c in leaves
      ensures forall c | c in index ::
          index[c] == if c in leaves then Location(registry, LastIndex(leaves, c)) else before[c]
    {
      index := before;
      for i := 0 to |leaves|
        invariant forall c :: c in index <==> c in before || c in leaves[..i]
        invariant forall c | c in index ::
            index[c] == if c in leaves[..i] then Location(registry, LastIndex(leaves[..i], c)) else before[c]
      {
        assert leaves[..i + 1][..i] == leaves[..i];
        index := index[leaves[i] := Location(registry, i)];
      }
      assert leaves[..|leaves|] == leaves;
    }

    /** Builds one registry's tree and points the index at its leaves. */
    method Rebuild(registry: string, leaves: seq<T>) returns (root: Option<T>)
      requires Valid()
      modifies this
      ensures Valid()
      ensures root.None? <==> Unpairable(|leaves|)
      ensures root.None? ==> unchanged(this)
      ensures root.Some? ==> history == old(history) + [Build(registry, leaves)]
      ensures root.Some? ==> registry in trees && trees[registry].root == root.value
      ensures forall r | r in old(trees) && r != registry :: r in trees && trees[r] == old(trees[r])
    {
      hide TreeOf, Unpairable, ZeroHashes, Serves, Locates;
      var built, _ := BuildMerkleTree(hash, zero, zeroHashes, leaves);
      if built.None? {
        return None;
      }
      var tree := built.value;
      var index := Indexed(creditHashIndex, registry, leaves);
      BuildServes(hash, zero, history, trees, Build(registry, leaves), tree);
      BuildLocates(history, creditHashIndex, Build(registry, leaves), index);
      history := history + [Build(registry, leaves)];
      trees := trees[registry := tree];
      creditHashIndex := index;
      root := Some(tree.root);
    }

    /**
    Builds every registry of a catalogue in turn; a list that cannot be paired, or a snapshot
    that cannot be stored, ends the call.  Without a database every snapshot counts as stored.
     */
    method RebuildTrees(credits: seq<Credit<T>>, stored: string -> bool) returns (roots: Option<map<string, T>>)
      requires Valid()
      modifies this
      ensures Valid()
      ensures roots.None? <==> exists i, done :: StopsAt(Builds(credits), stored, i, done)
      ensures roots.None? ==> exists i, done | StopsAt(Builds(credits), stored, i, done) :: history == old(history) + Builds(credits)[..done]
      ensures roots.Some? ==> history == old(history) + Builds(credits)
      ensures roots.Some? ==> forall r :: r in roots.value <==> r in Registries(credits)
      ensures roots.Some? ==> forall r | r in roots.value :: r in trees && trees[r].root == roots.value[r]
    {
      hide TreeOf, Unpairable, ZeroHashes, Serves, Locates, Registries, Group;
      var order, byRegistry := GroupByRegistry(credits);
      ghost var builds := Builds(credits);
      var found: map<string, T> := map[];
      for i := 0 to |order|
        invariant Valid()
        invariant history == old(history) + builds[..i]
        invariant forall r :: r in found <==> r in order[..i]
        invariant forall r | r in found :: r in trees && trees[r].root == found[r]
        invariant forall j | 0 <= j < i :: !BuildFails(builds[j], stored)
      {
        var registry := order[i];
        assert byRegistry[registry] == Group(credits, registry) && builds[i] == Build(registry, Group(credits, registry));
        var root := Rebuild(registry, byRegistry[registry]);
        if root.None? {
          assert StopsAt(builds, stored, i, i);
          return None;
        }
        assert builds[..i + 1] == builds[..i] + [builds[i]];
        if !stored(registry) {
          assert StopsAt(builds, stored, i, i + 1);
          return None;
        }
        found := found[registry := root.value];
      }
      assert builds[..|order|] == builds;
      roots := Some(found);
    }

    /** The path for a credit hash; an empty service first rebuilds from the catalogue. */
    method GetMerkleProof(creditHash: T, catalogue: seq<Credit<T>>, stored: string -> bool) returns (reply: Reply<T>)
      requires Valid()
      modifies this
      ensures Valid()
      ensures old(trees) != map[] ==> unchanged(this)
      ensures old(trees) == map[] && !reply.Failed? ==> history == old(history) + Builds(catalogue)
      ensures reply.Failed? ==>
                exists i, done | StopsAt(Builds(catalogue), stored, i, done) :: history == old(history) + Builds(catalogue)[..done]
      ensures reply.Failed? <==> old(trees) == map[] && exists i, done :: StopsAt(Builds(catalogue), stored, i, done)
      ensures !reply.Failed? ==> (reply.NotFound? <==> Located(history, creditHash).None?)
      ensures reply.Found? ==>
                var loc := Located(history, creditHash).value;
                loc.registry in trees
                && ServedFrom(hash, zero, Listed(history, loc.registry).value, trees[loc.registry], loc.index, reply.proof)
    {
      hide TreeOf, Unpairable, ZeroHashes, PathOf, Above, Registries, Group, Builds;
      if |trees| == 0 {
        var roots := RebuildTrees(catalogue, stored);
        if roots.None? {
          return Failed;
        }
      }
      if creditHash !in creditHashIndex {
        return NotFound;
      }
      var location := creditHashIndex[creditHash];
      LocatedIsListed(history, creditHash);
      if location.registry !in trees {
        return NotFound;
      }
      var proof := MerkleProofFromTree(hash, zero, zeroHashes, Listed(history, location.registry).value,
                                       trees[location.registry], location.index);
      reply := Found(proof);
    }
  }
}
