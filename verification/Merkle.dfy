/** The fragment Merkle tree: level-by-level build, inclusion proofs, verification. */
module Merkle {
  import opened Common

  type Digest = d: seq<byte> | |d| == 32 witness seq(32, _ => 0)

  /** Blake2b-256, about which nothing is assumed beyond the hypotheses of each lemma. */
  type Hash = seq<byte> -> Digest

  const LEAF_PREFIX: byte := 0x00
  const NODE_PREFIX: byte := 0x01

  function LeafInput(data: seq<byte>): seq<byte> { [LEAF_PREFIX] + data }

  function NodeInput(left: Digest, right: Digest): seq<byte> { [NODE_PREFIX] + left + right }

  function HashLeaf(H: Hash, data: seq<byte>): Digest { H(LeafInput(data)) }

  function ConcatAndHash(H: Hash, left: Digest, right: Option<Digest>): Digest
  {
    match right
    case Some(r) => H(NodeInput(left, r))
    case None => left
  }

  function Leaves(H: Hash, fragments: seq<seq<byte>>): (leaves: seq<Digest>)
    ensures |leaves| == |fragments|
  {
    seq(|fragments|, i requires 0 <= i < |fragments| => HashLeaf(H, fragments[i]))
  }

  // ------------------------------------------------- the tree, level by level --

  function NextLevel(H: Hash, level: seq<Digest>): (next: seq<Digest>)
    ensures |next| == (|level| + 1) / 2
  {
    if level == [] then []
    else if |level| == 1 then [ConcatAndHash(H, level[0], None)]
    else [ConcatAndHash(H, level[0], Some(level[1]))] + NextLevel(H, level[2..])
  }

  function LevelRoot(H: Hash, level: seq<Digest>): Digest
    requires level != []
    decreases |level|
  {
    if |level| == 1 then level[0] else LevelRoot(H, NextLevel(H, level))
  }

  function Sibling(i: nat): nat
  {
    if i % 2 == 0 then i + 1 else i - 1
  }

  /** One level of a proof: the sibling, if there is one. */
  function SiblingAt(level: seq<Digest>, i: nat): seq<Digest>
    requires i < |level|
  {
    if Sibling(i) < |level| then [level[Sibling(i)]] else []
  }

  /** Siblings from the leaf upwards; a level where the node has no right neighbour adds nothing. */
  function LevelProof(H: Hash, level: seq<Digest>, i: nat): seq<Digest>
    requires i < |level|
    decreases |level|
  {
    if |level| == 1 then []
    else SiblingAt(level, i) + LevelProof(H, NextLevel(H, level), i / 2)
  }

  /** The root a verifier computes from a leaf hash; None when the proof is too short. */
  function RootFromProof(H: Hash, hash: Digest, i: nat, n: nat, proof: seq<Digest>): Option<Digest>
    requires i < n
    decreases n
  {
    if n == 1 then Some(hash)
    else if Sibling(i) < n then
      if proof == [] then None
      else RootFromProof(H, Combine(H, hash, i, proof[0]), i / 2, (n + 1) / 2, proof[1..])
    else RootFromProof(H, ConcatAndHash(H, hash, None), i / 2, (n + 1) / 2, proof)
  }

  function Combine(H: Hash, hash: Digest, i: nat, sibling: Digest): Digest
  {
    if i % 2 == 0 then ConcatAndHash(H, hash, Some(sibling)) else ConcatAndHash(H, sibling, Some(hash))
  }

  // -------------------------------------------------------- the crate's surface --

  datatype MerkleResult = MerkleResult(root: Digest, leaves: seq<Digest>)

  function Flatten(proof: seq<Digest>): (bytes: seq<byte>)
    ensures |bytes| == 32 * |proof|
  {
    if proof == [] then [] else proof[0] + Flatten(proof[1..])
  }

  function FromBytes(bytes: seq<byte>): Result<seq<Digest>, string>
  {
    if |bytes| % 32 != 0 then Err("Invalid proof format")
    else Ok(seq(|bytes| / 32, k requires 0 <= k < |bytes| / 32 => bytes[32 * k..32 * k + 32]))
  }

  function Build(H: Hash, fragments: seq<seq<byte>>): Result<MerkleResult, string>
  {
    if fragments == [] then Err("Cannot build MerkleTree from empty fragments")
    else
      var leaves := Leaves(H, fragments);
      Ok(MerkleResult(LevelRoot(H, leaves), leaves))
  }

  function GenerateProof(H: Hash, tree: MerkleResult, index: nat): Result<seq<byte>, string>
  {
    if index >= |tree.leaves| then Err("Index out of bounds") else Ok(Flatten(LevelProof(H, tree.leaves, index)))
  }

  function Verify(H: Hash, root: Digest, proofBytes: seq<byte>, leafData: seq<byte>, leafIndex: nat, totalLeaves: nat): Result<bool, string>
  {
    if totalLeaves == 0 then Err("total_leaves must be > 0")
    else if leafIndex >= totalLeaves then Err("leaf_index out of bounds")
    else
      var proof := FromBytes(proofBytes);
      if proof.Err? then Err(proof.error)
      else Ok(RootFromProof(H, HashLeaf(H, leafData), leafIndex, totalLeaves, proof.value) == Some(root))
  }

  lemma {:induction false} FromBytesOfFlatten(proof: seq<Digest>)
    ensures FromBytes(Flatten(proof)) == Ok(proof)
  {
    var bytes := Flatten(proof);
    if proof != [] {
      FromBytesOfFlatten(proof[1..]);
      var rest := FromBytes(Flatten(proof[1..])).value;
      forall k | 0 <= k < |proof| ensures bytes[32 * k..32 * k + 32] == proof[k] {
        if k == 0 {
          assert bytes[..32] == proof[0];
        } else {
          assert rest[k - 1] == proof[k];
          assert Flatten(proof[1..])[32 * (k - 1)..32 * (k - 1) + 32] == bytes[32 * k..32 * k + 32];
        }
      }
    }
    assert bytes == Flatten(proof) && |bytes| / 32 == |proof|;
    assert FromBytes(bytes).value == proof;
  }

  lemma {:induction false} FlattenFrom(bytes: seq<byte>, proof: seq<Digest>)
    requires |bytes| == 32 * |proof|
    requires forall k :: 0 <= k < |proof| ==> proof[k] == bytes[32 * k..32 * k + 32]
    ensures Flatten(proof) == bytes
  {
    if proof != [] {
      forall k | 0 <= k < |proof[1..]| ensures proof[1..][k] == bytes[32..][32 * k..32 * k + 32] {
        assert bytes[32..][32 * k..32 * k + 32] == bytes[32 * (k + 1)..32 * (k + 1) + 32];
      }
      FlattenFrom(bytes[32..], proof[1..]);
      assert bytes == bytes[..32] + bytes[32..];
    }
  }

  /** Only the serialised form of a proof parses to it. */
  lemma FlattenOfFromBytes(bytes: seq<byte>)
    requires FromBytes(bytes).Ok?
    ensures Flatten(FromBytes(bytes).value) == bytes
  {
    FlattenFrom(bytes, FromBytes(bytes).value);
  }

  lemma {:induction false} FlattenPrefix(a: seq<Digest>, b: seq<Digest>)
    requires a <= b
    ensures Flatten(a) <= Flatten(b)
  {
    if a != [] {
      FlattenPrefix(a[1..], b[1..]);
    }
  }

  // --------------------------------------- RFC 6962, sections 2.1 and 2.1.1 --

  predicate PowerOfTwo(n: nat)
  {
    n == 1 || (0 < n && n % 2 == 0 && PowerOfTwo(n / 2))
  }

  /** The largest power of two smaller than n. */
  function SplitPoint(n: nat): (k: nat)
    requires 2 <= n
    ensures PowerOfTwo(k) && k < n <= 2 * k
  {
    if n == 2 then 1 else 2 * SplitPoint((n + 1) / 2)
  }

  /** Merkle Tree Hash: MTH({d0}) = H(0x00 || d0), MTH(D) = H(0x01 || MTH(D[:k]) || MTH(D[k:])). */
  ghost function TreeHash(H: Hash, d: seq<seq<byte>>): Digest
    requires d != []
    decreases |d|
  {
    if |d| == 1 then H([0x00] + d[0])
    else
      var k := SplitPoint(|d|);
      H([0x01] + TreeHash(H, d[..k]) + TreeHash(H, d[k..]))
  }

  /** Merkle audit path of the m-th entry. */
  ghost function AuditPath(H: Hash, m: nat, d: seq<seq<byte>>): seq<Digest>
    requires m < |d|
    decreases |d|
  {
    if |d| == 1 then []
    else
      var k := SplitPoint(|d|);
      if m < k then AuditPath(H, m, d[..k]) + [TreeHash(H, d[k..])]
      else AuditPath(H, m - k, d[k..]) + [TreeHash(H, d[..k])]
  }

  lemma {:induction false} NextLevelConcat(H: Hash, a: seq<Digest>, b: seq<Digest>)
    requires |a| % 2 == 0
    ensures NextLevel(H, a + b) == NextLevel(H, a) + NextLevel(H, b)
  {
    if a == [] {
      assert a + b == b;
    } else {
      assert (a + b)[2..] == a[2..] + b;
      NextLevelConcat(H, a[2..], b);
    }
  }

  lemma RootOfNextLevel(H: Hash, level: seq<Digest>)
    requires level != []
    ensures LevelRoot(H, level) == LevelRoot(H, NextLevel(H, level))
  {
    if |level| == 1 {
      assert NextLevel(H, level) == level;
    }
  }

  lemma HalfOfPower(n: nat)
    requires PowerOfTwo(n) && 1 < n
    ensures n % 2 == 0 && PowerOfTwo(n / 2) && (n + 1) / 2 == n / 2
  {
  }

  /** The next level when a full left part is followed by a right part no longer than it. */
  lemma HalvedSplit(H: Hash, a: seq<Digest>, b: seq<Digest>)
    requires PowerOfTwo(|a|) && 1 < |a| && 0 < |b| <= |a|
    ensures |a| % 2 == 0 && NextLevel(H, a + b) == NextLevel(H, a) + NextLevel(H, b)
    ensures PowerOfTwo(|NextLevel(H, a)|) && 0 < |NextLevel(H, b)| <= |NextLevel(H, a)|
    ensures LevelRoot(H, a) == LevelRoot(H, NextLevel(H, a)) && LevelRoot(H, b) == LevelRoot(H, NextLevel(H, b))
    ensures LevelRoot(H, a + b) == LevelRoot(H, NextLevel(H, a + b))
  {
    hide LevelRoot, NextLevel, PowerOfTwo;
    HalfOfPower(|a|);
    NextLevelConcat(H, a, b);
    RootOfNextLevel(H, a);
    RootOfNextLevel(H, b);
    RootOfNextLevel(H, a + b);
  }

  /** Building by levels joins the two parts last. */
  lemma {:induction false} RootSplit(H: Hash, a: seq<Digest>, b: seq<Digest>)
    requires PowerOfTwo(|a|) && 0 < |b| <= |a|
    ensures LevelRoot(H, a + b) == H(NodeInput(LevelRoot(H, a), LevelRoot(H, b)))
    decreases |a|
  {
    if |a| == 1 {
      assert NextLevel(H, a + b) == [H(NodeInput(a[0], b[0]))];
    } else {
      HalvedSplit(H, a, b);
      RootSplit(H, NextLevel(H, a), NextLevel(H, b));
    }
  }

  lemma ProofOfNextLevel(H: Hash, level: seq<Digest>, i: nat)
    requires i < |level|
    ensures LevelProof(H, level, i) == SiblingAt(level, i) + LevelProof(H, NextLevel(H, level), i / 2)
  {
    if |level| == 1 {
      assert NextLevel(H, level) == level;
    }
  }

  lemma SiblingSplit(a: seq<Digest>, b: seq<Digest>, i: nat)
    requires |a| % 2 == 0 && i < |a| + |b|
    ensures SiblingAt(a + b, i) == if i < |a| then SiblingAt(a, i) else SiblingAt(b, i - |a|)
    ensures i >= |a| ==> (i - |a|) / 2 == i / 2 - |a| / 2
  {
  }

  lemma ProofOfPair(H: Hash, level: seq<Digest>, i: nat)
    requires |level| == 2 && i < 2
    ensures LevelProof(H, level, i) == [level[1 - i]]
    ensures LevelProof(H, level[..1], 0) == LevelProof(H, level[1..], 0) == []
    ensures LevelRoot(H, level[..1]) == level[0] && LevelRoot(H, level[1..]) == level[1]
  {
    assert |NextLevel(H, level)| == 1;
  }

  lemma {:induction false} ProofSplit(H: Hash, a: seq<Digest>, b: seq<Digest>, i: nat)
    requires PowerOfTwo(|a|) && 0 < |b| <= |a| && i < |a| + |b|
    ensures LevelProof(H, a + b, i) ==
            if i < |a| then LevelProof(H, a, i) + [LevelRoot(H, b)]
            else LevelProof(H, b, i - |a|) + [LevelRoot(H, a)]
    decreases |a|
  {
    hide LevelProof, LevelRoot, SiblingAt, NextLevel, Sibling;
    if |a| == 1 {
      ProofOfPair(H, a + b, i);
      assert (a + b)[..1] == a && (a + b)[1..] == b;
    } else {
      HalvedSplit(H, a, b);
      ProofSplit(H, NextLevel(H, a), NextLevel(H, b), i / 2);
      SiblingSplit(a, b, i);
      ProofOfNextLevel(H, a + b, i);
      if i < |a| {
        ProofOfNextLevel(H, a, i);
      } else {
        ProofOfNextLevel(H, b, i - |a|);
      }
    }
  }

  lemma SplitLeaves(H: Hash, d: seq<seq<byte>>, k: nat)
    requires k <= |d|
    ensures Leaves(H, d) == Leaves(H, d[..k]) + Leaves(H, d[k..])
  {
  }

  /** The level-by-level root is the recursive tree hash of RFC 6962. */
  lemma {:induction false} RootIsTreeHash(H: Hash, d: seq<seq<byte>>)
    requires d != []
    ensures LevelRoot(H, Leaves(H, d)) == TreeHash(H, d)
    decreases |d|
  {
    if |d| > 1 {
      var k := SplitPoint(|d|);
      RootIsTreeHash(H, d[..k]);
      RootIsTreeHash(H, d[k..]);
      SplitLeaves(H, d, k);
      RootSplit(H, Leaves(H, d[..k]), Leaves(H, d[k..]));
    }
  }

  /** The generated proof is the audit path of RFC 6962. */
  lemma {:induction false} ProofIsAuditPath(H: Hash, d: seq<seq<byte>>, m: nat)
    requires m < |d|
    ensures LevelProof(H, Leaves(H, d), m) == AuditPath(H, m, d)
    decreases |d|
  {
    if |d| > 1 {
      var k := SplitPoint(|d|);
      SplitLeaves(H, d, k);
      ProofSplit(H, Leaves(H, d[..k]), Leaves(H, d[k..]), m);
      RootIsTreeHash(H, d[..k]);
      RootIsTreeHash(H, d[k..]);
      if m < k {
        ProofIsAuditPath(H, d[..k], m);
      } else {
        ProofIsAuditPath(H, d[k..], m - k);
      }
    }
  }

  /** Build and GenerateProof, in the terms of RFC 6962, for every fragment list. */
  lemma BuildMeetsRfc(H: Hash, fragments: seq<seq<byte>>)
    ensures fragments == [] <==> Build(H, fragments).Err?
    ensures fragments == [] ==> Build(H, fragments).error == "Cannot build MerkleTree from empty fragments"
    ensures fragments != [] ==> Build(H, fragments).value.root == TreeHash(H, fragments)
    ensures forall m :: 0 <= m < |fragments| ==>
              GenerateProof(H, Build(H, fragments).value, m) == Ok(Flatten(AuditPath(H, m, fragments)))
    ensures fragments != [] ==> forall m: nat :: m >= |fragments| ==> GenerateProof(H, Build(H, fragments).value, m).Err?
  {
    if fragments != [] {
      RootIsTreeHash(H, fragments);
      forall m | 0 <= m < |fragments|
        ensures GenerateProof(H, Build(H, fragments).value, m) == Ok(Flatten(AuditPath(H, m, fragments)))
      {
        ProofIsAuditPath(H, fragments, m);
      }
    }
  }

  // ------------------------------------------------------------- completeness --

  /** Which calls of the verifier are errors, and that it says false, not error, to a proof that is too short. */
  lemma VerifyRefuses(H: Hash, root: Digest, proofBytes: seq<byte>, leafData: seq<byte>, leafIndex: nat, totalLeaves: nat)
    ensures var r := Verify(H, root, proofBytes, leafData, leafIndex, totalLeaves);
      && (r == Err("total_leaves must be > 0") <==> totalLeaves == 0)
      && (r == Err("leaf_index out of bounds") <==> leafIndex >= totalLeaves > 0)
      && (r == Err("Invalid proof format") <==> leafIndex < totalLeaves && |proofBytes| % 32 != 0)
      && (r.Ok? <==> leafIndex < totalLeaves && |proofBytes| % 32 == 0)
    ensures leafIndex < totalLeaves && |proofBytes| % 32 == 0 && |proofBytes| / 32 < PathLength(leafIndex, totalLeaves) ==>
              Verify(H, root, proofBytes, leafData, leafIndex, totalLeaves) == Ok(false)
  {
    if leafIndex < totalLeaves && |proofBytes| % 32 == 0 {
      ShortProof(H, HashLeaf(H, leafData), leafIndex, totalLeaves, FromBytes(proofBytes).value);
    }
  }

  /** Levels on which the node above the i-th of n leaves has a neighbour to combine with. */
  ghost function PathLength(i: nat, n: nat): nat
    requires i < n
    decreases n
  {
    if n == 1 then 0 else (if Sibling(i) < n then 1 else 0) + PathLength(i / 2, (n + 1) / 2)
  }

  lemma {:induction false} ShortProof(H: Hash, hash: Digest, i: nat, n: nat, proof: seq<Digest>)
    requires i < n
    ensures RootFromProof(H, hash, i, n, proof) == None <==> |proof| < PathLength(i, n)
    decreases n
  {
    if n > 1 {
      if Sibling(i) >= n {
        ShortProof(H, hash, i / 2, (n + 1) / 2, proof);
      } else if proof != [] {
        ShortProof(H, Combine(H, hash, i, proof[0]), i / 2, (n + 1) / 2, proof[1..]);
      }
    }
  }

  lemma {:induction false} NextLevelAt(H: Hash, level: seq<Digest>, i: nat)
    requires i < |level|
    ensures NextLevel(H, level)[i / 2] ==
            if Sibling(i) < |level| then Combine(H, level[i], i, level[Sibling(i)]) else level[i]
  {
    if i >= 2 {
      NextLevelAt(H, level[2..], i - 2);
      assert Sibling(i) - 2 == Sibling(i - 2) && i / 2 - 1 == (i - 2) / 2;
      assert Sibling(i) < |level| ==> level[2..][Sibling(i - 2)] == level[Sibling(i)];
    } else if |level| == 1 {
      assert NextLevel(H, level) == [level[0]];
    } else {
      assert NextLevel(H, level)[0] == ConcatAndHash(H, level[0], Some(level[1]));
      assert i == 0 || i == 1;
    }
  }

  lemma {:induction false} ProofLeadsToRoot(H: Hash, level: seq<Digest>, i: nat)
    requires i < |level|
    ensures RootFromProof(H, level[i], i, |level|, LevelProof(H, level, i)) == Some(LevelRoot(H, level))
    decreases |level|
  {
    if |level| > 1 {
      NextLevelAt(H, level, i);
      ProofLeadsToRoot(H, NextLevel(H, level), i / 2);
      var proof := LevelProof(H, level, i);
      if Sibling(i) < |level| {
        assert proof[1..] == LevelProof(H, NextLevel(H, level), i / 2);
      } else {
        assert proof == LevelProof(H, NextLevel(H, level), i / 2);
      }
    }
  }

  /** Every generated proof verifies for its own index and leaf count. */
  lemma Completeness(H: Hash, fragments: seq<seq<byte>>, i: nat)
    requires i < |fragments|
    ensures var tree := Build(H, fragments).value;
      Verify(H, tree.root, GenerateProof(H, tree, i).value, fragments[i], i, |fragments|) == Ok(true)
  {
    var leaves := Leaves(H, fragments);
    ProofLeadsToRoot(H, leaves, i);
    FromBytesOfFlatten(LevelProof(H, leaves, i));
  }

  // ---------------------------------------------------------------- soundness --

  /** No two of these inputs have the same hash. */
  ghost predicate CollisionFree(H: Hash, inputs: set<seq<byte>>)
  {
    forall x, y :: x in inputs && y in inputs && H(x) == H(y) ==> x == y
  }

  ghost function PairInputs(level: seq<Digest>): set<seq<byte>>
  {
    set j | 0 <= j < |level| / 2 :: NodeInput(level[2 * j], level[2 * j + 1])
  }

  /** What is hashed while a level is folded to its root. */
  ghost function LevelInputs(H: Hash, level: seq<Digest>): set<seq<byte>>
    decreases |level|
  {
    if |level| <= 1 then {} else PairInputs(level) + LevelInputs(H, NextLevel(H, level))
  }

  /** What is hashed while a tree is built. */
  ghost function BuildInputs(H: Hash, fragments: seq<seq<byte>>): set<seq<byte>>
  {
    (set i | 0 <= i < |fragments| :: LeafInput(fragments[i])) + LevelInputs(H, Leaves(H, fragments))
  }

  ghost function CombineInput(hash: Digest, i: nat, sibling: Digest): seq<byte>
  {
    if i % 2 == 0 then NodeInput(hash, sibling) else NodeInput(sibling, hash)
  }

  /** What is hashed above the leaf while a proof is checked. */
  ghost function PathInputs(H: Hash, hash: Digest, i: nat, n: nat, proof: seq<Digest>): set<seq<byte>>
    requires i < n
    decreases n
  {
    if n == 1 then {}
    else if Sibling(i) < n then
      if proof == [] then {}
      else
        {CombineInput(hash, i, proof[0])} +
        PathInputs(H, Combine(H, hash, i, proof[0]), i / 2, (n + 1) / 2, proof[1..])
    else PathInputs(H, hash, i / 2, (n + 1) / 2, proof)
  }

  /** What is hashed while a proof is checked. */
  ghost function VerifyInputs(H: Hash, proof: seq<Digest>, leafData: seq<byte>, i: nat, n: nat): set<seq<byte>>
    requires i < n
  {
    {LeafInput(leafData)} + PathInputs(H, HashLeaf(H, leafData), i, n, proof)
  }

  lemma NodeInputInjective(l: Digest, r: Digest, l': Digest, r': Digest)
    requires NodeInput(l, r) == NodeInput(l', r')
    ensures l == l' && r == r'
  {
    assert NodeInput(l, r)[1..33] == l && NodeInput(l, r)[33..] == r;
    assert NodeInput(l', r')[1..33] == l' && NodeInput(l', r')[33..] == r';
  }

  lemma LeafIsNotNode(data: seq<byte>, l: Digest, r: Digest)
    ensures LeafInput(data) != NodeInput(l, r)
  {
    assert LeafInput(data)[0] != NodeInput(l, r)[0];
  }

  lemma LeafInputInjective(x: seq<byte>, y: seq<byte>)
    requires LeafInput(x) == LeafInput(y)
    ensures x == y
  {
    assert LeafInput(x)[1..] == x && LeafInput(y)[1..] == y;
  }

  /** Equal combined hashes come from equal pairs. */
  lemma CombineInjective(H: Hash, i: nat, hash: Digest, sibling: Digest, hash': Digest, sibling': Digest)
    requires Combine(H, hash, i, sibling) == Combine(H, hash', i, sibling')
    requires CollisionFree(H, {CombineInput(hash, i, sibling), CombineInput(hash', i, sibling')})
    ensures hash == hash' && sibling == sibling'
  {
    assert H(CombineInput(hash, i, sibling)) == H(CombineInput(hash', i, sibling'));
    if i % 2 == 0 {
      NodeInputInjective(hash, sibling, hash', sibling');
    } else {
      NodeInputInjective(sibling, hash, sibling', hash');
    }
  }

  lemma PairIsInput(level: seq<Digest>, i: nat)
    requires i < |level| && Sibling(i) < |level|
    ensures CombineInput(level[i], i, level[Sibling(i)]) in PairInputs(level)
  {
    hide NodeInput;
    var j := i / 2;
    assert CombineInput(level[i], i, level[Sibling(i)]) == NodeInput(level[2 * j], level[2 * j + 1]);
  }

  lemma CollisionFreeSubset(H: Hash, small: set<seq<byte>>, large: set<seq<byte>>)
    requires small <= large && CollisionFree(H, large)
    ensures CollisionFree(H, small)
  {
  }

  /** The first step of a path that has a sibling on its level. */
  lemma PathStep(H: Hash, level: seq<Digest>, hash: Digest, i: nat, proof: seq<Digest>)
    requires i < |level| && |level| > 1 && Sibling(i) < |level| && proof != []
    requires CollisionFree(H, LevelInputs(H, level) + PathInputs(H, hash, i, |level|, proof))
    ensures Combine(H, hash, i, proof[0]) == NextLevel(H, level)[i / 2] ==> hash == level[i] && proof[0] == level[Sibling(i)]
  {
    hide LevelInputs, NextLevel, CollisionFree, Combine, CombineInput, PairInputs, PathInputs;
    var s := level[Sibling(i)];
    NextLevelAt(H, level, i);
    PairIsInput(level, i);
    FirstInputs(H, level, hash, i, proof);
    CollisionFreeSubset(H, {CombineInput(hash, i, proof[0]), CombineInput(level[i], i, s)},
      LevelInputs(H, level) + PathInputs(H, hash, i, |level|, proof));
    if Combine(H, hash, i, proof[0]) == NextLevel(H, level)[i / 2] {
      CombineInjective(H, i, hash, proof[0], level[i], s);
    }
  }

  lemma RestInputs(H: Hash, level: seq<Digest>, hash: Digest, i: nat, proof: seq<Digest>)
    requires i < |level| && |level| > 1 && (Sibling(i) < |level| ==> proof != [])
    ensures LevelInputs(H, NextLevel(H, level)) <= LevelInputs(H, level)
    ensures var n := |NextLevel(H, level)|;
      (if Sibling(i) < |level| then PathInputs(H, Combine(H, hash, i, proof[0]), i / 2, n, proof[1..])
       else PathInputs(H, hash, i / 2, n, proof)) <= PathInputs(H, hash, i, |level|, proof)
  {
  }

  lemma FirstInputs(H: Hash, level: seq<Digest>, hash: Digest, i: nat, proof: seq<Digest>)
    requires i < |level| && |level| > 1 && Sibling(i) < |level| && proof != []
    ensures CombineInput(hash, i, proof[0]) in PathInputs(H, hash, i, |level|, proof)
    ensures PairInputs(level) <= LevelInputs(H, level)
  {
  }

  /** One level of a path that reaches the root, and of the generated proof. */
  lemma PathUnfold(H: Hash, level: seq<Digest>, hash: Digest, i: nat, proof: seq<Digest>)
    requires i < |level| && |level| > 1
    requires RootFromProof(H, hash, i, |level|, proof) == Some(LevelRoot(H, level))
    ensures var next := NextLevel(H, level);
      && LevelProof(H, level, i) == SiblingAt(level, i) + LevelProof(H, next, i / 2)
      && (Sibling(i) < |level| ==>
           && proof != []
           && RootFromProof(H, Combine(H, hash, i, proof[0]), i / 2, |next|, proof[1..]) == Some(LevelRoot(H, next)))
      && (Sibling(i) >= |level| ==> RootFromProof(H, hash, i / 2, |next|, proof) == Some(LevelRoot(H, next)))
  {
  }

  /** With the true width, a path that reaches the root starts at the true node and uses the true siblings. */
  lemma {:induction false} PathIsUnique(H: Hash, level: seq<Digest>, hash: Digest, i: nat, proof: seq<Digest>)
    requires i < |level|
    requires RootFromProof(H, hash, i, |level|, proof) == Some(LevelRoot(H, level))
    requires CollisionFree(H, LevelInputs(H, level) + PathInputs(H, hash, i, |level|, proof))
    ensures hash == level[i] && LevelProof(H, level, i) <= proof
    decreases |level|
  {
    if |level| > 1 {
      PathUnfold(H, level, hash, i, proof);
      RestInputs(H, level, hash, i, proof);
      hide PairInputs, CollisionFree, NextLevel, Combine, CombineInput, LevelInputs, PathInputs, RootFromProof, LevelProof, LevelRoot;
      var next, all := NextLevel(H, level), LevelInputs(H, level) + PathInputs(H, hash, i, |level|, proof);
      NextLevelAt(H, level, i);
      if Sibling(i) < |level| {
        var up, rest := Combine(H, hash, i, proof[0]), proof[1..];
        CollisionFreeSubset(H, LevelInputs(H, next) + PathInputs(H, up, i / 2, |next|, rest), all);
        PathIsUnique(H, next, up, i / 2, rest);
        PathStep(H, level, hash, i, proof);
        assert proof == [proof[0]] + rest;
      } else {
        CollisionFreeSubset(H, LevelInputs(H, next) + PathInputs(H, hash, i / 2, |next|, proof), all);
        PathIsUnique(H, next, hash, i / 2, proof);
      }
    } else {
      LonePath(H, level, hash, proof);
    }
  }

  lemma LonePath(H: Hash, level: seq<Digest>, hash: Digest, proof: seq<Digest>)
    requires |level| == 1
    ensures RootFromProof(H, hash, 0, 1, proof) == Some(hash) && LevelRoot(H, level) == level[0] && LevelProof(H, level, 0) == []
  {
  }

  lemma SameLeaf(H: Hash, x: seq<byte>, y: seq<byte>)
    requires HashLeaf(H, x) == HashLeaf(H, y) && CollisionFree(H, {LeafInput(x), LeafInput(y)})
    ensures x == y
  {
    LeafInputInjective(x, y);
  }

  /** With the true leaf count, accepted proof bytes show the fragment at that index, and begin with its audit path. */
  lemma SoundnessTrueCount(H: Hash, fragments: seq<seq<byte>>, proofBytes: seq<byte>, leafData: seq<byte>, i: nat)
    requires i < |fragments|
    requires Verify(H, Build(H, fragments).value.root, proofBytes, leafData, i, |fragments|) == Ok(true)
    requires CollisionFree(H, BuildInputs(H, fragments) + VerifyInputs(H, FromBytes(proofBytes).value, leafData, i, |fragments|))
    ensures leafData == fragments[i]
    ensures Flatten(AuditPath(H, i, fragments)) <= proofBytes
  {
    hide LevelRoot, LevelProof, RootFromProof, LevelInputs, PathInputs, FromBytes, Flatten, CollisionFree, AuditPath, LeafInput;
    var leaves, n, proof := Leaves(H, fragments), |fragments|, FromBytes(proofBytes).value;
    var all := BuildInputs(H, fragments) + VerifyInputs(H, proof, leafData, i, n);
    CollisionFreeSubset(H, LevelInputs(H, leaves) + PathInputs(H, HashLeaf(H, leafData), i, n, proof), all);
    PathIsUnique(H, leaves, HashLeaf(H, leafData), i, proof);
    assert LeafInput(fragments[i]) in BuildInputs(H, fragments);
    CollisionFreeSubset(H, {LeafInput(leafData), LeafInput(fragments[i])}, all);
    SameLeaf(H, leafData, fragments[i]);
    ProofIsAuditPath(H, fragments, i);
    FlattenPrefix(AuditPath(H, i, fragments), proof);
    FlattenOfFromBytes(proofBytes);
  }

  // ------------------------------------------- soundness for any claimed count --

  datatype Step = OnLeft(sibling: Digest) | OnRight(sibling: Digest)

  ghost function StepInput(below: Digest, step: Step): seq<byte>
  {
    match step
    case OnLeft(s) => NodeInput(s, below)
    case OnRight(s) => NodeInput(below, s)
  }

  /** Hashing a path upwards; the last step is the topmost. */
  ghost function Climb(H: Hash, hash: Digest, steps: seq<Step>): Digest
  {
    if steps == [] then hash
    else
      var top := |steps| - 1;
      H(StepInput(Climb(H, hash, steps[..top]), steps[top]))
  }

  ghost function ClimbInputs(H: Hash, hash: Digest, steps: seq<Step>): set<seq<byte>>
  {
    if steps == [] then {}
    else
      var top := |steps| - 1;
      ClimbInputs(H, hash, steps[..top]) + {StepInput(Climb(H, hash, steps[..top]), steps[top])}
  }

  /** Adding a step at the bottom. */
  lemma {:induction false} ClimbFrom(H: Hash, hash: Digest, first: Step, steps: seq<Step>)
    ensures Climb(H, hash, [first] + steps) == Climb(H, H(StepInput(hash, first)), steps)
    ensures ClimbInputs(H, hash, [first] + steps)
         == {StepInput(hash, first)} + ClimbInputs(H, H(StepInput(hash, first)), steps)
  {
    var all := [first] + steps;
    if steps == [] {
      assert all[..0] == [];
      assert Climb(H, hash, all[..0]) == hash;
    } else {
      var top := |steps| - 1;
      assert all[..top + 1] == [first] + steps[..top];
      ClimbFrom(H, hash, first, steps[..top]);
    }
  }

  /** A verifier's walk is a climb, whatever leaf count it was told. */
  lemma {:induction false} WalkIsClimb(H: Hash, hash: Digest, i: nat, n: nat, proof: seq<Digest>) returns (steps: seq<Step>)
    requires i < n && RootFromProof(H, hash, i, n, proof).Some?
    ensures RootFromProof(H, hash, i, n, proof) == Some(Climb(H, hash, steps))
    ensures ClimbInputs(H, hash, steps) <= PathInputs(H, hash, i, n, proof)
    decreases n
  {
    if n == 1 {
      steps := [];
    } else if Sibling(i) < n {
      var first := if i % 2 == 0 then OnRight(proof[0]) else OnLeft(proof[0]);
      steps := WalkIsClimb(H, Combine(H, hash, i, proof[0]), i / 2, (n + 1) / 2, proof[1..]);
      ClimbFrom(H, hash, first, steps);
      steps := [first] + steps;
    } else {
      steps := WalkIsClimb(H, hash, i / 2, (n + 1) / 2, proof);
    }
  }

  /** What the recursive tree hash feeds to the hash function. */
  ghost function TreeInputs(H: Hash, d: seq<seq<byte>>): set<seq<byte>>
    requires d != []
    decreases |d|
  {
    if |d| == 1 then {LeafInput(d[0])}
    else
      var k := SplitPoint(|d|);
      {NodeInput(TreeHash(H, d[..k]), TreeHash(H, d[k..]))} + TreeInputs(H, d[..k]) + TreeInputs(H, d[k..])
  }

  lemma PairAt(level: seq<Digest>, j: nat)
    requires 2 * j + 1 < |level|
    ensures NodeInput(level[2 * j], level[2 * j + 1]) in PairInputs(level)
  {
    hide NodeInput;
  }

  lemma PairInputsWithin(part: seq<Digest>, level: seq<Digest>, shift: nat)
    requires shift % 2 == 0 && shift + |part| <= |level|
    requires forall i :: 0 <= i < |part| ==> part[i] == level[shift + i]
    ensures PairInputs(part) <= PairInputs(level)
  {
    forall x | x in PairInputs(part) ensures x in PairInputs(level) {
      var j :| 0 <= j < |part| / 2 && x == NodeInput(part[2 * j], part[2 * j + 1]);
      hide NodeInput, PairInputs;
      var m := shift / 2 + j;
      assert 2 * m == shift + 2 * j;
      PairAt(level, m);
    }
  }

  lemma PairInputsConcat(a: seq<Digest>, b: seq<Digest>)
    requires |a| % 2 == 0
    ensures PairInputs(a) + PairInputs(b) <= PairInputs(a + b)
  {
    hide PairInputs;
    PairInputsWithin(a, a + b, 0);
    PairInputsWithin(b, a + b, |a|);
  }

  lemma {:induction false} LevelInputsSplit(H: Hash, a: seq<Digest>, b: seq<Digest>)
    requires PowerOfTwo(|a|) && 0 < |b| <= |a|
    ensures {NodeInput(LevelRoot(H, a), LevelRoot(H, b))} + LevelInputs(H, a) + LevelInputs(H, b) <= LevelInputs(H, a + b)
    decreases |a|
  {
    var level := a + b;
    if |a| == 1 {
      PairAt(level, 0);
    } else {
      HalvedSplit(H, a, b);
      LevelInputsSplit(H, NextLevel(H, a), NextLevel(H, b));
      PairInputsConcat(a, b);
    }
  }

  lemma {:induction false} TreeInputsAreBuilt(H: Hash, d: seq<seq<byte>>)
    requires d != []
    ensures TreeInputs(H, d) <= BuildInputs(H, d)
    decreases |d|
  {
    if |d| > 1 {
      var k := SplitPoint(|d|);
      TreeInputsAreBuilt(H, d[..k]);
      TreeInputsAreBuilt(H, d[k..]);
      SplitLeaves(H, d, k);
      LevelInputsSplit(H, Leaves(H, d[..k]), Leaves(H, d[k..]));
      RootIsTreeHash(H, d[..k]);
      RootIsTreeHash(H, d[k..]);
      LeafInputsSplit(d, k);
    } else {
      assert LeafInput(d[0]) in BuildInputs(H, d);
    }
  }

  lemma LeafInputsSplit(d: seq<seq<byte>>, k: nat)
    requires k <= |d|
    ensures (set i | 0 <= i < |d[..k]| :: LeafInput(d[..k][i])) + (set i | 0 <= i < |d[k..]| :: LeafInput(d[k..][i]))
         <= (set i | 0 <= i < |d| :: LeafInput(d[i]))
  {
    forall i | 0 <= i < |d[k..]| ensures LeafInput(d[k..][i]) in (set i | 0 <= i < |d| :: LeafInput(d[i])) {
      assert d[k..][i] == d[k + i];
    }
    forall i | 0 <= i < |d[..k]| ensures LeafInput(d[..k][i]) in (set i | 0 <= i < |d| :: LeafInput(d[i])) {
      assert d[..k][i] == d[i];
    }
  }

  /** A climb from a leaf hash that ends in a tree hash starts at one of the tree's entries. */
  lemma {:induction false} ClimbStartsAtEntry(H: Hash, d: seq<seq<byte>>, leafData: seq<byte>, steps: seq<Step>)
    requires d != []
    requires Climb(H, HashLeaf(H, leafData), steps) == TreeHash(H, d)
    requires CollisionFree(H, TreeInputs(H, d) + {LeafInput(leafData)} + ClimbInputs(H, HashLeaf(H, leafData), steps))
    ensures leafData in d
    decreases |d|
  {
    var hash := HashLeaf(H, leafData);
    if steps == [] {
      if |d| == 1 {
        LeafInputInjective(leafData, d[0]);
      } else {
        var k := SplitPoint(|d|);
        LeafIsNotNode(leafData, TreeHash(H, d[..k]), TreeHash(H, d[k..]));
      }
    } else {
      var top := |steps| - 1;
      var below := Climb(H, hash, steps[..top]);
      if |d| == 1 {
        assert StepInput(below, steps[top]) == LeafInput(d[0]);
        LeafIsNotNode(d[0], below, steps[top].sibling);
        LeafIsNotNode(d[0], steps[top].sibling, below);
      } else {
        var k := SplitPoint(|d|);
        var l, r := TreeHash(H, d[..k]), TreeHash(H, d[k..]);
        assert StepInput(below, steps[top]) == NodeInput(l, r);
        match steps[top] {
          case OnLeft(s) =>
            NodeInputInjective(s, below, l, r);
            ClimbStartsAtEntry(H, d[k..], leafData, steps[..top]);
          case OnRight(s) =>
            NodeInputInjective(below, s, l, r);
            ClimbStartsAtEntry(H, d[..k], leafData, steps[..top]);
        }
      }
    }
  }

  /** Whatever index and leaf count are claimed, an accepted leaf is one of the fragments, never an inner node's children. */
  lemma SoundnessAnyCount(H: Hash, fragments: seq<seq<byte>>, proofBytes: seq<byte>, leafData: seq<byte>, i: nat, n: nat)
    requires fragments != [] && i < n
    requires Verify(H, Build(H, fragments).value.root, proofBytes, leafData, i, n) == Ok(true)
    requires CollisionFree(H, BuildInputs(H, fragments) + VerifyInputs(H, FromBytes(proofBytes).value, leafData, i, n))
    ensures leafData in fragments
  {
    hide FromBytes;
    var steps := WalkIsClimb(H, HashLeaf(H, leafData), i, n, FromBytes(proofBytes).value);
    RootIsTreeHash(H, fragments);
    TreeInputsAreBuilt(H, fragments);
    ClimbStartsAtEntry(H, fragments, leafData, steps);
  }
}
