/**
 What an accepted signature pins down. Every binding theorem has the form
 "or here are two different inputs with the same hash", with the two inputs
 computed by an explicit extractor.
 */
module LmsBinding {
  import opened Octets
  import opened LmsSpec
  import opened LmsChecksum
  import opened LmsCorrectness

  type Inputs = (Bytes, Bytes)

  predicate Collides(sha: Hash, inputs: Inputs) {
    inputs.0 != inputs.1 && sha(inputs.0) == sha(inputs.1)
  }

  // --- The hash inputs determine their fields -------------------------------

  lemma ElementInputBinds(id: Identifier, q: u32, i: u16, tag: byte, x: Digest, y: Digest)
    requires ElementInput(id, q, i, tag, x) == ElementInput(id, q, i, tag, y)
    ensures x == y
  {
    assert ElementInput(id, q, i, tag, x)[23..] == x;
    assert ElementInput(id, q, i, tag, y)[23..] == y;
  }

  lemma MessageInputBinds(id: Identifier, q: u32, c: Digest, m: Bytes, c': Digest, m': Bytes)
    requires MessageInput(id, q, c, m) == MessageInput(id, q, c', m')
    ensures c == c' && m == m'
  {
    assert MessageInput(id, q, c, m)[22..] == c + m;
    assert MessageInput(id, q, c', m')[22..] == c' + m';
    assert (c + m)[..32] == c && (c' + m')[..32] == c';
    assert (c + m)[32..] == m && (c' + m')[32..] == m';
  }

  lemma PublicInputBinds(id: Identifier, q: u32, a: seq<Digest>, b: seq<Digest>)
    requires |a| == |b| && PublicInput(id, q, a) == PublicInput(id, q, b)
    ensures a == b
  {
    assert PublicInput(id, q, a)[22..] == Join(a);
    assert PublicInput(id, q, b)[22..] == Join(b);
    JoinInjective(a, b);
  }

  lemma LeafInputBinds(id: Identifier, node: u32, a: Digest, b: Digest)
    requires LeafInput(id, node, a) == LeafInput(id, node, b)
    ensures a == b
  {
    assert LeafInput(id, node, a)[22..] == a;
    assert LeafInput(id, node, b)[22..] == b;
  }

  lemma ParentInputBinds(id: Identifier, node: u32, a: Digest, s: Digest, b: Digest, t: Digest)
    requires ParentInput(id, node, a, s) == ParentInput(id, node, b, t)
    ensures a == b && s == t
  {
    var (l, r) := if node % 2 == 0 then (a, s) else (s, a);
    var (l', r') := if node % 2 == 0 then (b, t) else (t, b);
    assert ParentInput(id, node, a, s) == NodeInput(id, node / 2, l, r);
    assert NodeInput(id, node / 2, l, r)[22..54] == l && NodeInput(id, node / 2, l, r)[54..] == r;
    assert NodeInput(id, node / 2, l', r')[22..54] == l' && NodeInput(id, node / 2, l', r')[54..] == r';
  }

  // --- Merkle binding ----------------------------------------------------------

  function MerkleExtractor(sha: Hash, id: Identifier, t: Nodes,
                           node: u32, current: Digest, path: Path, level: nat): Inputs
    requires node < LMS_TREE_NODES && level <= LMS_HEIGHT
    decreases LMS_HEIGHT - level
  {
    if level == LMS_HEIGHT || node < 2 then ([], [])
    else
      var claimed := ParentInput(id, node, current, Part(path, level));
      var genuine := ParentInput(id, node, t[node], t[Sibling(node)]);
      if Collides(sha, (claimed, genuine)) then (claimed, genuine)
      else MerkleExtractor(sha, id, t, node / 2, sha(claimed), path, level + 1)
  }

  /** From `level` upwards the path consists of the given siblings. */
  predicate Agrees(path: Path, siblings: seq<Digest>, level: nat)
    requires |siblings| == LMS_HEIGHT
    decreases LMS_HEIGHT - level
  {
    level < LMS_HEIGHT ==> Part(path, level) == siblings[level] && Agrees(path, siblings, level + 1)
  }

  lemma PathDigestAt(t: Nodes, q: u32, level: nat)
    requires q < LMS_LEAVES && level < LMS_HEIGHT
    ensures 2 <= Ancestor(LMS_LEAVES + q, level) < LMS_TREE_NODES
    ensures PathDigests(t, q)[level] == t[Sibling(Ancestor(LMS_LEAVES + q, level))]
  {
    AncestorLevel(LMS_LEAVES + q, level);
  }

  /** A climb that reaches the honest root passes through honest nodes only. */
  lemma {:induction false} MerkleBinding(sha: Hash, id: Identifier, seed: Digest, t: Nodes,
                                         q: u32, node: u32, current: Digest, path: Path, level: nat)
    requires IsTree(sha, id, seed, t) && q < LMS_LEAVES && level <= LMS_HEIGHT
    requires node == Ancestor(LMS_LEAVES + q, level) && 1 <= node < LMS_TREE_NODES
    requires Climb(sha, id, node, current, path, level) == t[1]
    requires !Collides(sha, MerkleExtractor(sha, id, t, node, current, path, level))
    ensures current == t[node]
    ensures Agrees(path, PathDigests(t, q), level)
    decreases LMS_HEIGHT - level
  {
    hide ParentInput, IsTree, Part, PathDigests;
    AncestorLevel(LMS_LEAVES + q, level);
    if level < LMS_HEIGHT {
      PathDigestAt(t, q, level);
      AncestorLevel(LMS_LEAVES + q, level + 1);
      var sibling := Part(path, level);
      ParentOfSiblings(sha, id, seed, t, node);
      MerkleBinding(sha, id, seed, t, q, node / 2, Parent(sha, id, node, current, sibling), path, level + 1);
      ParentInputBinds(id, node, current, sibling, t[node], t[Sibling(node)]);
    }
  }

  lemma {:induction false} AgreesMeansEqual(path: Path, siblings: seq<Digest>, level: nat)
    requires |siblings| == LMS_HEIGHT && level <= LMS_HEIGHT && Agrees(path, siblings, level)
    ensures path[32 * level..] == Join(siblings)[32 * level..]
    decreases LMS_HEIGHT - level
  {
    var joined := Join(siblings);
    if level < LMS_HEIGHT {
      AgreesMeansEqual(path, siblings, level + 1);
      PartOfJoin(siblings, level);
      assert path[32 * level..] == Part(path, level) + path[32 * (level + 1)..];
      assert joined[32 * level..] == Part(joined, level) + joined[32 * (level + 1)..];
    }
  }

  // --- Winternitz binding --------------------------------------------------------

  function ChainExtractor(sha: Hash, id: Identifier, q: u32, i: u16, from: nat, to: nat, u: Digest, v: Digest): Inputs
    requires to <= MAX_CHAIN
    decreases MAX_CHAIN - from
  {
    if from >= to then ([], [])
    else
      var inputs := (ElementInput(id, q, i, from, u), ElementInput(id, q, i, from, v));
      if Collides(sha, inputs) then inputs
      else ChainExtractor(sha, id, q, i, from + 1, to, sha(inputs.0), sha(inputs.1))
  }

  /** Chains that end alike started alike. */
  lemma {:induction false} ChainBinding(sha: Hash, id: Identifier, q: u32, i: u16, from: nat, to: nat, u: Digest,
      v: Digest)
    requires from <= to <= MAX_CHAIN
    requires Chain(sha, id, q, i, from, to, u) == Chain(sha, id, q, i, from, to, v)
    requires !Collides(sha, ChainExtractor(sha, id, q, i, from, to, u, v))
    ensures u == v
    decreases MAX_CHAIN - from
  {
    hide ElementInput;
    if from < to {
      var (a, b) := (ElementInput(id, q, i, from, u), ElementInput(id, q, i, from, v));
      ChainBinding(sha, id, q, i, from + 1, to, sha(a), sha(b));
      ElementInputBinds(id, q, i, from, u, v);
    }
  }

  /** The element of `signature` for chain i, walked up to the honest signer's step when that lies ahead. */
  function Advanced(sha: Hash, id: Identifier, q: u32, digest: Digest, signature: Signature, to: nat, i: nat): Digest
    requires i < P && to <= MAX_CHAIN
  {
    Chain(sha, id, q, i, Steps(digest, i), to, SignatureElement(signature, i))
  }

  /** The first chain, from `i` on, whose two elements merge before the chain ends. */
  function ChainsExtractor(sha: Hash, id: Identifier, q: u32, honestDigest: Digest, digest: Digest,
                           honest: seq<Digest>, signature: Signature, i: nat): Inputs
    requires |honest| == P && i <= P
    decreases P - i
  {
    if i == P then ([], [])
    else
      var to := Steps(honestDigest, i);
      var inputs := ChainExtractor(sha, id, q, i, to, MAX_CHAIN,
                                   Advanced(sha, id, q, digest, signature, to, i), honest[i]);
      if Collides(sha, inputs) then inputs
      else ChainsExtractor(sha, id, q, honestDigest, digest, honest, signature, i + 1)
  }

  lemma {:induction false} NoCollisionInAnyChain(sha: Hash, id: Identifier, q: u32, honestDigest: Digest,
                                                 digest: Digest,
                                                 honest: seq<Digest>, signature: Signature, start: nat, i: nat)
    requires |honest| == P && start <= i < P
    requires !Collides(sha, ChainsExtractor(sha, id, q, honestDigest, digest, honest, signature, start))
    ensures var to := Steps(honestDigest, i);
      !Collides(sha, ChainExtractor(sha, id, q, i, to, MAX_CHAIN,
                                    Advanced(sha, id, q, digest, signature, to, i), honest[i]))
    decreases i - start
  {
    hide ChainExtractor, Advanced, Steps, Collides;
    if start < i {
      NoCollisionInAnyChain(sha, id, q, honestDigest, digest, honest, signature, start + 1, i);
    }
  }

  /** Equal chain ends leave the second signer's element on the way to the honest one. */
  lemma ElementBinding(sha: Hash, id: Identifier, seed: Digest, q: u32,
                       honestDigest: Digest, digest: Digest, signature: Signature, i: nat)
    requires i < P && Steps(digest, i) <= Steps(honestDigest, i)
    requires CandidateElements(sha, id, q, digest, signature)[i] == PublicElements(sha, id, seed, q)[i]
    requires var honest := SignedElements(sha, id, seed, q, honestDigest);
      !Collides(sha, ChainsExtractor(sha, id, q, honestDigest, digest, honest, signature, 0))
    ensures Advanced(sha, id, q, digest, signature, Steps(honestDigest, i), i)
         == SignedElements(sha, id, seed, q, honestDigest)[i]
  {
    hide Steps, Collides, ElementInput, SignatureElement, ChainsExtractor;
    var to := Steps(honestDigest, i);
    var honest := SignedElements(sha, id, seed, q, honestDigest);
    var x := PrivateElement(sha, id, seed, q, i);
    NoCollisionInAnyChain(sha, id, q, honestDigest, digest, honest, signature, 0, i);
    ChainComposes(sha, id, q, i, Steps(digest, i), to, MAX_CHAIN, SignatureElement(signature, i));
    ChainComposes(sha, id, q, i, 0, to, MAX_CHAIN, x);
    ChainBinding(sha, id, q, i, to, MAX_CHAIN, Advanced(sha, id, q, digest, signature, to, i), honest[i]);
  }

  // --- The whole signature -----------------------------------------------------

  /** The pairs of hash inputs compared on the way from the root to the chain ends. */
  function KeyExtractor(sha: Hash, id: Identifier, seed: Digest, t: Nodes, q: u32,
                        message: Bytes, signature: Signature, path: Path): Inputs
    requires q < LMS_LEAVES
  {
    var leaf := LMS_LEAVES + q;
    var digest := MessageDigest(sha, id, q, Randomizer(signature), message);
    var keys := (PublicInput(id, q, CandidateElements(sha, id, q, digest, signature)),
                 PublicInput(id, q, PublicElements(sha, id, seed, q)));
    var leaves := (LeafInput(id, leaf, sha(keys.0)), LeafInput(id, leaf, sha(keys.1)));
    if Collides(sha, keys) then keys
    else if Collides(sha, leaves) then leaves
    else MerkleExtractor(sha, id, t, leaf, sha(leaves.0), path, 0)
  }

  /** An accepted signature walks to the honest one-time key along the honest path. */
  lemma KeyBinding(sha: Hash, id: Identifier, seed: Digest, t: Nodes, q: u32,
                   message: Bytes, signature: Signature, path: Path)
    requires IsTree(sha, id, seed, t) && Verify(sha, q, message, signature, id, path, t[1])
    requires !Collides(sha, KeyExtractor(sha, id, seed, t, q, message, signature, path))
    ensures path == AuthPath(t, q)
    ensures var digest := MessageDigest(sha, id, q, Randomizer(signature), message);
      CandidateElements(sha, id, q, digest, signature) == PublicElements(sha, id, seed, q)
  {
    hide PublicInput, CandidateElements, PublicElements, MessageDigest, MerkleExtractor, Climb, IsTree, IsLeaf,
         AuthPath;
    var leaf := LMS_LEAVES + q;
    var digest := MessageDigest(sha, id, q, Randomizer(signature), message);
    var candidate, public := CandidateElements(sha, id, q, digest, signature), PublicElements(sha, id, seed, q);
    var a, b := sha(PublicInput(id, q, candidate)), sha(PublicInput(id, q, public));
    LeafOf(sha, id, seed, t, q);
    MerkleBinding(sha, id, seed, t, q, leaf, sha(LeafInput(id, leaf, a)), path, 0);
    LeafInputBinds(id, leaf, a, b);
    PublicInputBinds(id, q, candidate, public);
    PathIsHonest(t, q, path);
  }

  lemma LeafOf(sha: Hash, id: Identifier, seed: Digest, t: Nodes, q: u32)
    requires IsTree(sha, id, seed, t) && q < LMS_LEAVES
    ensures t[LMS_LEAVES + q]
         == sha(LeafInput(id, LMS_LEAVES + q, sha(PublicInput(id, q, PublicElements(sha, id, seed, q)))))
  {
    assert IsLeaf(sha, id, seed, t, q);
  }

  lemma PathIsHonest(t: Nodes, q: u32, path: Path)
    requires q < LMS_LEAVES && Agrees(path, PathDigests(t, q), 0)
    ensures path == AuthPath(t, q)
  {
    hide PathDigests, Join;
    AgreesMeansEqual(path, PathDigests(t, q), 0);
    assert path[32 * 0..] == path;
    assert Join(PathDigests(t, q))[32 * 0..] == Join(PathDigests(t, q));
  }

  function SignatureExtractor(sha: Hash, id: Identifier, seed: Digest, t: Nodes, q: u32, c: Digest, honest: Bytes,
                              message: Bytes, signature: Signature, path: Path): Inputs
    requires q < LMS_LEAVES
  {
    var c' := Randomizer(signature);
    var keys := KeyExtractor(sha, id, seed, t, q, message, signature, path);
    var messages := (MessageInput(id, q, c, honest), MessageInput(id, q, c', message));
    if Collides(sha, keys) then keys
    else if Collides(sha, messages) then messages
    else
      var digest := MessageDigest(sha, id, q, c, honest);
      ChainsExtractor(sha, id, q, digest, MessageDigest(sha, id, q, c', message),
                      SignedElements(sha, id, seed, q, digest), signature, 0)
  }

  /** The second signature undoes at least one hash step of the honest signature. */
  predicate InvertsAChain(sha: Hash, id: Identifier, seed: Digest, q: u32, c: Digest, honest: Bytes,
                          message: Bytes, signature: Signature)
  {
    var digest := MessageDigest(sha, id, q, Randomizer(signature), message);
    var honestDigest := MessageDigest(sha, id, q, c, honest);
    exists i: nat :: i < P && Inverts(sha, id, seed, q, honestDigest, digest, signature, i)
  }

  predicate Inverts(sha: Hash, id: Identifier, seed: Digest, q: u32, honestDigest: Digest, digest: Digest,
                    signature: Signature, i: nat)
    requires i < P
  {
    && Steps(digest, i) < Steps(honestDigest, i)
    && Advanced(sha, id, q, digest, signature, Steps(honestDigest, i), i)
       == SignedElements(sha, id, seed, q, honestDigest)[i]
  }

  /**
   Against a signer who used q once, on (c, honest): whatever else verifies under q
   and the honest root inverts a chain, or the extractor exhibits a collision.
   */
  lemma {:induction false} SignatureBinding(sha: Hash, id: Identifier, seed: Digest, t: Nodes, q: u32,
                                            c: Digest, honest: Bytes,
                                            message: Bytes, signature: Signature, path: Path)
    requires IsTree(sha, id, seed, t) && Verify(sha, q, message, signature, id, path, t[1])
    requires !Collides(sha, SignatureExtractor(sha, id, seed, t, q, c, honest, message, signature, path))
    ensures path == AuthPath(t, q)
    ensures (Randomizer(signature), message) != (c, honest) ==>
              InvertsAChain(sha, id, seed, q, c, honest, message, signature)
    ensures (Randomizer(signature), message) == (c, honest) ==>
              signature == Sign(sha, id, seed, q, c, honest)
  {
    hide KeyExtractor, AuthPath, IsTree, Climb, MessageInput, Steps, Advanced, SignedElements, ChainsExtractor,
         CandidateElements, PublicElements, Sign, Randomizer;
    KeyBinding(sha, id, seed, t, q, message, signature, path);
    var digest := MessageDigest(sha, id, q, Randomizer(signature), message);
    var honestDigest := MessageDigest(sha, id, q, c, honest);
    if (Randomizer(signature), message) == (c, honest) {
      SameMessageSameSignature(sha, id, seed, q, c, honest, signature);
    } else {
      if digest == honestDigest {
        MessageInputBinds(id, q, c, honest, Randomizer(signature), message);
      }
      ChecksumAntichain(digest, honestDigest);
      var i: nat :| i < P && Steps(digest, i) < Steps(honestDigest, i);
      ElementBinding(sha, id, seed, q, honestDigest, digest, signature, i);
      assert Inverts(sha, id, seed, q, honestDigest, digest, signature, i);
    }
  }

  lemma SameMessageSameSignature(sha: Hash, id: Identifier, seed: Digest, q: u32, c: Digest, message: Bytes,
      signature: Signature)
    requires GetU32(signature[..4]) == LMOTS_TYPE && Randomizer(signature) == c
    requires var digest := MessageDigest(sha, id, q, c, message);
      && CandidateElements(sha, id, q, digest, signature) == PublicElements(sha, id, seed, q)
      && !Collides(sha, ChainsExtractor(sha, id, q, digest, digest, SignedElements(sha, id, seed, q, digest),
                                     signature, 0))
    ensures signature == Sign(sha, id, seed, q, c, message)
  {
    hide Steps, Collides, ChainsExtractor, CandidateElements, PublicElements, SignedElements, SignatureElement,
         MessageDigest, U32, GetU32;
    var digest := MessageDigest(sha, id, q, c, message);
    var honest := SignedElements(sha, id, seed, q, digest);
    var genuine := Sign(sha, id, seed, q, c, message);
    SignatureParts(sha, id, seed, q, c, message);
    forall i: nat | i < P ensures SignatureElement(signature, i) == honest[i] {
      ElementBinding(sha, id, seed, q, digest, digest, signature, i);
      AdvancedByNothing(sha, id, q, digest, signature, i);
    }
    ElementsDetermineSignature(signature, genuine);
  }

  lemma AdvancedByNothing(sha: Hash, id: Identifier, q: u32, digest: Digest, signature: Signature, i: nat)
    requires i < P
    ensures Advanced(sha, id, q, digest, signature, Steps(digest, i), i) == SignatureElement(signature, i)
  {
  }

  lemma ElementsDetermineSignature(a: Signature, b: Signature)
    requires GetU32(a[..4]) == GetU32(b[..4]) && Randomizer(a) == Randomizer(b)
    requires forall i: nat :: i < P ==> SignatureElement(a, i) == SignatureElement(b, i)
    ensures a == b
  {
    U32OfGetU32(a[..4]);
    U32OfGetU32(b[..4]);
    hide U32, GetU32;
    forall k | 0 <= k < |a| ensures a[k] == b[k] {
      if k < 4 {
        assert a[k] == a[..4][k] && b[k] == b[..4][k];
      } else if k < 36 {
        assert a[k] == Randomizer(a)[k - 4] && b[k] == Randomizer(b)[k - 4];
      } else {
        var i, j := (k - 36) / 32, (k - 36) % 32;
        assert a[k] == SignatureElement(a, i)[j] && b[k] == SignatureElement(b, i)[j];
      }
    }
  }
}
