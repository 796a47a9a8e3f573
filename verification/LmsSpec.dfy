/**
 LM-OTS (LMOTS_SHA256_N32_W4) and LMS (LMS_SHA256_M32_H10) of RFC 8554 as
 functions over an arbitrary hash function.
 */
module LmsSpec {
  import opened Octets

  const LMOTS_TYPE: u32 := 3
  const P := 67
  const MAX_CHAIN := 15
  const D_PBLC: u16 := 0x8080
  const D_MESG: u16 := 0x8181
  const D_LEAF: u16 := 0x8282
  const D_INTR: u16 := 0x8383

  const LMS_HEIGHT := 10
  const LMS_LEAVES := 1024
  const LMS_TREE_NODES := 2048
  const LMS_PATH_BYTES := 320
  const LMOTS_SIGNATURE_BYTES := 2180
  const SMALL_SCRATCH_BYTES := 1024
  const PUBLIC_SCRATCH_BYTES := 2166

  type Identifier = b: Bytes | |b| == 16 witness seq(16, _ => 0)
  type Path = b: Bytes | |b| == 320 witness seq(320, _ => 0)
  type Signature = b: Bytes | |b| == 2180 witness seq(2180, _ => 0)

  // --- Winternitz chains ---------------------------------------------------

  function ElementInput(id: Identifier, q: u32, i: u16, tag: byte, x: Digest): (r: Bytes)
  {
    id + U32(q) + U16(i) + [tag] + x
  }

  /** Appendix A of RFC 8554: the chain starts are derived from the seed. */
  function PrivateElement(sha: Hash, id: Identifier, seed: Digest, q: u32, i: u16): Digest {
    sha(PrivateInput(id, seed, q, i))
  }

  function PrivateInput(id: Identifier, seed: Digest, q: u32, i: u16): Bytes {
    ElementInput(id, q, i, 0xff, seed)
  }

  function Chain(sha: Hash, id: Identifier, q: u32, i: u16, from: nat, to: nat, x: Digest): Digest
    requires to <= MAX_CHAIN
    decreases MAX_CHAIN - from
  {
    if from >= to then x
    else Chain(sha, id, q, i, from + 1, to, sha(ElementInput(id, q, i, from, x)))
  }

  // --- Message digest, checksum and coefficients ---------------------------

  function MessageInput(id: Identifier, q: u32, c: Digest, message: Bytes): Bytes {
    id + U32(q) + U16(D_MESG) + c + message
  }

  function MessageDigest(sha: Hash, id: Identifier, q: u32, c: Digest, message: Bytes): Digest {
    sha(MessageInput(id, q, c, message))
  }

  /** `coefficientW4`: the index-th nibble, high nibble first. */
  function Coefficient(data: Bytes, index: nat): (r: nat)
    requires index / 2 < |data|
    ensures r <= MAX_CHAIN
  {
    if index % 2 == 0 then data[index / 2] / 16 else data[index / 2] % 16
  }

  /** How far the first n nibbles fall short of the chain length, in total. */
  function Deficit(data: Bytes, n: nat): (r: nat)
    requires n <= 2 * |data|
    ensures r <= MAX_CHAIN * n
  {
    if n == 0 then 0 else Deficit(data, n - 1) + MAX_CHAIN - Coefficient(data, n - 1)
  }

  /** Section 4.4 of RFC 8554, with the checksum shifted left by ls = 4. */
  function WithChecksum(digest: Digest): (r: Bytes)
    ensures |r| == 34 && r[..32] == digest
  {
    digest + U16(Deficit(digest, 64) * 16)
  }

  function Steps(digest: Digest, i: nat): (r: nat)
    requires i < P
    ensures r <= MAX_CHAIN
  {
    Coefficient(WithChecksum(digest), i)
  }

  // --- One-time keys and signatures ----------------------------------------

  function PublicElements(sha: Hash, id: Identifier, seed: Digest, q: u32): (r: seq<Digest>)
    ensures |r| == P
  {
    seq(P, i requires 0 <= i < P =>
      Chain(sha, id, q, i, 0, MAX_CHAIN, PrivateElement(sha, id, seed, q, i)))
  }

  function PublicInput(id: Identifier, q: u32, elements: seq<Digest>): Bytes {
    id + U32(q) + U16(D_PBLC) + Join(elements)
  }

  function OtsPublicHash(sha: Hash, id: Identifier, seed: Digest, q: u32): Digest {
    sha(PublicInput(id, q, PublicElements(sha, id, seed, q)))
  }

  function SignedElements(sha: Hash, id: Identifier, seed: Digest, q: u32, digest: Digest): (r: seq<Digest>)
    ensures |r| == P
  {
    seq(P, i requires 0 <= i < P =>
      Chain(sha, id, q, i, 0, Steps(digest, i), PrivateElement(sha, id, seed, q, i)))
  }

  /** What `sign` writes for randomizer c. */
  function Sign(sha: Hash, id: Identifier, seed: Digest, q: u32, c: Digest, message: Bytes): (r: Signature)
  {
    U32(LMOTS_TYPE) + c + Join(SignedElements(sha, id, seed, q, MessageDigest(sha, id, q, c, message)))
  }

  function Randomizer(signature: Signature): Digest {
    signature[4..36]
  }

  function SignatureElement(signature: Signature, i: nat): Digest
    requires i < P
  {
    Part(signature[36..], i)
  }

  /** Chain ends recomputed by a verifier from the signature alone. */
  function CandidateElements(sha: Hash, id: Identifier, q: u32, digest: Digest, signature: Signature): (r: seq<Digest>)
    ensures |r| == P
  {
    seq(P, i requires 0 <= i < P =>
      Chain(sha, id, q, i, Steps(digest, i), MAX_CHAIN, SignatureElement(signature, i)))
  }

  // --- The Merkle tree -------------------------------------------------------

  function LeafInput(id: Identifier, node: u32, otsHash: Digest): Bytes {
    id + U32(node) + U16(D_LEAF) + otsHash
  }

  function NodeInput(id: Identifier, node: u32, left: Digest, right: Digest): Bytes {
    id + U32(node) + U16(D_INTR) + left + right
  }

  /** The heap array `m_tree`; node 1 is the root and index 0 is unused. */
  type Nodes = t: seq<Digest> | |t| == LMS_TREE_NODES witness seq<Digest>(LMS_TREE_NODES, _ => ZERO_DIGEST)

  predicate IsLeaf(sha: Hash, id: Identifier, seed: Digest, t: Nodes, q: u32)
    requires q < LMS_LEAVES
  {
    t[LMS_LEAVES + q] == sha(LeafInput(id, LMS_LEAVES + q, OtsPublicHash(sha, id, seed, q)))
  }

  predicate IsInternal(sha: Hash, id: Identifier, t: Nodes, r: u32)
    requires 1 <= r < LMS_LEAVES
  {
    t[r] == sha(NodeInput(id, r, t[2 * r], t[2 * r + 1]))
  }

  /** The equations for T[r] in section 5.3 of RFC 8554. */
  predicate IsTree(sha: Hash, id: Identifier, seed: Digest, t: Nodes) {
    && (forall q :: 0 <= q < LMS_LEAVES ==> IsLeaf(sha, id, seed, t, q))
    && (forall r :: 1 <= r < LMS_LEAVES ==> IsInternal(sha, id, t, r))
  }

  /** The equations leave no freedom: two trees of one seed agree on every node. */
  lemma {:induction false} TreeIsUnique(sha: Hash, id: Identifier, seed: Digest, t: Nodes, t': Nodes, r: u32)
    requires IsTree(sha, id, seed, t) && IsTree(sha, id, seed, t')
    requires 1 <= r < LMS_TREE_NODES
    ensures t[r] == t'[r]
    decreases LMS_TREE_NODES - r
  {
    if r >= LMS_LEAVES {
      assert IsLeaf(sha, id, seed, t, r - LMS_LEAVES) && IsLeaf(sha, id, seed, t', r - LMS_LEAVES);
    } else {
      assert IsInternal(sha, id, t, r) && IsInternal(sha, id, t', r);
      TreeIsUnique(sha, id, seed, t, t', 2 * r);
      TreeIsUnique(sha, id, seed, t, t', 2 * r + 1);
    }
  }

  /** `node ^ 1` */
  function Sibling(node: nat): nat {
    if node % 2 == 0 then node + 1 else node - 1
  }

  /** The node reached from `node` after `level` halvings. */
  function Ancestor(node: nat, level: nat): nat {
    if level == 0 then node else Ancestor(node, level - 1) / 2
  }

  function Pow2(n: nat): (r: nat)
    ensures r >= 1
  {
    if n == 0 then 1 else 2 * Pow2(n - 1)
  }

  /** At each level the climb from a leaf stays in that level of the tree. */
  lemma {:induction false} AncestorLevel(node: nat, level: nat)
    requires LMS_LEAVES <= node < LMS_TREE_NODES && level <= LMS_HEIGHT
    ensures Pow2(LMS_HEIGHT - level) <= Ancestor(node, level) < 2 * Pow2(LMS_HEIGHT - level)
    ensures Ancestor(node, level) <= node
    ensures level < LMS_HEIGHT ==> Ancestor(node, level) >= 2
  {
    if level > 0 {
      AncestorLevel(node, level - 1);
    }
  }

  function PathDigests(t: Nodes, q: u32): (r: seq<Digest>)
    requires q < LMS_LEAVES
    ensures |r| == LMS_HEIGHT
  {
    seq(LMS_HEIGHT, level requires 0 <= level < LMS_HEIGHT =>
      AncestorLevel(LMS_LEAVES + q, level);
      t[Sibling(Ancestor(LMS_LEAVES + q, level))])
  }

  /** The authentication path of leaf q, as `extractPath` writes it. */
  function AuthPath(t: Nodes, q: u32): Path
    requires q < LMS_LEAVES
  {
    Join(PathDigests(t, q))
  }

  function Parent(sha: Hash, id: Identifier, node: u32, current: Digest, sibling: Digest): Digest {
    sha(ParentInput(id, node, current, sibling))
  }

  function ParentInput(id: Identifier, node: u32, current: Digest, sibling: Digest): Bytes {
    if node % 2 == 0 then NodeInput(id, node / 2, current, sibling)
    else NodeInput(id, node / 2, sibling, current)
  }

  /** The value reached at the top when `current` stands at `node` on `level`. */
  function Climb(sha: Hash, id: Identifier, node: u32, current: Digest, path: Path, level: nat): Digest
    requires level <= LMS_HEIGHT
    decreases LMS_HEIGHT - level
  {
    if level == LMS_HEIGHT then current
    else Climb(sha, id, node / 2, Parent(sha, id, node, current, Part(path, level)), path, level + 1)
  }

  // --- Verification ----------------------------------------------------------

  function CandidateHash(sha: Hash, id: Identifier, q: u32, message: Bytes, signature: Signature): Digest {
    sha(PublicInput(id, q, CandidateElements(sha, id, q,
      MessageDigest(sha, id, q, Randomizer(signature), message), signature)))
  }

  /** The longest message whose digest input fits the 1024-byte scratch buffer. */
  predicate Fits(message: Bytes) {
    16 + 4 + 2 + 32 + |message| <= SMALL_SCRATCH_BYTES
  }

  predicate Verify(sha: Hash, q: u32, message: Bytes, signature: Signature,
                   id: Identifier, path: Path, root: Digest)
  {
    && q < LMS_LEAVES
    && GetU32(signature[..4]) == LMOTS_TYPE
    && Fits(message)
    && Climb(sha, id, LMS_LEAVES + q,
             sha(LeafInput(id, LMS_LEAVES + q, CandidateHash(sha, id, q, message, signature))),
             path, 0) == root
  }
}
