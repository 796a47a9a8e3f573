/** The signer and verifier of the firmware: in-place tree, scratch buffers with running offsets. */
module LmotsLms {
  import opened Octets
  import opened Bits
  import opened LmsSpec
  import opened LmsChecksum

  // --- Hash inputs built in a scratch buffer ------------------------------------

  method HashElement(sha: Hash, id: Identifier, q: u32, i: u16, tag: byte, x: Digest, scratch: array<byte>)
    returns (output: Digest)
    requires scratch.Length >= 16 + 4 + 2 + 1 + 32
    modifies scratch
    ensures output == sha(ElementInput(id, q, i, tag, x))
    ensures output == sha(id + U32(q) + U16(i) + [tag] + x)
  {
    var offset := 0;
    Write(scratch, offset, id);
    offset := offset + 16;
    Write(scratch, offset, U32(q));
    offset := offset + 4;
    Write(scratch, offset, U16(i));
    offset := offset + 2;
    Write(scratch, offset, [tag]);
    offset := offset + 1;
    Write(scratch, offset, x);
    offset := offset + 32;
    assert scratch[..offset] == ElementInput(id, q, i, tag, x);
    output := sha(scratch[..offset]);
  }

  method ChainHash(sha: Hash, id: Identifier, q: u32, i: u16, startStep: nat, endStep: nat, input: Digest,
                   scratch: array<byte>)
    returns (output: Digest)
    requires endStep <= MAX_CHAIN && scratch.Length >= 16 + 4 + 2 + 1 + 32
    modifies scratch
    ensures output == Chain(sha, id, q, i, startStep, endStep, input)
  {
    var current := input;
    var j := startStep;
    while j < endStep
      invariant startStep <= j
      invariant Chain(sha, id, q, i, j, endStep, current) == Chain(sha, id, q, i, startStep, endStep, input)
    {
      current := HashElement(sha, id, q, i, j, current, scratch);
      j := j + 1;
    }
    output := current;
  }

  /** Writes digest and checksum, with the firmware's 16-bit additions and shift. */
  method HashMessageWithChecksum(sha: Hash, id: Identifier, q: u32, c: Digest, message: Bytes,
                                 output: array<byte>, scratch: array<byte>)
    returns (ok: bool)
    requires output.Length == 34 && output != scratch && scratch.Length == SMALL_SCRATCH_BYTES
    modifies output, scratch
    ensures ok == Fits(message)
    ensures ok ==> output[..] == WithChecksum(MessageDigest(sha, id, q, c, message))
  {
    if 16 + 4 + 2 + 32 + |message| > scratch.Length {
      return false;
    }
    var offset := 0;
    Write(scratch, offset, id);
    offset := offset + 16;
    Write(scratch, offset, U32(q));
    offset := offset + 4;
    Write(scratch, offset, U16(D_MESG));
    offset := offset + 2;
    Write(scratch, offset, c);
    offset := offset + 32;
    Write(scratch, offset, message);
    offset := offset + |message|;
    assert scratch[..offset] == MessageInput(id, q, c, message);
    var digest := sha(scratch[..offset]);
    Write(output, 0, digest);
    assert output[..32] == digest;
    var checksum: u16 := ChecksumOf(output, digest);
    Write(output, 32, U16(checksum));
    return true;
  }

  method ChecksumOf(output: array<byte>, ghost digest: Digest) returns (checksum: u16)
    requires output.Length == 34 && output[..32] == digest
    ensures checksum == Deficit(digest, 64) * 16
  {
    hide WithChecksum, Steps;
    checksum := 0;
    for i := 0 to 64
      invariant checksum == Deficit(digest, i)
    {
      assert output[i / 2] == digest[i / 2];
      checksum := (checksum + MAX_CHAIN - Coefficient(output[..], i)) % 0x1_0000;
    }
    ChecksumNibbles(digest);
    checksum := checksum * 16 % 0x1_0000;
  }

  method LmotsPublicHash(sha: Hash, id: Identifier, seed: Digest, q: u32,
                         smallScratch: array<byte>, publicScratch: array<byte>)
    returns (output: Digest)
    requires smallScratch != publicScratch
    requires smallScratch.Length == SMALL_SCRATCH_BYTES && publicScratch.Length == PUBLIC_SCRATCH_BYTES
    modifies smallScratch, publicScratch
    ensures output == OtsPublicHash(sha, id, seed, q)
  {
    hide U16, U32, Join, ElementInput, Chain;
    var prefix := WritePublicPrefix(id, q, publicScratch);
    ghost var elements := PublicElements(sha, id, seed, q);
    for i := 0 to P
      invariant publicScratch[..prefix + 32 * i] == id + U32(q) + U16(D_PBLC) + Join(elements[..i])
    {
      var x := HashElement(sha, id, q, i, 0xff, seed, smallScratch);
      var chainEnd := ChainHash(sha, id, q, i, 0, MAX_CHAIN, x, smallScratch);
      Write(publicScratch, prefix + i * 32, chainEnd);
      JoinNext(elements, i);
    }
    assert elements[..P] == elements;
    output := sha(publicScratch[..16 + 4 + 2 + P * 32]);
  }

  method WritePublicPrefix(id: Identifier, q: u32, publicScratch: array<byte>) returns (prefix: nat)
    requires publicScratch.Length == PUBLIC_SCRATCH_BYTES
    modifies publicScratch
    ensures prefix == 22 && publicScratch[..prefix] == id + U32(q) + U16(D_PBLC)
  {
    prefix := 0;
    Write(publicScratch, prefix, id);
    prefix := prefix + 16;
    Write(publicScratch, prefix, U32(q));
    prefix := prefix + 4;
    Write(publicScratch, prefix, U16(D_PBLC));
    prefix := prefix + 2;
  }

  lemma JoinNext(elements: seq<Digest>, i: nat)
    requires i < |elements|
    ensures Join(elements[..i + 1]) == Join(elements[..i]) + elements[i]
  {
    assert elements[..i + 1][..i] == elements[..i];
  }

  method LmotsCandidatePublicHash(sha: Hash, id: Identifier, q: u32, message: Bytes, signature: Signature,
                                  smallScratch: array<byte>, publicScratch: array<byte>)
    returns (ok: bool, output: Digest)
    requires smallScratch != publicScratch
    requires smallScratch.Length == SMALL_SCRATCH_BYTES && publicScratch.Length == PUBLIC_SCRATCH_BYTES
    modifies smallScratch, publicScratch
    ensures ok == (GetU32(signature[..4]) == LMOTS_TYPE && Fits(message))
    ensures ok ==> output == CandidateHash(sha, id, q, message, signature)
  {
    hide U16, U32, GetU32, Join, ElementInput, Chain, WithChecksum, MessageDigest, SignatureElement, Randomizer,
         CandidateElements, Coefficient;
    output := ZERO_DIGEST;
    if GetU32(signature[..4]) != LMOTS_TYPE {
      return false, output;
    }
    var c := Randomizer(signature);
    var digestAndChecksum := new byte[34];
    ok := HashMessageWithChecksum(sha, id, q, c, message, digestAndChecksum, smallScratch);
    if !ok {
      return;
    }
    var prefix := WritePublicPrefix(id, q, publicScratch);
    ghost var digest := MessageDigest(sha, id, q, c, message);
    ghost var elements := CandidateElements(sha, id, q, digest, signature);
    for i := 0 to P
      invariant digestAndChecksum[..] == WithChecksum(digest)
      invariant publicScratch[..prefix + 32 * i] == id + U32(q) + U16(D_PBLC) + Join(elements[..i])
    {
      var a := Coefficient(digestAndChecksum[..], i);
      var chainEnd := ChainHash(sha, id, q, i, a, MAX_CHAIN, SignatureElement(signature, i), smallScratch);
      CandidateElementAt(sha, id, q, digest, signature, i);
      Write(publicScratch, prefix + i * 32, chainEnd);
      JoinNext(elements, i);
    }
    assert elements[..P] == elements;
    output := sha(publicScratch[..16 + 4 + 2 + P * 32]);
  }

  method HashLeaf(sha: Hash, id: Identifier, node: u32, otsHash: Digest, scratch: array<byte>) returns (output: Digest)
    requires scratch.Length == SMALL_SCRATCH_BYTES
    modifies scratch
    ensures output == sha(LeafInput(id, node, otsHash))
    ensures output == sha(id + U32(node) + [0x82, 0x82] + otsHash)
  {
    var offset := 0;
    Write(scratch, offset, id);
    offset := offset + 16;
    Write(scratch, offset, U32(node));
    offset := offset + 4;
    Write(scratch, offset, U16(D_LEAF));
    offset := offset + 2;
    Write(scratch, offset, otsHash);
    offset := offset + 32;
    assert scratch[..offset] == LeafInput(id, node, otsHash);
    output := sha(scratch[..offset]);
  }

  method HashInternal(sha: Hash, id: Identifier, node: u32, left: Digest, right: Digest, scratch: array<byte>)
    returns (output: Digest)
    requires scratch.Length == SMALL_SCRATCH_BYTES
    modifies scratch
    ensures output == sha(NodeInput(id, node, left, right))
    ensures output == sha(id + U32(node) + [0x83, 0x83] + left + right)
  {
    var offset := 0;
    Write(scratch, offset, id);
    offset := offset + 16;
    Write(scratch, offset, U32(node));
    offset := offset + 4;
    Write(scratch, offset, U16(D_INTR));
    offset := offset + 2;
    Write(scratch, offset, left);
    offset := offset + 32;
    Write(scratch, offset, right);
    offset := offset + 32;
    assert scratch[..offset] == NodeInput(id, node, left, right);
    output := sha(scratch[..offset]);
  }

  // --- Verification -----------------------------------------------------------------

  method VerifySignature(sha: Hash, q: u32, message: Bytes, signature: Signature,
                         peerIdentifier: Identifier, peerPath: Path, peerRoot: Digest)
    returns (accepted: bool)
    ensures accepted == Verify(sha, q, message, signature, peerIdentifier, peerPath, peerRoot)
  {
    hide GetU32, LeafInput, NodeInput, CandidateHash, Climb, Part;
    if q >= LMS_LEAVES {
      return false;
    }
    var smallScratch := new byte[SMALL_SCRATCH_BYTES];
    var publicScratch := new byte[PUBLIC_SCRATCH_BYTES];
    var ok, lmotsHash :=
      LmotsCandidatePublicHash(sha, peerIdentifier, q, message, signature, smallScratch, publicScratch);
    if !ok {
      return false;
    }
    var node: u32 := LMS_LEAVES + q;
    var current := HashLeaf(sha, peerIdentifier, node, lmotsHash, smallScratch);
    ghost var leaf := current;
    for level := 0 to LMS_HEIGHT
      invariant Climb(sha, peerIdentifier, node, current, peerPath, level)
             == Climb(sha, peerIdentifier, LMS_LEAVES + q, leaf, peerPath, 0)
    {
      ClimbOneLevel(sha, peerIdentifier, node, current, peerPath, level);
      var sibling := Part(peerPath, level);
      var parentNode := node / 2;
      var parent: Digest;
      if node % 2 == 0 {
        parent := HashInternal(sha, peerIdentifier, parentNode, current, sibling, smallScratch);
      } else {
        parent := HashInternal(sha, peerIdentifier, parentNode, sibling, current, smallScratch);
      }
      current := parent;
      node := parentNode;
    }
    ClimbToTheTop(sha, peerIdentifier, node, current, peerPath);
    accepted := ConstantTimeEqual(current, peerRoot, 32);
  }

  lemma ClimbOneLevel(sha: Hash, id: Identifier, node: u32, current: Digest, path: Path, level: nat)
    requires level < LMS_HEIGHT
    ensures var sibling := Part(path, level);
      Climb(sha, id, node, current, path, level)
      == Climb(sha, id, node / 2,
               if node % 2 == 0 then sha(NodeInput(id, node / 2, current, sibling))
               else sha(NodeInput(id, node / 2, sibling, current)),
               path, level + 1)
  {
    hide NodeInput, Part;
  }

  lemma ClimbToTheTop(sha: Hash, id: Identifier, node: u32, current: Digest, path: Path)
    ensures Climb(sha, id, node, current, path, LMS_HEIGHT) == current
  {
  }

  lemma SignedElementAt(sha: Hash, id: Identifier, seed: Digest, q: u32, digest: Digest, i: nat)
    requires i < P
    ensures SignedElements(sha, id, seed, q, digest)[i]
         == Chain(sha, id, q, i, 0, Coefficient(WithChecksum(digest), i), sha(ElementInput(id, q, i, 0xff, seed)))
  {
  }

  lemma CandidateElementAt(sha: Hash, id: Identifier, q: u32, digest: Digest, signature: Signature, i: nat)
    requires i < P
    ensures CandidateElements(sha, id, q, digest, signature)[i]
         == Chain(sha, id, q, i, Coefficient(WithChecksum(digest), i), MAX_CHAIN, SignatureElement(signature, i))
  {
  }

  /** The loop of `sign` over the 67 chains, after type and randomizer are in place. */
  method SignElements(sha: Hash, id: Identifier, q: u32, ghost digest: Digest, seed: Digest,
                      digestAndChecksum: array<byte>, signature: array<byte>, scratch: array<byte>)
    requires signature.Length == LMOTS_SIGNATURE_BYTES && scratch.Length == SMALL_SCRATCH_BYTES
    requires digestAndChecksum[..] == WithChecksum(digest)
    requires signature != scratch && digestAndChecksum != signature && digestAndChecksum != scratch
    modifies signature, scratch
    ensures signature[..] == old(signature[..36]) + Join(SignedElements(sha, id, seed, q, digest))
  {
    hide Join, ElementInput, Chain, WithChecksum, SignedElements, Coefficient;
    ghost var elements := SignedElements(sha, id, seed, q, digest);
    for i := 0 to P
      invariant digestAndChecksum[..] == WithChecksum(digest)
      invariant signature[..36 + 32 * i] == old(signature[..36]) + Join(elements[..i])
    {
      var a := Coefficient(digestAndChecksum[..], i);
      var x := HashElement(sha, id, q, i, 0xff, seed, scratch);
      var y := ChainHash(sha, id, q, i, 0, a, x, scratch);
      SignedElementAt(sha, id, seed, q, digest, i);
      Write(signature, 4 + 32 + i * 32, y);
      JoinNext(elements, i);
    }
    assert elements[..P] == elements;
  }

  // --- The signer ---------------------------------------------------------------------

  class Signer {
    const sha: Hash
    var identifier: Identifier
    var seed: Digest
    var tree: array?<Digest>
    const smallHashInput: array<byte>
    const publicHashInput: array<byte>

    ghost predicate Valid()
      reads this
    {
      && smallHashInput != publicHashInput
      && smallHashInput.Length == SMALL_SCRATCH_BYTES
      && publicHashInput.Length == PUBLIC_SCRATCH_BYTES
      && (tree != null ==> tree.Length == LMS_TREE_NODES)
    }

    constructor (sha: Hash)
      ensures Valid() && fresh(smallHashInput) && fresh(publicHashInput) && this.sha == sha && tree == null
    {
      this.sha := sha;
      identifier, seed := seq(16, _ => 0), ZERO_DIGEST;
      tree := null;
      smallHashInput := new byte[SMALL_SCRATCH_BYTES];
      publicHashInput := new byte[PUBLIC_SCRATCH_BYTES];
    }

    method Initialize(identifierValue: Identifier, seedValue: Digest)
      requires Valid()
      modifies this, tree
      ensures Valid() && tree != null && (tree == old(tree) || fresh(tree))
      ensures identifier == identifierValue && seed == seedValue
      ensures forall r :: 0 <= r < LMS_TREE_NODES ==> tree[r] == ZERO_DIGEST
    {
      identifier, seed := identifierValue, seedValue;
      if tree == null {
        tree := new Digest[LMS_TREE_NODES](_ => ZERO_DIGEST);
      }
      forall r | 0 <= r < LMS_TREE_NODES {
        tree[r] := ZERO_DIGEST;
      }
    }

    /** Fills the leaves upwards, then the internal nodes downwards, and erases the seed. */
    method BuildTree() returns (ok: bool)
      requires Valid()
      modifies this`seed, tree, smallHashInput, publicHashInput
      ensures Valid() && ok == (tree != null)
      ensures ok ==> IsTree(sha, identifier, old(seed), tree[..]) && seed == ZERO_DIGEST
      ensures !ok ==> seed == old(seed)
    {
      hide LeafInput, NodeInput, OtsPublicHash;
      if tree == null {
        return false;
      }
      for q := 0 to LMS_LEAVES
        invariant seed == old(seed)
        invariant forall k :: 0 <= k < q ==> IsLeaf(sha, identifier, seed, tree[..], k)
      {
        var lmotsHash := LmotsPublicHash(sha, identifier, seed, q, smallHashInput, publicHashInput);
        var node := LMS_LEAVES + q;
        ghost var before := tree[..];
        tree[node] := HashLeaf(sha, identifier, node, lmotsHash, smallHashInput);
        forall k | 0 <= k < q ensures IsLeaf(sha, identifier, seed, tree[..], k) {
          assert IsLeaf(sha, identifier, seed, before, k);
        }
      }
      var node := LMS_LEAVES - 1;
      while node >= 1
        invariant 0 <= node < LMS_LEAVES && seed == old(seed)
        invariant forall k :: 0 <= k < LMS_LEAVES ==> IsLeaf(sha, identifier, seed, tree[..], k)
        invariant forall r :: node < r < LMS_LEAVES ==> IsInternal(sha, identifier, tree[..], r)
      {
        ghost var before := tree[..];
        tree[node] := HashInternal(sha, identifier, node, tree[2 * node], tree[2 * node + 1], smallHashInput);
        forall k | 0 <= k < LMS_LEAVES ensures IsLeaf(sha, identifier, seed, tree[..], k) {
          assert IsLeaf(sha, identifier, seed, before, k);
        }
        forall r | node < r < LMS_LEAVES ensures IsInternal(sha, identifier, tree[..], r) {
          assert IsInternal(sha, identifier, before, r);
        }
        node := node - 1;
      }
      seed := ZERO_DIGEST;
      return true;
    }

    method ExtractPath(q: u32, path: array<byte>) returns (ok: bool)
      requires Valid() && path.Length == LMS_PATH_BYTES && path != smallHashInput && path != publicHashInput
      modifies path
      ensures ok == (tree != null && q < LMS_LEAVES)
      ensures ok ==> path[..] == AuthPath(tree[..], q)
      ensures !ok ==> path[..] == old(path[..])
    {
      hide Join, Pow2;
      if tree == null || q >= LMS_LEAVES {
        return false;
      }
      ghost var siblings := PathDigests(tree[..], q);
      var node := LMS_LEAVES + q;
      for level := 0 to LMS_HEIGHT
        invariant node == Ancestor(LMS_LEAVES + q, level)
        invariant path[..32 * level] == Join(siblings[..level])
      {
        AncestorLevel(LMS_LEAVES + q, level);
        Write(path, level * 32, tree[Sibling(node)]);
        JoinNext(siblings, level);
        node := node / 2;
      }
      assert siblings[..LMS_HEIGHT] == siblings;
      return true;
    }

    /** `sign`; the random C is an input. The digest is checked only after the first 36 bytes are written. */
    method SignMessage(q: u32, message: Bytes, runtimeSeed: Digest, c: Digest, signature: array<byte>)
      returns (ok: bool)
      requires Valid() && signature.Length == LMOTS_SIGNATURE_BYTES
      requires signature != smallHashInput && signature != publicHashInput
      modifies signature, smallHashInput
      ensures ok == (q < LMS_LEAVES && Fits(message))
      ensures ok ==> signature[..] == Sign(sha, identifier, runtimeSeed, q, c, message)
      ensures !ok ==> signature[36..] == old(signature[36..])
    {
      hide U16, U32, Join, WithChecksum, MessageDigest, Fits, SignedElements;
      if q >= LMS_LEAVES {
        return false;
      }
      Write(signature, 0, U32(LMOTS_TYPE));
      Write(signature, 4, c);
      assert signature[..36] == U32(LMOTS_TYPE) + c;
      var digestAndChecksum := new byte[34];
      ok := HashMessageWithChecksum(sha, identifier, q, c, message, digestAndChecksum, smallHashInput);
      if !ok {
        return;
      }
      SignElements(sha, identifier, q, MessageDigest(sha, identifier, q, c, message), runtimeSeed,
                   digestAndChecksum, signature, smallHashInput);
    }
  }
}
