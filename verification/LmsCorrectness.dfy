/** What `sign` produces, `verify` accepts: chains compose and paths climb to the root. */
module LmsCorrectness {
  import opened Octets
  import opened LmsSpec

  lemma {:induction false} ChainComposes(sha: Hash, id: Identifier, q: u32, i: u16,
                                         from: nat, middle: nat, to: nat, x: Digest)
    requires from <= middle <= to <= MAX_CHAIN
    ensures Chain(sha, id, q, i, middle, to, Chain(sha, id, q, i, from, middle, x))
         == Chain(sha, id, q, i, from, to, x)
    decreases MAX_CHAIN - from
  {
    if from < middle {
      ChainComposes(sha, id, q, i, from + 1, middle, to, sha(ElementInput(id, q, i, from, x)));
    }
  }

  lemma SignatureParts(sha: Hash, id: Identifier, seed: Digest, q: u32, c: Digest, message: Bytes)
    ensures var signature := Sign(sha, id, seed, q, c, message);
      && GetU32(signature[..4]) == LMOTS_TYPE
      && Randomizer(signature) == c
      && (forall i: nat :: i < P ==>
            SignatureElement(signature, i) == SignedElements(sha, id, seed, q,
              MessageDigest(sha, id, q, c, message))[i])
  {
    var elements := SignedElements(sha, id, seed, q, MessageDigest(sha, id, q, c, message));
    var signature := Sign(sha, id, seed, q, c, message);
    assert signature[..4] == U32(LMOTS_TYPE);
    assert signature[4..36] == c;
    assert signature[36..] == Join(elements);
    forall i: nat | i < P ensures SignatureElement(signature, i) == elements[i] {
      PartOfJoin(elements, i);
    }
  }

  /** Walking every signed element to the end of its chain recovers the public key. */
  lemma CandidateOfSignature(sha: Hash, id: Identifier, seed: Digest, q: u32, c: Digest, message: Bytes)
    ensures CandidateHash(sha, id, q, message, Sign(sha, id, seed, q, c, message))
         == OtsPublicHash(sha, id, seed, q)
  {
    var digest := MessageDigest(sha, id, q, c, message);
    var signature := Sign(sha, id, seed, q, c, message);
    SignatureParts(sha, id, seed, q, c, message);
    var candidate := CandidateElements(sha, id, q, digest, signature);
    var public := PublicElements(sha, id, seed, q);
    forall i: nat | i < P ensures candidate[i] == public[i] {
      ChainComposes(sha, id, q, i, 0, Steps(digest, i), MAX_CHAIN, PrivateElement(sha, id, seed, q, i));
    }
    assert candidate == public;
  }

  lemma ParentOfSiblings(sha: Hash, id: Identifier, seed: Digest, t: Nodes, node: u32)
    requires IsTree(sha, id, seed, t) && 2 <= node < LMS_TREE_NODES
    ensures 2 <= Sibling(node) < LMS_TREE_NODES
    ensures Parent(sha, id, node, t[node], t[Sibling(node)]) == t[node / 2]
  {
    assert IsInternal(sha, id, t, node / 2);
    assert node == 2 * (node / 2) || node == 2 * (node / 2) + 1;
  }

  /** The fold from any level keeps current == tree[(1024 + q) >> level]. */
  lemma {:induction false} PathClimbsToRoot(sha: Hash, id: Identifier, seed: Digest, t: Nodes, q: u32, level: nat)
    requires IsTree(sha, id, seed, t) && q < LMS_LEAVES && level <= LMS_HEIGHT
    ensures 1 <= Ancestor(LMS_LEAVES + q, level) < LMS_TREE_NODES
    ensures var node := Ancestor(LMS_LEAVES + q, level);
      Climb(sha, id, node, t[node], AuthPath(t, q), level) == t[1]
    decreases LMS_HEIGHT - level
  {
    hide IsTree, Parent, Join;
    AncestorLevel(LMS_LEAVES + q, level);
    if level < LMS_HEIGHT {
      PathClimbsToRoot(sha, id, seed, t, q, level + 1);
      PartOfJoin(PathDigests(t, q), level);
      ParentOfSiblings(sha, id, seed, t, Ancestor(LMS_LEAVES + q, level));
    }
  }

  lemma {:induction false} SignThenVerify(sha: Hash, id: Identifier, seed: Digest, t: Nodes,
                                          q: u32, c: Digest, message: Bytes)
    requires IsTree(sha, id, seed, t) && q < LMS_LEAVES && Fits(message)
    ensures Verify(sha, q, message, Sign(sha, id, seed, q, c, message), id, AuthPath(t, q), t[1])
  {
    SignatureParts(sha, id, seed, q, c, message);
    CandidateOfSignature(sha, id, seed, q, c, message);
    assert IsLeaf(sha, id, seed, t, q);
    PathClimbsToRoot(sha, id, seed, t, q, 0);
  }
}
