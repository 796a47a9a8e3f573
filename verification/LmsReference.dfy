/**
 The constructions of RFC 8554 written out a second time, forwards and with every byte named, and what
 keeps their hash inputs apart.
 */
module LmsReference {
  import opened Octets
  import opened LmsSpec
  import opened LmsCorrectness
  import opened LmsBinding

  // --- Hash inputs determine all their fields -------------------------------------------------

  lemma {:induction false} ElementInputDetermines(
    id: Identifier, q: u32, i: u16, tag: byte, x: Digest, id': Identifier, q': u32, i': u16, tag': byte, x': Digest)
    requires ElementInput(id, q, i, tag, x) == ElementInput(id', q', i', tag', x')
    ensures id == id' && q == q' && i == i' && tag == tag' && x == x'
  {
    hide U16, GetU16, U32, GetU32;
    var a, b := ElementInput(id, q, i, tag, x), ElementInput(id', q', i', tag', x');
    assert a[..16] == id && a[16..20] == U32(q) && a[20..22] == U16(i) && a[22] == tag && a[23..] == x;
    assert b[..16] == id' && b[16..20] == U32(q') && b[20..22] == U16(i') && b[22] == tag' && b[23..] == x';
  }

  lemma {:induction false} MessageInputDetermines(
    id: Identifier, q: u32, c: Digest, m: Bytes, id': Identifier, q': u32, c': Digest, m': Bytes)
    requires MessageInput(id, q, c, m) == MessageInput(id', q', c', m')
    ensures id == id' && q == q' && c == c' && m == m'
  {
    hide U16, U32, GetU32;
    var a, b := MessageInput(id, q, c, m), MessageInput(id', q', c', m');
    assert a[..16] == id && a[16..20] == U32(q) && a[22..54] == c && a[54..] == m;
    assert b[..16] == id' && b[16..20] == U32(q') && b[22..54] == c' && b[54..] == m';
  }

  lemma {:induction false} PublicInputDetermines(
    id: Identifier, q: u32, elements: seq<Digest>, id': Identifier, q': u32, elements': seq<Digest>)
    requires PublicInput(id, q, elements) == PublicInput(id', q', elements')
    ensures id == id' && q == q' && elements == elements'
  {
    hide U16, U32, GetU32, Join;
    var a, b := PublicInput(id, q, elements), PublicInput(id', q', elements');
    assert a[..16] == id && a[16..20] == U32(q) && a[22..] == Join(elements);
    assert b[..16] == id' && b[16..20] == U32(q') && b[22..] == Join(elements');
    JoinInjective(elements, elements');
  }

  lemma {:induction false} LeafInputDetermines(
    id: Identifier, node: u32, h: Digest, id': Identifier, node': u32, h': Digest)
    requires LeafInput(id, node, h) == LeafInput(id', node', h')
    ensures id == id' && node == node' && h == h'
  {
    hide U16, U32, GetU32;
    var a, b := LeafInput(id, node, h), LeafInput(id', node', h');
    assert a[..16] == id && a[16..20] == U32(node) && a[22..] == h;
    assert b[..16] == id' && b[16..20] == U32(node') && b[22..] == h';
  }

  lemma {:induction false} NodeInputDetermines(
    id: Identifier, node: u32, l: Digest, r: Digest, id': Identifier, node': u32, l': Digest, r': Digest)
    requires NodeInput(id, node, l, r) == NodeInput(id', node', l', r')
    ensures id == id' && node == node' && l == l' && r == r'
  {
    hide U16, U32, GetU32;
    var a, b := NodeInput(id, node, l, r), NodeInput(id', node', l', r');
    assert a[..16] == id && a[16..20] == U32(node) && a[22..54] == l && a[54..] == r;
    assert b[..16] == id' && b[16..20] == U32(node') && b[22..54] == l' && b[54..] == r';
  }

  /** The two bytes behind identifier and number: the chain number of an element, or one of four markers. */
  function Kind(input: Bytes): u16
    requires |input| >= 22
  {
    GetU16(input[20..22])
  }

  lemma KindsOf(id: Identifier, n: u32, i: u16, tag: byte, x: Digest, y: Digest, m: Bytes, elements: seq<Digest>)
    ensures Kind(ElementInput(id, n, i, tag, x)) == i
    ensures Kind(MessageInput(id, n, x, m)) == D_MESG && Kind(PublicInput(id, n, elements)) == D_PBLC
    ensures Kind(LeafInput(id, n, x)) == D_LEAF && Kind(NodeInput(id, n, x, y)) == D_INTR
  {
    hide U16, GetU16, U32, Join;
    assert ElementInput(id, n, i, tag, x)[20..22] == U16(i);
    assert MessageInput(id, n, x, m)[20..22] == U16(D_MESG) && PublicInput(id, n, elements)[20..22] == U16(D_PBLC);
    assert LeafInput(id, n, x)[20..22] == U16(D_LEAF) && NodeInput(id, n, x, y)[20..22] == U16(D_INTR);
  }

  /** No input of one kind is an input of another, whatever the identifiers, numbers and contents. */
  lemma {:induction false} KindsAreDisjoint(
    idE: Identifier, q: u32, i: u16, tag: byte, x: Digest,
    idM: Identifier, qM: u32, c: Digest, m: Bytes,
    idP: Identifier, qP: u32, elements: seq<Digest>,
    idL: Identifier, leaf: u32, h: Digest,
    idN: Identifier, node: u32, l: Digest, r: Digest)
    requires i < P
    ensures ElementInput(idE, q, i, tag, x) !in {MessageInput(idM, qM, c, m), PublicInput(idP, qP, elements),
                                                 LeafInput(idL, leaf, h), NodeInput(idN, node, l, r)}
    ensures MessageInput(idM, qM, c, m) !in {PublicInput(idP, qP, elements), LeafInput(idL, leaf, h),
                                             NodeInput(idN, node, l, r)}
    ensures PublicInput(idP, qP, elements) !in {LeafInput(idL, leaf, h), NodeInput(idN, node, l, r)}
    ensures LeafInput(idL, leaf, h) != NodeInput(idN, node, l, r)
  {
    hide Kind, ElementInput, MessageInput, PublicInput, LeafInput, NodeInput;
    KindsOf(idE, q, i, tag, x, x, m, elements);
    KindsOf(idM, qM, i, tag, c, x, m, elements);
    KindsOf(idP, qP, i, tag, x, x, m, elements);
    KindsOf(idL, leaf, i, tag, h, x, m, elements);
    KindsOf(idN, node, i, tag, l, r, m, elements);
  }

  /** A private element is hashed from no other index, chain or seed, and its input is no step of any chain. */
  lemma {:induction false} PrivateInputsAreSeparate(
    id: Identifier, seed: Digest, q: u32, i: u16, id': Identifier, seed': Digest, q': u32, i': u16,
    step: byte, x: Digest)
    ensures PrivateInput(id, seed, q, i) == PrivateInput(id', seed', q', i')
        ==> id == id' && seed == seed' && q == q' && i == i'
    ensures step < MAX_CHAIN ==> PrivateInput(id, seed, q, i) != ElementInput(id', q', i', step, x)
  {
    hide ElementInput;
    if PrivateInput(id, seed, q, i) == PrivateInput(id', seed', q', i') {
      ElementInputDetermines(id, q, i, 0xff, seed, id', q', i', 0xff, seed');
    }
    if PrivateInput(id, seed, q, i) == ElementInput(id', q', i', step, x) {
      ElementInputDetermines(id, q, i, 0xff, seed, id', q', i', step, x);
    }
  }

  /** Chains of different indices or numbers start from different values, or two private inputs collide. */
  lemma {:induction false} PrivateElementsAreSeparate(
    sha: Hash, id: Identifier, seed: Digest, q: u32, i: u16, q': u32, i': u16)
    requires PrivateElement(sha, id, seed, q, i) == PrivateElement(sha, id, seed, q', i')
    requires !Collides(sha, (PrivateInput(id, seed, q, i), PrivateInput(id, seed, q', i')))
    ensures q == q' && i == i'
  {
    hide PrivateInput;
    PrivateInputsAreSeparate(id, seed, q, i, id, seed, q', i', 0, seed);
  }

  // --- Keys and signatures, written forwards ----------------------------------------------------

  /** All values of a chain from x on, n steps far. */
  function Walk(sha: Hash, id: Identifier, q: u32, i: u16, x: Digest, n: nat): (values: seq<Digest>)
    requires n <= MAX_CHAIN
    ensures |values| == n + 1
  {
    if n == 0 then [x]
    else
      var before := Walk(sha, id, q, i, x, n - 1);
      before + [sha(id + U32(q) + U16(i) + [(n - 1) as byte] + before[n - 1])]
  }

  lemma {:induction false} WalkKeepsItsStart(sha: Hash, id: Identifier, q: u32, i: u16, x: Digest, k: nat, n: nat)
    requires k <= n <= MAX_CHAIN
    ensures Walk(sha, id, q, i, x, n)[..k + 1] == Walk(sha, id, q, i, x, k)
  {
    hide U16, U32;
    if k < n {
      WalkKeepsItsStart(sha, id, q, i, x, k, n - 1);
    }
  }

  /** The recursive chain is the walk. */
  lemma {:induction false} ChainIsWalk(sha: Hash, id: Identifier, q: u32, i: u16, x: Digest, n: nat)
    requires n <= MAX_CHAIN
    ensures Chain(sha, id, q, i, 0, n, x) == Walk(sha, id, q, i, x, n)[n]
  {
    hide U16, U32;
    if n > 0 {
      ChainIsWalk(sha, id, q, i, x, n - 1);
      ChainComposes(sha, id, q, i, 0, n - 1, n, x);
    }
  }

  /** The whole chain number i of the key with index q: its start from the seed, and fifteen steps. */
  function ChainOf(sha: Hash, id: Identifier, seed: Digest, q: u32, i: u16): (values: seq<Digest>)
    ensures |values| == 16
  {
    Walk(sha, id, q, i, sha(id + U32(q) + U16(i) + [0xff] + seed), MAX_CHAIN)
  }

  lemma ChainOfAt(sha: Hash, id: Identifier, seed: Digest, q: u32, i: u16, k: nat)
    requires k <= MAX_CHAIN
    ensures ChainOf(sha, id, seed, q, i)[k] == Chain(sha, id, q, i, 0, k, PrivateElement(sha, id, seed, q, i))
  {
    hide U16, U32, Walk;
    var x := sha(id + U32(q) + U16(i) + [0xff] + seed);
    assert id + U32(q) + U16(i) + [0xff] + seed == ElementInput(id, q, i, 0xff, seed);
    ChainIsWalk(sha, id, q, i, x, k);
    WalkKeepsItsStart(sha, id, q, i, x, k, MAX_CHAIN);
    assert Walk(sha, id, q, i, x, MAX_CHAIN)[..k + 1][k] == Walk(sha, id, q, i, x, MAX_CHAIN)[k];
  }

  /** Section 4.3 of RFC 8554: the public key hashes identifier, index, marker and all chain ends. */
  lemma {:induction false} KeyFollowsRfc(sha: Hash, id: Identifier, seed: Digest, q: u32)
    ensures OtsPublicHash(sha, id, seed, q)
         == sha(id + U32(q) + [0x80, 0x80] + Join(seq(67, i requires 0 <= i < 67 => ChainOf(sha, id, seed, q, i)[15])))
  {
    hide U32, Join, Chain, ChainOf, PrivateElement;
    var ends := seq(67, i requires 0 <= i < 67 => ChainOf(sha, id, seed, q, i)[15]);
    forall i: nat | i < P ensures ends[i] == PublicElements(sha, id, seed, q)[i] {
      ChainOfAt(sha, id, seed, q, i, 15);
    }
    assert ends == PublicElements(sha, id, seed, q);
    assert U16(D_PBLC) == [0x80, 0x80];
  }

  /** Section 4.5: type word, randomizer, and every chain at the step its coefficient names. */
  lemma {:induction false} SignatureFollowsRfc(sha: Hash, id: Identifier, seed: Digest, q: u32, c: Digest,
      message: Bytes)
    ensures var digest := sha(id + U32(q) + [0x81, 0x81] + c + message);
      Sign(sha, id, seed, q, c, message)
      == [0, 0, 0, 3] + c
         + Join(seq(67, i requires 0 <= i < 67 => ChainOf(sha, id, seed, q, i)[Steps(digest, i)]))
  {
    hide Join, Chain, ChainOf, PrivateElement, Steps;
    var digest := sha(id + U32(q) + [0x81, 0x81] + c + message);
    assert U16(D_MESG) == [0x81, 0x81] && U32(LMOTS_TYPE) == [0, 0, 0, 3];
    assert digest == MessageDigest(sha, id, q, c, message);
    var picked := seq(67, i requires 0 <= i < 67 => ChainOf(sha, id, seed, q, i)[Steps(digest, i)]);
    forall i: nat | i < P ensures picked[i] == SignedElements(sha, id, seed, q, digest)[i] {
      ChainOfAt(sha, id, seed, q, i, Steps(digest, i));
    }
    assert picked == SignedElements(sha, id, seed, q, digest);
  }

  /** Section 5.3: leaves and inner nodes hash identifier, own number, marker and children, left before right. */
  lemma {:induction false} TreeFollowsRfc(sha: Hash, id: Identifier, seed: Digest, t: Nodes)
    ensures IsTree(sha, id, seed, t) <==>
      && (forall q: u32 :: q < 1024 ==>
            t[1024 + q] == sha(id + U32(1024 + q) + [0x82, 0x82] + OtsPublicHash(sha, id, seed, q)))
      && (forall r: u32 :: 1 <= r < 1024 ==>
            t[r] == sha(id + U32(r) + [0x83, 0x83] + t[2 * r] + t[2 * r + 1]))
  {
    hide U32, OtsPublicHash;
    assert U16(D_LEAF) == [0x82, 0x82] && U16(D_INTR) == [0x83, 0x83];
    forall q: u32 | q < LMS_LEAVES
      ensures IsLeaf(sha, id, seed, t, q)
         <==> t[1024 + q] == sha(id + U32(1024 + q) + [0x82, 0x82] + OtsPublicHash(sha, id, seed, q))
    {
    }
    forall r: u32 | 1 <= r < LMS_LEAVES
      ensures IsInternal(sha, id, t, r) <==> t[r] == sha(id + U32(r) + [0x83, 0x83] + t[2 * r] + t[2 * r + 1])
    {
    }
  }

  /** The node itself, its half, its quarter, and so on for ten levels. */
  function Shifts(n: nat): (nodes: seq<nat>)
    ensures |nodes| == 10
  {
    [n, n / 2, n / 4, n / 8, n / 16, n / 32, n / 64, n / 128, n / 256, n / 512]
  }

  lemma AncestorOfLevel(n: nat)
    ensures Ancestor(n, 0) == n && Ancestor(n, 1) == n / 2 && Ancestor(n, 2) == n / 4 && Ancestor(n, 3) == n / 8
    ensures Ancestor(n, 4) == n / 16 && Ancestor(n, 5) == n / 32 && Ancestor(n, 6) == n / 64
    ensures Ancestor(n, 7) == n / 128 && Ancestor(n, 8) == n / 256 && Ancestor(n, 9) == n / 512
  {
    assert Ancestor(n, 1) == n / 2;
    assert Ancestor(n, 2) == n / 4;
    assert Ancestor(n, 3) == n / 8;
    assert Ancestor(n, 4) == n / 16;
    assert Ancestor(n, 5) == n / 32;
    assert Ancestor(n, 6) == n / 64;
    assert Ancestor(n, 7) == n / 128;
    assert Ancestor(n, 8) == n / 256;
    assert Ancestor(n, 9) == n / 512;
  }

  lemma {:induction false} AncestorsAreShifts(n: nat, level: nat)
    requires level < 10
    ensures Ancestor(n, level) == Shifts(n)[level]
  {
    hide Ancestor;
    AncestorOfLevel(n);
    assert level in {0, 1, 2, 3, 4, 5, 6, 7, 8, 9};
  }

  /** Bottom up, the path holds the siblings of node 1024 + q and of its halves, up to a child of the root. */
  lemma {:induction false} PathFollowsRfc(t: Nodes, q: u32, level: nat)
    requires q < 1024 && level < 10
    ensures var node := Shifts(1024 + q)[level];
      2 <= node < 2048 && Part(AuthPath(t, q), level) == t[if node % 2 == 0 then node + 1 else node - 1]
  {
    hide Join, Ancestor, Shifts;
    AncestorsAreShifts(1024 + q, level);
    PathDigestAt(t, q, level);
    PartOfJoin(PathDigests(t, q), level);
  }
}
