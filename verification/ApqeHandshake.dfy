/** The three-message APQE handshake over software PUF maps, and why both sides end with one key. */
module ApqeHandshake {
  import opened Octets
  import opened Wrappers
  import opened Bits
  import opened CredentialCodec
  import CredentialLedger
  import Gateway

  /** A Kyber ciphertext of one 32-byte message. */
  type Block = b: Bytes | |b| == 768 witness seq(768, _ => 0)

  /** The KEM-less public-key encryption as arbitrary functions of a seed, a key and coins. */
  datatype Crypto = Crypto(
    sha: Hash,
    publicKey: Digest -> KyberKey,
    secretKey: Digest -> Bytes,
    encrypt: (Digest, KyberKey, Digest) -> Block,
    decrypt: (Bytes, Bytes) -> Digest)

  ghost predicate DecryptsEncryptions(x: Crypto) {
    forall seed: Digest, m: Digest, coins: Digest ::
      x.decrypt(x.encrypt(m, x.publicKey(seed), coins), x.secretKey(seed)) == m
  }

  /** Factory contents of a device; everything else is derived from them. */
  datatype Device = Device(deviceId: Digest, rawSram: Digest, helper: Digest, bsPufSecret: Digest)

  const LABEL_COMM: Bytes := [0x41, 0x50, 0x51, 0x45, 0x2d, 0x43, 0x4f, 0x4d, 0x4d]
  const LABEL_REV: Bytes := [0x41, 0x50, 0x51, 0x45, 0x2d, 0x52, 0x45, 0x56]
  const LABEL_SRAM: Bytes := [0x53, 0x52, 0x41, 0x4d, 0x2d, 0x46, 0x45, 0x2d, 0x45, 0x4d, 0x55]
  const LABEL_MASK: Bytes := [0x52, 0x45, 0x56, 0x2d, 0x4d, 0x41, 0x53, 0x4b]
  const LABEL_CHAL: Bytes := [0x41, 0x50, 0x51, 0x45, 0x2d, 0x43, 0x48, 0x41, 0x4c]

  // --- The software PUF ---------------------------------------------------------------

  function CommutativeMask(x: Crypto, d: Device): Digest { x.sha(LABEL_COMM + d.bsPufSecret) }
  function ReversibleSecret(x: Crypto, d: Device): Digest { x.sha(LABEL_REV + d.bsPufSecret) }
  function KyberSeed(x: Crypto, d: Device): Digest { x.sha(LABEL_SRAM + d.rawSram + d.helper) }
  function SecretKey(x: Crypto, d: Device): Bytes { x.secretKey(KyberSeed(x, d)) }
  function PublicKey(x: Crypto, d: Device): KyberKey { x.publicKey(KyberSeed(x, d)) }
  function IdentityHash(x: Crypto, d: Device): Digest { x.sha(d.deviceId) }

  function CommutativeMap(x: Crypto, d: Device, input: Digest): Digest {
    XorAll(input, CommutativeMask(x, d))
  }

  function ReversibleMask(x: Crypto, d: Device): Digest {
    x.sha(LABEL_MASK + x.sha(SecretKey(x, d)) + ReversibleSecret(x, d))
  }

  /** The same XOR serves as `reversibleMap` and as `reversibleInverse`. */
  function ReversibleMap(x: Crypto, d: Device, input: Digest): Digest {
    XorAll(input, ReversibleMask(x, d))
  }

  /** The two devices' maps commute. */
  lemma {:induction false} MapsCommute(x: Crypto, a: Device, b: Device, input: Digest)
    ensures CommutativeMap(x, a, CommutativeMap(x, b, input)) == CommutativeMap(x, b, CommutativeMap(x, a, input))
  {
    hide XorAll;
    XorAllAssociates(input, CommutativeMask(x, b), CommutativeMask(x, a));
    XorAllAssociates(input, CommutativeMask(x, a), CommutativeMask(x, b));
    XorAllCommutes(CommutativeMask(x, a), CommutativeMask(x, b));
  }

  // --- Credentials -----------------------------------------------------------------------

  function Challenge(x: Crypto, d: Device, slot: u16): Digest {
    x.sha(LABEL_CHAL + d.deviceId + U16(slot))
  }

  /** A challenge's own helper value: the PUF response under the hash of the challenge. */
  function HelperFor(x: Crypto, d: Device, challenge: Digest): Digest {
    XorAll(CommutativeMap(x, d, challenge), x.sha(challenge))
  }

  function VerifyHash(x: Crypto, identityHash: Digest, w: Digest, publicKey: KyberKey): Digest {
    x.sha(identityHash + w + publicKey)
  }

  function BuildCredential(x: Crypto, d: Device, slot: u16): FabricCredential {
    var challenge := Challenge(x, d, slot);
    var w := HelperFor(x, d, challenge);
    FabricCredential(IdentityHash(x, d), ReversibleMap(x, d, challenge), PublicKey(x, d), w,
                     VerifyHash(x, IdentityHash(x, d), w, PublicKey(x, d)))
  }

  predicate VerifyCredential(x: Crypto, c: FabricCredential) {
    VerifyHash(x, c.identityHash, c.w, c.publicKey) == c.verifyHash
  }

  // --- The initiator ------------------------------------------------------------------------

  datatype Coins = Coins(ni: Digest, coins0: Digest, coins1: Digest, coins2: Digest, coins3: Digest)

  datatype M1 = M1(c0: Block, c1: Block, c2: Block, c3: Block, h1: Digest)
  datatype M2 = M2(tn: Digest, p0: Digest, p1: Digest, h2: Digest)
  datatype M3 = M3(tn: Digest, h3: Digest)

  /** Temporary keys and the session key, in the order in which they are hashed. */
  datatype Keys = Keys(tkJi: Digest, tkIj: Digest, session: Digest)

  function SendM1(x: Crypto, a: Device, peerIdentity: Digest, own: FabricCredential, peer: FabricCredential,
      r: Coins): Option<M1> {
    if own.identityHash != IdentityHash(x, a) || peer.identityHash != peerIdentity
       || !VerifyCredential(x, own) || !VerifyCredential(x, peer) || own.publicKey != PublicKey(x, a) then None
    else
      var ci := ReversibleMap(x, a, own.tid);
      Some(M1(x.encrypt(own.tid, peer.publicKey, r.coins0), x.encrypt(ci, peer.publicKey, r.coins1),
              x.encrypt(r.ni, peer.publicKey, r.coins2), x.encrypt(peer.tid, peer.publicKey, r.coins3),
              x.sha(own.tid + ci + r.ni + peer.tid)))
  }

  function SessionHash(x: Crypto, tkJi: Digest, tkIj: Digest, ni: Digest, nj: Digest): Digest {
    x.sha(tkJi + tkIj + ni + nj)
  }

  function AnswerM2(x: Crypto, a: Device, peer: FabricCredential, ni: Digest, m2: M2): Option<(M3, Keys)> {
    var tkJ: Digest := XorAll(m2.tn, ni);
    var tkJi := CommutativeMap(x, a, tkJ);
    var cj: Digest := XorAll(m2.p0, tkJi);
    var nj: Digest := XorAll(m2.p1, tkJi);
    if x.sha(tkJi + tkJ + cj + nj) != m2.h2 then None
    else
      var rj: Digest := XorAll(peer.w, x.sha(cj));
      var tkI := CommutativeMap(x, a, cj);
      var tkIj := CommutativeMap(x, a, rj);
      var session := SessionHash(x, tkJi, tkIj, ni, nj);
      Some((M3(XorAll(tkI, nj), x.sha(tkIj + tkI + session)), Keys(tkJi, tkIj, session)))
  }

  // --- The responder ---------------------------------------------------------------------------

  datatype Waiting = Waiting(tkJi: Digest, ni: Digest, nj: Digest)

  /** `lookup` is the TID query of the ledger. */
  function AnswerM1(x: Crypto, b: Device, peerIdentity: Digest, lookup: Digest -> Option<FabricCredential>,
                    m1: M1, nj: Digest): Option<(M2, Waiting)> {
    var sk := SecretKey(x, b);
    var tidI, ci, ni, tidJ := x.decrypt(m1.c0, sk), x.decrypt(m1.c1, sk), x.decrypt(m1.c2, sk), x.decrypt(m1.c3, sk);
    if x.sha(tidI + ci + ni + tidJ) != m1.h1 then None
    else
      match lookup(tidI)
      case None => None
      case Some(peer) =>
        if peer.identityHash != peerIdentity || !VerifyCredential(x, peer) then None
        else
          var cj := ReversibleMap(x, b, tidJ);
          var ri: Digest := XorAll(peer.w, x.sha(ci));
          var tkJi := CommutativeMap(x, b, ri);
          var tkJ := CommutativeMap(x, b, ci);
          Some((M2(XorAll(tkJ, ni), XorAll(cj, tkJi), XorAll(nj, tkJi), x.sha(tkJi + tkJ + cj + nj)),
                Waiting(tkJi, ni, nj)))
  }

  function AcceptM3(x: Crypto, b: Device, s: Waiting, m3: M3): Option<Keys> {
    var tkI: Digest := XorAll(m3.tn, s.nj);
    var tkIj := CommutativeMap(x, b, tkI);
    var session := SessionHash(x, s.tkJi, tkIj, s.ni, s.nj);
    if x.sha(tkIj + tkI + session) != m3.h3 then None else Some(Keys(s.tkJi, tkIj, session))
  }

  // --- Key agreement ------------------------------------------------------------------------------

  /** The helper value unlocks the device's response exactly with the challenge behind the TID. */
  lemma ResponseFromHelper(x: Crypto, d: Device, slot: u16)
    ensures var c := BuildCredential(x, d, slot);
      var challenge := ReversibleMap(x, d, c.tid);
      && challenge == Challenge(x, d, slot)
      && XorAll(c.w, x.sha(challenge)) == CommutativeMap(x, d, challenge)
  {
    hide XorAll;
    XorAllCancels(Challenge(x, d, slot), ReversibleMask(x, d));
    XorAllCancels(CommutativeMap(x, d, Challenge(x, d, slot)), x.sha(Challenge(x, d, slot)));
  }

  /** Two credentials of one device with the same TID carry the same helper value, whatever their slots. */
  lemma {:induction false} TidDeterminesHelper(x: Crypto, d: Device, slot: u16, slot': u16)
    requires BuildCredential(x, d, slot).tid == BuildCredential(x, d, slot').tid
    ensures BuildCredential(x, d, slot) == BuildCredential(x, d, slot')
  {
    hide XorAll;
    ResponseFromHelper(x, d, slot);
    ResponseFromHelper(x, d, slot');
  }

  /** What the responder's TID query must deliver: nothing, or a credential of the initiator carrying that TID. */
  ghost predicate TruthfulLookup(x: Crypto, a: Device, lookup: Digest -> Option<FabricCredential>, tid: Digest) {
    lookup(tid).Some? ==>
      && lookup(tid).value.tid == tid
      && exists slot: u16 :: lookup(tid).value == BuildCredential(x, a, slot)
  }

  lemma M1Answered(x: Crypto, a: Device, b: Device, slot: u16, r: Coins, nj: Digest,
      lookup: Digest -> Option<FabricCredential>)
    requires DecryptsEncryptions(x)
    requires var own := BuildCredential(x, a, slot);
      TruthfulLookup(x, a, lookup, own.tid) && lookup(own.tid).Some?
    ensures var own, peer := BuildCredential(x, a, slot), BuildCredential(x, b, slot);
      var ci, cj := Challenge(x, a, slot), Challenge(x, b, slot);
      var m1 := SendM1(x, a, IdentityHash(x, b), own, peer, r);
      && m1.Some?
      && var tkJi := CommutativeMap(x, b, CommutativeMap(x, a, ci));
         var tkJ := CommutativeMap(x, b, ci);
         AnswerM1(x, b, IdentityHash(x, a), lookup, m1.value, nj)
         == Some((M2(XorAll(tkJ, r.ni), XorAll(cj, tkJi), XorAll(nj, tkJi), x.sha(tkJi + tkJ + cj + nj)),
                  Waiting(tkJi, r.ni, nj)))
  {
    hide XorAll, ReversibleMap, CommutativeMap, HelperFor, Challenge, IdentityHash, VerifyHash;
    var own, peer := BuildCredential(x, a, slot), BuildCredential(x, b, slot);
    var found: u16 :| lookup(own.tid).value == BuildCredential(x, a, found);
    TidDeterminesHelper(x, a, slot, found);
    ResponseFromHelper(x, a, slot);
    ResponseFromHelper(x, b, slot);
    assert own.identityHash == IdentityHash(x, a) && peer.identityHash == IdentityHash(x, b);
    Decrypts(x, b, own.tid, r.coins0);
    Decrypts(x, b, ReversibleMap(x, a, own.tid), r.coins1);
    Decrypts(x, b, r.ni, r.coins2);
    Decrypts(x, b, peer.tid, r.coins3);
  }

  lemma Decrypts(x: Crypto, b: Device, m: Digest, coins: Digest)
    requires DecryptsEncryptions(x)
    ensures x.decrypt(x.encrypt(m, PublicKey(x, b), coins), SecretKey(x, b)) == m
  {
    var seed := KyberSeed(x, b);
    assert x.decrypt(x.encrypt(m, x.publicKey(seed), coins), x.secretKey(seed)) == m;
  }

  lemma M2Answered(x: Crypto, a: Device, b: Device, slot: u16, ni: Digest, nj: Digest, m2: M2)
    requires var ci, cj := Challenge(x, a, slot), Challenge(x, b, slot);
      var tkJ := CommutativeMap(x, b, ci);
      var tkJi := CommutativeMap(x, b, CommutativeMap(x, a, ci));
      m2 == M2(XorAll(tkJ, ni), XorAll(cj, tkJi), XorAll(nj, tkJi), x.sha(tkJi + tkJ + cj + nj))
    ensures var ci, cj := Challenge(x, a, slot), Challenge(x, b, slot);
      var tkJi := CommutativeMap(x, b, CommutativeMap(x, a, ci));
      var tkI, tkIj := CommutativeMap(x, a, cj), CommutativeMap(x, a, CommutativeMap(x, b, cj));
      var session := SessionHash(x, tkJi, tkIj, ni, nj);
      AnswerM2(x, a, BuildCredential(x, b, slot), ni, m2)
      == Some((M3(XorAll(tkI, nj), x.sha(tkIj + tkI + session)), Keys(tkJi, tkIj, session)))
  {
    hide XorAll, ReversibleMap, CommutativeMap, HelperFor, Challenge, IdentityHash, VerifyHash, SessionHash;
    var ci, cj := Challenge(x, a, slot), Challenge(x, b, slot);
    var tkJ, tkJi := CommutativeMap(x, b, ci), CommutativeMap(x, b, CommutativeMap(x, a, ci));
    XorAllCancels(tkJ, ni);
    MapsCommute(x, a, b, ci);
    XorAllCancels(cj, tkJi);
    XorAllCancels(nj, tkJi);
    ResponseFromHelper(x, b, slot);
  }

  /** The whole handshake between initiator a and responder b: no check fails, and both end with the same keys. */
  predicate HandshakeAgrees(x: Crypto, a: Device, b: Device, own: FabricCredential, peer: FabricCredential,
                            lookup: Digest -> Option<FabricCredential>, r: Coins, nj: Digest)
  {
    var m1 := SendM1(x, a, IdentityHash(x, b), own, peer, r);
    && m1.Some?
    && var answer1 := AnswerM1(x, b, IdentityHash(x, a), lookup, m1.value, nj);
    && answer1.Some?
    && var answer2 := AnswerM2(x, a, peer, r.ni, answer1.value.0);
    && answer2.Some?
    && AcceptM3(x, b, answer1.value.1, answer2.value.0) == Some(answer2.value.1)
  }

  /** A TID query without an answer, or with the record of another identity, ends the handshake at the responder. */
  lemma UnansweredQueryStops(x: Crypto, a: Device, b: Device, slot: u16, r: Coins, nj: Digest,
                             lookup: Digest -> Option<FabricCredential>)
    requires DecryptsEncryptions(x)
    requires var found := lookup(BuildCredential(x, a, slot).tid);
      found.Some? ==> found.value.identityHash != IdentityHash(x, a)
    ensures var m1 := SendM1(x, a, IdentityHash(x, b), BuildCredential(x, a, slot), BuildCredential(x, b, slot), r);
      m1.Some? ==> AnswerM1(x, b, IdentityHash(x, a), lookup, m1.value, nj).None?
  {
    hide XorAll, ReversibleMap, CommutativeMap, HelperFor, Challenge, IdentityHash, VerifyHash;
    Decrypts(x, b, BuildCredential(x, a, slot).tid, r.coins0);
  }

  /**
   When the TID query answers truthfully or not at all, the handshake completes exactly if it answers;
   then every check passes and both sides hold the same temporary keys and the same session key,
   for all secrets, nonces, coins and slots.
   */
  lemma {:induction false} KeyAgreement(x: Crypto, a: Device, b: Device, slot: u16, r: Coins, nj: Digest,
                                        lookup: Digest -> Option<FabricCredential>)
    requires DecryptsEncryptions(x)
    requires TruthfulLookup(x, a, lookup, BuildCredential(x, a, slot).tid)
    ensures HandshakeAgrees(x, a, b, BuildCredential(x, a, slot), BuildCredential(x, b, slot), lookup, r, nj)
       <==> lookup(BuildCredential(x, a, slot).tid).Some?
  {
    hide XorAll, ReversibleMap, CommutativeMap, BuildCredential, Challenge, IdentityHash, SessionHash, SendM1, AnswerM1,
         AnswerM2;
    var own, peer := BuildCredential(x, a, slot), BuildCredential(x, b, slot);
    if lookup(own.tid).None? {
      UnansweredQueryStops(x, a, b, slot, r, nj, lookup);
    } else {
      M1Answered(x, a, b, slot, r, nj, lookup);
      var m1 := SendM1(x, a, IdentityHash(x, b), own, peer, r).value;
      var m2 := AnswerM1(x, b, IdentityHash(x, a), lookup, m1, nj).value.0;
      M2Answered(x, a, b, slot, r.ni, nj, m2);
      var cj := Challenge(x, b, slot);
      XorAllCancels(CommutativeMap(x, a, cj), nj);
      MapsCommute(x, a, b, cj);
    }
  }

  // --- What the three hash checks are worth ------------------------------------------------------

  /** The responder's checks on what its TID query found. */
  predicate PassesAsPeer(x: Crypto, peerIdentity: Digest, found: Option<FabricCredential>) {
    found.Some? && found.value.identityHash == peerIdentity && VerifyCredential(x, found.value)
  }

  /** Four plaintexts under the responder's public key, and a hash. */
  function SealedM1(x: Crypto, key: KyberKey, tidI: Digest, ci: Digest, ni: Digest, tidJ: Digest, h1: Digest,
      r: Coins): M1 {
    M1(x.encrypt(tidI, key, r.coins0), x.encrypt(ci, key, r.coins1), x.encrypt(ni, key, r.coins2),
       x.encrypt(tidJ, key, r.coins3), h1)
  }

  /**
   H1 is a hash without a key: for any four plaintexts encrypted under the responder's public key, the responder
   answers exactly when h1 is their hash and the record of that TID passes. No secret of the initiator enters.
   */
  lemma {:induction false} M1NeedsNoInitiatorSecret(
    x: Crypto, b: Device, peerIdentity: Digest, lookup: Digest -> Option<FabricCredential>,
    tidI: Digest, ci: Digest, ni: Digest, tidJ: Digest, h1: Digest, r: Coins, nj: Digest)
    requires DecryptsEncryptions(x)
    ensures AnswerM1(x, b, peerIdentity, lookup, SealedM1(x, PublicKey(x, b), tidI, ci, ni, tidJ, h1, r), nj).Some?
       <==> h1 == x.sha(tidI + ci + ni + tidJ) && PassesAsPeer(x, peerIdentity, lookup(tidI))
  {
    hide XorAll, CommutativeMap, ReversibleMap, VerifyCredential;
    Decrypts(x, b, tidI, r.coins0);
    Decrypts(x, b, ci, r.coins1);
    Decrypts(x, b, ni, r.coins2);
    Decrypts(x, b, tidJ, r.coins3);
  }

  /** An M2 over any three values, masked as initiator a with nonce ni would unmask them. */
  function MaskedM2(x: Crypto, a: Device, ni: Digest, tkJ: Digest, cj: Digest, nj: Digest): M2 {
    var tkJi := CommutativeMap(x, a, tkJ);
    M2(XorAll(tkJ, ni), XorAll(cj, tkJi), XorAll(nj, tkJi), x.sha(tkJi + tkJ + cj + nj))
  }

  /** The initiator answers exactly the messages that are masked over some three 32-byte values, whoever chose them. */
  lemma {:induction false} M2AcceptedExactlyWhenMasked(
    x: Crypto, a: Device, peer: FabricCredential, ni: Digest, m2: M2)
    ensures AnswerM2(x, a, peer, ni, m2).Some?
       <==> exists tkJ: Digest, cj: Digest, nj: Digest :: m2 == MaskedM2(x, a, ni, tkJ, cj, nj)
  {
    hide XorAll, CommutativeMap;
    if AnswerM2(x, a, peer, ni, m2).Some? {
      var tkJ: Digest := XorAll(m2.tn, ni);
      var tkJi := CommutativeMap(x, a, tkJ);
      XorAllCancels(m2.tn, ni);
      XorAllCancels(m2.p0, tkJi);
      XorAllCancels(m2.p1, tkJi);
      assert m2 == MaskedM2(x, a, ni, tkJ, XorAll(m2.p0, tkJi), XorAll(m2.p1, tkJi));
    }
    if tkJ: Digest, cj: Digest, nj: Digest :| m2 == MaskedM2(x, a, ni, tkJ, cj, nj) {
      XorAllCancels(tkJ, ni);
      XorAllCancels(cj, CommutativeMap(x, a, tkJ));
      XorAllCancels(nj, CommutativeMap(x, a, tkJ));
    }
  }

  /** An M3 over any value, masked as the waiting responder b would unmask it. */
  function MaskedM3(x: Crypto, b: Device, s: Waiting, tkI: Digest): M3 {
    var tkIj := CommutativeMap(x, b, tkI);
    M3(XorAll(tkI, s.nj), x.sha(tkIj + tkI + SessionHash(x, s.tkJi, tkIj, s.ni, s.nj)))
  }

  /**
   The responder accepts exactly the messages masked over some 32-byte value, whoever chose it, and ends with
   its image.
   */
  lemma {:induction false} M3AcceptedExactlyWhenMasked(x: Crypto, b: Device, s: Waiting, m3: M3)
    ensures AcceptM3(x, b, s, m3).Some? <==> exists tkI: Digest :: m3 == MaskedM3(x, b, s, tkI)
    ensures forall tkI: Digest :: m3 == MaskedM3(x, b, s, tkI) ==>
      AcceptM3(x, b, s, m3).Some? && AcceptM3(x, b, s, m3).value.tkIj == CommutativeMap(x, b, tkI)
  {
    hide XorAll, CommutativeMap, SessionHash;
    if AcceptM3(x, b, s, m3).Some? {
      XorAllCancels(m3.tn, s.nj);
      assert m3 == MaskedM3(x, b, s, XorAll(m3.tn, s.nj));
    }
    forall tkI: Digest | m3 == MaskedM3(x, b, s, tkI)
      ensures AcceptM3(x, b, s, m3).Some? && AcceptM3(x, b, s, m3).value.tkIj == CommutativeMap(x, b, tkI)
    {
      XorAllCancels(tkI, s.nj);
    }
  }

  // --- Hash matches fix the hashed fields ----------------------------------------------------------

  predicate SameOrCollide(x: Crypto, left: Bytes, right: Bytes) {
    x.sha(left) == x.sha(right) ==> left == right
  }

  /**
   An accepted M1 whose h1 is the hash of these fields decrypts to these fields, unless the two plaintexts
   collide.
   */
  lemma {:induction false} MatchingH1FixesFields(
    x: Crypto, b: Device, peerIdentity: Digest, lookup: Digest -> Option<FabricCredential>, m1: M1, nj: Digest,
    tidI: Digest, ci: Digest, ni: Digest, tidJ: Digest)
    requires AnswerM1(x, b, peerIdentity, lookup, m1, nj).Some? && m1.h1 == x.sha(tidI + ci + ni + tidJ)
    requires var sk := SecretKey(x, b);
      SameOrCollide(x, x.decrypt(m1.c0, sk) + x.decrypt(m1.c1, sk) + x.decrypt(m1.c2, sk) + x.decrypt(m1.c3, sk),
                    tidI + ci + ni + tidJ)
    ensures var sk := SecretKey(x, b);
      && x.decrypt(m1.c0, sk) == tidI && x.decrypt(m1.c1, sk) == ci
      && x.decrypt(m1.c2, sk) == ni && x.decrypt(m1.c3, sk) == tidJ
    ensures lookup(tidI).Some? && lookup(tidI).value.identityHash == peerIdentity
      && VerifyCredential(x, lookup(tidI).value)
    ensures AnswerM1(x, b, peerIdentity, lookup, m1, nj).value.1.ni == ni
  {
    hide XorAll, CommutativeMap, ReversibleMap, VerifyCredential;
    var sk := SecretKey(x, b);
    FourDigests(x.decrypt(m1.c0, sk), x.decrypt(m1.c1, sk), x.decrypt(m1.c2, sk), x.decrypt(m1.c3, sk), tidI, ci, ni,
      tidJ);
  }

  /** An accepted M2 whose h2 is the hash of these values unmasks to these values, unless the two inputs collide. */
  lemma {:induction false} MatchingH2FixesFields(
    x: Crypto, a: Device, peer: FabricCredential, ni: Digest, m2: M2, tkJi: Digest, tkJ: Digest, cj: Digest, nj: Digest)
    requires AnswerM2(x, a, peer, ni, m2).Some? && m2.h2 == x.sha(tkJi + tkJ + cj + nj)
    requires var own: Digest := XorAll(m2.tn, ni);
      var shared := CommutativeMap(x, a, own);
      SameOrCollide(x, shared + own + XorAll(m2.p0, shared) + XorAll(m2.p1, shared), tkJi + tkJ + cj + nj)
    ensures XorAll(m2.tn, ni) == tkJ && CommutativeMap(x, a, tkJ) == tkJi
    ensures XorAll(m2.p0, tkJi) == cj && XorAll(m2.p1, tkJi) == nj
    ensures AnswerM2(x, a, peer, ni, m2).value.1.tkJi == tkJi
  {
    hide XorAll, CommutativeMap;
    var own: Digest := XorAll(m2.tn, ni);
    var shared := CommutativeMap(x, a, own);
    FourDigests(shared, own, XorAll(m2.p0, shared), XorAll(m2.p1, shared), tkJi, tkJ, cj, nj);
  }

  /**
   An accepted M3 whose h3 is the initiator's leaves both with the same keys and nonces, unless one of two
   input pairs collides.
   */
  lemma {:induction false} MatchingH3FixesKeys(
    x: Crypto, a: Device, b: Device, peer: FabricCredential, ni: Digest, m2: M2, s: Waiting, m3: M3)
    requires AnswerM2(x, a, peer, ni, m2).Some? && AcceptM3(x, b, s, m3).Some?
    requires m3.h3 == AnswerM2(x, a, peer, ni, m2).value.0.h3
    requires var keysA, keysB := AnswerM2(x, a, peer, ni, m2).value.1, AcceptM3(x, b, s, m3).value;
      var nj: Digest := XorAll(m2.p1, keysA.tkJi);
      && SameOrCollide(x, keysA.tkJi + keysA.tkIj + ni + nj, keysB.tkJi + keysB.tkIj + s.ni + s.nj)
      && SameOrCollide(x, keysA.tkIj + InitiatorTk(x, a, m2, keysA) + keysA.session,
                       keysB.tkIj + XorAll(m3.tn, s.nj) + keysB.session)
    ensures AcceptM3(x, b, s, m3).value == AnswerM2(x, a, peer, ni, m2).value.1
    ensures s.ni == ni && s.nj == XorAll(m2.p1, AnswerM2(x, a, peer, ni, m2).value.1.tkJi)
  {
    hide XorAll, CommutativeMap;
    var keysA, keysB := AnswerM2(x, a, peer, ni, m2).value.1, AcceptM3(x, b, s, m3).value;
    var nj: Digest := XorAll(m2.p1, keysA.tkJi);
    var tkA: Digest := InitiatorTk(x, a, m2, keysA);
    var tkB: Digest := XorAll(m3.tn, s.nj);
    ThreeDigests(keysA.tkIj, tkA, keysA.session, keysB.tkIj, tkB, keysB.session);
    FourDigests(keysA.tkJi, keysA.tkIj, ni, nj, keysB.tkJi, keysB.tkIj, s.ni, s.nj);
  }

  /** The initiator's own temporary key, as it enters the confirmation hash. */
  function InitiatorTk(x: Crypto, a: Device, m2: M2, keys: Keys): Digest {
    CommutativeMap(x, a, XorAll(m2.p0, keys.tkJi))
  }

  lemma ThreeDigests(a: Digest, b: Digest, c: Digest, a': Digest, b': Digest, c': Digest)
    ensures a + b + c == a' + b' + c' ==> a == a' && b == b' && c == c'
  {
    var x, y := a + b + c, a' + b' + c';
    assert x[..32] == a && x[32..64] == b && x[64..] == c && y[..32] == a' && y[32..64] == b' && y[64..] == c';
  }

  lemma FourDigests(a: Digest, b: Digest, c: Digest, d: Digest, a': Digest, b': Digest, c': Digest, d': Digest)
    ensures a + b + c + d == a' + b' + c' + d' ==> a == a' && b == b' && c == c' && d == d'
  {
    var x, y := a + b + c + d, a' + b' + c' + d';
    assert x[..96] == a + b + c && y[..96] == a' + b' + c' && x[96..] == d && y[96..] == d';
    ThreeDigests(a, b, c, a', b', c');
  }

  // --- What was altered on the way ------------------------------------------------------------------

  /**
   The initiator's M1 with any ciphertexts in place of its own but its own hash: it is answered exactly when they
   still decrypt to the initiator's fields and its record passes, unless the two plaintexts collide.
   */
  lemma {:induction false} AlteredM1IsAnsweredExactlyWhenFieldsSurvive(
    x: Crypto, a: Device, b: Device, own: FabricCredential, peer: FabricCredential, r: Coins,
    lookup: Digest -> Option<FabricCredential>, m1: M1, nj: Digest)
    requires var sent := SendM1(x, a, IdentityHash(x, b), own, peer, r); sent.Some? && m1.h1 == sent.value.h1
    requires var sk := SecretKey(x, b);
      SameOrCollide(x, x.decrypt(m1.c0, sk) + x.decrypt(m1.c1, sk) + x.decrypt(m1.c2, sk) + x.decrypt(m1.c3, sk),
                    own.tid + ReversibleMap(x, a, own.tid) + r.ni + peer.tid)
    ensures var sk := SecretKey(x, b);
      AnswerM1(x, b, IdentityHash(x, a), lookup, m1, nj).Some?
      <==> && x.decrypt(m1.c0, sk) == own.tid && x.decrypt(m1.c1, sk) == ReversibleMap(x, a, own.tid)
           && x.decrypt(m1.c2, sk) == r.ni && x.decrypt(m1.c3, sk) == peer.tid
           && PassesAsPeer(x, IdentityHash(x, a), lookup(own.tid))
  {
    hide XorAll, CommutativeMap, ReversibleMap, VerifyCredential, IdentityHash, PublicKey, SecretKey;
    if AnswerM1(x, b, IdentityHash(x, a), lookup, m1, nj).Some? {
      MatchingH1FixesFields(x, b, IdentityHash(x, a), lookup, m1, nj,
                            own.tid, ReversibleMap(x, a, own.tid), r.ni, peer.tid);
    }
  }

  lemma XorAllLeftInjective(mask: Digest, a: Digest, b: Digest)
    requires XorAll(mask, a) == XorAll(mask, b)
    ensures a == b
  {
    hide XorAll;
    XorAllCommutes(mask, a);
    XorAllCommutes(mask, b);
    XorAllCancels(a, mask);
    XorAllCancels(b, mask);
  }

  /**
   Whatever M1 the responder answered: an initiator takes that answer exactly when both have the same nonce and
   its map of the responder's key is the key the responder holds, unless the two hash inputs collide. Then both
   hold the same key and the same second nonce.
   */
  lemma {:induction false} AnswerIsTakenExactlyWhenSidesMatch(
    x: Crypto, a: Device, b: Device, peerIdentity: Digest, lookup: Digest -> Option<FabricCredential>, m1: M1,
    nj: Digest, peer: FabricCredential, ni: Digest)
    requires AnswerM1(x, b, peerIdentity, lookup, m1, nj).Some?
    requires var (m2, s) := AnswerM1(x, b, peerIdentity, lookup, m1, nj).value;
      var (tkJ: Digest, own: Digest) := (XorAll(m2.tn, s.ni), XorAll(m2.tn, ni));
      var shared := CommutativeMap(x, a, own);
      SameOrCollide(x, shared + own + XorAll(m2.p0, shared) + XorAll(m2.p1, shared),
                    s.tkJi + tkJ + XorAll(m2.p0, s.tkJi) + nj)
    ensures var (m2, s) := AnswerM1(x, b, peerIdentity, lookup, m1, nj).value;
      && s.nj == nj
      && (AnswerM2(x, a, peer, ni, m2).Some? <==> ni == s.ni && CommutativeMap(x, a, XorAll(m2.tn, s.ni)) == s.tkJi)
      && (AnswerM2(x, a, peer, ni, m2).Some? ==>
            AnswerM2(x, a, peer, ni, m2).value.1.tkJi == s.tkJi && XorAll(m2.p1, s.tkJi) == nj)
  {
    hide XorAll, CommutativeMap, ReversibleMap, VerifyCredential;
    var (m2, s) := AnswerM1(x, b, peerIdentity, lookup, m1, nj).value;
    var tkJ, cj := AnswerUnmasked(x, b, peerIdentity, lookup, m1, nj);
    if AnswerM2(x, a, peer, ni, m2).Some? {
      MatchingH2FixesFields(x, a, peer, ni, m2, s.tkJi, tkJ, cj, nj);
      XorAllLeftInjective(m2.tn, ni, s.ni);
    }
  }

  /** What the responder masked, recovered with its own values. */
  lemma AnswerUnmasked(x: Crypto, b: Device, peerIdentity: Digest, lookup: Digest -> Option<FabricCredential>,
                       m1: M1, nj: Digest) returns (tkJ: Digest, cj: Digest)
    requires AnswerM1(x, b, peerIdentity, lookup, m1, nj).Some?
    ensures var (m2, s) := AnswerM1(x, b, peerIdentity, lookup, m1, nj).value;
      && s.nj == nj && XorAll(m2.tn, s.ni) == tkJ && XorAll(m2.p0, s.tkJi) == cj && XorAll(m2.p1, s.tkJi) == nj
      && m2.h2 == x.sha(s.tkJi + tkJ + cj + nj)
  {
    hide XorAll, CommutativeMap, ReversibleMap, VerifyCredential;
    var (m2, s) := AnswerM1(x, b, peerIdentity, lookup, m1, nj).value;
    tkJ := CommutativeMap(x, b, x.decrypt(m1.c1, SecretKey(x, b)));
    cj := ReversibleMap(x, b, x.decrypt(m1.c3, SecretKey(x, b)));
    XorAllCancels(tkJ, s.ni);
    XorAllCancels(cj, s.tkJi);
    XorAllCancels(nj, s.tkJi);
  }

  /** The keys that a waiting responder computes from an M3, before it compares the hash. */
  function ComputedKeys(x: Crypto, b: Device, s: Waiting, m3: M3): Keys {
    var tkIj := CommutativeMap(x, b, XorAll(m3.tn, s.nj));
    Keys(s.tkJi, tkIj, SessionHash(x, s.tkJi, tkIj, s.ni, s.nj))
  }

  /**
   Whatever M2 the initiator took: a waiting responder takes the M3 it sends exactly when both hold the same first
   key and the same nonces and the responder's map of the initiator's key is the initiator's second key, unless one
   of two input pairs collides. Then both end with the same keys.
   */
  lemma {:induction false} SentM3IsTakenExactlyWhenSidesMatch(
    x: Crypto, a: Device, b: Device, peer: FabricCredential, ni: Digest, m2: M2, s: Waiting)
    requires AnswerM2(x, a, peer, ni, m2).Some?
    requires var (m3, keys) := AnswerM2(x, a, peer, ni, m2).value;
      var computed := ComputedKeys(x, b, s, m3);
      && SameOrCollide(x, keys.tkJi + keys.tkIj + ni + XorAll(m2.p1, keys.tkJi),
                       computed.tkJi + computed.tkIj + s.ni + s.nj)
      && SameOrCollide(x, keys.tkIj + InitiatorTk(x, a, m2, keys) + keys.session,
                       computed.tkIj + XorAll(m3.tn, s.nj) + computed.session)
    ensures var (m3, keys) := AnswerM2(x, a, peer, ni, m2).value;
      && (AcceptM3(x, b, s, m3).Some?
          <==> && s == Waiting(keys.tkJi, ni, XorAll(m2.p1, keys.tkJi))
               && CommutativeMap(x, b, InitiatorTk(x, a, m2, keys)) == keys.tkIj)
      && (AcceptM3(x, b, s, m3).Some? ==> AcceptM3(x, b, s, m3).value == keys)
  {
    hide XorAll, CommutativeMap;
    var (m3, keys) := AnswerM2(x, a, peer, ni, m2).value;
    var nj: Digest := XorAll(m2.p1, keys.tkJi);
    XorAllCancels(InitiatorTk(x, a, m2, keys), nj);
    if AcceptM3(x, b, s, m3).Some? {
      MatchingH3FixesKeys(x, a, b, peer, ni, m2, s, m3);
    }
  }

  // --- Through the ledger -------------------------------------------------------------------------

  /** The responder's TID query and the queries by identity and slot, through gateway and chaincode. */
  function LedgerLookup(t: CredentialLedger.Table, tid: Digest): Option<FabricCredential> {
    Gateway.Answer(t, Gateway.TidQuery(tid))
  }

  function LedgerRecord(t: CredentialLedger.Table, identityHash: Digest, slot: u16): Option<FabricCredential> {
    Gateway.Answer(t, Gateway.RecordQuery(identityHash, slot))
  }

  /** Every record was built by one of these devices. */
  ghost predicate EnrolledByDevices(x: Crypto, ds: set<Device>, t: CredentialLedger.Table) {
    forall key :: key in t && t[key].Record? ==> EnrolledByOne(x, ds, t[key].credential)
  }

  ghost predicate EnrolledByOne(x: Crypto, ds: set<Device>, c: CredentialLedger.Credential) {
    exists d, slot: u16 :: d in ds && c == Stored(BuildCredential(x, d, slot), slot)
  }

  ghost predicate DeviceTransactions(x: Crypto, ds: set<Device>, txs: seq<CredentialLedger.Transaction>) {
    forall tx :: tx in txs && tx.PutTx? ==> EnrolledByOne(x, ds, tx.credential)
  }

  /** No two of the devices share an identity. */
  predicate DistinctIdentities(x: Crypto, ds: set<Device>) {
    forall d, e :: d in ds && e in ds && IdentityHash(x, d) == IdentityHash(x, e) ==> d == e
  }

  lemma {:induction false} OnlyEnrolledRecords(x: Crypto, ds: set<Device>, txs: seq<CredentialLedger.Transaction>)
    requires DeviceTransactions(x, ds, txs)
    ensures EnrolledByDevices(x, ds, CredentialLedger.CommitAll(txs))
  {
    hide EnrolledByOne, CredentialLedger.CheckCredential;
    if txs != [] {
      var before, tx := txs[..|txs| - 1], txs[|txs| - 1];
      assert tx in txs && forall y :: y in before ==> y in txs;
      OnlyEnrolledRecords(x, ds, before);
    }
  }

  lemma Builder(x: Crypto, ds: set<Device>, c: CredentialLedger.Credential) returns (owner: Device, slot: u16)
    requires EnrolledByOne(x, ds, c)
    ensures owner in ds && c == Stored(BuildCredential(x, owner, slot), slot)
  {
    owner, slot :| owner in ds && c == Stored(BuildCredential(x, owner, slot), slot);
  }

  /** The record of a slot, once present, is the credential its owner built for that slot. */
  lemma RecordIsOwners(x: Crypto, ds: set<Device>, t: CredentialLedger.Table, d: Device, slot: u16)
    requires CredentialLedger.Sound(t) && EnrolledByDevices(x, ds, t) && DistinctIdentities(x, ds) && d in ds
    requires LedgerRecord(t, IdentityHash(x, d), slot).Some?
    ensures LedgerRecord(t, IdentityHash(x, d), slot).value == BuildCredential(x, d, slot)
    ensures var key := CredentialLedger.CredentialKey(HexEncode(IdentityHash(x, d)), slot);
      key in t && t[key] == CredentialLedger.Record(Stored(BuildCredential(x, d, slot), slot))
  {
    hide BuildCredential, IdentityHash, CredentialPayload, Parse, Serialize, HexEncode, EnrolledByOne;
    var key := CredentialLedger.CredentialKey(HexEncode(IdentityHash(x, d)), slot);
    var c := t[key].credential;
    assert CredentialLedger.EntryOk(t, key);
    CredentialLedger.KeysAreDistinct(c.identityHash, c.slot, HexEncode(IdentityHash(x, d)), slot, "");
    var owner, built := Builder(x, ds, c);
    IdentityOf(x, owner, built);
    HexInjective(IdentityHash(x, owner), IdentityHash(x, d));
    CredentialRoundTrip(BuildCredential(x, d, slot), slot);
  }

  lemma IdentityOf(x: Crypto, d: Device, slot: u16)
    ensures BuildCredential(x, d, slot).identityHash == IdentityHash(x, d)
  {
  }

  lemma HexInjective(a: Bytes, b: Bytes)
    ensures HexEncode(a) == HexEncode(b) ==> a == b
  {
    HexRoundTrip(a);
    HexRoundTrip(b);
  }

  /** What a TID query finds in a sound table is a credential that carries this TID, built by one of the devices. */
  lemma {:induction false} LedgerLookupIsTruthful(x: Crypto, ds: set<Device>, t: CredentialLedger.Table, tid: Digest)
    requires CredentialLedger.Sound(t) && EnrolledByDevices(x, ds, t) && LedgerLookup(t, tid).Some?
    ensures LedgerLookup(t, tid).value.tid == tid
    ensures exists d, slot: u16 :: d in ds && LedgerLookup(t, tid).value == BuildCredential(x, d, slot)
  {
    hide BuildCredential, CredentialPayload, Parse, Serialize, HexEncode, EnrolledByOne;
    CredentialLedger.TidQueryIsTruthful(t, HexEncode(tid));
    var q := CredentialLedger.QueryByTemporaryIdentity(t, HexEncode(tid));
    var owner, built := Builder(x, ds, q.value);
    HexInjective(BuildCredential(x, owner, built).tid, tid);
    CredentialRoundTrip(BuildCredential(x, owner, built), built);
    assert LedgerLookup(t, tid) == Some(BuildCredential(x, owner, built));
  }

  /** With an exact index the TID of an enrolled slot leads back to that very credential. */
  lemma OwnTidIsFound(x: Crypto, t: CredentialLedger.Table, a: Device, slot: u16)
    requires CredentialLedger.Sound(t) && CredentialLedger.Complete(t)
    requires var key := CredentialLedger.CredentialKey(HexEncode(IdentityHash(x, a)), slot);
      key in t && t[key] == CredentialLedger.Record(Stored(BuildCredential(x, a, slot), slot))
    ensures LedgerLookup(t, BuildCredential(x, a, slot).tid) == Some(BuildCredential(x, a, slot))
  {
    hide BuildCredential, IdentityHash, CredentialPayload, Parse, Serialize, HexEncode;
    var key := CredentialLedger.CredentialKey(HexEncode(IdentityHash(x, a)), slot);
    CredentialRoundTrip(BuildCredential(x, a, slot), slot);
    assert CredentialLedger.Indexed(t, key);
    CredentialLedger.TidQueryIsTruthful(t, HexEncode(BuildCredential(x, a, slot).tid));
  }

  /**
   Two devices of a fleet whose every enrollment, and nothing else, went through the ledger; both slots are
   enrolled.
   */
  ghost predicate Fleet(x: Crypto, ds: set<Device>, a: Device, b: Device, txs: seq<CredentialLedger.Transaction>,
      slot: u16) {
    var t := CredentialLedger.CommitAll(txs);
    && a in ds && b in ds && DistinctIdentities(x, ds) && DeviceTransactions(x, ds, txs)
    && LedgerRecord(t, IdentityHash(x, a), slot).Some? && LedgerRecord(t, IdentityHash(x, b), slot).Some?
  }

  ghost predicate AgreeThroughLedger(x: Crypto, a: Device, b: Device, t: CredentialLedger.Table, slot: u16, r: Coins,
      nj: Digest)
    requires LedgerRecord(t, IdentityHash(x, a), slot).Some? && LedgerRecord(t, IdentityHash(x, b), slot).Some?
  {
    HandshakeAgrees(x, a, b, LedgerRecord(t, IdentityHash(x, a), slot).value,
      LedgerRecord(t, IdentityHash(x, b), slot).value,
                    (tid: Digest) => LedgerLookup(t, tid), r, nj)
  }

  /**
   End to end, over every reachable ledger of any number of devices: the handshake leads both sides to one
   session key exactly when the query for the initiator's TID answers with a record of the initiator's identity.
   */
  lemma {:induction false} KeyAgreementThroughLedger(
    x: Crypto, ds: set<Device>, a: Device, b: Device, txs: seq<CredentialLedger.Transaction>, slot: u16,
    r: Coins, nj: Digest)
    requires DecryptsEncryptions(x) && Fleet(x, ds, a, b, txs, slot)
    ensures var t := CredentialLedger.CommitAll(txs);
      var found := LedgerLookup(t, BuildCredential(x, a, slot).tid);
      AgreeThroughLedger(x, a, b, t, slot, r, nj) <==> found.Some? && found.value.identityHash == IdentityHash(x, a)
  {
    hide BuildCredential, IdentityHash, HandshakeAgrees, LedgerRecord, LedgerLookup, EnrolledByDevices,
         CredentialLedger.Sound, CredentialLedger.CommitAll;
    var t := CredentialLedger.CommitAll(txs);
    CredentialLedger.ReachableTables(txs);
    OnlyEnrolledRecords(x, ds, txs);
    RecordIsOwners(x, ds, t, a, slot);
    RecordIsOwners(x, ds, t, b, slot);
    if LedgerLookup(t, BuildCredential(x, a, slot).tid).Some? {
      LedgerLookupIsTruthful(x, ds, t, BuildCredential(x, a, slot).tid);
    }
    AgreementByLookup(x, ds, a, b, slot, r, nj, (tid: Digest) => LedgerLookup(t, tid));
  }

  lemma AgreementByLookup(x: Crypto, ds: set<Device>, a: Device, b: Device, slot: u16, r: Coins, nj: Digest,
                          lookup: Digest -> Option<FabricCredential>)
    requires DecryptsEncryptions(x) && DistinctIdentities(x, ds) && a in ds
    requires var tid := BuildCredential(x, a, slot).tid;
      lookup(tid).Some? ==>
        && lookup(tid).value.tid == tid
        && exists d, built: u16 :: d in ds && lookup(tid).value == BuildCredential(x, d, built)
    ensures var found := lookup(BuildCredential(x, a, slot).tid);
      HandshakeAgrees(x, a, b, BuildCredential(x, a, slot), BuildCredential(x, b, slot), lookup, r, nj)
      <==> found.Some? && found.value.identityHash == IdentityHash(x, a)
  {
    hide BuildCredential, IdentityHash, HandshakeAgrees;
    var tid := BuildCredential(x, a, slot).tid;
    if lookup(tid).None? {
      KeyAgreement(x, a, b, slot, r, nj, lookup);
    } else {
      var owner, built: u16 :| owner in ds && lookup(tid).value == BuildCredential(x, owner, built);
      IdentityOf(x, owner, built);
      if owner == a {
        KeyAgreement(x, a, b, slot, r, nj, lookup);
      } else {
        ForeignRecordStops(x, a, b, slot, r, nj, lookup);
      }
    }
  }

  lemma ForeignRecordStops(x: Crypto, a: Device, b: Device, slot: u16, r: Coins, nj: Digest,
                           lookup: Digest -> Option<FabricCredential>)
    requires DecryptsEncryptions(x)
    requires var found := lookup(BuildCredential(x, a, slot).tid);
      found.Some? && found.value.identityHash != IdentityHash(x, a)
    ensures !HandshakeAgrees(x, a, b, BuildCredential(x, a, slot), BuildCredential(x, b, slot), lookup, r, nj)
  {
    hide SendM1, AnswerM1, AnswerM2, AcceptM3, BuildCredential, IdentityHash;
    UnansweredQueryStops(x, a, b, slot, r, nj, lookup);
  }

  lemma FoundByKey(t: CredentialLedger.Table, c: FabricCredential, slot: u16)
    requires var key := CredentialLedger.CredentialKey(HexEncode(c.identityHash), slot);
      key in t && t[key] == CredentialLedger.Record(Stored(c, slot))
    ensures LedgerRecord(t, c.identityHash, slot) == Some(c)
    ensures var tidKey := CredentialLedger.TidKey(HexEncode(c.tid));
      tidKey in t && t[tidKey] == CredentialLedger.Reference(CredentialLedger.KeyOf(Stored(c, slot)))
      ==> LedgerLookup(t, c.tid) == Some(c)
  {
    hide CredentialPayload, Parse, Serialize, HexEncode;
    CredentialRoundTrip(c, slot);
  }

  /** Three enrollments under three keys: every record is in the table, and the last TID leads to the last of them. */
  lemma ThreeEnrollments(a: CredentialLedger.Credential, b: CredentialLedger.Credential, c: CredentialLedger.Credential)
    requires CredentialLedger.CheckCredential(a).Ok? && CredentialLedger.CheckCredential(b).Ok?
    requires CredentialLedger.CheckCredential(c).Ok?
    requires a.identityHash != b.identityHash && a.identityHash != c.identityHash && b.identityHash != c.identityHash
    ensures var t := CredentialLedger.CommitAll(
        [CredentialLedger.PutTx(b), CredentialLedger.PutTx(a), CredentialLedger.PutTx(c)]);
      && CredentialLedger.KeyOf(a) in t && t[CredentialLedger.KeyOf(a)] == CredentialLedger.Record(a)
      && CredentialLedger.KeyOf(b) in t && t[CredentialLedger.KeyOf(b)] == CredentialLedger.Record(b)
      && CredentialLedger.KeyOf(c) in t && t[CredentialLedger.KeyOf(c)] == CredentialLedger.Record(c)
      && CredentialLedger.TidKey(c.tid) in t
      && t[CredentialLedger.TidKey(c.tid)] == CredentialLedger.Reference(CredentialLedger.KeyOf(c))
  {
    hide CredentialLedger.TidKey, CredentialLedger.CredentialKey;
    CredentialLedger.KeysAreDistinct(a.identityHash, a.slot, b.identityHash, b.slot, a.tid);
    CredentialLedger.KeysAreDistinct(a.identityHash, a.slot, c.identityHash, c.slot, b.tid);
    CredentialLedger.KeysAreDistinct(b.identityHash, b.slot, c.identityHash, c.slot, a.tid);
    CredentialLedger.KeysAreDistinct(a.identityHash, a.slot, c.identityHash, c.slot, c.tid);
    CredentialLedger.KeysAreDistinct(b.identityHash, b.slot, c.identityHash, c.slot, b.tid);
    CredentialLedger.KeysAreDistinct(b.identityHash, b.slot, c.identityHash, c.slot, c.tid);
    CredentialLedger.KeysAreDistinct(c.identityHash, c.slot, c.identityHash, c.slot, a.tid);
    CredentialLedger.KeysAreDistinct(c.identityHash, c.slot, c.identityHash, c.slot, b.tid);
    CredentialLedger.KeysAreDistinct(c.identityHash, c.slot, c.identityHash, c.slot, c.tid);
    var txs := [CredentialLedger.PutTx(b), CredentialLedger.PutTx(a), CredentialLedger.PutTx(c)];
    var one, two := [CredentialLedger.PutTx(b)], [CredentialLedger.PutTx(b), CredentialLedger.PutTx(a)];
    assert txs[..2] == two && two[..1] == one && one[..0] == [];
    assert CredentialLedger.CommitAll(one)
        == map[CredentialLedger.KeyOf(b) := CredentialLedger.Record(b)]
              [CredentialLedger.TidKey(b.tid) := CredentialLedger.Reference(CredentialLedger.KeyOf(b))];
    assert CredentialLedger.CommitAll(two)
        == CredentialLedger.CommitAll(one)
             [CredentialLedger.KeyOf(a) := CredentialLedger.Record(a)]
             [CredentialLedger.TidKey(a.tid) := CredentialLedger.Reference(CredentialLedger.KeyOf(a))];
  }

  /** The transactions of three enrollments, the third device's last. */
  function Enrollments(x: Crypto, a: Device, b: Device, c: Device, slot: u16,
      slotC: u16): seq<CredentialLedger.Transaction> {
    [CredentialLedger.PutTx(Stored(BuildCredential(x, b, slot), slot)),
     CredentialLedger.PutTx(Stored(BuildCredential(x, a, slot), slot)),
     CredentialLedger.PutTx(Stored(BuildCredential(x, c, slotC), slotC))]
  }

  /** A third device whose credential has the initiator's TID enrolls last: the handshake of the other two fails. */
  lemma {:induction false} SharedTidBreaksHandshake(
    x: Crypto, a: Device, b: Device, c: Device, slot: u16, slotC: u16, r: Coins, nj: Digest)
    requires DecryptsEncryptions(x)
    requires IdentityHash(x, a) != IdentityHash(x, b) && IdentityHash(x, a) != IdentityHash(x, c)
    requires IdentityHash(x, b) != IdentityHash(x, c)
    requires BuildCredential(x, c, slotC).tid == BuildCredential(x, a, slot).tid
    ensures var txs := Enrollments(x, a, b, c, slot, slotC);
      && Fleet(x, {a, b, c}, a, b, txs, slot)
      && !AgreeThroughLedger(x, a, b, CredentialLedger.CommitAll(txs), slot, r, nj)
  {
    hide BuildCredential, IdentityHash, AgreeThroughLedger, LedgerRecord, LedgerLookup, CredentialLedger.CommitAll,
         CredentialLedger.CheckCredential, HexEncode, CredentialLedger.TidKey, CredentialLedger.CredentialKey;
    var (cA, cB, cC) := (BuildCredential(x, a, slot), BuildCredential(x, b, slot), BuildCredential(x, c, slotC));
    IdentityOf(x, a, slot);
    IdentityOf(x, b, slot);
    IdentityOf(x, c, slotC);
    CredentialRoundTrip(cA, slot);
    CredentialRoundTrip(cB, slot);
    CredentialRoundTrip(cC, slotC);
    HexInjective(cA.identityHash, cB.identityHash);
    HexInjective(cA.identityHash, cC.identityHash);
    HexInjective(cB.identityHash, cC.identityHash);
    ThreeEnrollments(Stored(cA, slot), Stored(cB, slot), Stored(cC, slotC));
    var txs := Enrollments(x, a, b, c, slot, slotC);
    var t := CredentialLedger.CommitAll(txs);
    FoundByKey(t, cA, slot);
    FoundByKey(t, cB, slot);
    FoundByKey(t, cC, slotC);
    assert EnrolledByOne(x, {a, b, c}, Stored(cA, slot)) && EnrolledByOne(x, {a, b, c}, Stored(cB, slot))
        && EnrolledByOne(x, {a, b, c}, Stored(cC, slotC));
    KeyAgreementThroughLedger(x, {a, b, c}, a, b, txs, slot, r, nj);
  }

  /** In particular, no put having reused a TID that another key held, every two enrolled devices agree. */
  lemma {:induction false} KeyAgreementWithoutSharedTids(
    x: Crypto, ds: set<Device>, a: Device, b: Device, txs: seq<CredentialLedger.Transaction>, slot: u16,
    r: Coins, nj: Digest)
    requires DecryptsEncryptions(x) && Fleet(x, ds, a, b, txs, slot) && CredentialLedger.NoSharedTids(txs)
    ensures AgreeThroughLedger(x, a, b, CredentialLedger.CommitAll(txs), slot, r, nj)
  {
    hide BuildCredential, IdentityHash, AgreeThroughLedger, LedgerRecord, LedgerLookup;
    CredentialLedger.ReachableTables(txs);
    OnlyEnrolledRecords(x, ds, txs);
    RecordIsOwners(x, ds, CredentialLedger.CommitAll(txs), a, slot);
    OwnTidIsFound(x, CredentialLedger.CommitAll(txs), a, slot);
    IdentityOf(x, a, slot);
    KeyAgreementThroughLedger(x, ds, a, b, txs, slot, r, nj);
  }
}
