/** What the hashes of the APQE handshake bind: slots, device secrets, records and session keys. */
module ApqeBinding {
  import opened Octets
  import opened Wrappers
  import opened Bits
  import opened CredentialCodec
  import opened ApqeHandshake
  import CredentialLedger

  // --- Slots -----------------------------------------------------------------------------

  function ChallengeInput(d: Device, slot: u16): Bytes {
    [0x41, 0x50, 0x51, 0x45, 0x2d, 0x43, 0x48, 0x41, 0x4c] + d.deviceId + [slot / 256, slot % 256]
  }

  lemma ChallengeInputDetermines(d: Device, slot: u16, d': Device, slot': u16)
    requires ChallengeInput(d, slot) == ChallengeInput(d', slot')
    ensures d.deviceId == d'.deviceId && slot == slot'
  {
    var a, b := ChallengeInput(d, slot), ChallengeInput(d', slot');
    assert a[9..41] == d.deviceId && b[9..41] == d'.deviceId;
    assert a[41] == slot / 256 && a[42] == slot % 256 && b[41] == slot' / 256 && b[42] == slot' % 256;
  }

  /** Two credentials of one device with one TID are of one slot, unless their challenge inputs collide. */
  lemma {:induction false} SlotsHaveOwnTids(x: Crypto, d: Device, slot: u16, slot': u16)
    requires BuildCredential(x, d, slot).tid == BuildCredential(x, d, slot').tid
    requires SameOrCollide(x, ChallengeInput(d, slot), ChallengeInput(d, slot'))
    ensures slot == slot'
  {
    hide XorAll, BuildCredential, ReversibleMap, ChallengeInput;
    ResponseFromHelper(x, d, slot);
    ResponseFromHelper(x, d, slot');
    ChallengeIsHashed(x, d, slot);
    ChallengeIsHashed(x, d, slot');
    ChallengeInputDetermines(d, slot, d, slot');
  }

  lemma ChallengeIsHashed(x: Crypto, d: Device, slot: u16)
    ensures Challenge(x, d, slot) == x.sha(ChallengeInput(d, slot))
  {
    assert LABEL_CHAL + d.deviceId + U16(slot) == ChallengeInput(d, slot);
  }

  // --- All slots of a device through the ledger ----------------------------------------------

  /** The enrollment loop of a device over its first n slots. */
  function SlotEnrollments(x: Crypto, d: Device, n: nat): (txs: seq<CredentialLedger.Transaction>)
    requires n <= 0x1_0000
    ensures |txs| == n
  {
    seq(n, slot requires 0 <= slot < n => CredentialLedger.PutTx(Stored(BuildCredential(x, d, slot), slot)))
  }

  predicate SlotsDiffer(x: Crypto, d: Device, slot: u16, slot': u16) {
    SameOrCollide(x, ChallengeInput(d, slot), ChallengeInput(d, slot'))
  }

  ghost predicate ChallengesAreFree(x: Crypto, d: Device) {
    forall slot: u16, slot': u16 :: SlotsDiffer(x, d, slot, slot')
  }

  /** No slot of the loop takes the TID of another, unless two challenge inputs collide. */
  lemma {:induction false} LoopSharesNoTids(x: Crypto, d: Device, n: nat)
    requires n <= 0x1_0000 && ChallengesAreFree(x, d)
    ensures CredentialLedger.NoSharedTids(SlotEnrollments(x, d, n))
  {
    hide BuildCredential, HexEncode, CredentialLedger.CommitAll, CredentialLedger.KeyOf, CredentialLedger.TidKey,
         CredentialLedger.CheckCredential, EnrolledByOne, ChallengeInput, SameOrCollide;
    var txs := SlotEnrollments(x, d, n);
    forall slot: nat | slot < n
      ensures !CredentialLedger.HeldElsewhere(CredentialLedger.CommitAll(txs[..slot]), txs[slot].credential.tid,
                                              CredentialLedger.KeyOf(txs[slot].credential))
    {
      var before := txs[..slot];
      var t := CredentialLedger.CommitAll(before);
      forall tx | tx in before ensures tx.PutTx? && EnrolledByOne(x, {d}, tx.credential) {
        var s: nat :| s < slot && before[s] == tx;
        EnrolledAt(x, d, s);
      }
      OnlyEnrolledRecords(x, {d}, before);
      CredentialLedger.ReachableTables(before);
      forall k | k in t && t[k].Record? && t[k].credential.tid == txs[slot].credential.tid
        ensures k == CredentialLedger.KeyOf(txs[slot].credential)
      {
        var owner, built := Builder(x, {d}, t[k].credential);
        HexInjective(BuildCredential(x, d, built).tid, BuildCredential(x, d, slot).tid);
        assert SlotsDiffer(x, d, built, slot);
        SlotsHaveOwnTids(x, d, built, slot);
        assert CredentialLedger.EntryOk(t, k);
      }
    }
  }

  lemma EnrolledAt(x: Crypto, d: Device, slot: u16)
    ensures EnrolledByOne(x, {d}, Stored(BuildCredential(x, d, slot), slot))
  {
    hide BuildCredential, Stored;
    assert d in {d};
  }

  lemma {:induction false} LoopPutsSlot(x: Crypto, d: Device, n: nat, slot: u16)
    requires slot < n <= 0x1_0000
    ensures CredentialLedger.LastPut(SlotEnrollments(x, d, n), HexEncode(IdentityHash(x, d)), slot)
         == CredentialLedger.Ok(Stored(BuildCredential(x, d, slot), slot))
  {
    hide BuildCredential, IdentityHash, HexEncode, CredentialLedger.CheckCredential;
    var txs := SlotEnrollments(x, d, n);
    assert txs[..n - 1] == SlotEnrollments(x, d, n - 1);
    IdentityOf(x, d, n - 1);
    CredentialRoundTrip(BuildCredential(x, d, n - 1), n - 1);
    if slot < n - 1 {
      LoopPutsSlot(x, d, n - 1, slot);
    }
  }

  /**
   After the enrollment loop of a device every one of its slots is found, under identity and slot and under its own
   TID, unless two challenge inputs collide.
   */
  lemma {:induction false} EverySlotIsFound(x: Crypto, d: Device, n: nat, slot: u16)
    requires slot < n <= 0x1_0000 && ChallengesAreFree(x, d)
    ensures var t := CredentialLedger.CommitAll(SlotEnrollments(x, d, n));
      && LedgerRecord(t, IdentityHash(x, d), slot) == Some(BuildCredential(x, d, slot))
      && LedgerLookup(t, BuildCredential(x, d, slot).tid) == Some(BuildCredential(x, d, slot))
  {
    hide BuildCredential, IdentityHash, HexEncode, SlotEnrollments, LedgerRecord, LedgerLookup, ChallengesAreFree,
         CredentialLedger.Sound, CredentialLedger.Complete, CredentialLedger.CommitAll, CredentialLedger.LastPut;
    var txs := SlotEnrollments(x, d, n);
    var t := CredentialLedger.CommitAll(txs);
    LoopSharesNoTids(x, d, n);
    CredentialLedger.ReachableTables(txs);
    LoopPutsSlot(x, d, n, slot);
    CredentialLedger.QueriesFollowHistory(txs, HexEncode(IdentityHash(x, d)), slot);
    IdentityOf(x, d, slot);
    FoundByKey(t, BuildCredential(x, d, slot), slot);
    OwnTidIsFound(x, t, d, slot);
  }

  // --- Device secrets ------------------------------------------------------------------------

  /** Equal identities, masks, seeds or secrets are of equal device contents, unless the named inputs collide. */
  lemma {:induction false} DeviceSecretsBind(x: Crypto, d: Device, e: Device)
    ensures IdentityHash(x, d) == IdentityHash(x, e) && SameOrCollide(x, d.deviceId, e.deviceId)
        ==> d.deviceId == e.deviceId
    ensures CommutativeMask(x, d) == CommutativeMask(x, e)
        && SameOrCollide(x, LABEL_COMM + d.bsPufSecret, LABEL_COMM + e.bsPufSecret)
        ==> d.bsPufSecret == e.bsPufSecret
    ensures ReversibleSecret(x, d) == ReversibleSecret(x, e)
        && SameOrCollide(x, LABEL_REV + d.bsPufSecret, LABEL_REV + e.bsPufSecret)
        ==> d.bsPufSecret == e.bsPufSecret
    ensures KyberSeed(x, d) == KyberSeed(x, e)
        && SameOrCollide(x, LABEL_SRAM + d.rawSram + d.helper, LABEL_SRAM + e.rawSram + e.helper)
        ==> d.rawSram == e.rawSram && d.helper == e.helper
  {
    assert (LABEL_COMM + d.bsPufSecret)[9..] == d.bsPufSecret && (LABEL_COMM + e.bsPufSecret)[9..] == e.bsPufSecret;
    assert (LABEL_REV + d.bsPufSecret)[8..] == d.bsPufSecret && (LABEL_REV + e.bsPufSecret)[8..] == e.bsPufSecret;
    var a, b := LABEL_SRAM + d.rawSram + d.helper, LABEL_SRAM + e.rawSram + e.helper;
    assert a[11..43] == d.rawSram && a[43..] == d.helper && b[11..43] == e.rawSram && b[43..] == e.helper;
  }

  function ReversibleMaskInput(x: Crypto, d: Device): Bytes {
    LABEL_MASK + x.sha(x.secretKey(KyberSeed(x, d))) + ReversibleSecret(x, d)
  }

  /** The mask of the reversible map depends on the decryption key and on the PUF secret. */
  lemma {:induction false} ReversibleMaskBinds(x: Crypto, d: Device, e: Device)
    requires ReversibleMask(x, d) == ReversibleMask(x, e)
    requires SameOrCollide(x, ReversibleMaskInput(x, d), ReversibleMaskInput(x, e))
    requires SameOrCollide(x, SecretKey(x, d), SecretKey(x, e))
    requires SameOrCollide(x, LABEL_REV + d.bsPufSecret, LABEL_REV + e.bsPufSecret)
    ensures SecretKey(x, d) == SecretKey(x, e) && d.bsPufSecret == e.bsPufSecret
  {
    hide KyberSeed, ReversibleSecret, CommutativeMask;
    var a, b := ReversibleMaskInput(x, d), ReversibleMaskInput(x, e);
    assert a[8..40] == x.sha(SecretKey(x, d)) && a[40..] == ReversibleSecret(x, d);
    assert b[8..40] == x.sha(SecretKey(x, e)) && b[40..] == ReversibleSecret(x, e);
    DeviceSecretsBind(x, d, e);
  }

  /** Two devices whose map sends one input to one image share the secret behind it, unless named inputs collide. */
  lemma {:induction false} MapsBind(x: Crypto, d: Device, e: Device, input: Digest)
    ensures CommutativeMap(x, d, input) == CommutativeMap(x, e, input)
        && SameOrCollide(x, LABEL_COMM + d.bsPufSecret, LABEL_COMM + e.bsPufSecret)
        ==> d.bsPufSecret == e.bsPufSecret
    ensures ReversibleMap(x, d, input) == ReversibleMap(x, e, input)
        && SameOrCollide(x, ReversibleMaskInput(x, d), ReversibleMaskInput(x, e))
        && SameOrCollide(x, SecretKey(x, d), SecretKey(x, e))
        && SameOrCollide(x, LABEL_REV + d.bsPufSecret, LABEL_REV + e.bsPufSecret)
        ==> SecretKey(x, d) == SecretKey(x, e) && d.bsPufSecret == e.bsPufSecret
  {
    hide XorAll, CommutativeMask, ReversibleMask, ReversibleMaskInput, SameOrCollide, SecretKey;
    if CommutativeMap(x, d, input) == CommutativeMap(x, e, input) {
      XorAllLeftInjective(input, CommutativeMask(x, d), CommutativeMask(x, e));
      DeviceSecretsBind(x, d, e);
    }
    if ReversibleMap(x, d, input) == ReversibleMap(x, e, input)
      && SameOrCollide(x, ReversibleMaskInput(x, d), ReversibleMaskInput(x, e))
      && SameOrCollide(x, SecretKey(x, d), SecretKey(x, e))
      && SameOrCollide(x, LABEL_REV + d.bsPufSecret, LABEL_REV + e.bsPufSecret) {
      XorAllLeftInjective(input, ReversibleMask(x, d), ReversibleMask(x, e));
      ReversibleMaskBinds(x, d, e);
    }
  }

  /** The two maps of a fleet never share a mask input, nor a device's secret one with an identity. */
  lemma {:induction false} MaskInputsAreSeparate(x: Crypto, d: Device, e: Device, slot: u16)
    ensures LABEL_COMM + d.bsPufSecret != LABEL_REV + e.bsPufSecret
    ensures ChallengeInput(d, slot) !in {LABEL_COMM + e.bsPufSecret, LABEL_REV + e.bsPufSecret, e.deviceId,
                                         LABEL_SRAM + e.rawSram + e.helper, ReversibleMaskInput(x, e)}
    ensures LABEL_SRAM + d.rawSram + d.helper != ReversibleMaskInput(x, e)
  {
    hide KyberSeed, ReversibleSecret;
    assert |LABEL_COMM + d.bsPufSecret| == 41 && |LABEL_REV + e.bsPufSecret| == 40;
    assert |ChallengeInput(d, slot)| == 43 && |ReversibleMaskInput(x, e)| == 72;
    assert |LABEL_SRAM + d.rawSram + d.helper| == 75;
  }

  // --- Records ---------------------------------------------------------------------------------

  /**
   A record whose verifier is that of another one passes exactly if identity, helper value and public key are the
   same, unless the two inputs collide. The TID is not covered.
   */
  lemma {:induction false} VerifierCoversExactlyThreeFields(x: Crypto, c: FabricCredential, c': FabricCredential)
    requires VerifyCredential(x, c) && c'.verifyHash == c.verifyHash
    requires SameOrCollide(x, c.identityHash + c.w + c.publicKey, c'.identityHash + c'.w + c'.publicKey)
    ensures VerifyCredential(x, c')
       <==> c'.identityHash == c.identityHash && c'.w == c.w && c'.publicKey == c.publicKey
  {
    var a, b := c.identityHash + c.w + c.publicKey, c'.identityHash + c'.w + c'.publicKey;
    assert a[..32] == c.identityHash && a[32..64] == c.w && a[64..] == c.publicKey;
    assert b[..32] == c'.identityHash && b[32..64] == c'.w && b[64..] == c'.publicKey;
  }

  /** M1 leaves exactly with the device's own record and its peer's, both verified, and carries their TIDs. */
  lemma {:induction false} SentM1IsSealed(x: Crypto, a: Device, peerIdentity: Digest, own: FabricCredential,
      peer: FabricCredential, r: Coins)
    ensures var m1 := SendM1(x, a, peerIdentity, own, peer, r);
      && (m1.Some? <==> && own.identityHash == x.sha(a.deviceId) && peer.identityHash == peerIdentity
                        && own.publicKey == PublicKey(x, a)
                        && own.verifyHash == x.sha(own.identityHash + own.w + own.publicKey)
                        && peer.verifyHash == x.sha(peer.identityHash + peer.w + peer.publicKey))
      && (m1.Some? ==>
            var ci := ReversibleMap(x, a, own.tid);
            m1.value == SealedM1(x, peer.publicKey, own.tid, ci, r.ni, peer.tid,
                                 x.sha(own.tid + ci + r.ni + peer.tid), r))
  {
    hide ReversibleMap, PublicKey;
  }

  // --- The session key ---------------------------------------------------------------------------

  /** Equal session keys are of equal temporary keys and equal nonces, each in its place, unless the inputs collide. */
  lemma {:induction false} SessionHashBinds(x: Crypto, tkJi: Digest, tkIj: Digest, ni: Digest, nj: Digest,
      tkJi': Digest, tkIj': Digest, ni': Digest, nj': Digest)
    requires SessionHash(x, tkJi, tkIj, ni, nj) == SessionHash(x, tkJi', tkIj', ni', nj')
    requires SameOrCollide(x, tkJi + tkIj + ni + nj, tkJi' + tkIj' + ni' + nj')
    ensures tkJi == tkJi' && tkIj == tkIj' && ni == ni' && nj == nj'
  {
    FourDigests(tkJi, tkIj, ni, nj, tkJi', tkIj', ni', nj');
  }
}
