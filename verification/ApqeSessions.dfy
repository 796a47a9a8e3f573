/** The APQE device as the firmware runs it: PUF masks as fields, message buffers filled in place. */
module ApqeSessions {
  import opened Octets
  import opened Wrappers
  import opened Bits
  import opened CredentialCodec
  import opened ApqeHandshake

  const EI_BLOCKS := 4
  const CIPHERTEXT_BYTES := 768
  const M1_BYTES := 3104
  const M2_BYTES := 128
  const M3_BYTES := 64

  // --- Messages as bytes ----------------------------------------------------------------

  function EncodeM1(m: M1): (r: Bytes)
    ensures |r| == M1_BYTES
  {
    m.c0 + m.c1 + m.c2 + m.c3 + m.h1
  }

  function DecodeM1(b: Bytes): M1
    requires |b| == M1_BYTES
  {
    M1(b[..768], b[768..1536], b[1536..2304], b[2304..3072], b[3072..])
  }

  function EncodeM2(m: M2): (r: Bytes)
    ensures |r| == M2_BYTES
  {
    m.tn + m.p0 + m.p1 + m.h2
  }

  function DecodeM2(b: Bytes): M2
    requires |b| == M2_BYTES
  {
    M2(b[..32], b[32..64], b[64..96], b[96..])
  }

  function EncodeM3(m: M3): (r: Bytes)
    ensures |r| == M3_BYTES
  {
    m.tn + m.h3
  }

  function DecodeM3(b: Bytes): M3
    requires |b| == M3_BYTES
  {
    M3(b[..32], b[32..])
  }

  /** Every message is read back as it was written. */
  lemma MessagesRoundTrip(m1: M1, m2: M2, m3: M3)
    ensures DecodeM1(EncodeM1(m1)) == m1 && DecodeM2(EncodeM2(m2)) == m2 && DecodeM3(EncodeM3(m3)) == m3
  {
    var b1, b2, b3 := EncodeM1(m1), EncodeM2(m2), EncodeM3(m3);
    assert b1[..768] == m1.c0 && b1[768..1536] == m1.c1 && b1[1536..2304] == m1.c2 && b1[2304..3072] == m1.c3
      && b1[3072..] == m1.h1;
    assert b2[..32] == m2.tn && b2[32..64] == m2.p0 && b2[64..96] == m2.p1 && b2[96..] == m2.h2;
    assert b3[..32] == m3.tn && b3[32..] == m3.h3;
  }

  // --- XOR loops -------------------------------------------------------------------------

  method XorDigests(a: Digest, b: Digest) returns (r: Digest)
    ensures r == XorAll(a, b)
  {
    var output := new byte[32];
    XorInto(a, b, output, 0);
    assert output[0..0 + 32] == output[..];
    r := output[..];
  }

  /** `maskPair`: two halves under one mask. */
  method MaskPair(key: Digest, first: Digest, second: Digest, output: array<byte>, offset: nat)
    requires offset + 64 <= output.Length
    modifies output
    ensures output[..offset] == old(output[..offset])
    ensures output[offset..offset + 64] == XorAll(first, key) + XorAll(second, key)
    ensures output[offset + 64..] == old(output[offset + 64..])
  {
    XorInto(first, key, output, offset);
    ghost var half := output[..];
    assert half[offset + 64..] == half[offset + 32..][32..];
    XorInto(second, key, output, offset + 32);
    assert output[..offset + 32][..offset] == half[..offset + 32][..offset];
    assert output[offset..offset + 32] == output[..offset + 32][offset..] == half[offset..offset + 32];
    assert output[offset..offset + 64] == output[offset..offset + 32] + output[offset + 32..offset + 32 + 32];
  }

  // --- The software PUF ---------------------------------------------------------------------

  class SoftwarePuf {
    const x: Crypto
    var rawSram: Digest
    var helper: Digest
    var commutativeMask: Digest
    var reversibleSecret: Digest

    constructor (x: Crypto)
      ensures this.x == x
    {
      this.x := x;
      rawSram, helper, commutativeMask, reversibleSecret := ZERO_DIGEST, ZERO_DIGEST, ZERO_DIGEST, ZERO_DIGEST;
    }

    ghost predicate IsOf(d: Device)
      reads this
    {
      && rawSram == d.rawSram && helper == d.helper
      && commutativeMask == CommutativeMask(x, d) && reversibleSecret == ReversibleSecret(x, d)
    }

    method Begin(rawSram: Digest, helper: Digest, bsPufSecret: Digest)
      modifies this
      ensures forall id: Digest :: IsOf(Device(id, rawSram, helper, bsPufSecret))
    {
      this.rawSram, this.helper := rawSram, helper;
      commutativeMask := x.sha(LABEL_COMM + bsPufSecret);
      reversibleSecret := x.sha(LABEL_REV + bsPufSecret);
    }

    method ReconstructKyberSeed(ghost d: Device) returns (seed: Digest)
      requires IsOf(d)
      ensures seed == KyberSeed(x, d)
    {
      seed := x.sha(LABEL_SRAM + rawSram + helper);
    }

    method Map(ghost d: Device, input: Digest) returns (output: Digest)
      requires IsOf(d)
      ensures output == CommutativeMap(x, d, input)
    {
      output := XorDigests(input, commutativeMask);
    }

    method MapReversibly(ghost d: Device, secretKey: Bytes, input: Digest) returns (output: Digest)
      requires IsOf(d) && secretKey == SecretKey(x, d)
      ensures output == ReversibleMap(x, d, input)
    {
      var mask := x.sha(LABEL_MASK + x.sha(secretKey) + reversibleSecret);
      output := XorDigests(input, mask);
    }
  }

  // --- Encryption and decryption of four blocks -----------------------------------------------

  function CoinsAt(r: Coins, block: nat): Digest
    requires block < EI_BLOCKS
  {
    [r.coins0, r.coins1, r.coins2, r.coins3][block]
  }

  /** The first n ciphertexts of a 128-byte plaintext, end to end. */
  function Encrypted(x: Crypto, key: KyberKey, ei: Bytes, r: Coins, n: nat): (b: Bytes)
    requires |ei| == 128 && n <= EI_BLOCKS
    ensures |b| == CIPHERTEXT_BYTES * n
  {
    if n == 0 then [] else Encrypted(x, key, ei, r, n - 1) + x.encrypt(ei[32 * (n - 1)..32 * n], key, CoinsAt(r, n - 1))
  }

  function Decrypted(x: Crypto, sk: Bytes, m1: Bytes, n: nat): (b: Bytes)
    requires |m1| == M1_BYTES && n <= EI_BLOCKS
    ensures |b| == 32 * n
  {
    if n == 0 then []
    else Decrypted(x, sk, m1, n - 1) + x.decrypt(m1[CIPHERTEXT_BYTES * (n - 1)..CIPHERTEXT_BYTES * n], sk)
  }

  lemma FourCiphertexts(x: Crypto, key: KyberKey, a: Digest, b: Digest, c: Digest, d: Digest, r: Coins)
    ensures Encrypted(x, key, a + b + c + d, r, 4)
         == x.encrypt(a, key, r.coins0) + x.encrypt(b, key, r.coins1)
            + x.encrypt(c, key, r.coins2) + x.encrypt(d, key, r.coins3)
  {
    var ei := a + b + c + d;
    assert ei[..32] == a && ei[32..64] == b && ei[64..96] == c && ei[96..128] == d;
    assert Encrypted(x, key, ei, r, 1) == x.encrypt(a, key, r.coins0);
    assert Encrypted(x, key, ei, r, 2) == Encrypted(x, key, ei, r, 1) + x.encrypt(b, key, r.coins1);
    assert Encrypted(x, key, ei, r, 3) == Encrypted(x, key, ei, r, 2) + x.encrypt(c, key, r.coins2);
  }

  lemma FourPlaintexts(x: Crypto, sk: Bytes, m1: Bytes)
    requires |m1| == M1_BYTES
    ensures var m := DecodeM1(m1);
      Decrypted(x, sk, m1, 4) == x.decrypt(m.c0, sk) + x.decrypt(m.c1, sk) + x.decrypt(m.c2, sk) + x.decrypt(m.c3, sk)
  {
    assert Decrypted(x, sk, m1, 1) == x.decrypt(m1[..768], sk);
    assert Decrypted(x, sk, m1, 2) == Decrypted(x, sk, m1, 1) + x.decrypt(m1[768..1536], sk);
    assert Decrypted(x, sk, m1, 3) == Decrypted(x, sk, m1, 2) + x.decrypt(m1[1536..2304], sk);
  }

  // --- The device ---------------------------------------------------------------------------------

  class Protocol {
    const x: Crypto
    const puf: SoftwarePuf
    ghost const device: Device
    const deviceId: Digest
    const identityHash: Digest
    const peerIdentityHash: Digest
    const publicKey: KyberKey
    const secretKey: Bytes
    const m1: array<byte>
    const m2: array<byte>
    const m3: array<byte>

    ghost predicate Valid()
      reads puf
    {
      && puf.x == x && puf.IsOf(device) && deviceId == device.deviceId && identityHash == IdentityHash(x, device)
      && publicKey == PublicKey(x, device) && secretKey == SecretKey(x, device)
      && m1.Length == M1_BYTES && m2.Length == M2_BYTES && m3.Length == M3_BYTES && m1 != m2 && m1 != m3 && m2 != m3
    }

    /** Factory contents in, keys derived from the reconstructed seed. */
    constructor (x: Crypto, d: Device, peerId: Digest)
      ensures Valid() && fresh(puf) && fresh(m1) && fresh(m2) && fresh(m3)
      ensures this.x == x && device == d && peerIdentityHash == x.sha(peerId)
    {
      var p := new SoftwarePuf(x);
      p.Begin(d.rawSram, d.helper, d.bsPufSecret);
      assert p.IsOf(Device(d.deviceId, d.rawSram, d.helper, d.bsPufSecret));
      var seed := p.ReconstructKyberSeed(d);
      this.x, puf, device, deviceId := x, p, d, d.deviceId;
      identityHash, peerIdentityHash := x.sha(d.deviceId), x.sha(peerId);
      publicKey, secretKey := x.publicKey(seed), x.secretKey(seed);
      m1 := new byte[M1_BYTES];
      m2 := new byte[M2_BYTES];
      m3 := new byte[M3_BYTES];
    }

    method EnrollmentCredential(slot: u16) returns (c: FabricCredential)
      requires Valid()
      ensures c == BuildCredential(x, device, slot)
      ensures c.tid == XorAll(x.sha(LABEL_CHAL + device.deviceId + U16(slot)), ReversibleMask(x, device))
      ensures c.verifyHash == x.sha(c.identityHash + c.w + c.publicKey)
    {
      hide XorAll;
      var challenge := x.sha(LABEL_CHAL + deviceId + U16(slot));
      var tid := puf.MapReversibly(device, secretKey, challenge);
      var response := puf.Map(device, challenge);
      var w := XorDigests(response, x.sha(challenge));
      c := FabricCredential(identityHash, tid, publicKey, w, x.sha(identityHash + w + publicKey));
    }

    method CheckCredential(c: FabricCredential) returns (ok: bool)
      ensures ok == VerifyCredential(x, c)
    {
      var expected := x.sha(c.identityHash + c.w + c.publicKey);
      ok := ConstantTimeEqual(expected, c.verifyHash, 32);
      assert expected[..32] == expected && c.verifyHash[..32] == c.verifyHash;
    }

    method SameDigest(a: Digest, b: Digest) returns (same: bool)
      ensures same == (a == b)
    {
      same := ConstantTimeEqual(a, b, 32);
      assert a[..32] == a && b[..32] == b;
    }

    method HashThree(a: Digest, b: Digest, c: Digest) returns (h: Digest)
      ensures h == x.sha(a + b + c)
    {
      h := x.sha(a + b + c);
    }

    method HashFour(a: Digest, b: Digest, c: Digest, d: Digest) returns (h: Digest)
      ensures h == x.sha(a + b + c + d)
    {
      h := x.sha(a + b + c + d);
    }

    // --- As initiator

    /** The five checks on the two records fetched from the ledger. */
    method CheckRecords(own: FabricCredential, peer: FabricCredential, ghost r: Coins) returns (ok: bool)
      requires Valid()
      ensures ok == SendM1(x, device, peerIdentityHash, own, peer, r).Some?
    {
      hide VerifyCredential, ReversibleMap, IdentityHash, PublicKey;
      var mine := SameDigest(own.identityHash, identityHash);
      var theirs := SameDigest(peer.identityHash, peerIdentityHash);
      var ownOk := CheckCredential(own);
      var peerOk := CheckCredential(peer);
      var key := ConstantTimeEqual(own.publicKey, publicKey, 800);
      assert own.publicKey[..800] == own.publicKey && publicKey[..800] == publicKey;
      ok := mine && theirs && ownOk && peerOk && key;
    }

    method EncryptBlocks(key: KyberKey, ei: Bytes, r: Coins)
      requires Valid() && |ei| == 128
      modifies m1
      ensures m1[..3072] == Encrypted(x, key, ei, r, 4)
    {
      for block := 0 to EI_BLOCKS
        invariant m1[..CIPHERTEXT_BYTES * block] == Encrypted(x, key, ei, r, block)
      {
        Write(m1, block * CIPHERTEXT_BYTES, x.encrypt(ei[block * 32..block * 32 + 32], key, CoinsAt(r, block)));
      }
    }

    method FillM1(own: FabricCredential, peer: FabricCredential, r: Coins)
      requires Valid() && SendM1(x, device, peerIdentityHash, own, peer, r).Some?
      modifies m1
      ensures m1[..] == EncodeM1(SendM1(x, device, peerIdentityHash, own, peer, r).value)
    {
      hide ReversibleMap, VerifyCredential, Encrypted, IdentityHash, PublicKey;
      var ci := puf.MapReversibly(device, secretKey, own.tid);
      var ei := own.tid + ci + r.ni + peer.tid;
      EncryptBlocks(peer.publicKey, ei, r);
      FourCiphertexts(x, peer.publicKey, own.tid, ci, r.ni, peer.tid, r);
      Write(m1, EI_BLOCKS * CIPHERTEXT_BYTES, x.sha(ei));
      assert m1[..M1_BYTES] == m1[..];
    }

    /** From M2 in the buffer to M3 in the buffer. */
    method ProcessM2(peer: FabricCredential, ni: Digest) returns (ok: bool, keys: Keys)
      requires Valid()
      modifies m3
      ensures var answer := AnswerM2(x, device, peer, ni, DecodeM2(m2[..]));
        ok == answer.Some? && (ok ==> m3[..] == EncodeM3(answer.value.0) && keys == answer.value.1)
    {
      hide XorAll, CommutativeMap;
      keys := Keys(ZERO_DIGEST, ZERO_DIGEST, ZERO_DIGEST);
      var message := DecodeM2(m2[..]);
      var tkJ := XorDigests(message.tn, ni);
      var tkJi := puf.Map(device, tkJ);
      var cj := XorDigests(message.p0, tkJi);
      var nj := XorDigests(message.p1, tkJi);
      var h2 := HashFour(tkJi, tkJ, cj, nj);
      ok := SameDigest(h2, message.h2);
      if !ok {
        return;
      }
      var rj := XorDigests(peer.w, x.sha(cj));
      var tkI := puf.Map(device, cj);
      var tkIj := puf.Map(device, rj);
      var tn := XorDigests(tkI, nj);
      var session := HashFour(tkJi, tkIj, ni, nj);
      var h3 := HashThree(tkIj, tkI, session);
      Write(m3, 0, tn);
      Write(m3, 32, h3);
      assert m3[..64] == m3[..];
      keys := Keys(tkJi, tkIj, session);
    }

    /** `runInitiatorSession` up to sending M3; a missing record or message is a failed query or a timeout. */
    method RunInitiatorSession(own: Option<FabricCredential>, peer: Option<FabricCredential>, r: Coins,
        incoming: Option<Bytes>)
      returns (ok: bool, keys: Keys)
      requires Valid()
      modifies m1, m2, m3
      ensures ok <==>
        && own.Some? && peer.Some? && SendM1(x, device, peerIdentityHash, own.value, peer.value, r).Some?
        && incoming.Some? && |incoming.value| == M2_BYTES
        && AnswerM2(x, device, peer.value, r.ni, DecodeM2(incoming.value)).Some?
      ensures ok ==> var answer := AnswerM2(x, device, peer.value, r.ni, DecodeM2(incoming.value)).value;
        && m1[..] == EncodeM1(SendM1(x, device, peerIdentityHash, own.value, peer.value, r).value)
        && m3[..] == EncodeM3(answer.0) && keys == answer.1
    {
      hide SendM1, AnswerM2, DecodeM2;
      keys := Keys(ZERO_DIGEST, ZERO_DIGEST, ZERO_DIGEST);
      if own.None? || peer.None? {
        return false, keys;
      }
      ok := CheckRecords(own.value, peer.value, r);
      if !ok {
        return;
      }
      FillM1(own.value, peer.value, r);
      if incoming.None? || |incoming.value| != M2_BYTES {
        return false, keys;
      }
      Write(m2, 0, incoming.value);
      assert m2[..] == m2[..M2_BYTES] == incoming.value;
      ok, keys := ProcessM2(peer.value, r.ni);
    }

    // --- As responder

    method DecryptBlocks() returns (ei: Bytes)
      requires Valid()
      ensures ei == Decrypted(x, secretKey, m1[..], 4)
    {
      var buffer := new byte[128];
      for block := 0 to EI_BLOCKS
        invariant buffer[..32 * block] == Decrypted(x, secretKey, m1[..], block)
      {
        var offset := block * CIPHERTEXT_BYTES;
        Write(buffer, block * 32, x.decrypt(m1[..][offset..offset + CIPHERTEXT_BYTES], secretKey));
      }
      assert buffer[..128] == buffer[..];
      ei := buffer[..];
    }

    /** Decrypts the four fields of M1 and checks H1 over them. */
    method OpenM1() returns (ok: bool, tidI: Digest, ci: Digest, ni: Digest, tidJ: Digest)
      requires Valid()
      ensures var m := DecodeM1(m1[..]);
        && tidI == x.decrypt(m.c0, secretKey) && ci == x.decrypt(m.c1, secretKey)
        && ni == x.decrypt(m.c2, secretKey) && tidJ == x.decrypt(m.c3, secretKey)
        && ok == (x.sha(tidI + ci + ni + tidJ) == m.h1)
    {
      hide Decrypted;
      var ei := DecryptBlocks();
      FourPlaintexts(x, secretKey, m1[..]);
      tidI, ci, ni, tidJ := ei[..32], ei[32..64], ei[64..96], ei[96..];
      ghost var m := DecodeM1(m1[..]);
      PartsOf(ei, x.decrypt(m.c0, secretKey), x.decrypt(m.c1, secretKey), x.decrypt(m.c2, secretKey),
        x.decrypt(m.c3, secretKey));
      assert m1[..][3072..] == m1[3072..];
      ok := SameDigest(x.sha(ei), m1[3072..]);
    }

    lemma PartsOf(ei: Bytes, a: Digest, b: Digest, c: Digest, d: Digest)
      requires ei == a + b + c + d
      ensures ei[..32] == a && ei[32..64] == b && ei[64..96] == c && ei[96..] == d
    {
    }

    /** The TID query and the two checks on what it finds. */
    method FetchInitiator(lookup: Digest -> Option<FabricCredential>, tidI: Digest) returns (ok: bool, w: Digest)
      requires Valid()
      ensures ok == (lookup(tidI).Some? && lookup(tidI).value.identityHash == peerIdentityHash
        && VerifyCredential(x, lookup(tidI).value))
      ensures ok ==> w == lookup(tidI).value.w
    {
      var found := lookup(tidI);
      w := ZERO_DIGEST;
      if found.None? {
        return false, w;
      }
      var expected := SameDigest(found.value.identityHash, peerIdentityHash);
      var verified := CheckCredential(found.value);
      return expected && verified, found.value.w;
    }

    /** From M1 in the buffer to M2 in the buffer; `lookup` is the TID query. */
    method ProcessM1(lookup: Digest -> Option<FabricCredential>, nj: Digest) returns (ok: bool, waiting: Waiting)
      requires Valid()
      modifies m2
      ensures var answer := AnswerM1(x, device, peerIdentityHash, lookup, DecodeM1(m1[..]), nj);
        ok == answer.Some? && (ok ==> m2[..] == EncodeM2(answer.value.0) && waiting == answer.value.1)
    {
      hide XorAll, CommutativeMap, ReversibleMap, VerifyCredential, DecodeM1, EncodeM2;
      waiting := Waiting(ZERO_DIGEST, ZERO_DIGEST, ZERO_DIGEST);
      var tidI, ci, ni, tidJ, w;
      ok, tidI, ci, ni, tidJ := OpenM1();
      if !ok {
        return;
      }
      ok, w := FetchInitiator(lookup, tidI);
      if !ok {
        return;
      }
      var cj := puf.MapReversibly(device, secretKey, tidJ);
      var ri := XorDigests(w, x.sha(ci));
      var tkJi := puf.Map(device, ri);
      var tkJ := puf.Map(device, ci);
      var tn := XorDigests(tkJ, ni);
      var h2 := HashFour(tkJi, tkJ, cj, nj);
      FillM2(tn, tkJi, cj, nj, h2);
      waiting := Waiting(tkJi, ni, nj);
    }

    method FillM2(tn: Digest, tkJi: Digest, cj: Digest, nj: Digest, h2: Digest)
      requires Valid()
      modifies m2
      ensures m2[..] == EncodeM2(M2(tn, XorAll(cj, tkJi), XorAll(nj, tkJi), h2))
    {
      hide XorAll;
      Write(m2, 0, tn);
      MaskPair(tkJi, cj, nj, m2, 32);
      assert m2[..96] == m2[..32] + m2[32..32 + 64];
      Write(m2, 96, h2);
      assert m2[..128] == m2[..];
    }

    method CheckM3(waiting: Waiting) returns (ok: bool, keys: Keys)
      requires Valid()
      ensures var accepted := AcceptM3(x, device, waiting, DecodeM3(m3[..]));
        ok == accepted.Some? && (ok ==> keys == accepted.value)
    {
      hide XorAll, CommutativeMap;
      var message := DecodeM3(m3[..]);
      var tkI := XorDigests(message.tn, waiting.nj);
      var tkIj := puf.Map(device, tkI);
      var session := HashFour(waiting.tkJi, tkIj, waiting.ni, waiting.nj);
      var h3 := HashThree(tkIj, tkI, session);
      ok := SameDigest(h3, message.h3);
      keys := Keys(waiting.tkJi, tkIj, session);
    }

    /** `runResponderSession` from M1 in the buffer to the decision on M3. */
    method RunResponderSession(lookup: Digest -> Option<FabricCredential>, nj: Digest, incoming: Option<Bytes>)
      returns (ok: bool, keys: Keys)
      requires Valid()
      modifies m2, m3
      ensures var answer := AnswerM1(x, device, peerIdentityHash, lookup, DecodeM1(m1[..]), nj);
        && (ok <==> answer.Some? && incoming.Some? && |incoming.value| == M3_BYTES
                    && AcceptM3(x, device, answer.value.1, DecodeM3(incoming.value)).Some?)
        && (ok ==> m2[..] == EncodeM2(answer.value.0))
        && (ok ==> Some(keys) == AcceptM3(x, device, answer.value.1, DecodeM3(incoming.value)))
    {
      hide AnswerM1, AcceptM3, DecodeM1, DecodeM3;
      keys := Keys(ZERO_DIGEST, ZERO_DIGEST, ZERO_DIGEST);
      var waiting;
      ok, waiting := ProcessM1(lookup, nj);
      if !ok {
        return;
      }
      if incoming.None? || |incoming.value| != M3_BYTES {
        return false, keys;
      }
      Write(m3, 0, incoming.value);
      assert m3[..] == m3[..M3_BYTES] == incoming.value;
      ok, keys := CheckM3(waiting);
    }
  }
}
