/** The byte layouts of M0 to M4, of the signed objects and of everything that is hashed or MACed. */
module Wire {
  import opened Octets
  import opened LmsSpec
  import opened Hkdf

  const PROTOCOL_VERSION: byte := 1

  const MSG_M0_REQ: byte := 0x10
  const MSG_M1_CHAL: byte := 0x11
  const MSG_M2_INIT: byte := 0x12
  const MSG_M3_RESP_FIN: byte := 0x13
  const MSG_M3_INNER: byte := 0x14
  const MSG_M4_INIT_FIN: byte := 0x15

  const DOMAIN_SID0: byte := 0x30
  const DOMAIN_INIT: byte := 0x31
  const DOMAIN_RESP: byte := 0x32
  const DOMAIN_LMOTS_SIGN: byte := 0x33
  const DOMAIN_TRANSCRIPT: byte := 0x34
  const DOMAIN_UAV_AKE: byte := 0x35
  const DOMAIN_B_CONFIRM: byte := 0x36
  const DOMAIN_A_CONFIRM: byte := 0x37

  const MU_BYTES := 902
  const M2_BASE_BYTES := 3022
  const M3_INNER_BASE_BYTES := 2990

  type Nonce = b: Bytes | |b| == 16 witness seq(16, _ => 0)
  type PublicKey = b: Bytes | |b| == 800 witness seq(800, _ => 0)
  type Ciphertext = b: Bytes | |b| == 768 witness seq(768, _ => 0)

  function Suite(carried: bool): u32 {
    if carried then 0x0001_0002 else 0x0001_0001
  }

  /** The path that a signer-carried message appends, or nothing. */
  function M2Bytes(carried: bool): nat {
    if carried then M2_BASE_BYTES + LMS_PATH_BYTES else M2_BASE_BYTES
  }

  function M3InnerBytes(carried: bool): nat {
    if carried then M3_INNER_BASE_BYTES + LMS_PATH_BYTES else M3_INNER_BASE_BYTES
  }

  // --- Messages ------------------------------------------------------------------------

  function M0(idA: Digest, idB: Digest, nonceA: Nonce, suite: u32): (r: Bytes)
    ensures |r| == 86
  {
    [PROTOCOL_VERSION, MSG_M0_REQ] + idA + idB + nonceA + U32(suite)
  }

  /** The challenge names the responder first. */
  function M1(idB: Digest, idA: Digest, nonceA: Nonce, nonceB: Nonce, suite: u32): (r: Bytes)
    ensures |r| == 102
  {
    [PROTOCOL_VERSION, MSG_M1_CHAL] + idB + idA + nonceA + nonceB + U32(suite)
  }

  /** M2, and with its own tag the inner part of M3: header, signer's version and index, KEM value, signature, path. */
  function Signed(tag: byte, sid: Digest, version: u32, q: u32, kem: Bytes, signature: Signature,
      carriedPath: Bytes): (r: Bytes)
    ensures |r| == 2222 + |kem| + |carriedPath|
  {
    [PROTOCOL_VERSION, tag] + sid + U32(version) + U32(q) + kem + signature + carriedPath
  }

  function M3(sid: Digest, inner: Bytes, tauB: Digest): (r: Bytes)
    requires |inner| < 0x1_0000
    ensures |r| == 36 + |inner| + 32
  {
    [PROTOCOL_VERSION, MSG_M3_RESP_FIN] + sid + U16(|inner|) + inner + tauB
  }

  function M4(sid: Digest, tauA: Digest): (r: Bytes)
    ensures |r| == 66
  {
    [PROTOCOL_VERSION, MSG_M4_INIT_FIN] + sid + tauA
  }

  // --- Hashed, signed and MACed objects ---------------------------------------------------

  function Sid0Input(m0: Bytes, m1: Bytes): Bytes
    requires |m0| < 0x1_0000 && |m1| < 0x1_0000
  {
    [PROTOCOL_VERSION, DOMAIN_SID0] + U16(|m0|) + m0 + U16(|m1|) + m1
  }

  function TranscriptInput(sid: Digest, m0: Bytes, m1: Bytes, m2: Bytes, inner: Bytes): Bytes
    requires |m0| < 0x1_0000 && |m1| < 0x1_0000 && |m2| < 0x1_0000 && |inner| < 0x1_0000
  {
    [PROTOCOL_VERSION, DOMAIN_TRANSCRIPT] + sid
    + (U16(|m0|) + m0 + (U16(|m1|) + m1 + (U16(|m2|) + m2 + (U16(|inner|) + inner))))
  }

  function SignInput(mu: Bytes, q: u32): (r: Bytes)
    requires |mu| == MU_BYTES
    ensures |r| == 910
  {
    [PROTOCOL_VERSION, DOMAIN_LMOTS_SIGN] + U16(MU_BYTES) + mu + U32(q)
  }

  function MuA(sid: Digest, idA: Digest, idB: Digest, version: u32, publicKey: PublicKey): (r: Bytes)
    ensures |r| == MU_BYTES
  {
    [PROTOCOL_VERSION, DOMAIN_INIT] + sid + idA + idB + U32(version) + publicKey
  }

  function MuB(sid: Digest, hashM2: Digest, idA: Digest, idB: Digest, version: u32, ciphertext: Ciphertext): (r: Bytes)
    ensures |r| == MU_BYTES
  {
    [PROTOCOL_VERSION, DOMAIN_RESP] + sid + hashM2 + idA + idB + U32(version) + ciphertext
  }

  function TagInput(domain: byte, transcriptHash: Digest): Bytes {
    [PROTOCOL_VERSION, domain] + U16(32) + transcriptHash
  }

  /** Session key, then the two confirmation keys. */
  function KeyMaterial(mac: Mac, secret: Digest, transcriptHash: Digest): (r: Bytes)
    ensures |r| == 96
  {
    Derive(mac, secret, transcriptHash, TagInput(DOMAIN_UAV_AKE, transcriptHash), 96)
  }

  function SessionKey(mac: Mac, secret: Digest, th: Digest): Digest { KeyMaterial(mac, secret, th)[..32] }
  function ConfirmA(mac: Mac, secret: Digest, th: Digest): Digest { KeyMaterial(mac, secret, th)[32..64] }
  function ConfirmB(mac: Mac, secret: Digest, th: Digest): Digest { KeyMaterial(mac, secret, th)[64..] }

  // --- Injectivity and disjointness ---------------------------------------------------------

  lemma FieldBinds(a: Bytes, restA: Bytes, b: Bytes, restB: Bytes)
    requires |a| < 0x1_0000 && |b| < 0x1_0000
    requires U16(|a|) + a + restA == U16(|b|) + b + restB
    ensures a == b && restA == restB
  {
    hide U16, GetU16;
    var x, y := U16(|a|) + a + restA, U16(|b|) + b + restB;
    assert x[..2] == U16(|a|) && y[..2] == U16(|b|);
    assert x[2..2 + |a|] == a && x[2 + |a|..] == restA;
    assert y[2..2 + |b|] == b && y[2 + |b|..] == restB;
  }

  /** The transcript stream determines the session identifier and all four messages, whatever their lengths. */
  lemma {:induction false} TranscriptBinds(sid: Digest, m0: Bytes, m1: Bytes, m2: Bytes, inner: Bytes,
                                           sid': Digest, m0': Bytes, m1': Bytes, m2': Bytes, inner': Bytes)
    requires |m0| < 0x1_0000 && |m1| < 0x1_0000 && |m2| < 0x1_0000 && |inner| < 0x1_0000
    requires |m0'| < 0x1_0000 && |m1'| < 0x1_0000 && |m2'| < 0x1_0000 && |inner'| < 0x1_0000
    requires TranscriptInput(sid, m0, m1, m2, inner) == TranscriptInput(sid', m0', m1', m2', inner')
    ensures sid == sid' && m0 == m0' && m1 == m1' && m2 == m2' && inner == inner'
  {
    hide U16;
    var x, y := TranscriptInput(sid, m0, m1, m2, inner), TranscriptInput(sid', m0', m1', m2', inner');
    assert x[2..34] == sid && y[2..34] == sid';
    var r3, r3' := U16(|inner|) + inner, U16(|inner'|) + inner';
    var r2, r2' := U16(|m2|) + m2 + r3, U16(|m2'|) + m2' + r3';
    var r1, r1' := U16(|m1|) + m1 + r2, U16(|m1'|) + m1' + r2';
    assert x[34..] == U16(|m0|) + m0 + r1 && y[34..] == U16(|m0'|) + m0' + r1';
    FieldBinds(m0, r1, m0', r1');
    FieldBinds(m1, r2, m1', r2');
    FieldBinds(m2, r3, m2', r3');
    assert r3 == U16(|inner|) + inner + [] && r3' == U16(|inner'|) + inner' + [];
    FieldBinds(inner, [], inner', []);
  }

  lemma {:induction false} Sid0Binds(m0: Bytes, m1: Bytes, m0': Bytes, m1': Bytes)
    requires |m0| < 0x1_0000 && |m1| < 0x1_0000 && |m0'| < 0x1_0000 && |m1'| < 0x1_0000
    requires Sid0Input(m0, m1) == Sid0Input(m0', m1')
    ensures m0 == m0' && m1 == m1'
  {
    hide U16;
    var r, r' := U16(|m1|) + m1, U16(|m1'|) + m1';
    assert Sid0Input(m0, m1)[2..] == U16(|m0|) + m0 + r;
    assert Sid0Input(m0', m1')[2..] == U16(|m0'|) + m0' + r';
    FieldBinds(m0, r, m0', r');
    assert r == U16(|m1|) + m1 + [] && r' == U16(|m1'|) + m1' + [];
    FieldBinds(m1, [], m1', []);
  }

  lemma SignInputBinds(mu: Bytes, q: u32, mu': Bytes, q': u32)
    requires |mu| == |mu'| == MU_BYTES && SignInput(mu, q) == SignInput(mu', q')
    ensures mu == mu' && q == q'
  {
    hide U16, U32, GetU32;
    assert SignInput(mu, q)[4..906] == mu && SignInput(mu', q')[4..906] == mu';
    assert SignInput(mu, q)[906..] == U32(q) && SignInput(mu', q')[906..] == U32(q');
  }

  /** The initiator's signed object determines every field it covers, the one-time index included. */
  lemma {:induction false} SignedM2Binds(
    sid: Digest, idA: Digest, idB: Digest, version: u32, pk: PublicKey, q: u32,
    sid': Digest, idA': Digest, idB': Digest, version': u32, pk': PublicKey, q': u32)
    requires SignInput(MuA(sid, idA, idB, version, pk), q) == SignInput(MuA(sid', idA', idB', version', pk'), q')
    ensures sid == sid' && idA == idA' && idB == idB' && version == version' && pk == pk' && q == q'
  {
    hide U16, U32, GetU32, SignInput;
    var mu, mu' := MuA(sid, idA, idB, version, pk), MuA(sid', idA', idB', version', pk');
    SignInputBinds(mu, q, mu', q');
    assert mu[2..34] == sid && mu[34..66] == idA && mu[66..98] == idB && mu[98..102] == U32(version) && mu[102..] == pk;
    assert mu'[2..34] == sid' && mu'[34..66] == idA' && mu'[66..98] == idB' && mu'[98..102] == U32(version')
      && mu'[102..] == pk';
  }

  lemma {:induction false} SignedM3Binds(
    sid: Digest, hash: Digest, idA: Digest, idB: Digest, version: u32, ct: Ciphertext, q: u32,
    sid': Digest, hash': Digest, idA': Digest, idB': Digest, version': u32, ct': Ciphertext, q': u32)
    requires SignInput(MuB(sid, hash, idA, idB, version, ct), q)
      == SignInput(MuB(sid', hash', idA', idB', version', ct'), q')
    ensures sid == sid' && hash == hash' && idA == idA' && idB == idB' && version == version' && ct == ct' && q == q'
  {
    hide U16, U32, GetU32, SignInput;
    var mu, mu' := MuB(sid, hash, idA, idB, version, ct), MuB(sid', hash', idA', idB', version', ct');
    SignInputBinds(mu, q, mu', q');
    assert mu[2..34] == sid && mu[34..66] == hash && mu[66..98] == idA && mu[98..130] == idB
        && mu[130..134] == U32(version) && mu[134..] == ct;
    assert mu'[2..34] == sid' && mu'[34..66] == hash' && mu'[66..98] == idA' && mu'[98..130] == idB'
        && mu'[130..134] == U32(version') && mu'[134..] == ct';
  }

  /** Both signed objects are 910 bytes long, yet no initiator object is a responder object. */
  lemma {:induction false} SignedObjectsAreDisjoint(
    sid: Digest, idA: Digest, idB: Digest, version: u32, pk: PublicKey, q: u32,
    sid': Digest, hash': Digest, idA': Digest, idB': Digest, version': u32, ct': Ciphertext, q': u32)
    ensures SignInput(MuA(sid, idA, idB, version, pk), q) != SignInput(MuB(sid', hash', idA', idB', version', ct'), q')
  {
    hide U16, U32;
    assert SignInput(MuA(sid, idA, idB, version, pk), q)[5] == DOMAIN_INIT;
    assert SignInput(MuB(sid', hash', idA', idB', version', ct'), q')[5] == DOMAIN_RESP;
  }

  lemma TagInputBinds(domain: byte, th: Digest, domain': byte, th': Digest)
    requires TagInput(domain, th) == TagInput(domain', th')
    ensures domain == domain' && th == th'
  {
    hide U16;
    assert TagInput(domain, th)[1] == domain && TagInput(domain', th')[1] == domain';
    assert TagInput(domain, th)[4..] == th && TagInput(domain', th')[4..] == th';
  }

  // --- What a receiver reads at fixed offsets ---------------------------------------------------

  function SidOf(m: Bytes): Digest requires |m| >= 34 { m[2..34] }
  function VersionOf(m: Bytes): u32 requires |m| >= 42 { GetU32(m[34..38]) }
  function IndexOf(m: Bytes): u32 requires |m| >= 42 { GetU32(m[38..42]) }
  function PublicKeyOf(m2: Bytes): PublicKey requires |m2| >= 842 { m2[42..842] }
  function CiphertextOf(inner: Bytes): Ciphertext requires |inner| >= 810 { inner[42..810] }
  function M2SignatureOf(m2: Bytes): Signature requires |m2| >= M2_BASE_BYTES { m2[842..3022] }
  function InnerSignatureOf(inner: Bytes): Signature requires |inner| >= M3_INNER_BASE_BYTES { inner[810..2990] }

  lemma SignedFields(tag: byte, sid: Digest, version: u32, q: u32, kem: Bytes, signature: Signature, carriedPath: Bytes)
    ensures var m := Signed(tag, sid, version, q, kem, signature, carriedPath);
      && m[0] == PROTOCOL_VERSION && m[1] == tag && SidOf(m) == sid && VersionOf(m) == version && IndexOf(m) == q
      && m[42..42 + |kem|] == kem && m[42 + |kem|..2222 + |kem|] == signature && m[2222 + |kem|..] == carriedPath
  {
    hide U32, GetU32;
    var m := Signed(tag, sid, version, q, kem, signature, carriedPath);
    assert m[34..38] == U32(version) && m[38..42] == U32(q);
    assert m[2..34] == sid;
    assert m[42..42 + |kem|] == kem;
    assert m[42 + |kem|..2222 + |kem|] == signature;
  }
}
