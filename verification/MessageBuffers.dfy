/** The member buffers of the protocol class, filled in place at fixed offsets. */
module MessageBuffers {
  import opened Octets
  import opened Bits
  import opened LmsSpec
  import opened LmotsLms
  import opened Wire
  import opened Handshake

  class Buffers {
    const m0: array<byte>
    const m1: array<byte>
    const m2: array<byte>
    const m3: array<byte>
    const m4: array<byte>
    const mu: array<byte>
    const signInput: array<byte>

    constructor ()
      ensures Valid() && fresh(All())
    {
      m0 := new byte[86];
      m1 := new byte[102];
      m2 := new byte[M2_BASE_BYTES + LMS_PATH_BYTES];
      m3 := new byte[36 + M3_INNER_BASE_BYTES + LMS_PATH_BYTES + 32];
      m4 := new byte[66];
      mu := new byte[MU_BYTES];
      signInput := new byte[910];
    }

    ghost predicate Valid() {
      && m0.Length == 86 && m1.Length == 102 && m2.Length == M2_BASE_BYTES + LMS_PATH_BYTES
      && m3.Length == 36 + M3_INNER_BASE_BYTES + LMS_PATH_BYTES + 32 && m4.Length == 66
      && mu.Length == MU_BYTES && signInput.Length == 910
      && m0 != m1 && m0 != m2 && m0 != mu && m0 != signInput && m1 != m2 && m1 != mu && m1 != signInput
      && m2 != mu && m2 != signInput && mu != signInput
      && m3 !in {m0, m1, m2, m4, mu, signInput} && m4 !in {m0, m1, m2, mu, signInput}
    }

    method BuildM0(deviceId: Digest, peerId: Digest, nonceA: Nonce, suite: u32)
      requires Valid()
      modifies m0
      ensures m0[..] == M0(deviceId, peerId, nonceA, suite)
    {
      hide U32;
      Clear(m0);
      Write(m0, 0, [PROTOCOL_VERSION, MSG_M0_REQ]);
      Write(m0, 2, deviceId);
      Write(m0, 34, peerId);
      Write(m0, 66, nonceA);
      Write(m0, 82, U32(suite));
      assert m0[..86] == m0[..];
    }

    method BuildM1(deviceId: Digest, peerId: Digest, nonceA: Nonce, nonceB: Nonce, suite: u32)
      requires Valid()
      modifies m1
      ensures m1[..] == M1(deviceId, peerId, nonceA, nonceB, suite)
    {
      hide U32;
      Clear(m1);
      Write(m1, 0, [PROTOCOL_VERSION, MSG_M1_CHAL]);
      Write(m1, 2, deviceId);
      Write(m1, 34, peerId);
      Write(m1, 66, nonceA);
      Write(m1, 82, nonceB);
      Write(m1, 98, U32(suite));
      assert m1[..102] == m1[..];
    }

    /** The nonce is compared with a copy of itself, so only the other fields decide. */
    method ValidateM0(u: Setup, nonceA: Nonce) returns (valid: bool)
      requires Valid() && nonceA == m0[66..82]
      ensures valid == ValidM0(u, m0[..])
    {
      hide GetU32;
      assert m0[..][82..] == m0[82..86];
      if m0[0] != PROTOCOL_VERSION || m0[1] != MSG_M0_REQ {
        return false;
      }
      var peer := ConstantTimeEqual(m0[2..34], u.idA, 32);
      var own := ConstantTimeEqual(m0[34..66], u.idB, 32);
      var nonce := ConstantTimeEqual(m0[66..82], nonceA, 16);
      valid := peer && own && nonce && GetU32(m0[82..86]) == Suite(u.carried);
    }

    method ValidateM1(u: Setup, nonceA: Nonce) returns (valid: bool, nonceB: Nonce)
      requires Valid()
      ensures valid == ValidM1(u, m1[..], nonceA)
      ensures valid ==> nonceB == m1[82..98]
    {
      nonceB := seq(16, _ => 0);
      assert m1[..][98..] == m1[98..102];
      if m1[0] != PROTOCOL_VERSION || m1[1] != MSG_M1_CHAL {
        return false, nonceB;
      }
      var peer := ConstantTimeEqual(m1[2..34], u.idB, 32);
      var own := ConstantTimeEqual(m1[34..66], u.idA, 32);
      var nonce := ConstantTimeEqual(m1[66..82], nonceA, 16);
      valid := peer && own && nonce && GetU32(m1[98..102]) == Suite(u.carried);
      if valid {
        nonceB := m1[82..98];
      }
    }

    method ComputeSid0(sha: Hash) returns (sid: Digest)
      requires Valid()
      ensures sid == sha(Sid0Input(m0[..], m1[..]))
    {
      hide U16;
      var input := new byte[1 + 1 + 2 + 86 + 2 + 102];
      var offset := 0;
      Write(input, offset, [PROTOCOL_VERSION]);
      offset := offset + 1;
      Write(input, offset, [DOMAIN_SID0]);
      offset := offset + 1;
      Write(input, offset, U16(86));
      offset := offset + 2;
      Write(input, offset, m0[..]);
      offset := offset + 86;
      Write(input, offset, U16(102));
      offset := offset + 2;
      Write(input, offset, m1[..]);
      offset := offset + 102;
      assert input[..offset] == Sid0Input(m0[..], m1[..]);
      sid := sha(input[..offset]);
    }

    method BuildM2SignedInput(sid: Digest, idA: Digest, idB: Digest, version: u32, q: u32, publicKey: PublicKey)
      requires Valid()
      modifies mu, signInput
      ensures signInput[..] == SignInput(MuA(sid, idA, idB, version, publicKey), q)
    {
      hide U16, U32;
      Clear(mu);
      Write(mu, 0, [PROTOCOL_VERSION, DOMAIN_INIT]);
      Write(mu, 2, sid);
      Write(mu, 34, idA);
      Write(mu, 66, idB);
      Write(mu, 98, U32(version));
      Write(mu, 102, publicKey);
      assert mu[..902] == mu[..];
      WrapSignedInput(q);
    }

    method BuildM3SignedInput(sid: Digest, hashM2: Digest, idA: Digest, idB: Digest, version: u32, q: u32,
        ciphertext: Ciphertext)
      requires Valid()
      modifies mu, signInput
      ensures signInput[..] == SignInput(MuB(sid, hashM2, idA, idB, version, ciphertext), q)
    {
      hide U16, U32;
      Clear(mu);
      Write(mu, 0, [PROTOCOL_VERSION, DOMAIN_RESP]);
      Write(mu, 2, sid);
      Write(mu, 34, hashM2);
      Write(mu, 66, idA);
      Write(mu, 98, idB);
      Write(mu, 130, U32(version));
      Write(mu, 134, ciphertext);
      assert mu[..902] == mu[..];
      WrapSignedInput(q);
    }

    /** The common tail of both builders. */
    method WrapSignedInput(q: u32)
      requires Valid()
      modifies signInput
      ensures signInput[..] == SignInput(mu[..], q)
    {
      hide U16, U32;
      Clear(signInput);
      Write(signInput, 0, [PROTOCOL_VERSION, DOMAIN_LMOTS_SIGN]);
      Write(signInput, 2, U16(MU_BYTES));
      Write(signInput, 4, mu[..]);
      Write(signInput, 4 + MU_BYTES, U32(q));
      assert signInput[..910] == signInput[..];
    }

    ghost function All(): set<array<byte>> {
      {m0, m1, m2, m3, m4, mu, signInput}
    }

    ghost predicate Apart(signer: Signer) {
      {signer.smallHashInput, signer.publicHashInput} !! All()
    }

    /** The whole of M2, the KEM key first. */
    method FillM2(u: Setup, signer: Signer, sid: Digest, q: u32, publicKey: PublicKey, runtimeSeed: Digest, c: Digest)
      returns (ok: bool)
      requires Valid() && Apart(signer) && SignsAs(signer, u.sha, u.lmsIdA, u.treeA) && runtimeSeed == u.seedA
      modifies m2, mu, signInput, signer.smallHashInput
      ensures ok == (q < LMS_LEAVES)
      ensures ok ==> m2[..M2Bytes(u.carried)] == BuildM2(u, sid, q, publicKey, c)
    {
      hide U32, LmsSpec.Sign, AuthPath, SignInput, MuA, Signed;
      Write(m2, 42, publicKey);
      BuildM2SignedInput(sid, u.idA, u.idB, u.versionA, q, publicKey);
      ok := FillSigned(m2, 0, MSG_M2_INIT, sid, u.versionA, q, publicKey, 800, signInput[..], signer, u.treeA,
        u.carried, runtimeSeed, c);
    }

    /** The inner part of M3, behind the 36 bytes of its outer header. */
    method FillInner(u: Setup, signer: Signer, sid: Digest, ghost theM2: Msg2, hashM2: Digest, q: u32,
                     ciphertext: Ciphertext,
                     runtimeSeed: Digest, c: Digest)
      returns (ok: bool)
      requires Valid() && Apart(signer) && SignsAs(signer, u.sha, u.lmsIdB, u.treeB) && runtimeSeed == u.seedB
        && hashM2 == u.sha(theM2)
      modifies m3, mu, signInput, signer.smallHashInput
      ensures ok == (q < LMS_LEAVES)
      ensures ok ==> m3[36..36 + M3InnerBytes(u.carried)] == BuildInner(u, sid, theM2, q, ciphertext, c)
    {
      hide U32, LmsSpec.Sign, AuthPath, SignInput, MuB, Signed;
      Write(m3, 36 + 42, ciphertext);
      BuildM3SignedInput(sid, hashM2, u.idA, u.idB, u.versionB, q, ciphertext);
      ok := FillSigned(m3, 36, MSG_M3_INNER, sid, u.versionB, q, ciphertext, 768, signInput[..], signer, u.treeB,
        u.carried, runtimeSeed, c);
    }

    /** The outer header and the responder's tag, around the inner part already in place. */
    method CloseM3(sid: Digest, ghost inner: Bytes, innerLength: nat, tauB: Digest)
      requires Valid() && innerLength == |inner| <= M3_INNER_BASE_BYTES + LMS_PATH_BYTES
        && m3[36..36 + |inner|] == inner
      modifies m3
      ensures m3[..36 + |inner| + 32] == M3(sid, inner, tauB)
    {
      hide U16;
      assert m3[36..][..|inner|] == inner;
      WriteBefore(m3, 0, [PROTOCOL_VERSION, MSG_M3_RESP_FIN], 36);
      WriteBefore(m3, 2, sid, 36);
      WriteBefore(m3, 34, U16(innerLength), 36);
      assert m3[..36 + |inner|] == m3[..36] + m3[36..][..|inner|];
      Write(m3, 36 + innerLength, tauB);
    }

    method FillM4(sid: Digest, tauA: Digest)
      requires Valid()
      modifies m4
      ensures m4[..] == M4(sid, tauA)
    {
      Write(m4, 0, [PROTOCOL_VERSION, MSG_M4_INIT_FIN]);
      Write(m4, 2, sid);
      Write(m4, 34, tauA);
      assert m4[..66] == m4[..];
    }
  }

  function Header(tag: byte, sid: Digest, version: u32, q: u32): (r: Bytes)
    ensures |r| == 42
  {
    [PROTOCOL_VERSION, tag] + sid + U32(version) + U32(q)
  }

  /** A write that leaves alone what lies behind `keep`. */
  method WriteBefore(buffer: array<byte>, offset: nat, source: Bytes, ghost keep: nat)
    requires offset + |source| <= keep <= buffer.Length
    modifies buffer
    ensures buffer[..offset + |source|] == old(buffer[..offset]) + source
    ensures buffer[keep..] == old(buffer[keep..])
  {
    ghost var end := offset + |source|;
    Write(buffer, offset, source);
    assert buffer[keep..] == buffer[end..][keep - end..] == old(buffer[end..])[keep - end..];
  }

  /** Version, message tag, session identifier, credential version and index, in front of what is already there. */
  method WriteHeader(buffer: array<byte>, base: nat, tag: byte, sid: Digest, version: u32, q: u32)
    requires buffer.Length >= base + 42
    modifies buffer
    ensures buffer[..base + 42] == old(buffer[..base]) + Header(tag, sid, version, q)
    ensures buffer[base + 42..] == old(buffer[base + 42..])
  {
    hide U32;
    WriteBefore(buffer, base, [PROTOCOL_VERSION, tag], base + 42);
    WriteBefore(buffer, base + 2, sid, base + 42);
    WriteBefore(buffer, base + 34, U32(version), base + 42);
    WriteBefore(buffer, base + 38, U32(q), base + 42);
  }

  /** The header in front of a KEM value that stays. */
  method HeaderAround(buffer: array<byte>, base: nat, tag: byte, sid: Digest, version: u32, q: u32, ghost kem: Bytes)
    requires buffer.Length >= base + 42 + |kem| && buffer[base + 42..base + 42 + |kem|] == kem
    modifies buffer
    ensures buffer[..base + 42 + |kem|] == old(buffer[..base]) + Header(tag, sid, version, q) + kem
  {
    hide Header;
    ghost var rest := buffer[base + 42..];
    assert rest[..|kem|] == kem;
    WriteHeader(buffer, base, tag, sid, version, q);
    assert buffer[..base + 42 + |kem|] == buffer[..base + 42] + buffer[base + 42..][..|kem|];
  }

  lemma SignedInParts(front: Bytes, tag: byte, sid: Digest, version: u32, q: u32, kem: Bytes, signature: Signature,
      path: Bytes)
    ensures front + Signed(tag, sid, version, q, kem, signature, path)
         == front + Header(tag, sid, version, q) + kem + signature + path
  {
    hide U32;
  }

  /** A signer of this identity whose tree is built. */
  ghost predicate SignsAs(signer: Signer, sha: Hash, id: Identifier, t: Nodes)
    reads signer, signer.tree
  {
    && signer.Valid() && signer.sha == sha && signer.identifier == id
    && signer.tree != null && signer.tree[..] == t
  }

  function PathOrNone(carried: bool, t: Nodes, q: u32): Bytes
    requires q < LMS_LEAVES
  {
    if carried then AuthPath(t, q) else []
  }

  /** The signature and, when carried, the signer's own path, behind what is already there. */
  method AppendSignature(buffer: array<byte>, offset: nat, q: u32, signedObject: Bytes,
                         signer: Signer, ghost t: Nodes, carried: bool, runtimeSeed: Digest, c: Digest)
    returns (ok: bool)
    requires SignsAs(signer, signer.sha, signer.identifier, t) && Fits(signedObject)
    requires buffer !in {signer.smallHashInput, signer.publicHashInput}
    requires offset + LMOTS_SIGNATURE_BYTES + LMS_PATH_BYTES <= buffer.Length
    modifies buffer, signer.smallHashInput
    ensures ok == (q < LMS_LEAVES)
    ensures ok ==> var path := PathOrNone(carried, t, q);
      buffer[..offset + LMOTS_SIGNATURE_BYTES + |path|] == old(buffer[..offset])
        + LmsSpec.Sign(signer.sha, signer.identifier, runtimeSeed, q, c, signedObject) + path
    ensures SignsAs(signer, signer.sha, signer.identifier, t)
  {
    hide LmsSpec.Sign, AuthPath;
    var signature := new byte[LMOTS_SIGNATURE_BYTES];
    ok := signer.SignMessage(q, signedObject, runtimeSeed, c, signature);
    if !ok {
      return;
    }
    Write(buffer, offset, signature[..]);
    if carried {
      var path := new byte[LMS_PATH_BYTES];
      ok := signer.ExtractPath(q, path);
      Write(buffer, offset + LMOTS_SIGNATURE_BYTES, path[..]);
    }
  }

  /** A signed message around the KEM value that is already in place. */
  method FillSigned(buffer: array<byte>, base: nat, tag: byte, sid: Digest, version: u32, q: u32, ghost kem: Bytes,
                    kemLength: nat,
                    signedObject: Bytes, signer: Signer, ghost t: Nodes, carried: bool, runtimeSeed: Digest, c: Digest)
    returns (ok: bool)
    requires SignsAs(signer, signer.sha, signer.identifier, t) && Fits(signedObject)
    requires buffer !in {signer.smallHashInput, signer.publicHashInput}
    requires base + 2222 + kemLength + LMS_PATH_BYTES <= buffer.Length
    requires kemLength == |kem| && buffer[base + 42..base + 42 + |kem|] == kem
    modifies buffer, signer.smallHashInput
    ensures ok == (q < LMS_LEAVES)
    ensures ok ==> var path := PathOrNone(carried, t, q);
      buffer[..base + 2222 + |kem| + |path|] == old(buffer[..base])
        + Signed(tag, sid, version, q, kem,
                 LmsSpec.Sign(signer.sha, signer.identifier, runtimeSeed, q, c, signedObject), path)
  {
    hide LmsSpec.Sign, Signed, Header, PathOrNone;
    HeaderAround(buffer, base, tag, sid, version, q, kem);
    ok := AppendSignature(buffer, base + 42 + kemLength, q, signedObject, signer, t, carried, runtimeSeed, c);
    if ok {
      SignedInParts(old(buffer[..base]), tag, sid, version, q, kem,
                    LmsSpec.Sign(signer.sha, signer.identifier, runtimeSeed, q, c, signedObject),
                    PathOrNone(carried, t, q));
    }
  }

  method Clear(buffer: array<byte>)
    modifies buffer
    ensures forall k :: 0 <= k < buffer.Length ==> buffer[k] == 0
  {
    forall k | 0 <= k < buffer.Length {
      buffer[k] := 0;
    }
  }

  /** `timedTranscriptHash`: an incremental hash over four length-prefixed fields. */
  method TranscriptHash(sha: Hash, sid: Digest, fields: seq<Bytes>) returns (ok: bool, output: Digest)
    requires |fields| == 4
    ensures ok <==> forall i :: 0 <= i < 4 ==> |fields[i]| < 0x1_0000
    ensures ok ==> output == sha(TranscriptInput(sid, fields[0], fields[1], fields[2], fields[3]))
  {
    hide U16;
    var stream: Bytes := [PROTOCOL_VERSION, DOMAIN_TRANSCRIPT] + sid;
    for i := 0 to 4
      invariant forall k :: 0 <= k < i ==> |fields[k]| < 0x1_0000
      invariant stream == [PROTOCOL_VERSION, DOMAIN_TRANSCRIPT] + sid + Prefixed(fields[..i])
    {
      if |fields[i]| >= 0x1_0000 {
        return false, ZERO_DIGEST;
      }
      stream := stream + U16(|fields[i]|) + fields[i];
      assert fields[..i + 1][..i] == fields[..i];
    }
    assert fields[..4] == fields;
    FourFields(fields);
    return true, sha(stream);
  }

  function Prefixed(fields: seq<Bytes>): Bytes
    requires forall k :: 0 <= k < |fields| ==> |fields[k]| < 0x1_0000
  {
    if fields == [] then []
    else Prefixed(fields[..|fields| - 1]) + U16(|fields[|fields| - 1]|) + fields[|fields| - 1]
  }

  lemma FourFields(fields: seq<Bytes>)
    requires |fields| == 4 && forall k :: 0 <= k < 4 ==> |fields[k]| < 0x1_0000
    ensures Prefixed(fields) == U16(|fields[0]|) + fields[0] + (U16(|fields[1]|) + fields[1]
      + (U16(|fields[2]|) + fields[2] + (U16(|fields[3]|) + fields[3])))
  {
    hide U16;
    assert fields[..3][..2] == fields[..2] && fields[..2][..1] == fields[..1] && fields[..1][..0] == [];
    assert Prefixed(fields[..3]) == Prefixed(fields[..2]) + U16(|fields[2]|) + fields[2];
    assert Prefixed(fields[..2]) == Prefixed(fields[..1]) + U16(|fields[1]|) + fields[1];
    assert Prefixed(fields[..1]) == U16(|fields[0]|) + fields[0];
  }
}
