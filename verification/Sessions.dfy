/**
 `runInitiatorSession` and `runResponderOnce` as the firmware runs them, over its own buffers, counter and
 signer; each run is a run of the step machine. An absent message is a timeout.
 */
module Sessions {
  import opened Octets
  import opened Wrappers
  import opened Bits
  import opened LmsSpec
  import opened LmotsLms
  import opened Hkdf
  import opened OneTimeIndex
  import opened Wire
  import opened Handshake
  import opened HonestSession
  import opened MessageBuffers

  // --- Keys and tags ------------------------------------------------------------------

  method DeriveSessionKeys(mac: Mac, sharedSecret: Digest, transcriptHash: Digest)
    returns (ok: bool, sessionKey: Digest, confirmA: Digest, confirmB: Digest)
    ensures ok && sessionKey == SessionKey(mac, sharedSecret, transcriptHash)
    ensures confirmA == ConfirmA(mac, sharedSecret, transcriptHash)
      && confirmB == ConfirmB(mac, sharedSecret, transcriptHash)
    ensures var material := Derive(mac, sharedSecret, transcriptHash, [1, 0x35, 0, 32] + transcriptHash, 96);
      sessionKey == material[..32] && confirmA == material[32..64] && confirmB == material[64..]
  {
    hide Derive;
    var info := TagBytes(DOMAIN_UAV_AKE, transcriptHash);
    var material := new byte[96];
    ok := HkdfSha256(mac, sharedSecret, transcriptHash, info, material, 96);
    assert material[..96] == material[..];
    sessionKey, confirmA, confirmB := material[..32], material[32..64], material[64..];
  }

  method TagBytes(domain: byte, transcriptHash: Digest) returns (input: Bytes)
    ensures input == TagInput(domain, transcriptHash) == [1, domain, 0, 32] + transcriptHash && |input| == 36
  {
    var buffer := new byte[36];
    Write(buffer, 0, [PROTOCOL_VERSION]);
    Write(buffer, 1, [domain]);
    Write(buffer, 2, U16(32));
    Write(buffer, 4, transcriptHash);
    assert buffer[..36] == buffer[..];
    input := buffer[..];
  }

  method ComputeConfirmationTag(mac: Mac, domain: byte, confirmationKey: Digest, transcriptHash: Digest)
    returns (tag: Digest)
    ensures tag == mac(confirmationKey, TagInput(domain, transcriptHash))
      == mac(confirmationKey, [1, domain, 0, 32] + transcriptHash)
  {
    var input := TagBytes(domain, transcriptHash);
    tag := mac(confirmationKey, input);
  }

  /** `receiveProtocolMessage` after reassembly: only the expected length will do. */
  method ReceiveProtocolMessage(message: Option<Bytes>, buffer: array<byte>, expectedLength: nat) returns (ok: bool)
    requires expectedLength <= buffer.Length
    modifies buffer
    ensures ok == (message.Some? && |message.value| == expectedLength)
    ensures ok ==> buffer[..expectedLength] == message.value
  {
    if message.None? || |message.value| != expectedLength {
      return false;
    }
    Write(buffer, 0, message.value);
    return true;
  }

  // --- What one session meets, and the run of the step machine that it is ----------------

  datatype InitiatorInputs = InitiatorInputs(
    nonceA: Nonce, m1: Option<Bytes>, sk: Bytes, put: Put, pufOk: bool, c: Digest, m3: Option<Bytes>,
    path: Option<Path>)

  datatype ResponderInputs = ResponderInputs(
    m0: Option<Bytes>, nonceB: Nonce, m2: Option<Bytes>, path: Option<Path>, coins: Bytes, put: Put, pufOk: bool,
    c: Digest,
    m4: Option<Bytes>)

  /** The path is carried, or the repository answered. */
  predicate HasPath(u: Setup, path: Option<Path>) {
    u.carried || path.Some?
  }

  function PathOf(path: Option<Path>): Path {
    if path.Some? then path.value else seq(320, _ => 0)
  }

  function AfterM1(u: Setup, s: System, i: InitiatorInputs): System
    requires s.ramA.Some? && s.a.IdleA?
  {
    var s1 := Act(u, s, BeginA(i.nonceA));
    if i.m1.None? then Act(u, s1, AbandonA) else Act(u, s1, DeliverM1(i.m1.value, i.sk, i.put))
  }

  function InitiatorEnd(u: Setup, s: System, i: InitiatorInputs): System
    requires s.ramA.Some? && s.a.IdleA?
  {
    var s2 := AfterM1(u, s, i);
    if s2.a.IdleA? then s2
    else if !i.pufOk then Act(u, s2, AbandonA)
    else
      var s3 := Act(u, s2, SendM2(i.c));
      if i.m3.None? || !HasPath(u, i.path) then Act(u, s3, AbandonA)
      else Act(u, s3, DeliverM3(i.m3.value, PathOf(i.path)))
  }

  function AfterM0(u: Setup, s: System, i: ResponderInputs): System
    requires s.ramB.Some? && s.b.IdleB?
  {
    if i.m0.None? then s else Act(u, s, DeliverM0(i.m0.value, i.nonceB))
  }

  function AfterM2(u: Setup, s: System, i: ResponderInputs): System
    requires s.ramB.Some? && s.b.IdleB?
  {
    var s1 := AfterM0(u, s, i);
    if s1.b.IdleB? then s1
    else if i.m2.None? || !HasPath(u, i.path) then Act(u, s1, AbandonB)
    else Act(u, s1, DeliverM2(i.m2.value, PathOf(i.path), i.coins, i.put))
  }

  function ResponderEnd(u: Setup, s: System, i: ResponderInputs): System
    requires s.ramB.Some? && s.b.IdleB?
  {
    var s2 := AfterM2(u, s, i);
    if s2.b.IdleB? then s2
    else if !i.pufOk then Act(u, s2, AbandonB)
    else
      var s3 := Act(u, s2, SendM3(i.c));
      if i.m4.None? then Act(u, s3, AbandonB) else Act(u, s3, DeliverM4(i.m4.value))
  }

  // --- The device ---------------------------------------------------------------------------

  class Device {
    const u: Setup
    const buffers: Buffers
    const counter: Counter
    const signer: Signer

    constructor (u: Setup, counter: Counter, signer: Signer)
      ensures this.u == u && this.counter == counter && this.signer == signer
      ensures fresh(buffers) && fresh(buffers.All()) && buffers.Valid()
    {
      this.u, this.counter, this.signer := u, counter, signer;
      buffers := new Buffers();
    }

    ghost predicate Valid() {
      buffers.Valid() && buffers.Apart(signer)
    }

    /** This device is the initiator of s: booted, between sessions, its counter in flash. */
    ghost predicate IsInitiator(s: System)
      reads counter
    {
      s.nvsA == counter.nvs && s.ramA == Some(counter.config) && s.a.IdleA?
    }

    ghost predicate IsResponder(s: System)
      reads counter
    {
      s.nvsB == counter.nvs && s.ramB == Some(counter.config) && s.b.IdleB?
    }

    /** The counter part of `begin`; a device that refuses to start leaves the protocol loop idle. */
    method Begin(config: Config, put: Put) returns (ready: bool)
      modifies counter
      ensures counter.config == config
      ensures ready == RamAfterBoot(old(counter.nvs), config, put).Some?
      ensures counter.nvs == if Admissible(config) then NvsAfterBoot(old(counter.nvs), config, put)
        else old(counter.nvs)
    {
      counter.config := config;
      if config.sessions == 0 || EndQ(config) > LMS_LEAVES {
        return false;
      }
      ready := counter.InitializePersistentCounter(put);
    }

    // --- As initiator

    /** M0 out, M1 in, SID0, and an index reserved. */
    method OpenInitiator(ghost s: System, i: InitiatorInputs) returns (ok: bool, sid: Digest, q: u32)
      requires Valid() && IsInitiator(s)
      modifies counter`nvs, buffers.m0, buffers.m1
      ensures buffers.m0[..] == M0(u.idA, u.idB, i.nonceA, Suite(u.carried))
      ensures var s2 := AfterM1(u, s, i);
        && counter.nvs == s2.nvsA && ok == s2.a.ReservedA?
        && (ok ==> s2.a == ReservedA(buffers.m0[..], buffers.m1[..], sid, i.sk, q))
    {
      hide M0, Sid0Input, ValidM1;
      sid, q := ZERO_DIGEST, 0;
      buffers.BuildM0(u.idA, u.idB, i.nonceA, Suite(u.carried));
      ok := ReceiveProtocolMessage(i.m1, buffers.m1, 102);
      if !ok {
        WrongLengthM1(u, i);
        return;
      }
      assert buffers.m1[..] == buffers.m1[..102] == i.m1.value;
      var valid, nonceB := buffers.ValidateM1(u, i.nonceA);
      if !valid {
        return false, sid, q;
      }
      sid := buffers.ComputeSid0(u.sha);
      ok, q := counter.ReserveQ(i.put);
    }

    lemma WrongLengthM1(u: Setup, i: InitiatorInputs)
      requires i.m1.None? || |i.m1.value| != 102
      ensures i.m1.Some? ==> !ValidM1(u, i.m1.value, i.nonceA)
    {
    }

    method ParseM3(sid: Digest) returns (ok: bool)
      requires Valid()
      ensures ok == ParsesM3(u, sid, buffers.m3[..36 + M3InnerBytes(u.carried) + 32])
    {
      hide GetU16;
      var n := M3InnerBytes(u.carried);
      ghost var m3 := buffers.m3[..36 + n + 32];
      assert m3[2..34] == buffers.m3[2..34] && m3[34..36] == buffers.m3[34..36] && m3[38..70] == buffers.m3[38..70];
      if buffers.m3[0] != Wire.PROTOCOL_VERSION || buffers.m3[1] != MSG_M3_RESP_FIN {
        return false;
      }
      var outer := ConstantTimeEqual(buffers.m3[2..34], sid, 32);
      if !outer || GetU16(buffers.m3[34..36]) != n {
        return false;
      }
      if buffers.m3[36] != Wire.PROTOCOL_VERSION || buffers.m3[37] != MSG_M3_INNER {
        return false;
      }
      ok := ConstantTimeEqual(buffers.m3[38..70], sid, 32);
    }

    method ObtainPeerPath(message: Bytes, base: nat, repository: Option<Path>) returns (ok: bool, path: Path)
      requires |message| == if u.carried then base + LMS_PATH_BYTES else base
      ensures ok == HasPath(u, repository)
      ensures ok ==> path == PeerPath(u, message, base, PathOf(repository))
    {
      path := seq(320, _ => 0);
      if u.carried {
        return true, message[base..];
      }
      if repository.None? {
        return false, path;
      }
      return true, repository.value;
    }

    /** The responder's signature over the signed object rebuilt in the buffers. */
    method VerifyInner(ghost start: InitiatorStart, sid: Digest, hashM2: Digest, inner: Bytes, repository: Option<Path>)
      returns (ok: bool)
      requires Valid() && |inner| == M3InnerBytes(u.carried) && sid == start.sid && hashM2 == u.sha(start.m2)
      modifies buffers.mu, buffers.signInput
      ensures ok == (HasPath(u, repository) && VerifiesB(u, start, inner, PathOf(repository)))
    {
      hide Verify, SignInput, MuB, GetU32;
      var version, q := VersionOf(inner), IndexOf(inner);
      if q >= LMS_LEAVES || version != u.versionB {
        NoSuchLeaf(u.sha, q, ObjectB(u, start.sid, start.m2, inner), InnerSignatureOf(inner), u.lmsIdB,
                   PeerPath(u, inner, M3_INNER_BASE_BYTES, PathOf(repository)), u.treeB[1]);
        return false;
      }
      var path: Path;
      ok, path := ObtainPeerPath(inner, M3_INNER_BASE_BYTES, repository);
      if !ok {
        return;
      }
      buffers.BuildM3SignedInput(sid, hashM2, u.idA, u.idB, version, q, CiphertextOf(inner));
      ok := VerifySignature(u.sha, q, buffers.signInput[..], InnerSignatureOf(inner), u.lmsIdB, path, u.treeB[1]);
    }

    /** Everything between the arrival of M3 and the decision on the responder's tag. */
    method CheckM3(ghost start: InitiatorStart, sid: Digest, sk: Bytes, repository: Option<Path>)
      returns (ok: bool, th: Digest, sessionKey: Digest, confirmA: Digest)
      requires Valid() && start == InitiatorStart(sid, buffers.m0[..], buffers.m1[..],
                                                 buffers.m2[..M2Bytes(u.carried)], sk)
      modifies buffers.mu, buffers.signInput
      ensures var m3 := buffers.m3[..36 + M3InnerBytes(u.carried) + 32];
        && ok == (HasPath(u, repository) && AcceptsM3(u, start, m3, PathOf(repository)))
        && (ok ==>
             var run := CompletionOf(u, start, InnerOf(u, m3));
             && th == Th(u, run.t) && sessionKey == SessionKey(u.mac, run.secret, th)
             && confirmA == ConfirmA(u.mac, run.secret, th))
    {
      hide Verify, ParsesM3, VerifiesB, TranscriptInput, TagInput, SessionKey, ConfirmA, ConfirmB, CiphertextOf;
      th, sessionKey, confirmA := ZERO_DIGEST, ZERO_DIGEST, ZERO_DIGEST;
      ok := ParseM3(sid);
      if !ok {
        return;
      }
      var n := M3InnerBytes(u.carried);
      ghost var m3 := buffers.m3[..36 + n + 32];
      var inner, tauB := buffers.m3[36..36 + n], buffers.m3[36 + n..36 + n + 32];
      assert inner == InnerOf(u, m3) && tauB == TauBOf(u, m3);
      var hashM2 := u.sha(buffers.m2[..M2Bytes(u.carried)]);
      ok := VerifyInner(start, sid, hashM2, inner, repository);
      if !ok {
        return;
      }
      var sharedSecret := u.decaps(sk, CiphertextOf(inner));
      var hashed: bool;
      hashed, th := TranscriptHash(u.sha, sid, [buffers.m0[..], buffers.m1[..],
                                                 buffers.m2[..M2Bytes(u.carried)], inner]);
      assert hashed && th == Th(u, CompletionOf(u, start, inner).t);
      var derived, confirmB;
      derived, sessionKey, confirmA, confirmB := DeriveSessionKeys(u.mac, sharedSecret, th);
      var expected := ComputeConfirmationTag(u.mac, DOMAIN_B_CONFIRM, confirmB, th);
      ok := ConstantTimeEqual(expected, tauB, 32);
      assert expected[..32] == expected && tauB[..32] == tauB;
    }

    /** `runInitiatorSession`, up to sending M4: a run of the step machine from an idle device. */
    method RunInitiatorSession(ghost s: System, i: InitiatorInputs, runtimeSeed: Digest)
      returns (ok: bool, sessionKey: Digest, sent: seq<Bytes>)
      requires Valid() && IsInitiator(s) && SignsAs(signer, u.sha, u.lmsIdA, u.treeA) && runtimeSeed == u.seedA
      modifies counter`nvs, buffers.All(), signer.smallHashInput
      ensures var end := InitiatorEnd(u, s, i);
        && IsInitiator(end) && sent == InitiatorSent(u, i, s, end)
        && |end.completed| == |s.completed| + (if ok then 1 else 0)
        && (ok ==> var run := end.completed[|s.completed|]; sessionKey == SessionKey(u.mac, run.secret, Th(u, run.t)))
    {
      hide AfterM1, InitiatorEnd, AcceptsM3, SessionKey, ConfirmA, Th, M0, BuildM2, TagInput, InnerOf, CompletionOf, M4;
      sessionKey := ZERO_DIGEST;
      AfterM1Starts(u, s, i);
      InitiatorEnds(u, s, i);
      var sid, q;
      ok, sid, q := OpenInitiator(s, i);
      sent := [buffers.m0[..]];
      if !ok || !i.pufOk {
        return false, sessionKey, sent;
      }
      var filled := buffers.FillM2(u, signer, sid, q, u.kemPublic(i.sk), runtimeSeed, i.c);
      assert filled;
      sent := sent + [buffers.m2[..M2Bytes(u.carried)]];
      ghost var start := InitiatorStart(sid, buffers.m0[..], buffers.m1[..], buffers.m2[..M2Bytes(u.carried)], i.sk);
      ok := ReceiveProtocolMessage(i.m3, buffers.m3, 36 + M3InnerBytes(u.carried) + 32);
      if !ok {
        WrongLengthM3(u, start, i);
        return;
      }
      var th, confirmA;
      ok, th, sessionKey, confirmA := CheckM3(start, sid, i.sk, i.path);
      if !ok {
        return;
      }
      var tauA := ComputeConfirmationTag(u.mac, DOMAIN_A_CONFIRM, confirmA, th);
      buffers.FillM4(sid, tauA);
      CompletionSid(u, start, InnerOf(u, i.m3.value));
      sent := sent + [buffers.m4[..]];
    }

    lemma CompletionSid(u: Setup, start: InitiatorStart, inner: Inner)
      ensures CompletionOf(u, start, inner).t.sid == start.sid
    {
    }

    lemma WrongLengthM3(u: Setup, start: InitiatorStart, i: InitiatorInputs)
      requires i.m3.None? || |i.m3.value| != 36 + M3InnerBytes(u.carried) + 32
      ensures i.m3.Some? ==> !AcceptsM3(u, start, i.m3.value, PathOf(i.path))
    {
    }

    // --- As responder

    /** The fields of M0 and the construction of M1. */
    method OpenResponder(ghost s: System, i: ResponderInputs) returns (ok: bool, sid: Digest)
      requires Valid() && IsResponder(s)
      modifies buffers.m0, buffers.m1
      ensures var s1 := AfterM0(u, s, i);
        && ok == s1.b.AwaitM2?
        && (ok ==> s1.b == AwaitM2(buffers.m0[..], buffers.m1[..], sid))
        && (ok ==> buffers.m1[..] == M1(u.idB, u.idA, buffers.m0[66..82], i.nonceB, Suite(u.carried)))
    {
      hide M1, Sid0Input, ValidM0;
      sid := ZERO_DIGEST;
      ok := ReceiveProtocolMessage(i.m0, buffers.m0, 86);
      if !ok {
        WrongLengthM0(u, i);
        return;
      }
      assert buffers.m0[..] == buffers.m0[..86] == i.m0.value;
      var nonceA := buffers.m0[66..82];
      assert nonceA == i.m0.value[66..82];
      var valid := buffers.ValidateM0(u, nonceA);
      if !valid {
        return false, sid;
      }
      buffers.BuildM1(u.idB, u.idA, nonceA, i.nonceB, Suite(u.carried));
      sid := buffers.ComputeSid0(u.sha);
    }

    lemma WrongLengthM0(u: Setup, i: ResponderInputs)
      requires i.m0.None? || |i.m0.value| != 86
      ensures i.m0.Some? ==> !ValidM0(u, i.m0.value)
    {
    }

    /** Header, version and signature of the M2 in the buffer. */
    method CheckM2(sid: Digest, repository: Option<Path>) returns (ok: bool)
      requires Valid()
      modifies buffers.mu, buffers.signInput
      ensures ok == (HasPath(u, repository) && AcceptsM2(u, sid, buffers.m2[..M2Bytes(u.carried)], PathOf(repository)))
    {
      hide Verify, SignInput, MuA, GetU32;
      var m2 := buffers.m2[..M2Bytes(u.carried)];
      if m2[0] != Wire.PROTOCOL_VERSION || m2[1] != MSG_M2_INIT {
        return false;
      }
      ok := ConstantTimeEqual(m2[2..34], sid, 32);
      if !ok {
        return;
      }
      var version, q := VersionOf(m2), IndexOf(m2);
      if q >= LMS_LEAVES || version != u.versionA {
        NoSuchLeaf(u.sha, q, ObjectA(u, sid, m2), M2SignatureOf(m2), u.lmsIdA,
                   PeerPath(u, m2, M2_BASE_BYTES, PathOf(repository)), u.treeA[1]);
        return false;
      }
      var path: Path;
      ok, path := ObtainPeerPath(m2, M2_BASE_BYTES, repository);
      if !ok {
        return;
      }
      buffers.BuildM2SignedInput(sid, u.idA, u.idB, version, q, PublicKeyOf(m2));
      ok := VerifySignature(u.sha, q, buffers.signInput[..], M2SignatureOf(m2), u.lmsIdA, path, u.treeA[1]);
    }

    /** M2 in, checked, and an index reserved. */
    method AnswerM2(ghost s: System, i: ResponderInputs, sid: Digest) returns (ok: bool, q: u32)
      requires Valid() && IsResponder(s)
      requires AfterM0(u, s, i).b == AwaitM2(buffers.m0[..], buffers.m1[..], sid)
      modifies counter`nvs, buffers.m2, buffers.mu, buffers.signInput
      ensures var s2 := AfterM2(u, s, i);
        && counter.nvs == s2.nvsB && ok == s2.b.ReservedB?
        && (ok ==> s2.b == ReservedB(buffers.m0[..], buffers.m1[..], sid, buffers.m2[..M2Bytes(u.carried)], i.coins, q))
    {
      hide AcceptsM2, AfterM0;
      q := 0;
      AfterM0Idles(u, s, i);
      ok := ReceiveProtocolMessage(i.m2, buffers.m2, M2Bytes(u.carried));
      if !ok {
        WrongLengthM2(u, sid, i);
        return;
      }
      ok := CheckM2(sid, i.path);
      if !ok {
        return;
      }
      ok, q := counter.ReserveQ(i.put);
    }

    lemma WrongLengthM2(u: Setup, sid: Digest, i: ResponderInputs)
      requires i.m2.None? || |i.m2.value| != M2Bytes(u.carried)
      ensures i.m2.Some? ==> !AcceptsM2(u, sid, i.m2.value, PathOf(i.path))
    {
    }

    /** Signature, transcript, keys and tag: the whole of M3. */
    method RespondM3(i: ResponderInputs, ghost b: PhaseB, sid: Digest, q: u32, runtimeSeed: Digest)
      returns (th: Digest, sessionKey: Digest, confirmA: Digest)
      requires Valid() && SignsAs(signer, u.sha, u.lmsIdB, u.treeB) && runtimeSeed == u.seedB && q < LMS_LEAVES
      requires b == ReservedB(buffers.m0[..], buffers.m1[..], sid, buffers.m2[..M2Bytes(u.carried)], i.coins, q)
      modifies buffers.m3, buffers.mu, buffers.signInput, signer.smallHashInput
      ensures var run := ResponseOf(u, b, i.c);
        && th == Th(u, run.t) && sessionKey == SessionKey(u.mac, run.secret, th)
        && confirmA == ConfirmA(u.mac, run.secret, th)
        && buffers.m3[..36 + M3InnerBytes(u.carried) + 32] == M3Of(u, run)
    {
      hide TranscriptInput, TagInput, SessionKey, ConfirmA, ConfirmB, BuildInner, Wire.M3;
      var n := M3InnerBytes(u.carried);
      var m2 := buffers.m2[..M2Bytes(u.carried)];
      var (ciphertext, sharedSecret) := u.encaps(PublicKeyOf(m2), i.coins);
      var filled := buffers.FillInner(u, signer, sid, m2, u.sha(m2), q, ciphertext, runtimeSeed, i.c);
      var inner := buffers.m3[36..36 + n];
      ghost var run := ResponseOf(u, b, i.c);
      assert inner == run.t.inner;
      var hashed: bool;
      hashed, th := TranscriptHash(u.sha, sid, [buffers.m0[..], buffers.m1[..], m2, inner]);
      assert hashed && th == Th(u, run.t);
      var derived, confirmB;
      derived, sessionKey, confirmA, confirmB := DeriveSessionKeys(u.mac, sharedSecret, th);
      var tauB := ComputeConfirmationTag(u.mac, DOMAIN_B_CONFIRM, confirmB, th);
      buffers.CloseM3(sid, inner, n, tauB);
    }

    method CheckM4(ghost run: ResponderRun, sid: Digest, th: Digest, confirmA: Digest) returns (ok: bool)
      requires Valid() && sid == run.t.sid && th == Th(u, run.t) && confirmA == ConfirmA(u.mac, run.secret, th)
      ensures ok == AcceptsM4(u, run, buffers.m4[..])
    {
      hide TagInput, ConfirmA, Th;
      if buffers.m4[0] != Wire.PROTOCOL_VERSION || buffers.m4[1] != MSG_M4_INIT_FIN {
        return false;
      }
      assert buffers.m4[2..34] == buffers.m4[..][2..34] && buffers.m4[34..] == buffers.m4[..][34..];
      ok := ConstantTimeEqual(buffers.m4[2..34], sid, 32);
      if !ok {
        return;
      }
      var expected := ComputeConfirmationTag(u.mac, DOMAIN_A_CONFIRM, confirmA, th);
      ok := ConstantTimeEqual(expected, buffers.m4[34..], 32);
      assert expected[..32] == expected && buffers.m4[34..][..32] == buffers.m4[34..];
    }

    /** `runResponderOnce`, up to the decision on M4: a run of the step machine from an idle device. */
    method RunResponderOnce(ghost s: System, i: ResponderInputs, runtimeSeed: Digest)
      returns (accepted: bool, sessionKey: Digest, sent: seq<Bytes>)
      requires Valid() && IsResponder(s) && SignsAs(signer, u.sha, u.lmsIdB, u.treeB) && runtimeSeed == u.seedB
      modifies counter`nvs, buffers.All(), signer.smallHashInput
      ensures var end := ResponderEnd(u, s, i);
        && IsResponder(end) && sent == ResponderSent(u, i, s, end)
        && |end.accepted| == |s.accepted| + (if accepted then 1 else 0)
        && (accepted ==>
              var run := end.accepted[|s.accepted|];
              sessionKey == SessionKey(u.mac, run.secret, Th(u, run.t)))
    {
      hide AfterM0, AfterM2, ResponderEnd, AcceptsM4, SessionKey, ConfirmA, Th, M1, ResponseOf, M3Of, ValidM0;
      accepted, sessionKey, sent := false, ZERO_DIGEST, [];
      AfterM0Idles(u, s, i);
      AfterM2Starts(u, s, i);
      ResponderEnds(u, s, i);
      var ok, sid := OpenResponder(s, i);
      if !ok {
        return;
      }
      sent := [buffers.m1[..]];
      var q;
      ok, q := AnswerM2(s, i, sid);
      if !ok || !i.pufOk {
        return;
      }
      ghost var b := AfterM2(u, s, i).b;
      var th, confirmA;
      th, sessionKey, confirmA := RespondM3(i, b, sid, q, runtimeSeed);
      ghost var run := ResponseOf(u, b, i.c);
      sent := sent + [buffers.m3[..36 + M3InnerBytes(u.carried) + 32]];
      ok := ReceiveProtocolMessage(i.m4, buffers.m4, 66);
      if !ok {
        WrongLengthM4(u, run, i);
        return;
      }
      assert buffers.m4[..] == buffers.m4[..66];
      ResponseSid(u, b, i.c);
      accepted := CheckM4(run, sid, th, confirmA);
    }

    lemma WrongLengthM4(u: Setup, run: ResponderRun, i: ResponderInputs)
      requires i.m4.None? || |i.m4.value| != 66
      ensures i.m4.Some? ==> !AcceptsM4(u, run, i.m4.value)
    {
    }

    lemma ResponseSid(u: Setup, b: PhaseB, c: Digest)
      requires b.ReservedB? && b.q < LMS_LEAVES
      ensures ResponseOf(u, b, c).t.sid == b.sid
    {
    }
  }

  lemma AfterM0Idles(u: Setup, s: System, i: ResponderInputs)
    requires s.ramB.Some? && s.b.IdleB?
    ensures var s1 := AfterM0(u, s, i);
      && s1.ramB == s.ramB && s1.nvsB == s.nvsB && s1.responded == s.responded && s1.accepted == s.accepted
      && (if i.m0.Some? && ValidM0(u, i.m0.value) then s1.b.AwaitM2? && s1.b.m0 == i.m0.value else s1.b.IdleB?)
  {
    hide Sid0Input, ValidM0, M1;
  }

  lemma AfterM2Starts(u: Setup, s: System, i: ResponderInputs)
    requires s.ramB.Some? && s.b.IdleB?
    ensures var s2 := AfterM2(u, s, i);
      && s2.responded == s.responded && s2.accepted == s.accepted && s2.ramB == s.ramB
      && (s2.b.IdleB? || s2.b.ReservedB?)
      && (s2.b.ReservedB? ==> s2.b.q < LMS_LEAVES)
      && (AfterM0(u, s, i).b.IdleB? ==> s2 == AfterM0(u, s, i))
  {
    hide AfterM0, AcceptsM2, ValidM0;
    AfterM0Idles(u, s, i);
  }

  /** The three ways in which a responder session of the step machine ends. */
  lemma ResponderEnds(u: Setup, s: System, i: ResponderInputs)
    requires s.ramB.Some? && s.b.IdleB?
    ensures var s2, end := AfterM2(u, s, i), ResponderEnd(u, s, i);
      && end.nvsB == s2.nvsB && end.ramB == s.ramB && end.b.IdleB?
      && if s2.b.ReservedB? && i.pufOk then
           var run := ResponseOf(u, s2.b, i.c);
           && end.responded == s.responded + [run]
           && end.accepted == s.accepted + if i.m4.Some? && AcceptsM4(u, run, i.m4.value) then [run] else []
         else end.responded == s.responded && end.accepted == s.accepted
  {
    hide AfterM2, AfterM0, ResponseOf, AcceptsM4;
    AfterM2Starts(u, s, i);
  }

  /** The messages of a session from s to end: M1 if M0 was valid, then M3 if it was signed. */
  function ResponderSent(u: Setup, i: ResponderInputs, s: System, end: System): seq<Bytes> {
    (if i.m0.Some? && ValidM0(u, i.m0.value) then [M1(u.idB, u.idA, i.m0.value[66..82], i.nonceB, Suite(u.carried))]
      else [])
    + (if |end.responded| <= |s.responded| then [] else [M3Of(u, end.responded[|s.responded|])])
  }

  /** What an initiator signs once its index is reserved. */
  function StartOf(u: Setup, a: PhaseA, c: Digest): InitiatorStart
    requires a.ReservedA? && a.q < LMS_LEAVES
  {
    InitiatorStart(a.sid, a.m0, a.m1, BuildM2(u, a.sid, a.q, u.kemPublic(a.sk), c), a.sk)
  }

  lemma AfterM1Starts(u: Setup, s: System, i: InitiatorInputs)
    requires s.ramA.Some? && s.a.IdleA?
    ensures var s2 := AfterM1(u, s, i);
      && s2.started == s.started && s2.completed == s.completed && s2.ramA == s.ramA && (s2.a.IdleA? || s2.a.ReservedA?)
      && (s2.a.ReservedA? ==> s2.a.q < LMS_LEAVES)
  {
    hide Sid0Input, ValidM1, M0;
  }

  /** The three ways in which an initiator session of the step machine ends. */
  lemma InitiatorEnds(u: Setup, s: System, i: InitiatorInputs)
    requires s.ramA.Some? && s.a.IdleA?
    ensures var s2, end := AfterM1(u, s, i), InitiatorEnd(u, s, i);
      && end.nvsA == s2.nvsA && end.ramA == s.ramA && end.a.IdleA?
      && if s2.a.ReservedA? && i.pufOk then
           var start := StartOf(u, s2.a, i.c);
           && end.started == s.started + [start]
           && end.completed == s.completed
                + if i.m3.Some? && HasPath(u, i.path) && AcceptsM3(u, start, i.m3.value, PathOf(i.path))
                  then [CompletionOf(u, start, InnerOf(u, i.m3.value))] else []
         else end.started == s.started && end.completed == s.completed
  {
    hide AfterM1, BuildM2, AcceptsM3, CompletionOf;
    AfterM1Starts(u, s, i);
  }

  lemma NoSuchLeaf(sha: Hash, q: u32, message: Bytes, signature: Signature, id: Identifier, path: Path, root: Digest)
    ensures q >= LMS_LEAVES ==> !Verify(sha, q, message, signature, id, path, root)
  {
  }

  /** The messages of a session from s to end: M0, then M2 if it was signed, then M4 if the session completed. */
  function InitiatorSent(u: Setup, i: InitiatorInputs, s: System, end: System): seq<Bytes> {
    [M0(u.idA, u.idB, i.nonceA, Suite(u.carried))]
    + (if |end.started| <= |s.started| then [] else [end.started[|s.started|].m2])
    + (if |end.completed| <= |s.completed| then [] else [M4Of(u, end.completed[|s.completed|])])
  }
}
