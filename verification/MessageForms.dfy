/** Every check on a received message, as the form of the messages it lets through: nothing else is accepted. */
module MessageForms {
  import opened Octets
  import opened Wrappers
  import opened LmsSpec
  import opened OneTimeIndex
  import opened Wire
  import opened Handshake

  // --- M0 and M1 -----------------------------------------------------------------------------

  ghost predicate IsPeersM0(u: Setup, m0: Bytes) {
    exists nonceA: Nonce :: m0 == M0(u.idA, u.idB, nonceA, Suite(u.carried))
  }

  ghost predicate IsPeersM1(u: Setup, m1: Bytes, nonceA: Nonce) {
    exists nonceB: Nonce :: m1 == M1(u.idB, u.idA, nonceA, nonceB, Suite(u.carried))
  }

  /** The responder takes exactly the M0 of its peer to itself, in its own path mode. */
  lemma {:induction false} ValidM0IsM0(u: Setup, m0: Bytes)
    ensures ValidM0(u, m0) <==> IsPeersM0(u, m0)
  {
    hide U32, GetU32;
    if ValidM0(u, m0) {
      U32OfGetU32(m0[82..]);
      var nonceA: Nonce := m0[66..82];
      assert m0 == m0[..2] + m0[2..34] + m0[34..66] + m0[66..82] + m0[82..];
      assert m0 == M0(u.idA, u.idB, nonceA, Suite(u.carried));
    }
    if nonceA: Nonce :| m0 == M0(u.idA, u.idB, nonceA, Suite(u.carried)) {
      assert m0[2..34] == u.idA && m0[34..66] == u.idB && m0[82..] == U32(Suite(u.carried));
    }
  }

  /** The initiator takes exactly the M1 of its peer to itself that returns its own nonce, in its own path mode. */
  lemma {:induction false} ValidM1IsM1(u: Setup, m1: Bytes, nonceA: Nonce)
    ensures ValidM1(u, m1, nonceA) <==> IsPeersM1(u, m1, nonceA)
  {
    hide U32, GetU32;
    if ValidM1(u, m1, nonceA) {
      U32OfGetU32(m1[98..]);
      var nonceB: Nonce := m1[82..98];
      assert m1 == m1[..2] + m1[2..34] + m1[34..66] + m1[66..82] + m1[82..98] + m1[98..];
      assert m1 == M1(u.idB, u.idA, nonceA, nonceB, Suite(u.carried));
    }
    if nonceB: Nonce :| m1 == M1(u.idB, u.idA, nonceA, nonceB, Suite(u.carried)) {
      assert m1[2..34] == u.idB && m1[34..66] == u.idA && m1[66..82] == nonceA;
      assert m1[98..] == U32(Suite(u.carried));
    }
  }

  /** M0 and M1 determine their identities, nonces and path mode, and neither is the other. */
  lemma {:induction false} OpeningsBind(
    idA: Digest, idB: Digest, nonceA: Nonce, nonceB: Nonce, carried: bool,
    idA': Digest, idB': Digest, nonceA': Nonce, nonceB': Nonce, carried': bool)
    ensures M0(idA, idB, nonceA, Suite(carried)) == M0(idA', idB', nonceA', Suite(carried'))
        ==> idA == idA' && idB == idB' && nonceA == nonceA' && carried == carried'
    ensures M1(idB, idA, nonceA, nonceB, Suite(carried)) == M1(idB', idA', nonceA', nonceB', Suite(carried'))
        ==> idA == idA' && idB == idB' && nonceA == nonceA' && nonceB == nonceB' && carried == carried'
    ensures M0(idA, idB, nonceA, Suite(carried)) != M1(idB', idA', nonceA', nonceB', Suite(carried'))
  {
    hide U32, GetU32;
    var a, b := M0(idA, idB, nonceA, Suite(carried)), M0(idA', idB', nonceA', Suite(carried'));
    assert a[2..34] == idA && a[34..66] == idB && a[66..82] == nonceA && a[82..] == U32(Suite(carried));
    assert b[2..34] == idA' && b[34..66] == idB' && b[66..82] == nonceA' && b[82..] == U32(Suite(carried'));
    var c := M1(idB, idA, nonceA, nonceB, Suite(carried));
    var d := M1(idB', idA', nonceA', nonceB', Suite(carried'));
    assert c[2..34] == idB && c[34..66] == idA && c[66..82] == nonceA && c[82..98] == nonceB
      && c[98..] == U32(Suite(carried));
    assert d[2..34] == idB' && d[34..66] == idA' && d[66..82] == nonceA' && d[82..98] == nonceB'
      && d[98..] == U32(Suite(carried'));
  }

  // --- M2 ----------------------------------------------------------------------------------------

  /** An M2 of this session and version, with a signature over its own fields. */
  predicate IsM2(u: Setup, sid: Digest, m2: Bytes, repository: Path, q: u32, pk: PublicKey, signature: Signature,
      path: Path) {
    && m2 == Signed(MSG_M2_INIT, sid, u.versionA, q, pk, signature, if u.carried then path else [])
    && Verify(u.sha, q, SignInput(MuA(sid, u.idA, u.idB, u.versionA, pk), q), signature, u.lmsIdA,
              if u.carried then path else repository, u.treeA[1])
  }

  ghost predicate IsPeersM2(u: Setup, sid: Digest, m2: Bytes, repository: Path) {
    exists q: u32, pk: PublicKey, signature: Signature, path: Path ::
      IsM2(u, sid, m2, repository, q, pk, signature, path)
  }

  /** The parts of a message of the signed form, read at the receiver's offsets, put together again. */
  lemma SignedIsItsFields(m: Bytes, kemBytes: nat)
    requires |m| >= 2222 + kemBytes && m[0] == PROTOCOL_VERSION
    ensures m == Signed(m[1], SidOf(m), VersionOf(m), IndexOf(m), m[42..42 + kemBytes],
                        m[42 + kemBytes..2222 + kemBytes], m[2222 + kemBytes..])
  {
    hide U32, GetU32;
    U32OfGetU32(m[34..38]);
    U32OfGetU32(m[38..42]);
    assert m == [m[0], m[1]] + m[2..34] + m[34..38] + m[38..42] + m[42..42 + kemBytes]
             + m[42 + kemBytes..2222 + kemBytes] + m[2222 + kemBytes..];
  }

  /** The responder accepts exactly the signed messages of this session, with a path that leads to the known root. */
  lemma {:induction false} AcceptedM2IsSigned(u: Setup, sid: Digest, m2: Bytes, repository: Path)
    ensures AcceptsM2(u, sid, m2, repository) <==> IsPeersM2(u, sid, m2, repository)
  {
    hide Verify, SignInput, MuA, Signed, GetU32;
    if AcceptsM2(u, sid, m2, repository) {
      SignedIsItsFields(m2, 800);
      assert m2[3022..] == if u.carried then m2[3022..] else [];
      assert IsM2(u, sid, m2, repository, IndexOf(m2), PublicKeyOf(m2), M2SignatureOf(m2),
                  if u.carried then m2[3022..] else repository);
    }
    if q: u32, pk: PublicKey, signature: Signature, path: Path :|
      IsM2(u, sid, m2, repository, q, pk, signature, path) {
      SignedFields(MSG_M2_INIT, sid, u.versionA, q, pk, signature, if u.carried then path else []);
    }
  }

  // --- M3 ----------------------------------------------------------------------------------------

  predicate IsInner(u: Setup, start: InitiatorStart, inner: Inner, repository: Path, q: u32, ct: Ciphertext,
      signature: Signature, path: Path) {
    && inner == Signed(MSG_M3_INNER, start.sid, u.versionB, q, ct, signature, if u.carried then path else [])
    && Verify(u.sha, q, SignInput(MuB(start.sid, u.sha(start.m2), u.idA, u.idB, u.versionB, ct), q), signature,
              u.lmsIdB, if u.carried then path else repository, u.treeB[1])
  }

  /** The responder's tag under the secret that the initiator decapsulates. */
  function ExpectedTauB(u: Setup, start: InitiatorStart, inner: Inner, ct: Ciphertext): Digest {
    var th := u.sha(TranscriptInput(start.sid, start.m0, start.m1, start.m2, inner));
    u.mac(ConfirmB(u.mac, u.decaps(start.sk, ct), th), TagInput(DOMAIN_B_CONFIRM, th))
  }

  predicate IsM3(u: Setup, start: InitiatorStart, m3: Bytes, repository: Path, inner: Inner, q: u32, ct: Ciphertext,
      signature: Signature, path: Path) {
    && IsInner(u, start, inner, repository, q, ct, signature, path)
    && m3 == M3(start.sid, inner, ExpectedTauB(u, start, inner, ct))
  }

  lemma SliceOfSlice(b: Bytes, low: nat, high: nat, from: nat, to: nat)
    requires low <= high <= |b| && from <= to <= high - low
    ensures b[low..high][from..to] == b[low + from..low + to]
  {
    var middle := b[low..high];
    assert forall k :: from <= k < to ==> middle[k] == b[low + k];
  }

  ghost predicate IsPeersM3(u: Setup, start: InitiatorStart, m3: Bytes, repository: Path) {
    exists inner: Inner, q: u32, ct: Ciphertext, signature: Signature, path: Path ::
      IsM3(u, start, m3, repository, inner, q, ct, signature, path)
  }

  lemma M3IsItsParts(u: Setup, sid: Digest, m3: Bytes)
    requires ParsesM3(u, sid, m3)
    ensures m3 == M3(sid, InnerOf(u, m3), TauBOf(u, m3))
    ensures var inner := InnerOf(u, m3); inner[0] == m3[36] && inner[1] == m3[37] && SidOf(inner) == sid
  {
    hide U16, GetU16;
    var n := M3InnerBytes(u.carried);
    U16OfGetU16(m3[34..36]);
    SliceOfSlice(m3, 36, 36 + n, 2, 34);
    assert m3 == [m3[0], m3[1]] + m3[2..34] + m3[34..36] + m3[36..36 + n] + m3[36 + n..];
  }

  lemma M3Parses(u: Setup, sid: Digest, inner: Inner, tau: Digest)
    requires |inner| == M3InnerBytes(u.carried) && inner[0] == PROTOCOL_VERSION && inner[1] == MSG_M3_INNER
    requires SidOf(inner) == sid
    ensures var m3 := M3(sid, inner, tau);
      ParsesM3(u, sid, m3) && InnerOf(u, m3) == inner && TauBOf(u, m3) == tau
  {
    hide U16, GetU16;
    var n := |inner|;
    var m3 := M3(sid, inner, tau);
    assert m3[34..36] == U16(n) && m3[2..34] == sid && m3[36..36 + n] == inner && m3[36 + n..] == tau;
    assert m3[38..70] == m3[36..36 + n][2..34];
  }

  lemma {:induction false} ReadInner(u: Setup, start: InitiatorStart, inner: Inner, repository: Path)
    requires |inner| == M3InnerBytes(u.carried) && inner[0] == PROTOCOL_VERSION && inner[1] == MSG_M3_INNER
    requires SidOf(inner) == start.sid
    ensures VerifiesB(u, start, inner, repository)
       <==> exists signature: Signature, path: Path ::
              IsInner(u, start, inner, repository, IndexOf(inner), CiphertextOf(inner), signature, path)
  {
    hide Verify, SignInput, MuB, Signed, GetU32;
    if VerifiesB(u, start, inner, repository) {
      SignedIsItsFields(inner, 768);
      assert inner[2990..] == if u.carried then inner[2990..] else [];
      assert IsInner(u, start, inner, repository, IndexOf(inner), CiphertextOf(inner), InnerSignatureOf(inner),
                     if u.carried then inner[2990..] else repository);
    }
    if signature: Signature, path: Path :|
      IsInner(u, start, inner, repository, IndexOf(inner), CiphertextOf(inner), signature, path) {
      SignedFields(MSG_M3_INNER, start.sid, u.versionB, IndexOf(inner), CiphertextOf(inner), signature,
                   if u.carried then path else []);
    }
  }

  lemma InnerFields(u: Setup, start: InitiatorStart, inner: Inner, repository: Path, q: u32, ct: Ciphertext,
      signature: Signature, path: Path)
    requires IsInner(u, start, inner, repository, q, ct, signature, path)
    ensures |inner| == M3InnerBytes(u.carried) && inner[0] == PROTOCOL_VERSION && inner[1] == MSG_M3_INNER
    ensures SidOf(inner) == start.sid && IndexOf(inner) == q && CiphertextOf(inner) == ct
  {
    hide Verify, SignInput, MuB, GetU32, Signed;
    SignedFields(MSG_M3_INNER, start.sid, u.versionB, q, ct, signature, if u.carried then path else []);
  }

  /** The initiator accepts exactly the signed and tagged messages of this session, under its own secret. */
  lemma {:induction false} AcceptedM3IsTagged(u: Setup, start: InitiatorStart, m3: Bytes, repository: Path)
    ensures AcceptsM3(u, start, m3, repository) <==> IsPeersM3(u, start, m3, repository)
  {
    hide VerifiesB, IsInner, GetU32, ConfirmB, TagInput, TranscriptInput, M3;
    if AcceptsM3(u, start, m3, repository) {
      var inner := InnerOf(u, m3);
      M3IsItsParts(u, start.sid, m3);
      ReadInner(u, start, inner, repository);
      var signature: Signature, path: Path :|
        IsInner(u, start, inner, repository, IndexOf(inner), CiphertextOf(inner), signature, path);
      assert ExpectedTauB(u, start, inner, CiphertextOf(inner)) == TauBOf(u, m3);
      assert IsM3(u, start, m3, repository, inner, IndexOf(inner), CiphertextOf(inner), signature, path);
    }
    if inner: Inner, q: u32, ct: Ciphertext, signature: Signature, path: Path :|
      IsM3(u, start, m3, repository, inner, q, ct, signature, path) {
      InnerFields(u, start, inner, repository, q, ct, signature, path);
      M3Parses(u, start.sid, inner, ExpectedTauB(u, start, inner, ct));
      ReadInner(u, start, inner, repository);
    }
  }

  // --- M4 ----------------------------------------------------------------------------------------

  /** The responder accepts one byte string only: the session identifier under its initiator's tag. */
  lemma {:induction false} AcceptedM4IsTheOne(u: Setup, run: ResponderRun, m4: Bytes)
    ensures var th := u.sha(TranscriptInput(run.t.sid, run.t.m0, run.t.m1, run.t.m2, run.t.inner));
      AcceptsM4(u, run, m4)
      <==> m4 == M4(run.t.sid, u.mac(ConfirmA(u.mac, run.secret, th), TagInput(DOMAIN_A_CONFIRM, th)))
  {
    hide ConfirmA, TagInput, TranscriptInput;
    if |m4| == 66 {
      assert m4 == [m4[0], m4[1]] + m4[2..34] + m4[34..];
    }
    var expected := M4(run.t.sid, TagA(u, run.t, run.secret));
    assert expected[2..34] == run.t.sid && expected[34..] == TagA(u, run.t, run.secret);
  }

  /** M3 and M4 determine everything they carry, the tags included. */
  lemma {:induction false} ClosingsBind(sid: Digest, inner: Inner, tau: Digest, sid': Digest, inner': Inner,
      tau': Digest)
    ensures M3(sid, inner, tau) == M3(sid', inner', tau') ==> sid == sid' && inner == inner' && tau == tau'
    ensures M4(sid, tau) == M4(sid', tau') ==> sid == sid' && tau == tau'
    ensures M3(sid, inner, tau) != M4(sid', tau')
  {
    hide U16;
    var a, b := M3(sid, inner, tau), M3(sid', inner', tau');
    assert a[2..34] == sid && a[36..|a| - 32] == inner && a[|a| - 32..] == tau;
    assert b[2..34] == sid' && b[36..|b| - 32] == inner' && b[|b| - 32..] == tau';
    assert M4(sid, tau)[2..34] == sid && M4(sid, tau)[34..] == tau;
    assert M4(sid', tau')[2..34] == sid' && M4(sid', tau')[34..] == tau';
  }

  // --- Nothing hashed or signed is taken for something else ----------------------------------------

  /** Session identifiers, transcripts, signed objects, M2 and both tags hash or authenticate disjoint inputs. */
  lemma {:induction false} InputsAreDisjoint(
    m0: Bytes, m1: Bytes, t: Transcript, mu: Bytes, q: u32, th: Digest,
    sid: Digest, version: u32, kem: Bytes, signature: Signature, path: Bytes)
    requires |m0| < 0x1_0000 && |m1| < 0x1_0000 && |mu| == MU_BYTES
    ensures var inputs := [Sid0Input(m0, m1), TranscriptBytes(t), SignInput(mu, q),
                           Signed(MSG_M2_INIT, sid, version, q, kem, signature, path),
                           TagInput(DOMAIN_UAV_AKE, th), TagInput(DOMAIN_A_CONFIRM, th),
                           TagInput(DOMAIN_B_CONFIRM, th)];
      forall i, j :: 0 <= i < j < |inputs| ==> inputs[i] != inputs[j]
  {
    hide U16, U32;
    assert Sid0Input(m0, m1)[1] == 0x30 && TranscriptBytes(t)[1] == 0x34 && SignInput(mu, q)[1] == 0x33;
    assert Signed(MSG_M2_INIT, sid, version, q, kem, signature, path)[1] == 0x12;
    assert TagInput(DOMAIN_UAV_AKE, th)[1] == 0x35 && TagInput(DOMAIN_A_CONFIRM, th)[1] == 0x37
      && TagInput(DOMAIN_B_CONFIRM, th)[1] == 0x36;
  }

  // --- What a delivery changes ----------------------------------------------------------------------

  /** An M0 of another form changes nothing; the peer's is answered with its own nonce and fixes the session. */
  lemma {:induction false} M0Advances(u: Setup, s: System, m0: Bytes, nonceB: Nonce)
    requires s.ramB.Some? && s.b.IdleB?
    ensures var s' := M0ToB(u, s, m0, nonceB);
      && (!IsPeersM0(u, m0) ==> s' == s)
      && (forall nonceA: Nonce :: m0 == M0(u.idA, u.idB, nonceA, Suite(u.carried)) ==>
            var m1 := M1(u.idB, u.idA, nonceA, nonceB, Suite(u.carried));
            s' == s.(b := AwaitM2(m0, m1, u.sha(Sid0Input(m0, m1))), hashed := s.hashed + {Sid0Input(m0, m1)}))
  {
    hide Sid0Input;
    ValidM0IsM0(u, m0);
    forall nonceA: Nonce | m0 == M0(u.idA, u.idB, nonceA, Suite(u.carried)) ensures m0[66..82] == nonceA {
    }
  }

  /** An M1 of another form ends the session at no cost; the peer's fixes the session and reserves one index. */
  lemma {:induction false} M1Advances(u: Setup, s: System, m1: Bytes, sk: Bytes, put: Put)
    requires s.ramA.Some? && s.a.AwaitM1?
    ensures var s' := M1ToA(u, s, m1, sk, put);
      if !IsPeersM1(u, m1, s.a.nonceA) then s' == s.(a := IdleA)
      else
        var q := Reserved(s.nvsA, s.ramA.value, put);
        && s'.nvsA == NvsAfterReserve(s.nvsA, s.ramA.value, put)
        && s'.a == (if q.Some? then ReservedA(s.a.m0, m1, u.sha(Sid0Input(s.a.m0, m1)), sk, q.value) else IdleA)
        && s' == s.(nvsA := s'.nvsA, a := s'.a, hashed := s.hashed + {Sid0Input(s.a.m0, m1)})
  {
    hide Sid0Input, Reserved, NvsAfterReserve;
    ValidM1IsM1(u, m1, s.a.nonceA);
  }

  /** An M2 without a valid signature ends the session before an index is spent on it. */
  lemma {:induction false} M2Advances(u: Setup, s: System, m2: Bytes, repository: Path, coins: Bytes, put: Put)
    requires s.ramB.Some? && s.b.AwaitM2?
    ensures var s' := M2ToB(u, s, m2, repository, coins, put);
      if !IsPeersM2(u, s.b.sid, m2, repository) then s' == s.(b := IdleB)
      else
        var q := Reserved(s.nvsB, s.ramB.value, put);
        && |m2| == M2Bytes(u.carried) && s'.nvsB == NvsAfterReserve(s.nvsB, s.ramB.value, put)
        && s'.b == (if q.Some? then ReservedB(s.b.m0, s.b.m1, s.b.sid, m2, coins, q.value) else IdleB)
        && s' == s.(nvsB := s'.nvsB, b := s'.b, hashed := s.hashed + {m2})
  {
    hide IsM2, Reserved, NvsAfterReserve;
    AcceptedM2IsSigned(u, s.b.sid, m2, repository);
    AcceptedM2Length(u, s.b.sid, m2, repository);
  }

  lemma AcceptedM2Length(u: Setup, sid: Digest, m2: Bytes, repository: Path)
    ensures AcceptsM2(u, sid, m2, repository) ==> |m2| == M2Bytes(u.carried)
  {
  }

  /** An M3 without signature or tag completes nothing. */
  lemma {:induction false} M3Advances(u: Setup, s: System, m3: Bytes, repository: Path)
    requires s.ramA.Some? && s.a.AwaitM3?
    ensures var s' := M3ToA(u, s, m3, repository);
      if !IsPeersM3(u, s.a.start, m3, repository) then s' == s.(a := IdleA)
      else
        && |s'.completed| == |s.completed| + 1 && s'.completed[..|s.completed|] == s.completed
        && var run := s'.completed[|s.completed|];
        && run.t.sid == s.a.start.sid && run.t.m0 == s.a.start.m0 && run.t.m1 == s.a.start.m1
        && run.t.m2 == s.a.start.m2 && run.sk == s.a.start.sk
        && run.secret == u.decaps(s.a.start.sk, CiphertextOf(run.t.inner))
        && s' == s.(a := IdleA, completed := s'.completed, hashed := s'.hashed)
        && s'.hashed == s.hashed + {TranscriptBytes(run.t)}
  {
    hide IsM3, VerifiesB, TagB, TranscriptBytes, CiphertextOf;
    AcceptedM3IsTagged(u, s.a.start, m3, repository);
  }

  /** The responder accepts a session on the one M4 that carries its initiator's tag, and on no other bytes. */
  lemma {:induction false} M4Advances(u: Setup, s: System, m4: Bytes)
    requires s.ramB.Some? && s.b.AwaitM4?
    ensures var (s', run) := (M4ToB(u, s, m4), s.b.run);
      var th := Th(u, run.t);
      s' == if m4 == M4(run.t.sid, u.mac(ConfirmA(u.mac, run.secret, th), TagInput(DOMAIN_A_CONFIRM, th)))
            then s.(b := IdleB, accepted := s.accepted + [run]) else s.(b := IdleB)
  {
    hide ConfirmA, TagInput, M4, AcceptsM4;
    AcceptedM4IsTheOne(u, s.b.run, m4);
  }

  /** A boot ends every session and starts the counter as the device's own boot does. */
  lemma {:induction false} BootsAdvance(u: Setup, s: System, d: Device, c: Config, put: Put)
    ensures d.nvs == s.nvsA ==>
      var (s', d') := (Act(u, s, BootA(c, put)), Step(d, Boot(c, put)));
      s' == s.(nvsA := d'.nvs, ramA := if d'.ram.On? then Some(c) else None, a := IdleA)
    ensures d.nvs == s.nvsB ==>
      var (s', d') := (Act(u, s, BootB(c, put)), Step(d, Boot(c, put)));
      s' == s.(nvsB := d'.nvs, ramB := if d'.ram.On? then Some(c) else None, b := IdleB)
  {
  }

  // --- What a device sends ---------------------------------------------------------------------------

  /** The opening message names both devices and the nonce of this session, which the device then waits for. */
  lemma BeginSendsM0(u: Setup, s: System, nonceA: Nonce)
    requires s.ramA.Some? && s.a.IdleA?
    ensures var s' := StartA(u, s, nonceA);
      && s'.a.AwaitM1? && s'.a.nonceA == nonceA && IsPeersM0(u, s'.a.m0) && s'.a.m0[66..82] == nonceA
      && s' == s.(a := s'.a)
  {
    hide U32;
  }

  /** M2 goes out once per reserved index, with this session's public key and a signature over its own fields. */
  lemma {:induction false} M2IsSigned(u: Setup, s: System, c: Digest)
    requires s.ramA.Some? && s.a.ReservedA? && s.a.q < LMS_LEAVES
    ensures var (s', a) := (SignA(u, s, c), s.a);
      && |s'.started| == |s.started| + 1 && s'.started[..|s.started|] == s.started
      && var start := s'.started[|s.started|];
         var pk := u.kemPublic(a.sk);
      && start.sid == a.sid && start.m0 == a.m0 && start.m1 == a.m1 && start.sk == a.sk
      && start.m2 == Signed(MSG_M2_INIT, a.sid, u.versionA, a.q, pk,
                            LmsSpec.Sign(u.sha, u.lmsIdA, u.seedA, a.q, c,
                                         SignInput(MuA(a.sid, u.idA, u.idB, u.versionA, pk), a.q)),
                            if u.carried then AuthPath(u.treeA, a.q) else [])
      && s' == s.(a := AwaitM3(start), started := s'.started, hashed := s.hashed + {start.m2})
  {
    hide Signed, LmsSpec.Sign, AuthPath, SignInput, MuA;
  }

  /** M3 goes out once per reserved index, over this very M2, with the ciphertext of the secret that is kept. */
  lemma {:induction false} M3IsSigned(u: Setup, s: System, c: Digest)
    requires s.ramB.Some? && s.b.ReservedB? && s.b.q < LMS_LEAVES
    ensures var (s', b) := (SignB(u, s, c), s.b);
      && |s'.responded| == |s.responded| + 1 && s'.responded[..|s.responded|] == s.responded
      && var run := s'.responded[|s.responded|];
         var ct := u.encaps(PublicKeyOf(b.m2), b.coins).0;
      && run.t.sid == b.sid && run.t.m0 == b.m0 && run.t.m1 == b.m1 && run.t.m2 == b.m2
      && run.secret == u.encaps(PublicKeyOf(b.m2), b.coins).1
      && run.t.inner == Signed(MSG_M3_INNER, b.sid, u.versionB, b.q, ct,
                               LmsSpec.Sign(u.sha, u.lmsIdB, u.seedB, b.q, c,
                                            SignInput(MuB(b.sid, u.sha(b.m2), u.idA, u.idB, u.versionB, ct), b.q)),
                               if u.carried then AuthPath(u.treeB, b.q) else [])
      && s' == s.(b := AwaitM4(run), responded := s'.responded, hashed := s.hashed + {TranscriptBytes(run.t)})
  {
    hide Signed, LmsSpec.Sign, AuthPath, SignInput, MuB, TranscriptBytes;
  }
}
