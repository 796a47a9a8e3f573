/**
 Mutual injective agreement over whole runs. The network supplies arbitrary bytes;
 what it cannot do is stated as assumptions on each delivery: no signature and no tag
 under an honest key that the key's owner did not produce, and no hash collision
 among the inputs hashed so far.
 */
module Agreement {
  import opened Octets
  import opened Wrappers
  import opened LmsSpec
  import opened OneTimeIndex
  import opened Wire
  import opened Handshake

  // --- Assumptions ------------------------------------------------------------------------

  ghost predicate CollisionFree(sha: Hash, inputs: set<Bytes>) {
    forall x, y :: x in inputs && y in inputs && sha(x) == sha(y) ==> x == y
  }

  /** A signature that verifies under A's root was made by A on that very object. */
  ghost predicate SignedByA(u: Setup, started: seq<InitiatorStart>, signedObject: Bytes) {
    exists start :: start in started && ObjectA(u, start.sid, start.m2) == signedObject
  }

  ghost predicate SignedByB(u: Setup, responded: seq<ResponderRun>, signedObject: Bytes) {
    exists run :: run in responded && ObjectB(u, run.t.sid, run.t.m2, run.t.inner) == signedObject
  }

  /** The tags that the two devices have released, as pairs of key and MACed data. */
  ghost predicate Released(u: Setup, s: System, key: Bytes, data: Bytes) {
    || (exists run :: run in s.completed && key == ConfirmA(u.mac, run.secret, Th(u, run.t))
                                         && data == TagInput(DOMAIN_A_CONFIRM, Th(u, run.t)))
    || (exists run :: run in s.responded && key == ConfirmB(u.mac, run.secret, Th(u, run.t))
                                         && data == TagInput(DOMAIN_B_CONFIRM, Th(u, run.t)))
  }

  /** The KEM key in use was generated by A and signed into some M2. */
  ghost predicate HonestKey(started: seq<InitiatorStart>, pk: PublicKey) {
    exists start :: start in started && PublicKeyOf(start.m2) == pk
  }

  /** The ciphertext was made by B for this KEM key. */
  ghost predicate HonestCiphertext(responded: seq<ResponderRun>, pk: PublicKey, ct: Ciphertext) {
    exists run :: run in responded && PublicKeyOf(run.t.m2) == pk && CiphertextOf(run.t.inner) == ct
  }

  predicate SignatureOfA(u: Setup, sid: Digest, m2: Bytes, repository: Path) {
    && |m2| == M2Bytes(u.carried)
    && Verify(u.sha, IndexOf(m2), ObjectA(u, sid, m2), M2SignatureOf(m2), u.lmsIdA,
              PeerPath(u, m2, M2_BASE_BYTES, repository), u.treeA[1])
  }

  predicate SignatureOfB(u: Setup, start: InitiatorStart, m3: Bytes, repository: Path) {
    && |m3| == 36 + M3InnerBytes(u.carried) + 32
    && var inner := InnerOf(u, m3);
       Verify(u.sha, IndexOf(inner), ObjectB(u, start.sid, start.m2, inner), InnerSignatureOf(inner), u.lmsIdB,
              PeerPath(u, inner, M3_INNER_BASE_BYTES, repository), u.treeB[1])
  }

  /** What verifies under an honest root was signed by its owner. */
  ghost predicate SignaturesGenuine(u: Setup, s: System, action: Action)
    requires Enabled(s, action)
  {
    match action
    case DeliverM2(m2, repository, _, _) =>
      SignatureOfA(u, s.b.sid, m2, repository) ==> SignedByA(u, s.started, ObjectA(u, s.b.sid, m2))
    case DeliverM3(m3, repository) =>
      SignatureOfB(u, s.a.start, m3, repository) ==>
        SignedByB(u, s.responded, ObjectB(u, s.a.start.sid, s.a.start.m2, InnerOf(u, m3)))
    case _ => true
  }

  predicate HasTagB(u: Setup, run: InitiatorRun, m3: Bytes) {
    && |m3| == 36 + M3InnerBytes(u.carried) + 32
    && u.mac(ConfirmB(u.mac, run.secret, Th(u, run.t)), TagInput(DOMAIN_B_CONFIRM, Th(u, run.t))) == m3[|m3| - 32..]
  }

  predicate HasTagA(u: Setup, run: ResponderRun, m4: Bytes) {
    && |m4| == 66
    && u.mac(ConfirmA(u.mac, run.secret, Th(u, run.t)), TagInput(DOMAIN_A_CONFIRM, Th(u, run.t))) == m4[34..]
  }

  /** Tags are unforgeable only under secrets shared between honest parties. */
  ghost predicate TagsGenuine(u: Setup, s: System, action: Action)
    requires Enabled(s, action)
  {
    match action
    case DeliverM3(m3, _) =>
      |m3| == 36 + M3InnerBytes(u.carried) + 32 ==>
        var run := CompletionOf(u, s.a.start, InnerOf(u, m3));
        HasTagB(u, run, m3) && HonestCiphertext(s.responded, u.kemPublic(run.sk), CiphertextOf(run.t.inner)) ==>
          Released(u, s, ConfirmB(u.mac, run.secret, Th(u, run.t)), TagInput(DOMAIN_B_CONFIRM, Th(u, run.t)))
    case DeliverM4(m4) =>
      var run := s.b.run;
      HasTagA(u, run, m4) && HonestKey(s.started, PublicKeyOf(run.t.m2)) ==>
        Released(u, s, ConfirmA(u.mac, run.secret, Th(u, run.t)), TagInput(DOMAIN_A_CONFIRM, Th(u, run.t)))
    case _ => true
  }

  predicate KeepsCounter(action: Action) {
    match action
    case BootA(c, _) => !c.reset
    case BootB(c, _) => !c.reset
    case _ => true
  }

  ghost predicate Admitted(u: Setup, s: System, action: Action) {
    && Enabled(s, action) && KeepsCounter(action)
    && SignaturesGenuine(u, s, action) && TagsGenuine(u, s, action)
    && CollisionFree(u.sha, Act(u, s, action).hashed)
  }

  /** A run: any interleaving of boots, crashes, deliveries and sends that the assumptions admit. */
  ghost predicate IsRun(u: Setup, states: seq<System>, actions: seq<Action>) {
    && |states| == |actions| + 1 && states[0] == INITIAL
    && forall i :: 0 <= i < |actions| ==>
         Admitted(u, states[i], actions[i]) && states[i + 1] == Act(u, states[i], actions[i])
  }

  // --- Invariant of the initiator ---------------------------------------------------------

  ghost predicate StartOk(u: Setup, nvs: Nvs, hashed: set<Bytes>, start: InitiatorStart) {
    && PublicKeyOf(start.m2) == u.kemPublic(start.sk)
    && start.m2 in hashed
    && nvs.Some? && IndexOf(start.m2) < nvs.value
  }

  ghost predicate CompletedOk(u: Setup, nvs: Nvs, hashed: set<Bytes>, run: InitiatorRun) {
    && PublicKeyOf(run.t.m2) == u.kemPublic(run.sk)
    && run.secret == u.decaps(run.sk, CiphertextOf(run.t.inner))
    && TranscriptBytes(run.t) in hashed
    && nvs.Some? && IndexOf(run.t.m2) < nvs.value
  }

  ghost predicate InvA(u: Setup, nvs: Nvs, a: PhaseA, started: seq<InitiatorStart>, completed: seq<InitiatorRun>,
                       hashed: set<Bytes>)
  {
    && (forall start :: start in started ==> StartOk(u, nvs, hashed, start))
    && (forall run :: run in completed ==> CompletedOk(u, nvs, hashed, run))
    && (forall i, j :: 0 <= i < j < |completed| ==> IndexOf(completed[i].t.m2) < IndexOf(completed[j].t.m2))
    && (a.ReservedA? ==>
          && nvs.Some? && a.q < nvs.value
          && forall run :: run in completed ==> IndexOf(run.t.m2) < a.q)
    && (a.AwaitM3? ==>
          && a.start in started
          && forall run :: run in completed ==> IndexOf(run.t.m2) < IndexOf(a.start.m2))
  }

  // --- Invariant of the responder ---------------------------------------------------------

  ghost predicate RespondedOk(u: Setup, nvs: Nvs, started: seq<InitiatorStart>, hashed: set<Bytes>, run: ResponderRun) {
    && u.encaps(PublicKeyOf(run.t.m2), run.coins) == (CiphertextOf(run.t.inner), run.secret)
    && HonestKey(started, PublicKeyOf(run.t.m2))
    && run.t.m2 in hashed && TranscriptBytes(run.t) in hashed
    && nvs.Some? && IndexOf(run.t.inner) < nvs.value
  }

  ghost predicate InvB(u: Setup, nvs: Nvs, b: PhaseB, started: seq<InitiatorStart>,
                       responded: seq<ResponderRun>, accepted: seq<ResponderRun>, hashed: set<Bytes>)
  {
    && (forall run :: run in responded ==> RespondedOk(u, nvs, started, hashed, run))
    && (forall run :: run in accepted ==> run in responded)
    && (forall i, j :: 0 <= i < j < |responded| ==> IndexOf(responded[i].t.inner) < IndexOf(responded[j].t.inner))
    && (forall i, j :: 0 <= i < j < |accepted| ==> IndexOf(accepted[i].t.inner) < IndexOf(accepted[j].t.inner))
    && (b.ReservedB? ==>
          && nvs.Some? && b.q < nvs.value && b.m2 in hashed && HonestKey(started, PublicKeyOf(b.m2))
          && forall run :: run in responded ==> IndexOf(run.t.inner) < b.q)
    && (b.AwaitM4? ==>
          && b.run in responded
          && forall run :: run in accepted ==> IndexOf(run.t.inner) < IndexOf(b.run.t.inner))
  }

  // --- Links between the two sides ----------------------------------------------------------

  ghost predicate LinkedToInitiator(u: Setup, completed: seq<InitiatorRun>, run: ResponderRun) {
    exists other :: other in completed && Th(u, other.t) == Th(u, run.t)
  }

  ghost predicate LinkedToResponder(u: Setup, responded: seq<ResponderRun>, run: InitiatorRun) {
    exists other :: other in responded && Th(u, other.t) == Th(u, run.t)
  }

  ghost predicate Inv(u: Setup, s: System) {
    && InvA(u, s.nvsA, s.a, s.started, s.completed, s.hashed)
    && InvB(u, s.nvsB, s.b, s.started, s.responded, s.accepted, s.hashed)
    && (forall run :: run in s.accepted ==> LinkedToInitiator(u, s.completed, run))
    && (forall run :: run in s.completed ==> LinkedToResponder(u, s.responded, run))
    && CollisionFree(u.sha, s.hashed)
  }

  // --- Growth of the logs keeps what is known about older entries ----------------------------

  lemma MoreHashedA(u: Setup, nvs: Nvs, a: PhaseA, started: seq<InitiatorStart>, completed: seq<InitiatorRun>,
                    hashed: set<Bytes>, hashed': set<Bytes>)
    requires InvA(u, nvs, a, started, completed, hashed) && hashed <= hashed'
    ensures InvA(u, nvs, a, started, completed, hashed')
  {
    hide PublicKeyOf, IndexOf, CiphertextOf, TranscriptBytes;
  }

  lemma MoreHashedB(u: Setup, nvs: Nvs, b: PhaseB, started: seq<InitiatorStart>, started': seq<InitiatorStart>,
                    responded: seq<ResponderRun>, accepted: seq<ResponderRun>, hashed: set<Bytes>, hashed': set<Bytes>)
    requires InvB(u, nvs, b, started, responded, accepted, hashed) && hashed <= hashed'
    requires forall start :: start in started ==> start in started'
    ensures InvB(u, nvs, b, started', responded, accepted, hashed')
  {
    hide PublicKeyOf, IndexOf, CiphertextOf, TranscriptBytes;
  }

  // --- Steps of the initiator -----------------------------------------------------------------

  lemma BootKeepsA(u: Setup, s: System, c: Config, put: Put)
    requires Inv(u, s) && !c.reset
    ensures Inv(u, Act(u, s, BootA(c, put)))
  {
    hide PublicKeyOf, IndexOf, CiphertextOf, TranscriptBytes, Th;
  }

  lemma BootKeepsB(u: Setup, s: System, c: Config, put: Put)
    requires Inv(u, s) && !c.reset
    ensures Inv(u, Act(u, s, BootB(c, put)))
  {
    hide PublicKeyOf, IndexOf, CiphertextOf, TranscriptBytes, Th;
  }

  lemma M1Keeps(u: Setup, s: System, m1: Bytes, sk: Bytes, put: Put)
    requires Inv(u, s) && Enabled(s, DeliverM1(m1, sk, put))
    requires CollisionFree(u.sha, M1ToA(u, s, m1, sk, put).hashed)
    ensures Inv(u, M1ToA(u, s, m1, sk, put))
  {
    hide PublicKeyOf, IndexOf, CiphertextOf, TranscriptBytes, Th, Sid0Input, ValidM1, CollisionFree;
    var s' := M1ToA(u, s, m1, sk, put);
    MoreHashedA(u, s.nvsA, IdleA, s.started, s.completed, s.hashed, s'.hashed);
    MoreHashedB(u, s.nvsB, s.b, s.started, s.started, s.responded, s.accepted, s.hashed, s'.hashed);
  }

  lemma SendM2Keeps(u: Setup, s: System, c: Digest)
    requires Inv(u, s) && Enabled(s, SendM2(c)) && CollisionFree(u.sha, SignA(u, s, c).hashed)
    ensures Inv(u, SignA(u, s, c))
  {
    hide CiphertextOf, TranscriptBytes, Th, Signed, CollisionFree, BuildM2;
    var s' := SignA(u, s, c);
    var m2 := BuildM2(u, s.a.sid, s.a.q, u.kemPublic(s.a.sk), c);
    BuiltM2(u, s.a.sid, s.a.q, u.kemPublic(s.a.sk), c);
    MoreHashedA(u, s.nvsA, s.a, s.started, s.completed, s.hashed, s'.hashed);
    MoreHashedB(u, s.nvsB, s.b, s.started, s'.started, s.responded, s.accepted, s.hashed, s'.hashed);
  }

  lemma BuiltM2(u: Setup, sid: Digest, q: u32, pk: PublicKey, c: Digest)
    requires q < LMS_LEAVES
    ensures var m2 := BuildM2(u, sid, q, pk, c);
      && IndexOf(m2) == q && PublicKeyOf(m2) == pk && VersionOf(m2) == u.versionA && SidOf(m2) == sid
  {
    hide LmsSpec.Sign, AuthPath, SignInput, MuA, Signed;
    SignedFields(MSG_M2_INIT, sid, u.versionA, q, pk,
      LmsSpec.Sign(u.sha, u.lmsIdA, u.seedA, q, c, SignInput(MuA(sid, u.idA, u.idB, u.versionA, pk), q)),
      if u.carried then AuthPath(u.treeA, q) else []);
  }

  lemma BuiltInner(u: Setup, sid: Digest, m2: Msg2, q: u32, ct: Ciphertext, c: Digest)
    requires q < LMS_LEAVES
    ensures var inner := BuildInner(u, sid, m2, q, ct, c);
      && IndexOf(inner) == q && CiphertextOf(inner) == ct && VersionOf(inner) == u.versionB && SidOf(inner) == sid
  {
    hide LmsSpec.Sign, AuthPath, SignInput, MuB, Signed;
    SignedFields(MSG_M3_INNER, sid, u.versionB, q, ct,
      LmsSpec.Sign(u.sha, u.lmsIdB, u.seedB, q, c, SignInput(MuB(sid, u.sha(m2), u.idA, u.idB, u.versionB, ct), q)),
      if u.carried then AuthPath(u.treeB, q) else []);
  }

  /** The signature on M3 leads to the responder's own session, the tag to its transcript. */
  lemma M3IsFromResponder(u: Setup, s: System, m3: Bytes, repository: Path)
    requires Inv(u, s) && Admitted(u, s, DeliverM3(m3, repository)) && AcceptsM3(u, s.a.start, m3, repository)
    ensures LinkedToResponder(u, s.responded, CompletionOf(u, s.a.start, InnerOf(u, m3)))
  {
    hide IndexOf, CiphertextOf, TranscriptBytes, Th, PublicKeyOf, VersionOf, Verify, InnerSignatureOf, PeerPath,
         ConfirmA, ConfirmB,
         InnerOf, TagInput, SignInput, MuB;
    var start, inner := s.a.start, InnerOf(u, m3);
    var signer :| signer in s.responded
      && ObjectB(u, signer.t.sid, signer.t.m2, signer.t.inner) == ObjectB(u, start.sid, start.m2, inner);
    SignedM3Binds(signer.t.sid, u.sha(signer.t.m2), u.idA, u.idB,
                  VersionOf(signer.t.inner), CiphertextOf(signer.t.inner), IndexOf(signer.t.inner),
                  start.sid, u.sha(start.m2), u.idA, u.idB, VersionOf(inner), CiphertextOf(inner), IndexOf(inner));
    assert signer.t.m2 == start.m2;
    assert HonestCiphertext(s.responded, u.kemPublic(start.sk), CiphertextOf(inner));
    var run := CompletionOf(u, start, inner);
    TagLeadsToResponder(u, s, ConfirmB(u.mac, run.secret, Th(u, run.t)), Th(u, run.t));
  }

  lemma TagLeadsToResponder(u: Setup, s: System, key: Bytes, th: Digest)
    requires Released(u, s, key, TagInput(DOMAIN_B_CONFIRM, th))
    ensures exists run :: run in s.responded && Th(u, run.t) == th
  {
    hide Th, TagInput, ConfirmA, ConfirmB;
    if run :| run in s.completed && TagInput(DOMAIN_B_CONFIRM, th) == TagInput(DOMAIN_A_CONFIRM, Th(u, run.t)) {
      TagInputBinds(DOMAIN_B_CONFIRM, th, DOMAIN_A_CONFIRM, Th(u, run.t));
      assert false;
    }
    var run :| run in s.responded && TagInput(DOMAIN_B_CONFIRM, th) == TagInput(DOMAIN_B_CONFIRM, Th(u, run.t));
    TagInputBinds(DOMAIN_B_CONFIRM, th, DOMAIN_B_CONFIRM, Th(u, run.t));
  }

  lemma TagLeadsToInitiator(u: Setup, s: System, key: Bytes, th: Digest)
    requires Released(u, s, key, TagInput(DOMAIN_A_CONFIRM, th))
    ensures exists run :: run in s.completed && Th(u, run.t) == th
  {
    hide Th, TagInput, ConfirmA, ConfirmB;
    if run :| run in s.responded && TagInput(DOMAIN_A_CONFIRM, th) == TagInput(DOMAIN_B_CONFIRM, Th(u, run.t)) {
      TagInputBinds(DOMAIN_A_CONFIRM, th, DOMAIN_B_CONFIRM, Th(u, run.t));
      assert false;
    }
    var run :| run in s.completed && TagInput(DOMAIN_A_CONFIRM, th) == TagInput(DOMAIN_A_CONFIRM, Th(u, run.t));
    TagInputBinds(DOMAIN_A_CONFIRM, th, DOMAIN_A_CONFIRM, Th(u, run.t));
  }

  lemma M3Keeps(u: Setup, s: System, m3: Bytes, repository: Path)
    requires Inv(u, s) && Admitted(u, s, DeliverM3(m3, repository))
    ensures Inv(u, M3ToA(u, s, m3, repository))
  {
    hide IndexOf, CiphertextOf, TranscriptBytes, Th, PublicKeyOf, AcceptsM3, InnerOf, CollisionFree, SignaturesGenuine,
         TagsGenuine;
    if AcceptsM3(u, s.a.start, m3, repository) {
      M3IsFromResponder(u, s, m3, repository);
      var s' := M3ToA(u, s, m3, repository);
      MoreHashedA(u, s.nvsA, s.a, s.started, s.completed, s.hashed, s'.hashed);
      MoreHashedB(u, s.nvsB, s.b, s.started, s.started, s.responded, s.accepted, s.hashed, s'.hashed);
    }
  }

  // --- Steps of the responder ------------------------------------------------------------------

  lemma M0Keeps(u: Setup, s: System, m0: Bytes, nonceB: Nonce)
    requires Inv(u, s) && Enabled(s, DeliverM0(m0, nonceB)) && CollisionFree(u.sha, M0ToB(u, s, m0, nonceB).hashed)
    ensures Inv(u, M0ToB(u, s, m0, nonceB))
  {
    hide PublicKeyOf, IndexOf, CiphertextOf, TranscriptBytes, Th, Sid0Input, ValidM0, M1, CollisionFree;
    var s' := M0ToB(u, s, m0, nonceB);
    MoreHashedA(u, s.nvsA, s.a, s.started, s.completed, s.hashed, s'.hashed);
    MoreHashedB(u, s.nvsB, s.b, s.started, s.started, s.responded, s.accepted, s.hashed, s'.hashed);
  }

  /** The signature on M2 vouches for the KEM key that B is about to use. */
  lemma M2CarriesHonestKey(u: Setup, s: System, m2: Bytes, repository: Path, coins: Bytes, put: Put)
    requires Admitted(u, s, DeliverM2(m2, repository, coins, put)) && AcceptsM2(u, s.b.sid, m2, repository)
    ensures HonestKey(s.started, PublicKeyOf(m2))
  {
    hide IndexOf, PublicKeyOf, VersionOf, Verify, M2SignatureOf, PeerPath, SignInput, MuA, CollisionFree, Act;
    var start :| start in s.started && ObjectA(u, start.sid, start.m2) == ObjectA(u, s.b.sid, m2);
    SignedM2Binds(start.sid, u.idA, u.idB, VersionOf(start.m2), PublicKeyOf(start.m2), IndexOf(start.m2),
                  s.b.sid, u.idA, u.idB, VersionOf(m2), PublicKeyOf(m2), IndexOf(m2));
  }

  lemma M2Keeps(u: Setup, s: System, m2: Bytes, repository: Path, coins: Bytes, put: Put)
    requires Inv(u, s) && Admitted(u, s, DeliverM2(m2, repository, coins, put))
    ensures Inv(u, M2ToB(u, s, m2, repository, coins, put))
  {
    hide IndexOf, CiphertextOf, TranscriptBytes, Th, PublicKeyOf, AcceptsM2, CollisionFree, SignaturesGenuine,
         HonestKey;
    if AcceptsM2(u, s.b.sid, m2, repository) {
      var s' := M2ToB(u, s, m2, repository, coins, put);
      M2CarriesHonestKey(u, s, m2, repository, coins, put);
      MoreHashedA(u, s.nvsA, s.a, s.started, s.completed, s.hashed, s'.hashed);
      MoreHashedB(u, s.nvsB, IdleB, s.started, s.started, s.responded, s.accepted, s.hashed, s'.hashed);
    }
  }

  lemma SendM3Keeps(u: Setup, s: System, c: Digest)
    requires Inv(u, s) && Enabled(s, SendM3(c)) && CollisionFree(u.sha, SignB(u, s, c).hashed)
    ensures Inv(u, SignB(u, s, c))
  {
    hide IndexOf, CiphertextOf, TranscriptBytes, Th, PublicKeyOf, BuildInner, CollisionFree;
    var s' := SignB(u, s, c);
    var (ct, secret) := u.encaps(PublicKeyOf(s.b.m2), s.b.coins);
    BuiltInner(u, s.b.sid, s.b.m2, s.b.q, ct, c);
    MoreHashedA(u, s.nvsA, s.a, s.started, s.completed, s.hashed, s'.hashed);
    MoreHashedB(u, s.nvsB, s.b, s.started, s.started, s.responded, s.accepted, s.hashed, s'.hashed);
  }

  lemma AcceptedM4HasTag(u: Setup, run: ResponderRun, m4: Bytes)
    requires AcceptsM4(u, run, m4)
    ensures HasTagA(u, run, m4)
  {
    hide TagInput, ConfirmA, Th;
  }

  lemma M4Keeps(u: Setup, s: System, m4: Bytes)
    requires Inv(u, s) && Admitted(u, s, DeliverM4(m4))
    ensures Inv(u, M4ToB(u, s, m4))
  {
    hide IndexOf, CiphertextOf, TranscriptBytes, Th, PublicKeyOf, AcceptsM4, HasTagA, CollisionFree, Released, TagInput,
         ConfirmA;
    if AcceptsM4(u, s.b.run, m4) {
      AcceptedM4HasTag(u, s.b.run, m4);
      TagLeadsToInitiator(u, s, ConfirmA(u.mac, s.b.run.secret, Th(u, s.b.run.t)), Th(u, s.b.run.t));
    }
  }

  // --- Whole runs ---------------------------------------------------------------------------

  lemma StepKeeps(u: Setup, s: System, action: Action)
    requires Inv(u, s) && Admitted(u, s, action)
    ensures Inv(u, Act(u, s, action))
  {
    hide Inv, M1ToA, SignA, M3ToA, M0ToB, M2ToB, SignB, M4ToB, SignaturesGenuine, TagsGenuine, CollisionFree, StartA;
    match action
    case BootA(c, put) => BootKeepsA(u, s, c, put);
    case BootB(c, put) => BootKeepsB(u, s, c, put);
    case CrashA => IdlingKeeps(u, s, None, s.ramB, IdleA, s.b);
    case AbandonA => IdlingKeeps(u, s, s.ramA, s.ramB, IdleA, s.b);
    case BeginA(nonceA) => BeginKeeps(u, s, nonceA);
    case CrashB => IdlingKeeps(u, s, s.ramA, None, s.a, IdleB);
    case AbandonB => IdlingKeeps(u, s, s.ramA, s.ramB, s.a, IdleB);
    case DeliverM1(m1, sk, put) => M1Keeps(u, s, m1, sk, put);
    case SendM2(c) => SendM2Keeps(u, s, c);
    case DeliverM3(m3, repository) => M3Keeps(u, s, m3, repository);
    case DeliverM0(m0, nonceB) => M0Keeps(u, s, m0, nonceB);
    case DeliverM2(m2, repository, coins, put) => M2Keeps(u, s, m2, repository, coins, put);
    case SendM3(c) => SendM3Keeps(u, s, c);
    case DeliverM4(m4) => M4Keeps(u, s, m4);
  }

  lemma IdlingKeeps(u: Setup, s: System, ramA: Option<Config>, ramB: Option<Config>, a: PhaseA, b: PhaseB)
    requires Inv(u, s) && (a == s.a || a == IdleA) && (b == s.b || b == IdleB)
    ensures Inv(u, s.(ramA := ramA, ramB := ramB, a := a, b := b))
  {
    hide PublicKeyOf, IndexOf, CiphertextOf, TranscriptBytes, Th, CollisionFree;
  }

  lemma BeginKeeps(u: Setup, s: System, nonceA: Nonce)
    requires Inv(u, s) && s.ramA.Some? && s.a.IdleA?
    ensures Inv(u, StartA(u, s, nonceA))
  {
    hide PublicKeyOf, IndexOf, CiphertextOf, TranscriptBytes, Th, CollisionFree, M0;
  }

  lemma {:induction false} RunKeeps(u: Setup, states: seq<System>, actions: seq<Action>, n: nat)
    requires IsRun(u, states, actions) && n < |states|
    ensures Inv(u, states[n])
  {
    hide Admitted, Act, Inv;
    if n == 0 {
      InitialInv(u);
    } else {
      RunKeeps(u, states, actions, n - 1);
      StepKeeps(u, states[n - 1], actions[n - 1]);
    }
  }

  lemma InitialInv(u: Setup)
    ensures Inv(u, INITIAL)
  {
  }

  /** Same SID0, same M0, M1, M2 and inner M3, and the same shared secret; hence the same session key. */
  predicate Agree(a: InitiatorRun, b: ResponderRun) {
    a.t == b.t && a.secret == b.secret
  }

  /** Equal transcript hashes mean equal transcripts, and the KEM carries the secret over. */
  lemma EqualHashesAgree(u: Setup, s: System, a: InitiatorRun, b: ResponderRun)
    requires Inv(u, s) && KemCorrect(u)
    requires a in s.completed && b in s.responded && Th(u, a.t) == Th(u, b.t)
    ensures Agree(a, b) && SessionKey(u.mac, a.secret, Th(u, a.t)) == SessionKey(u.mac, b.secret, Th(u, b.t))
  {
    hide PublicKeyOf, CiphertextOf, IndexOf, TranscriptInput, HonestKey;
    assert CompletedOk(u, s.nvsA, s.hashed, a) && RespondedOk(u, s.nvsB, s.started, s.hashed, b);
    assert TranscriptBytes(a.t) == TranscriptBytes(b.t);
    TranscriptBinds(a.t.sid, a.t.m0, a.t.m1, a.t.m2, a.t.inner, b.t.sid, b.t.m0, b.t.m1, b.t.m2, b.t.inner);
    assert u.decaps(a.sk, u.encaps(u.kemPublic(a.sk), b.coins).0) == u.encaps(u.kemPublic(a.sk), b.coins).1;
  }

  /** Exactly one completed initiator session agrees with b. */
  ghost predicate OneInitiator(completed: seq<InitiatorRun>, b: ResponderRun) {
    exists j :: 0 <= j < |completed| && Agree(completed[j], b) && OnlyAt(completed, b, j)
  }

  ghost predicate OnlyAt(completed: seq<InitiatorRun>, b: ResponderRun, j: int) {
    forall k :: 0 <= k < |completed| && Agree(completed[k], b) ==> k == j
  }

  /** Exactly one responder session agrees with a. */
  ghost predicate OneResponder(responded: seq<ResponderRun>, a: InitiatorRun) {
    exists i :: 0 <= i < |responded| && Agree(a, responded[i]) && OnlyFor(responded, a, i)
  }

  ghost predicate OnlyFor(responded: seq<ResponderRun>, a: InitiatorRun, i: int) {
    forall k :: 0 <= k < |responded| && Agree(a, responded[k]) ==> k == i
  }

  lemma InitiatorIsUnique(completed: seq<InitiatorRun>, b: ResponderRun, j: int)
    requires forall i, j :: 0 <= i < j < |completed| ==> IndexOf(completed[i].t.m2) < IndexOf(completed[j].t.m2)
    requires 0 <= j < |completed| && Agree(completed[j], b)
    ensures OnlyAt(completed, b, j)
  {
    hide IndexOf;
  }

  lemma ResponderIsUnique(responded: seq<ResponderRun>, a: InitiatorRun, i: int)
    requires forall i, j :: 0 <= i < j < |responded| ==> IndexOf(responded[i].t.inner) < IndexOf(responded[j].t.inner)
    requires 0 <= i < |responded| && Agree(a, responded[i])
    ensures OnlyFor(responded, a, i)
  {
    hide IndexOf;
  }

  /**
   Every acceptance of the responder agrees with exactly one completed initiator session, and
   no two acceptances agree with the same one. No nonce needs to be fresh: the indices inside
   M2 and the inner M3 keep sessions apart.
   */
  lemma {:induction false} ResponderInjectiveAgreement(u: Setup, states: seq<System>, actions: seq<Action>)
    requires KemCorrect(u) && IsRun(u, states, actions)
    ensures var s := states[|actions|];
      && (forall b :: b in s.accepted ==> OneInitiator(s.completed, b))
      && (forall a :: a in s.completed ==>
            forall i :: 0 <= i < |s.accepted| && Agree(a, s.accepted[i]) ==> OnlyFor(s.accepted, a, i))
  {
    hide Admitted, Act, IndexOf, Th, StartOk, CompletedOk, RespondedOk, CollisionFree, KemCorrect, OnlyAt, OnlyFor,
         Agree;
    var s := states[|actions|];
    RunKeeps(u, states, actions, |actions|);
    forall b | b in s.accepted ensures OneInitiator(s.completed, b) {
      assert LinkedToInitiator(u, s.completed, b);
      var a :| a in s.completed && Th(u, a.t) == Th(u, b.t);
      EqualHashesAgree(u, s, a, b);
      var j :| 0 <= j < |s.completed| && s.completed[j] == a;
      InitiatorIsUnique(s.completed, b, j);
    }
    forall a, i | a in s.completed && 0 <= i < |s.accepted| && Agree(a, s.accepted[i])
      ensures OnlyFor(s.accepted, a, i)
    {
      ResponderIsUnique(s.accepted, a, i);
    }
  }

  /** The converse direction: every completed initiator session agrees with exactly one responder session. */
  lemma {:induction false} InitiatorInjectiveAgreement(u: Setup, states: seq<System>, actions: seq<Action>)
    requires KemCorrect(u) && IsRun(u, states, actions)
    ensures var s := states[|actions|];
      && (forall a :: a in s.completed ==> OneResponder(s.responded, a))
      && (forall b :: b in s.responded ==>
            forall j :: 0 <= j < |s.completed| && Agree(s.completed[j], b) ==> OnlyAt(s.completed, b, j))
  {
    hide Admitted, Act, IndexOf, Th, StartOk, CompletedOk, RespondedOk, CollisionFree, KemCorrect, OnlyAt, OnlyFor,
         Agree;
    var s := states[|actions|];
    RunKeeps(u, states, actions, |actions|);
    forall a | a in s.completed ensures OneResponder(s.responded, a) {
      assert LinkedToResponder(u, s.responded, a);
      var b :| b in s.responded && Th(u, b.t) == Th(u, a.t);
      EqualHashesAgree(u, s, a, b);
      var i :| 0 <= i < |s.responded| && s.responded[i] == b;
      ResponderIsUnique(s.responded, a, i);
    }
    forall b, j | b in s.responded && 0 <= j < |s.completed| && Agree(s.completed[j], b)
      ensures OnlyAt(s.completed, b, j)
    {
      InitiatorIsUnique(s.completed, b, j);
    }
  }
}
