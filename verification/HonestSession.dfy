/**
 The handshake works: undisturbed, two idle devices with an index left complete a session
 and agree. And its signature assumption rests on LM-OTS: a forged M2 inverts a chain.
 */
module HonestSession {
  import opened Octets
  import opened Wrappers
  import opened LmsSpec
  import opened LmsCorrectness
  import opened LmsBinding
  import opened OneTimeIndex
  import opened Wire
  import opened Handshake
  import opened Agreement

  /** Both trees were built from the seeds the devices sign with. */
  ghost predicate Provisioned(u: Setup) {
    IsTree(u.sha, u.lmsIdA, u.seedA, u.treeA) && IsTree(u.sha, u.lmsIdB, u.seedB, u.treeB)
  }

  /** In repository mode the path that arrives is the signer's own. */
  predicate Serves(u: Setup, t: Nodes, q: u32, repository: Path)
    requires q < LMS_LEAVES
  {
    u.carried || repository == AuthPath(t, q)
  }

  lemma BuiltM2Verifies(u: Setup, sid: Digest, q: u32, pk: PublicKey, c: Digest, repository: Path)
    requires Provisioned(u) && q < LMS_LEAVES && Serves(u, u.treeA, q, repository)
    ensures var m2 := BuildM2(u, sid, q, pk, c);
      AcceptsM2(u, sid, m2, repository) && PublicKeyOf(m2) == pk && IndexOf(m2) == q
  {
    hide IsTree, Verify, LmsSpec.Sign, AuthPath, U32, GetU32, MuA;
    var signedObject := SignInput(MuA(sid, u.idA, u.idB, u.versionA, pk), q);
    var signature := LmsSpec.Sign(u.sha, u.lmsIdA, u.seedA, q, c, signedObject);
    var path := if u.carried then AuthPath(u.treeA, q) else [];
    var m2 := BuildM2(u, sid, q, pk, c);
    assert m2 == Signed(MSG_M2_INIT, sid, u.versionA, q, pk, signature, path);
    SignedFields(MSG_M2_INIT, sid, u.versionA, q, pk, signature, path);
    SignThenVerify(u.sha, u.lmsIdA, u.seedA, u.treeA, q, c, signedObject);
  }

  lemma BuiltInnerVerifies(u: Setup, start: InitiatorStart, q: u32, ct: Ciphertext, c: Digest, repository: Path)
    requires Provisioned(u) && q < LMS_LEAVES && Serves(u, u.treeB, q, repository)
    ensures var inner := BuildInner(u, start.sid, start.m2, q, ct, c);
      && |inner| == M3InnerBytes(u.carried) && VerifiesB(u, start, inner, repository)
      && inner[0] == PROTOCOL_VERSION && inner[1] == MSG_M3_INNER && SidOf(inner) == start.sid
      && CiphertextOf(inner) == ct
  {
    hide IsTree, Verify, LmsSpec.Sign, AuthPath, U32, GetU32, MuB;
    var signedObject := SignInput(MuB(start.sid, u.sha(start.m2), u.idA, u.idB, u.versionB, ct), q);
    var signature := LmsSpec.Sign(u.sha, u.lmsIdB, u.seedB, q, c, signedObject);
    var path := if u.carried then AuthPath(u.treeB, q) else [];
    var inner := BuildInner(u, start.sid, start.m2, q, ct, c);
    assert inner == Signed(MSG_M3_INNER, start.sid, u.versionB, q, ct, signature, path);
    SignedFields(MSG_M3_INNER, start.sid, u.versionB, q, ct, signature, path);
    SignThenVerify(u.sha, u.lmsIdB, u.seedB, u.treeB, q, c, signedObject);
  }

  /** M3 and M4 as the two programs send them. */
  function M3Of(u: Setup, run: ResponderRun): Bytes {
    M3(run.t.sid, run.t.inner, TagB(u, run.t, run.secret))
  }

  function M4Of(u: Setup, run: InitiatorRun): Bytes {
    M4(run.t.sid, TagA(u, run.t, run.secret))
  }

  lemma SentM3Parses(u: Setup, run: ResponderRun)
    requires |run.t.inner| == M3InnerBytes(u.carried)
    requires run.t.inner[0] == PROTOCOL_VERSION && run.t.inner[1] == MSG_M3_INNER && SidOf(run.t.inner) == run.t.sid
    ensures var m3 := M3Of(u, run);
      && ParsesM3(u, run.t.sid, m3) && InnerOf(u, m3) == run.t.inner && TauBOf(u, m3) == TagB(u, run.t, run.secret)
  {
  }

  lemma SentM4Accepted(u: Setup, a: InitiatorRun, b: ResponderRun)
    requires Agree(a, b)
    ensures AcceptsM4(u, b, M4Of(u, a))
  {
    hide TagA;
    assert M4Of(u, a)[2..34] == a.t.sid && M4Of(u, a)[34..] == TagA(u, a.t, a.secret);
  }

  lemma SentM0IsValid(u: Setup, nonceA: Nonce)
    ensures ValidM0(u, M0(u.idA, u.idB, nonceA, Suite(u.carried)))
    ensures M0(u.idA, u.idB, nonceA, Suite(u.carried))[66..82] == nonceA
  {
    hide U32, GetU32;
    var m0 := M0(u.idA, u.idB, nonceA, Suite(u.carried));
    assert m0[2..34] == u.idA && m0[34..66] == u.idB && m0[66..82] == nonceA && m0[82..] == U32(Suite(u.carried));
  }

  lemma SentM1IsValid(u: Setup, nonceA: Nonce, nonceB: Nonce)
    ensures ValidM1(u, M1(u.idB, u.idA, nonceA, nonceB, Suite(u.carried)), nonceA)
  {
    hide U32, GetU32;
    var m1 := M1(u.idB, u.idA, nonceA, nonceB, Suite(u.carried));
    assert m1[2..34] == u.idB && m1[34..66] == u.idA && m1[66..82] == nonceA && m1[98..] == U32(Suite(u.carried));
  }

  /** Random inputs of one session. */
  datatype Coins = Coins(nonceA: Nonce, nonceB: Nonce, sk: Bytes, encaps: Bytes, cA: Digest, cB: Digest)

  function Ready(s: System): bool {
    && s.ramA.Some? && s.a.IdleA? && Available(s.ramA.value, NextQ(s.nvsA, s.ramA.value))
    && s.ramB.Some? && s.b.IdleB? && Available(s.ramB.value, NextQ(s.nvsB, s.ramB.value))
  }

  function IndexA(s: System): u32 requires Ready(s) { NextQ(s.nvsA, s.ramA.value) }
  function IndexB(s: System): u32 requires Ready(s) { NextQ(s.nvsB, s.ramB.value) }

  /** The five messages and the two session records of the undisturbed session. */
  function TheM0(u: Setup, coins: Coins): Msg0 { M0(u.idA, u.idB, coins.nonceA, Suite(u.carried)) }
  function TheM1(u: Setup, coins: Coins): Msg1 { M1(u.idB, u.idA, coins.nonceA, coins.nonceB, Suite(u.carried)) }
  function TheSid(u: Setup, coins: Coins): Digest { u.sha(Sid0Input(TheM0(u, coins), TheM1(u, coins))) }

  function TheStart(u: Setup, s: System, coins: Coins): InitiatorStart
    requires Ready(s)
  {
    InitiatorStart(TheSid(u, coins), TheM0(u, coins), TheM1(u, coins),
                   BuildM2(u, TheSid(u, coins), IndexA(s), u.kemPublic(coins.sk), coins.cA), coins.sk)
  }

  function TheResponse(u: Setup, s: System, coins: Coins): ResponderRun
    requires Ready(s)
  {
    var start := TheStart(u, s, coins);
    ResponseOf(u, ReservedB(start.m0, start.m1, start.sid, start.m2, coins.encaps, IndexB(s)), coins.cB)
  }

  function TheCompletion(u: Setup, s: System, coins: Coins): InitiatorRun
    requires Ready(s)
  {
    CompletionOf(u, TheStart(u, s, coins), TheResponse(u, s, coins).t.inner)
  }

  /** Deliveries in order, each message exactly as sent. */
  function Script(u: Setup, s: System, coins: Coins, pathA: Path, pathB: Path): (r: seq<Action>)
    requires Ready(s)
    ensures |r| == 8
  {
    [BeginA(coins.nonceA),
     DeliverM0(TheM0(u, coins), coins.nonceB),
     DeliverM1(TheM1(u, coins), coins.sk, Succeeded),
     SendM2(coins.cA),
     DeliverM2(TheStart(u, s, coins).m2, pathA, coins.encaps, Succeeded),
     SendM3(coins.cB),
     DeliverM3(M3Of(u, TheResponse(u, s, coins)), pathB),
     DeliverM4(M4Of(u, TheCompletion(u, s, coins)))]
  }

  /** The phases and logs after each of the eight steps. */
  function Stage(u: Setup, s: System, coins: Coins, n: nat): System
    requires Ready(s) && n <= 8
  {
    var start, response, completion := TheStart(u, s, coins), TheResponse(u, s, coins), TheCompletion(u, s, coins);
    var sidInput := Sid0Input(start.m0, start.m1);
    s.(a := if n == 0 then s.a
            else if n <= 2 then AwaitM1(start.m0, coins.nonceA)
            else if n == 3 then ReservedA(start.m0, start.m1, start.sid, coins.sk, IndexA(s))
            else if n <= 6 then AwaitM3(start)
            else IdleA,
       b := if n <= 1 then s.b
            else if n <= 4 then AwaitM2(start.m0, start.m1, start.sid)
            else if n == 5 then ReservedB(start.m0, start.m1, start.sid, start.m2, coins.encaps, IndexB(s))
            else if n <= 7 then AwaitM4(response)
            else IdleB,
       nvsA := if n <= 2 then s.nvsA else Some(IndexA(s) + 1),
       nvsB := if n <= 4 then s.nvsB else Some(IndexB(s) + 1),
       started := if n <= 3 then s.started else s.started + [start],
       responded := if n <= 5 then s.responded else s.responded + [response],
       completed := if n <= 6 then s.completed else s.completed + [completion],
       accepted := if n <= 7 then s.accepted else s.accepted + [response],
       hashed := s.hashed
         + (if n <= 1 then {} else {sidInput})
         + (if n <= 3 then {} else {start.m2})
         + (if n <= 5 then {} else {TranscriptBytes(response.t)}))
  }

  lemma SessionsAgree(u: Setup, s: System, coins: Coins)
    requires KemCorrect(u) && Ready(s)
    ensures Agree(TheCompletion(u, s, coins), TheResponse(u, s, coins))
  {
    hide BuildM2, BuildInner, Sid0Input;
    var start, response := TheStart(u, s, coins), TheResponse(u, s, coins);
    BuiltM2(u, start.sid, IndexA(s), u.kemPublic(coins.sk), coins.cA);
    BuiltInner(u, start.sid, start.m2, IndexB(s), u.encaps(PublicKeyOf(start.m2), coins.encaps).0, coins.cB);
    assert u.decaps(coins.sk, u.encaps(u.kemPublic(coins.sk), coins.encaps).0)
        == u.encaps(u.kemPublic(coins.sk), coins.encaps).1;
  }

  ghost predicate Undisturbed(u: Setup, s: System, pathA: Path, pathB: Path) {
    && KemCorrect(u) && Provisioned(u) && Ready(s)
    && Serves(u, u.treeA, IndexA(s), pathA) && Serves(u, u.treeB, IndexB(s), pathB)
  }

  ghost predicate Advances(u: Setup, s: System, action: Action, s': System) {
    Enabled(s, action) && Act(u, s, action) == s'
  }

  lemma OpeningAdvances(u: Setup, s: System, coins: Coins)
    requires Ready(s)
    ensures Advances(u, s, BeginA(coins.nonceA), Stage(u, s, coins, 1))
    ensures Advances(u, Stage(u, s, coins, 1), DeliverM0(TheM0(u, coins), coins.nonceB), Stage(u, s, coins, 2))
    ensures Advances(u, Stage(u, s, coins, 2), DeliverM1(TheM1(u, coins), coins.sk, Succeeded), Stage(u, s, coins, 3))
    ensures Advances(u, Stage(u, s, coins, 3), SendM2(coins.cA), Stage(u, s, coins, 4))
  {
    hide BuildM2, BuildInner, Sid0Input, ValidM0, ValidM1, M0, M1, TranscriptBytes;
    SentM0IsValid(u, coins.nonceA);
    SentM1IsValid(u, coins.nonceA, coins.nonceB);
  }

  lemma ResponseAdvances(u: Setup, s: System, coins: Coins, pathA: Path)
    requires Ready(s) && Provisioned(u) && Serves(u, u.treeA, IndexA(s), pathA)
    ensures Advances(u, Stage(u, s, coins, 4), DeliverM2(TheStart(u, s, coins).m2, pathA, coins.encaps, Succeeded),
      Stage(u, s, coins, 5))
    ensures Advances(u, Stage(u, s, coins, 5), SendM3(coins.cB), Stage(u, s, coins, 6))
  {
    hide BuildM2, BuildInner, Sid0Input, AcceptsM2, M0, M1, TranscriptBytes, IsTree, PublicKeyOf, IndexOf;
    BuiltM2Verifies(u, TheSid(u, coins), IndexA(s), u.kemPublic(coins.sk), coins.cA, pathA);
  }

  lemma TheM3Accepted(u: Setup, s: System, coins: Coins, pathB: Path)
    requires KemCorrect(u) && Ready(s) && Provisioned(u) && Serves(u, u.treeB, IndexB(s), pathB)
    ensures var m3 := M3Of(u, TheResponse(u, s, coins));
      && AcceptsM3(u, TheStart(u, s, coins), m3, pathB)
      && InnerOf(u, m3) == TheResponse(u, s, coins).t.inner
  {
    hide BuildM2, BuildInner, Sid0Input, M0, M1, IsTree, PublicKeyOf, IndexOf, VerifiesB, ParsesM3, M3Of, InnerOf,
         TauBOf, TagB, CiphertextOf;
    var start, response := TheStart(u, s, coins), TheResponse(u, s, coins);
    BuiltInnerVerifies(u, start, IndexB(s), u.encaps(PublicKeyOf(start.m2), coins.encaps).0, coins.cB, pathB);
    SentM3Parses(u, response);
    SessionsAgree(u, s, coins);
  }

  lemma ClosingAdvances(u: Setup, s: System, coins: Coins, pathB: Path)
    requires KemCorrect(u) && Ready(s) && Provisioned(u) && Serves(u, u.treeB, IndexB(s), pathB)
    ensures Advances(u, Stage(u, s, coins, 6), DeliverM3(M3Of(u, TheResponse(u, s, coins)), pathB),
      Stage(u, s, coins, 7))
    ensures Advances(u, Stage(u, s, coins, 7), DeliverM4(M4Of(u, TheCompletion(u, s, coins))), Stage(u, s, coins, 8))
  {
    hide BuildM2, Sid0Input, M0, M1, IsTree, AcceptsM3, M3Of, M4Of, TranscriptBytes, AcceptsM4, ResponseOf,
         CompletionOf, InnerOf;
    TheM3Accepted(u, s, coins, pathB);
    SessionsAgree(u, s, coins);
    SentM4Accepted(u, TheCompletion(u, s, coins), TheResponse(u, s, coins));
    CompletionIs(u, s, coins);
  }

  lemma CompletionIs(u: Setup, s: System, coins: Coins)
    requires Ready(s)
    ensures TheCompletion(u, s, coins) == CompletionOf(u, TheStart(u, s, coins), TheResponse(u, s, coins).t.inner)
  {
  }

  /** Undisturbed, the eight steps lead to an acceptance on both sides with the same record. */
  lemma {:induction false} HonestSessionCompletes(u: Setup, s: System, coins: Coins, pathA: Path, pathB: Path, n: nat)
    requires Undisturbed(u, s, pathA, pathB) && n < 8
    ensures Advances(u, Stage(u, s, coins, n), Script(u, s, coins, pathA, pathB)[n], Stage(u, s, coins, n + 1))
    ensures Stage(u, s, coins, 0) == s
    ensures Stage(u, s, coins, 8).accepted == s.accepted + [TheResponse(u, s, coins)]
    ensures Stage(u, s, coins, 8).completed == s.completed + [TheCompletion(u, s, coins)]
    ensures Agree(TheCompletion(u, s, coins), TheResponse(u, s, coins))
  {
    hide Advances, TheResponse, TheCompletion, TheStart, TheM0, TheM1, M3Of, M4Of, IsTree, AuthPath, Sid0Input, Agree;
    OpeningAdvances(u, s, coins);
    ResponseAdvances(u, s, coins, pathA);
    ClosingAdvances(u, s, coins, pathB);
    SessionsAgree(u, s, coins);
    StageZero(u, s, coins);
  }

  lemma StageZero(u: Setup, s: System, coins: Coins)
    requires Ready(s)
    ensures Stage(u, s, coins, 0) == s
  {
  }

  lemma ResponseIsFor(u: Setup, s: System, coins: Coins)
    requires Ready(s)
    ensures var start, t := TheStart(u, s, coins), TheResponse(u, s, coins).t;
      t.sid == start.sid && t.m0 == start.m0 && t.m1 == start.m1 && t.m2 == start.m2
  {
    hide BuildM2, BuildInner, Sid0Input;
  }

  lemma M3IsGenuine(u: Setup, s: System, coins: Coins, pathB: Path)
    requires KemCorrect(u) && Ready(s) && Provisioned(u) && Serves(u, u.treeB, IndexB(s), pathB)
    ensures var stage, action := Stage(u, s, coins, 6), DeliverM3(M3Of(u, TheResponse(u, s, coins)), pathB);
      Enabled(stage, action) && SignaturesGenuine(u, stage, action) && TagsGenuine(u, stage, action)
  {
    hide TheM0, TheM1, IsTree, Sid0Input, BuildM2, BuildInner, ResponseOf, CompletionOf, InnerOf, AcceptsM3,
         ParsesM3, VerifiesB, ConfirmA, ConfirmB, TagInput, TranscriptBytes, M3Of, ObjectB, Serves;
    TheM3Accepted(u, s, coins, pathB);
    ResponseIsFor(u, s, coins);
    SessionsAgree(u, s, coins);
    assert TheResponse(u, s, coins) in Stage(u, s, coins, 6).responded;
  }

  lemma M4IsGenuine(u: Setup, s: System, coins: Coins)
    requires KemCorrect(u) && Ready(s)
    ensures var stage, action := Stage(u, s, coins, 7), DeliverM4(M4Of(u, TheCompletion(u, s, coins)));
      Enabled(stage, action) && SignaturesGenuine(u, stage, action) && TagsGenuine(u, stage, action)
  {
    hide TheM0, TheM1, Sid0Input, BuildM2, BuildInner, ResponseOf, CompletionOf, AcceptsM4, ConfirmA, ConfirmB,
         TagInput,
         TranscriptBytes, M4Of;
    SessionsAgree(u, s, coins);
    assert TheCompletion(u, s, coins) in Stage(u, s, coins, 7).completed;
  }

  lemma M2IsGenuine(u: Setup, s: System, coins: Coins, pathA: Path)
    requires Ready(s)
    ensures var stage, action := Stage(u, s, coins, 4),
      DeliverM2(TheStart(u, s, coins).m2, pathA, coins.encaps, Succeeded);
      Enabled(stage, action) && SignaturesGenuine(u, stage, action) && TagsGenuine(u, stage, action)
  {
    hide TheM0, TheM1, Sid0Input, BuildM2, BuildInner, ResponseOf, CompletionOf, AcceptsM2, ObjectA;
    assert TheStart(u, s, coins) in Stage(u, s, coins, 4).started;
  }

  /** The assumptions of the agreement theorems admit this very session, unless it hits a hash collision. */
  lemma {:induction false} HonestSessionIsAdmitted(u: Setup, s: System, coins: Coins, pathA: Path, pathB: Path, n: nat)
    requires Undisturbed(u, s, pathA, pathB) && n < 8
    requires CollisionFree(u.sha, Stage(u, s, coins, 8).hashed)
    ensures Admitted(u, Stage(u, s, coins, n), Script(u, s, coins, pathA, pathB)[n])
  {
    hide TheM0, TheM1, TheStart, TheResponse, TheCompletion, IsTree, Sid0Input, TranscriptBytes, M3Of, M4Of, Act,
         Serves,
         IndexA, IndexB, Ready, KemCorrect, Agree;
    HonestSessionCompletes(u, s, coins, pathA, pathB, n);
    HashedGrows(u, s, coins, n + 1);
    M2IsGenuine(u, s, coins, pathA);
    M3IsGenuine(u, s, coins, pathB);
    M4IsGenuine(u, s, coins);
  }

  lemma HashedGrows(u: Setup, s: System, coins: Coins, n: nat)
    requires Ready(s) && n <= 8
    ensures Stage(u, s, coins, n).hashed <= Stage(u, s, coins, 8).hashed
  {
    hide TheStart, TheResponse, TheCompletion, Ready, Sid0Input, TranscriptBytes;
  }

  // --- What the signature assumption rests on --------------------------------------------------

  /** Accepting a different object under an index that A has used inverts one of A's chains, or finds a collision. */
  lemma {:induction false} ForgedM2InvertsAChain(u: Setup, sid: Digest, q: u32, pk: PublicKey, c: Digest,
                                                 sid': Digest, m2': Msg2, repository: Path)
    requires Provisioned(u) && q < LMS_LEAVES
    requires AcceptsM2(u, sid', m2', repository) && IndexOf(m2') == q
    requires var m2 := BuildM2(u, sid, q, pk, c);
      ObjectA(u, sid', m2') != ObjectA(u, sid, m2)
    ensures var m2 := BuildM2(u, sid, q, pk, c);
      var path := PeerPath(u, m2', M2_BASE_BYTES, repository);
      || InvertsAChain(u.sha, u.lmsIdA, u.seedA, q, c, ObjectA(u, sid, m2), ObjectA(u, sid', m2'), M2SignatureOf(m2'))
      || Collides(u.sha, SignatureExtractor(u.sha, u.lmsIdA, u.seedA, u.treeA, q, c, ObjectA(u, sid, m2),
                                            ObjectA(u, sid', m2'), M2SignatureOf(m2'), path))
  {
    hide IsTree, Verify, ObjectA, M2SignatureOf, PeerPath, InvertsAChain, Collides, SignatureExtractor, BuildM2;
    var m2 := BuildM2(u, sid, q, pk, c);
    var path := PeerPath(u, m2', M2_BASE_BYTES, repository);
    var honest, message, signature := ObjectA(u, sid, m2), ObjectA(u, sid', m2'), M2SignatureOf(m2');
    if !Collides(u.sha, SignatureExtractor(u.sha, u.lmsIdA, u.seedA, u.treeA, q, c, honest, message, signature, path)) {
      SignatureBinding(u.sha, u.lmsIdA, u.seedA, u.treeA, q, c, honest, message, signature, path);
    }
  }

  /** The same for the inner part of M3 and the responder's chains. */
  lemma {:induction false} ForgedM3InvertsAChain(u: Setup, sid: Digest, m2: Msg2, q: u32, ct: Ciphertext, c: Digest,
                                                 start: InitiatorStart, inner': Inner, repository: Path)
    requires Provisioned(u) && q < LMS_LEAVES
    requires |inner'| == M3InnerBytes(u.carried) && VerifiesB(u, start, inner', repository) && IndexOf(inner') == q
    requires var inner := BuildInner(u, sid, m2, q, ct, c);
      ObjectB(u, start.sid, start.m2, inner') != ObjectB(u, sid, m2, inner)
    ensures var inner := BuildInner(u, sid, m2, q, ct, c);
      var path := PeerPath(u, inner', M3_INNER_BASE_BYTES, repository);
      var honest, message := ObjectB(u, sid, m2, inner), ObjectB(u, start.sid, start.m2, inner');
      || InvertsAChain(u.sha, u.lmsIdB, u.seedB, q, c, honest, message, InnerSignatureOf(inner'))
      || Collides(u.sha, SignatureExtractor(u.sha, u.lmsIdB, u.seedB, u.treeB, q, c, honest, message,
                                            InnerSignatureOf(inner'), path))
  {
    hide IsTree, Verify, ObjectB, InnerSignatureOf, PeerPath, InvertsAChain, Collides, SignatureExtractor, BuildInner;
    var inner := BuildInner(u, sid, m2, q, ct, c);
    var path := PeerPath(u, inner', M3_INNER_BASE_BYTES, repository);
    var honest, message := ObjectB(u, sid, m2, inner), ObjectB(u, start.sid, start.m2, inner');
    var signature := InnerSignatureOf(inner');
    if !Collides(u.sha, SignatureExtractor(u.sha, u.lmsIdB, u.seedB, u.treeB, q, c, honest, message, signature, path)) {
      SignatureBinding(u.sha, u.lmsIdB, u.seedB, u.treeB, q, c, honest, message, signature, path);
    }
  }
}
