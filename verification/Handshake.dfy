/**
 The two session programs as step machines. A session that waits for a message is
 a phase; a crash empties the RAM phase and leaves the NVS counter. The network is
 whoever supplies the bytes of each delivery. The logs are history, not state of a device.
 */
module Handshake {
  import opened Octets
  import opened Wrappers
  import opened LmsSpec
  import opened OneTimeIndex
  import opened Wire

  type Msg0 = b: Bytes | |b| == 86 witness seq(86, _ => 0)
  type Msg1 = b: Bytes | |b| == 102 witness seq(102, _ => 0)
  type Msg2 = b: Bytes | |b| == 3022 || |b| == 3342 witness seq(3022, _ => 0)
  type Inner = b: Bytes | |b| == 2990 || |b| == 3310 witness seq(2990, _ => 0)

  /** Everything that stays fixed over all boots of both devices; the KEM is three arbitrary functions. */
  datatype Setup = Setup(
    sha: Hash, mac: Mac,
    kemPublic: Bytes -> PublicKey,
    encaps: (PublicKey, Bytes) -> (Ciphertext, Digest),
    decaps: (Bytes, Ciphertext) -> Digest,
    carried: bool, idA: Digest, idB: Digest, versionA: u32, versionB: u32,
    lmsIdA: Identifier, seedA: Digest, treeA: Nodes,
    lmsIdB: Identifier, seedB: Digest, treeB: Nodes)

  ghost predicate KemCorrect(u: Setup) {
    forall sk: Bytes, coins: Bytes ::
      u.decaps(sk, u.encaps(u.kemPublic(sk), coins).0) == u.encaps(u.kemPublic(sk), coins).1
  }

  /** What SID0 and the transcript hash cover. */
  datatype Transcript = Transcript(sid: Digest, m0: Msg0, m1: Msg1, m2: Msg2, inner: Inner)

  function TranscriptBytes(t: Transcript): Bytes {
    TranscriptInput(t.sid, t.m0, t.m1, t.m2, t.inner)
  }

  function Th(u: Setup, t: Transcript): Digest {
    u.sha(TranscriptBytes(t))
  }

  datatype InitiatorStart = InitiatorStart(sid: Digest, m0: Msg0, m1: Msg1, m2: Msg2, sk: Bytes)
  datatype InitiatorRun = InitiatorRun(t: Transcript, secret: Digest, sk: Bytes)
  datatype ResponderRun = ResponderRun(t: Transcript, secret: Digest, coins: Bytes)

  datatype PhaseA =
    | IdleA
    | AwaitM1(m0: Msg0, nonceA: Nonce)
    | ReservedA(m0: Msg0, m1: Msg1, sid: Digest, sk: Bytes, q: u32)
    | AwaitM3(start: InitiatorStart)

  datatype PhaseB =
    | IdleB
    | AwaitM2(m0: Msg0, m1: Msg1, sid: Digest)
    | ReservedB(m0: Msg0, m1: Msg1, sid: Digest, m2: Msg2, coins: Bytes, q: u32)
    | AwaitM4(run: ResponderRun)

  datatype System = System(
    nvsA: Nvs, ramA: Option<Config>, a: PhaseA,
    nvsB: Nvs, ramB: Option<Config>, b: PhaseB,
    started: seq<InitiatorStart>,    // M2 signed by A
    completed: seq<InitiatorRun>,    // M4 sent by A
    responded: seq<ResponderRun>,    // M3 signed by B
    accepted: seq<ResponderRun>,     // M4 accepted by B
    hashed: set<Bytes>)              // SID0, M2 and transcript inputs hashed by either side

  const INITIAL := System(None, None, IdleA, None, None, IdleB, [], [], [], [], {})

  // --- The signed objects ---------------------------------------------------------------

  function ObjectA(u: Setup, sid: Digest, m2: Msg2): Bytes {
    SignInput(MuA(sid, u.idA, u.idB, VersionOf(m2), PublicKeyOf(m2)), IndexOf(m2))
  }

  function ObjectB(u: Setup, sid: Digest, m2: Msg2, inner: Inner): Bytes {
    SignInput(MuB(sid, u.sha(m2), u.idA, u.idB, VersionOf(inner), CiphertextOf(inner)), IndexOf(inner))
  }

  // --- The initiator ----------------------------------------------------------------------

  function StartA(u: Setup, s: System, nonceA: Nonce): System
    requires s.ramA.Some? && s.a.IdleA?
  {
    s.(a := AwaitM1(M0(u.idA, u.idB, nonceA, Suite(u.carried)), nonceA))
  }

  /** `validateM1` */
  predicate ValidM1(u: Setup, m1: Bytes, nonceA: Nonce) {
    && |m1| == 102 && m1[0] == PROTOCOL_VERSION && m1[1] == MSG_M1_CHAL
    && m1[2..34] == u.idB && m1[34..66] == u.idA && m1[66..82] == nonceA
    && GetU32(m1[98..]) == Suite(u.carried)
  }

  /** SID0, a fresh KEM key and a reserved index; nothing is signed yet. */
  function M1ToA(u: Setup, s: System, m1: Bytes, sk: Bytes, put: Put): System
    requires s.ramA.Some? && s.a.AwaitM1?
  {
    if !ValidM1(u, m1, s.a.nonceA) then s.(a := IdleA)
    else
      var input := Sid0Input(s.a.m0, m1);
      var q := Reserved(s.nvsA, s.ramA.value, put);
      s.(nvsA := NvsAfterReserve(s.nvsA, s.ramA.value, put),
         a := if q.Some? then ReservedA(s.a.m0, m1, u.sha(input), sk, q.value) else IdleA,
         hashed := s.hashed + {input})
  }

  function BuildM2(u: Setup, sid: Digest, q: u32, pk: PublicKey, c: Digest): Msg2
    requires q < LMS_LEAVES
  {
    Signed(MSG_M2_INIT, sid, u.versionA, q, pk,
           LmsSpec.Sign(u.sha, u.lmsIdA, u.seedA, q, c, SignInput(MuA(sid, u.idA, u.idB, u.versionA, pk), q)),
           if u.carried then AuthPath(u.treeA, q) else [])
  }

  function SignA(u: Setup, s: System, c: Digest): System
    requires s.ramA.Some? && s.a.ReservedA? && s.a.q < LMS_LEAVES
  {
    var m2 := BuildM2(u, s.a.sid, s.a.q, u.kemPublic(s.a.sk), c);
    var start := InitiatorStart(s.a.sid, s.a.m0, s.a.m1, m2, s.a.sk);
    s.(a := AwaitM3(start), started := s.started + [start], hashed := s.hashed + {m2})
  }

  /** The header checks on M3 and on its inner part. */
  predicate ParsesM3(u: Setup, sid: Digest, m3: Bytes) {
    var n := M3InnerBytes(u.carried);
    && |m3| == 36 + n + 32
    && m3[0] == PROTOCOL_VERSION && m3[1] == MSG_M3_RESP_FIN && m3[2..34] == sid && GetU16(m3[34..36]) == n
    && m3[36] == PROTOCOL_VERSION && m3[37] == MSG_M3_INNER && m3[38..70] == sid
  }

  function InnerOf(u: Setup, m3: Bytes): Inner
    requires |m3| == 36 + M3InnerBytes(u.carried) + 32
  {
    m3[36..36 + M3InnerBytes(u.carried)]
  }

  function TauBOf(u: Setup, m3: Bytes): Digest
    requires |m3| == 36 + M3InnerBytes(u.carried) + 32
  {
    m3[36 + M3InnerBytes(u.carried)..]
  }

  /** `obtainPeerPath`: carried in the message, or answered by the repository. */
  function PeerPath(u: Setup, message: Bytes, base: nat, repository: Path): Path
    requires |message| == if u.carried then base + LMS_PATH_BYTES else base
  {
    if u.carried then message[base..] else repository
  }

  predicate VerifiesB(u: Setup, start: InitiatorStart, inner: Inner, repository: Path)
    requires |inner| == M3InnerBytes(u.carried)
  {
    && VersionOf(inner) == u.versionB
    && Verify(u.sha, IndexOf(inner), ObjectB(u, start.sid, start.m2, inner), InnerSignatureOf(inner), u.lmsIdB,
              PeerPath(u, inner, M3_INNER_BASE_BYTES, repository), u.treeB[1])
  }

  /** The session an initiator would complete on receiving `inner`. */
  function CompletionOf(u: Setup, start: InitiatorStart, inner: Inner): InitiatorRun {
    InitiatorRun(Transcript(start.sid, start.m0, start.m1, start.m2, inner),
                 u.decaps(start.sk, CiphertextOf(inner)), start.sk)
  }

  function TagB(u: Setup, t: Transcript, secret: Digest): Digest {
    u.mac(ConfirmB(u.mac, secret, Th(u, t)), TagInput(DOMAIN_B_CONFIRM, Th(u, t)))
  }

  function TagA(u: Setup, t: Transcript, secret: Digest): Digest {
    u.mac(ConfirmA(u.mac, secret, Th(u, t)), TagInput(DOMAIN_A_CONFIRM, Th(u, t)))
  }

  predicate AcceptsM3(u: Setup, start: InitiatorStart, m3: Bytes, repository: Path) {
    && ParsesM3(u, start.sid, m3)
    && VerifiesB(u, start, InnerOf(u, m3), repository)
    && var run := CompletionOf(u, start, InnerOf(u, m3));
       TagB(u, run.t, run.secret) == TauBOf(u, m3)
  }

  function M3ToA(u: Setup, s: System, m3: Bytes, repository: Path): System
    requires s.ramA.Some? && s.a.AwaitM3?
  {
    if !AcceptsM3(u, s.a.start, m3, repository) then s.(a := IdleA)
    else
      var run := CompletionOf(u, s.a.start, InnerOf(u, m3));
      s.(a := IdleA, completed := s.completed + [run], hashed := s.hashed + {TranscriptBytes(run.t)})
  }

  // --- The responder ------------------------------------------------------------------------

  /** `validateM0`, with the nonce taken from the message itself. */
  predicate ValidM0(u: Setup, m0: Bytes) {
    && |m0| == 86 && m0[0] == PROTOCOL_VERSION && m0[1] == MSG_M0_REQ
    && m0[2..34] == u.idA && m0[34..66] == u.idB
    && GetU32(m0[82..]) == Suite(u.carried)
  }

  function M0ToB(u: Setup, s: System, m0: Bytes, nonceB: Nonce): System
    requires s.ramB.Some? && s.b.IdleB?
  {
    if !ValidM0(u, m0) then s
    else
      var m1 := M1(u.idB, u.idA, m0[66..82], nonceB, Suite(u.carried));
      var input := Sid0Input(m0, m1);
      s.(b := AwaitM2(m0, m1, u.sha(input)), hashed := s.hashed + {input})
  }

  predicate AcceptsM2(u: Setup, sid: Digest, m2: Bytes, repository: Path) {
    && |m2| == M2Bytes(u.carried)
    && m2[0] == PROTOCOL_VERSION && m2[1] == MSG_M2_INIT && SidOf(m2) == sid
    && VersionOf(m2) == u.versionA
    && Verify(u.sha, IndexOf(m2), ObjectA(u, sid, m2), M2SignatureOf(m2), u.lmsIdA,
              PeerPath(u, m2, M2_BASE_BYTES, repository), u.treeA[1])
  }

  /** Signature check, encapsulation and a reserved index; nothing is signed yet. */
  function M2ToB(u: Setup, s: System, m2: Bytes, repository: Path, coins: Bytes, put: Put): System
    requires s.ramB.Some? && s.b.AwaitM2?
  {
    if !AcceptsM2(u, s.b.sid, m2, repository) then s.(b := IdleB)
    else
      var q := Reserved(s.nvsB, s.ramB.value, put);
      s.(nvsB := NvsAfterReserve(s.nvsB, s.ramB.value, put),
         b := if q.Some? then ReservedB(s.b.m0, s.b.m1, s.b.sid, m2, coins, q.value) else IdleB,
         hashed := s.hashed + {m2})
  }

  function BuildInner(u: Setup, sid: Digest, m2: Msg2, q: u32, ct: Ciphertext, c: Digest): Inner
    requires q < LMS_LEAVES
  {
    Signed(MSG_M3_INNER, sid, u.versionB, q, ct,
           LmsSpec.Sign(u.sha, u.lmsIdB, u.seedB, q, c,
                        SignInput(MuB(sid, u.sha(m2), u.idA, u.idB, u.versionB, ct), q)),
           if u.carried then AuthPath(u.treeB, q) else [])
  }

  function ResponseOf(u: Setup, b: PhaseB, c: Digest): ResponderRun
    requires b.ReservedB? && b.q < LMS_LEAVES
  {
    var (ct, secret) := u.encaps(PublicKeyOf(b.m2), b.coins);
    ResponderRun(Transcript(b.sid, b.m0, b.m1, b.m2, BuildInner(u, b.sid, b.m2, b.q, ct, c)), secret, b.coins)
  }

  function SignB(u: Setup, s: System, c: Digest): System
    requires s.ramB.Some? && s.b.ReservedB? && s.b.q < LMS_LEAVES
  {
    var run := ResponseOf(u, s.b, c);
    s.(b := AwaitM4(run), responded := s.responded + [run], hashed := s.hashed + {TranscriptBytes(run.t)})
  }

  predicate AcceptsM4(u: Setup, run: ResponderRun, m4: Bytes) {
    && |m4| == 66 && m4[0] == PROTOCOL_VERSION && m4[1] == MSG_M4_INIT_FIN && m4[2..34] == run.t.sid
    && TagA(u, run.t, run.secret) == m4[34..]
  }

  function M4ToB(u: Setup, s: System, m4: Bytes): System
    requires s.ramB.Some? && s.b.AwaitM4?
  {
    if !AcceptsM4(u, s.b.run, m4) then s.(b := IdleB)
    else s.(b := IdleB, accepted := s.accepted + [s.b.run])
  }

  // --- Steps ------------------------------------------------------------------------------

  datatype Action =
    | BootA(config: Config, put: Put) | CrashA | AbandonA
    | BeginA(nonceA: Nonce) | DeliverM1(m1: Bytes, sk: Bytes, put: Put) | SendM2(c: Digest)
    | DeliverM3(m3: Bytes, repository: Path)
    | BootB(config: Config, put: Put) | CrashB | AbandonB
    | DeliverM0(m0: Bytes, nonceB: Nonce) | DeliverM2(m2: Bytes, repository: Path, coins: Bytes, put: Put)
    | SendM3(c: Digest) | DeliverM4(m4: Bytes)

  function RamAfterBoot(nvs: Nvs, c: Config, put: Put): Option<Config> {
    if Admissible(c) && Available(c, NextQ(NvsAfterBoot(nvs, c, put), c)) then Some(c) else None
  }

  /** Whether the program counter of the addressed device is where the action happens. */
  predicate Enabled(s: System, action: Action) {
    match action
    case BootA(_, _) => true
    case CrashA => true
    case AbandonA => true
    case BeginA(_) => s.ramA.Some? && s.a.IdleA?
    case DeliverM1(_, _, _) => s.ramA.Some? && s.a.AwaitM1?
    case SendM2(_) => s.ramA.Some? && s.a.ReservedA? && s.a.q < LMS_LEAVES
    case DeliverM3(_, _) => s.ramA.Some? && s.a.AwaitM3?
    case BootB(_, _) => true
    case CrashB => true
    case AbandonB => true
    case DeliverM0(_, _) => s.ramB.Some? && s.b.IdleB?
    case DeliverM2(_, _, _, _) => s.ramB.Some? && s.b.AwaitM2?
    case SendM3(_) => s.ramB.Some? && s.b.ReservedB? && s.b.q < LMS_LEAVES
    case DeliverM4(_) => s.ramB.Some? && s.b.AwaitM4?
  }

  function Act(u: Setup, s: System, action: Action): System
    requires Enabled(s, action)
  {
    match action
    case BootA(c, put) =>
      s.(nvsA := if Admissible(c) then NvsAfterBoot(s.nvsA, c, put) else s.nvsA,
         ramA := RamAfterBoot(s.nvsA, c, put), a := IdleA)
    case CrashA => s.(ramA := None, a := IdleA)
    case AbandonA => s.(a := IdleA)
    case BeginA(nonceA) => StartA(u, s, nonceA)
    case DeliverM1(m1, sk, put) => M1ToA(u, s, m1, sk, put)
    case SendM2(c) => SignA(u, s, c)
    case DeliverM3(m3, repository) => M3ToA(u, s, m3, repository)
    case BootB(c, put) =>
      s.(nvsB := if Admissible(c) then NvsAfterBoot(s.nvsB, c, put) else s.nvsB,
         ramB := RamAfterBoot(s.nvsB, c, put), b := IdleB)
    case CrashB => s.(ramB := None, b := IdleB)
    case AbandonB => s.(b := IdleB)
    case DeliverM0(m0, nonceB) => M0ToB(u, s, m0, nonceB)
    case DeliverM2(m2, repository, coins, put) => M2ToB(u, s, m2, repository, coins, put)
    case SendM3(c) => SignB(u, s, c)
    case DeliverM4(m4) => M4ToB(u, s, m4)
  }
}
