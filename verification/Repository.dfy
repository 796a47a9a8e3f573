/** The UDP packets between a device and the ledger server, on both sides. */
module Repository {
  import opened Octets
  import opened Wrappers
  import opened LmsSpec
  import opened AuditLedger

  const MAGIC: Bytes := [0x47, 0x43, 0x53, 0x32]
  const OP_ENROLL_ROOT: byte := 1
  const OP_ENROLL_PATH: byte := 2
  const OP_GET_ROOT: byte := 3
  const OP_GET_PATH: byte := 4
  const OP_ROOT_RECORD: byte := 5
  const OP_PATH_RECORD: byte := 6
  const OP_ACK: byte := 7
  const OP_NOT_FOUND: byte := 8

  const LAB_KEY: Bytes := [
    0x61, 0x94, 0x0d, 0x2f, 0x73, 0xe1, 0x48, 0xac, 0xb5, 0x39, 0x8c, 0x14, 0xd0, 0x6e, 0x2a, 0xf7,
    0x83, 0x45, 0x1b, 0xc9, 0x56, 0xaa, 0x30, 0x7d, 0x1e, 0x68, 0xf2, 0x04, 0x9b, 0xcd, 0x77, 0x35]

  datatype Request =
    | EnrollRoot(device: Digest, version: u32, row: RootRow)
    | EnrollPath(device: Digest, version: u32, q: u32, path: Path)
    | GetRoot(requester: Digest, target: Digest, version: u32)
    | GetPath(requester: Digest, target: Digest, version: u32, q: u32)

  datatype Reply =
    | Ack(id: Digest, version: u32, q: u32)
    | NotFound(id: Digest, version: u32, q: u32)
    | RootRecord(id: Digest, version: u32, row: RootRow)
    | PathRecord(id: Digest, version: u32, q: u32, path: Path)

  // --- Bodies: everything in front of the tag ------------------------------------------

  function Head(op: byte): (r: Bytes)
    ensures |r| == 8
  {
    MAGIC + [op, 0, 0, 0]
  }

  function RootBody(op: byte, id: Digest, version: u32, row: RootRow): (r: Bytes)
    ensures |r| == 108
  {
    Head(op) + id + U32(version) + row.identifier + row.root + U32(row.suite) + [row.status, 0, 0, 0] + U64(row.expiry)
  }

  function PathBody(op: byte, id: Digest, version: u32, q: u32, path: Path): (r: Bytes)
    ensures |r| == 368
  {
    Head(op) + id + U32(version) + U32(q) + path
  }

  function QueryBody(op: byte, requester: Digest, target: Digest, rest: Bytes): (r: Bytes)
    ensures |r| == 72 + |rest|
  {
    Head(op) + requester + target + rest
  }

  function AckBody(op: byte, id: Digest, version: u32, q: u32, status: byte): (r: Bytes)
    ensures |r| == 52
  {
    Head(op) + id + U32(version) + U32(q) + [status, 0, 0, 0]
  }

  function Seal(mac: Mac, body: Bytes): (r: Bytes)
    ensures |r| == |body| + 32 && r[..|body|] == body
  {
    body + mac(LAB_KEY, body)
  }

  predicate Sealed(mac: Mac, packet: Bytes) {
    |packet| >= 32 && packet[|packet| - 32..] == mac(LAB_KEY, packet[..|packet| - 32])
  }

  function RequestBody(r: Request): Bytes {
    match r
    case EnrollRoot(device, version, row) => RootBody(OP_ENROLL_ROOT, device, version, row)
    case EnrollPath(device, version, q, path) => PathBody(OP_ENROLL_PATH, device, version, q, path)
    case GetRoot(requester, target, version) => QueryBody(OP_GET_ROOT, requester, target, U32(version))
    case GetPath(requester, target, version, q) => QueryBody(OP_GET_PATH, requester, target, U32(version) + U32(q))
  }

  function ReplyBody(r: Reply): Bytes {
    match r
    case Ack(id, version, q) => AckBody(OP_ACK, id, version, q, 0)
    case NotFound(id, version, q) => AckBody(OP_NOT_FOUND, id, version, q, 1)
    case RootRecord(id, version, row) => RootBody(OP_ROOT_RECORD, id, version, row)
    case PathRecord(id, version, q, path) => PathBody(OP_PATH_RECORD, id, version, q, path)
  }

  // --- The server ------------------------------------------------------------------------

  function RootRowAt(packet: Bytes): RootRow
    requires |packet| == 140
  {
    RootRow(packet[44..60], packet[60..92], GetU32(packet[92..96]), packet[96], GetU64(packet[100..108]))
  }

  /** The four `parse_*` functions behind the dispatch on the operation byte. */
  function ParseRequest(mac: Mac, p: Bytes): Option<Request> {
    if |p| < 5 || p[..4] != MAGIC || !Sealed(mac, p) then None
    else if p[4] == OP_ENROLL_ROOT && |p| == 140 && p[96] <= 3 then
      Some(EnrollRoot(p[8..40], GetU32(p[40..44]), RootRowAt(p)))
    else if p[4] == OP_ENROLL_PATH && |p| == 400 && GetU32(p[44..48]) < LMS_LEAVES then
      Some(EnrollPath(p[8..40], GetU32(p[40..44]), GetU32(p[44..48]), p[48..368]))
    else if p[4] == OP_GET_ROOT && |p| == 108 then
      Some(GetRoot(p[8..40], p[40..72], GetU32(p[72..76])))
    else if p[4] == OP_GET_PATH && |p| == 112 && GetU32(p[76..80]) < LMS_LEAVES then
      Some(GetPath(p[8..40], p[40..72], GetU32(p[72..76]), GetU32(p[76..80])))
    else None
  }

  /** The requests that the server does not refuse. */
  predicate Acceptable(r: Request) {
    match r
    case EnrollRoot(_, _, row) => row.status <= 3
    case EnrollPath(_, _, q, _) => q < LMS_LEAVES
    case GetRoot(_, _, _) => true
    case GetPath(_, _, _, q) => q < LMS_LEAVES
  }

  datatype Tables = Tables(roots: map<RootKey, RootRow>, paths: map<PathKey, Path>)

  function Update(t: Tables, r: Request): Tables {
    match r
    case EnrollRoot(device, version, row) => t.(roots := t.roots[(device, version) := row])
    case EnrollPath(device, version, q, path) => t.(paths := t.paths[(device, version, q) := path])
    case _ => t
  }

  function Respond(t: Tables, r: Request): Reply {
    match r
    case EnrollRoot(device, version, _) => Ack(device, version, 0)
    case EnrollPath(device, version, q, _) => Ack(device, version, q)
    case GetRoot(_, target, version) =>
      if (target, version) in t.roots then RootRecord(target, version, t.roots[(target, version)])
      else NotFound(target, version, 0)
    case GetPath(_, target, version, q) =>
      if (target, version, q) in t.paths then PathRecord(target, version, q, t.paths[(target, version, q)])
      else NotFound(target, version, q)
  }

  // --- The client ---------------------------------------------------------------------------

  /** What `sendAndReceive` concludes from one datagram; expectedQ None is the wildcard 0xffffffff. */
  datatype Verdict = Ignore | Refused | Accepted

  /** The datagram is the first n bytes of the buffer; version and index are read even behind its end. */
  function Judge(mac: Mac, buffer: Bytes, n: nat, expectedOp: byte, version: u32, expectedQ: Option<u32>): Verdict
    requires n <= |buffer| && |buffer| >= 48
    requires expectedOp in {OP_ACK, OP_ROOT_RECORD, OP_PATH_RECORD}
  {
    if n < 8 + 32 || buffer[..4] != MAGIC || !Sealed(mac, buffer[..n]) then Ignore
    else if buffer[4] == OP_NOT_FOUND then Refused
    else if buffer[4] != expectedOp then Ignore
    else
      var q := if expectedOp == OP_ROOT_RECORD then 0 else GetU32(buffer[44..48]);
      if GetU32(buffer[40..44]) != version || (expectedQ.Some? && q != expectedQ.value) then Ignore else Accepted
  }

  predicate ConfirmsEnrollment(mac: Mac, p: Bytes, version: u32, expectedQ: Option<u32>) {
    |p| == 84 && Judge(mac, p, |p|, OP_ACK, version, expectedQ) == Accepted && p[48] == 0
  }

  function FetchedPath(mac: Mac, p: Bytes, peer: Digest, version: u32, q: u32): Option<Path> {
    if |p| == 400 && Judge(mac, p, |p|, OP_PATH_RECORD, version, Some(q)) == Accepted && p[8..40] == peer
    then Some(p[48..368]) else None
  }

  function FetchedRoot(mac: Mac, p: Bytes, peer: Digest, version: u32): Option<RootRow> {
    if |p| == 140 && Judge(mac, p, |p|, OP_ROOT_RECORD, version, None) == Accepted && p[8..40] == peer
    then Some(RootRowAt(p)) else None
  }

  // --- Round trips ----------------------------------------------------------------------------

  lemma SealedBySeal(mac: Mac, body: Bytes)
    ensures Sealed(mac, Seal(mac, body))
  {
    assert Seal(mac, body)[|body|..] == mac(LAB_KEY, body);
  }

  lemma RootFields(op: byte, id: Digest, version: u32, row: RootRow, tail: Bytes)
    requires |tail| == 32
    ensures var p := RootBody(op, id, version, row) + tail;
      && p[..4] == MAGIC && p[4] == op && p[8..40] == id && GetU32(p[40..44]) == version && p[96] == row.status
      && RootRowAt(p) == row
  {
    hide U32, GetU32, U64, GetU64;
    var p := RootBody(op, id, version, row) + tail;
    assert p[..4] == MAGIC && p[4] == op;
    assert p[8..40] == id && p[40..44] == U32(version) && p[44..60] == row.identifier && p[60..92] == row.root;
    assert p[92..96] == U32(row.suite) && p[96] == row.status && p[100..108] == U64(row.expiry);
  }

  lemma PathFields(op: byte, id: Digest, version: u32, q: u32, path: Path, tail: Bytes)
    ensures var p := PathBody(op, id, version, q, path) + tail;
      && p[..4] == MAGIC && p[4] == op && p[8..40] == id && GetU32(p[40..44]) == version
      && GetU32(p[44..48]) == q && p[48..368] == path
  {
    hide U32, GetU32;
    var p := PathBody(op, id, version, q, path) + tail;
    assert p[..4] == MAGIC && p[4] == op;
    assert p[8..40] == id && p[40..44] == U32(version) && p[44..48] == U32(q) && p[48..368] == path;
  }

  lemma AckFields(op: byte, id: Digest, version: u32, q: u32, status: byte, tail: Bytes)
    ensures var p := AckBody(op, id, version, q, status) + tail;
      && p[..4] == MAGIC && p[4] == op && p[8..40] == id && GetU32(p[40..44]) == version
      && GetU32(p[44..48]) == q && p[48] == status
  {
    hide U32, GetU32;
    var p := AckBody(op, id, version, q, status) + tail;
    assert p[..4] == MAGIC && p[4] == op;
    assert p[8..40] == id && p[40..44] == U32(version) && p[44..48] == U32(q);
  }

  lemma QueryFields(op: byte, requester: Digest, target: Digest, rest: Bytes, tail: Bytes)
    ensures var p := QueryBody(op, requester, target, rest) + tail;
      && p[..4] == MAGIC && p[4] == op && p[8..40] == requester && p[40..72] == target && p[72..72 + |rest|] == rest
  {
    var p := QueryBody(op, requester, target, rest) + tail;
    assert p[..4] == MAGIC && p[4] == op;
    assert p[8..40] == requester && p[40..72] == target && p[72..72 + |rest|] == rest;
  }

  /** The server reads exactly the request that the client packed. */
  lemma {:induction false} ServerReadsRequest(mac: Mac, r: Request)
    requires Acceptable(r)
    ensures ParseRequest(mac, Seal(mac, RequestBody(r))) == Some(r)
  {
    hide U32, GetU32, U64, GetU64, RootBody, PathBody, QueryBody, Sealed, Head, RootRowAt;
    var p := Seal(mac, RequestBody(r));
    var tag := mac(LAB_KEY, RequestBody(r));
    SealedBySeal(mac, RequestBody(r));
    match r
    case EnrollRoot(device, version, row) =>
      RootFields(OP_ENROLL_ROOT, device, version, row, tag);
    case EnrollPath(device, version, q, path) =>
      PathFields(OP_ENROLL_PATH, device, version, q, path, tag);
    case GetRoot(requester, target, version) =>
      QueryFields(OP_GET_ROOT, requester, target, U32(version), tag);
    case GetPath(requester, target, version, q) =>
      QueryFields(OP_GET_PATH, requester, target, U32(version) + U32(q), tag);
      assert p[72..76] == p[72..80][..4] && p[76..80] == p[72..80][4..];
  }

  /** The client takes a path only from a path record of that very peer, version and index, and then takes all of it. */
  lemma {:induction false} FetchedPathIsTheRecord(mac: Mac, reply: Reply, peer: Digest, version: u32, q: u32)
    ensures var fetched := FetchedPath(mac, Seal(mac, ReplyBody(reply)), peer, version, q);
      && (fetched.Some? <==> reply.PathRecord? && reply.id == peer && reply.version == version && reply.q == q)
      && (fetched.Some? ==> fetched.value == reply.path)
  {
    ReplyFields(mac, reply);
    var p := Seal(mac, ReplyBody(reply));
    assert p[..|p|] == p;
    hide U32, GetU32, RootBody, PathBody, AckBody, Sealed, Head, RootRowAt;
    SealedBySeal(mac, ReplyBody(reply));
  }

  lemma ReplyFields(mac: Mac, reply: Reply)
    ensures var p := Seal(mac, ReplyBody(reply));
      && |p| <= 400 && |p| >= 84 && p[..4] == MAGIC && p[8..40] == reply.id && GetU32(p[40..44]) == reply.version
      && match reply
         case Ack(_, _, q) => |p| == 84 && p[4] == OP_ACK && GetU32(p[44..48]) == q && p[48] == 0
         case NotFound(_, _, q) => |p| == 84 && p[4] == OP_NOT_FOUND && GetU32(p[44..48]) == q && p[48] == 1
         case RootRecord(_, _, row) => |p| == 140 && p[4] == OP_ROOT_RECORD && RootRowAt(p) == row
         case PathRecord(_, _, q, path) =>
           |p| == 400 && p[4] == OP_PATH_RECORD && GetU32(p[44..48]) == q && p[48..368] == path
  {
    hide U32, GetU32, U64, GetU64, RootBody, PathBody, AckBody, Head, RootRowAt;
    var tag := mac(LAB_KEY, ReplyBody(reply));
    match reply
    case Ack(id, version, q) => AckFields(OP_ACK, id, version, q, 0, tag);
    case NotFound(id, version, q) => AckFields(OP_NOT_FOUND, id, version, q, 1, tag);
    case RootRecord(id, version, row) => RootFields(OP_ROOT_RECORD, id, version, row, tag);
    case PathRecord(id, version, q, path) => PathFields(OP_PATH_RECORD, id, version, q, path, tag);
  }

  lemma {:induction false} FetchedRootIsTheRecord(mac: Mac, reply: Reply, peer: Digest, version: u32)
    ensures var fetched := FetchedRoot(mac, Seal(mac, ReplyBody(reply)), peer, version);
      && (fetched.Some? <==> reply.RootRecord? && reply.id == peer && reply.version == version)
      && (fetched.Some? ==> fetched.value == reply.row)
  {
    ReplyFields(mac, reply);
    var p := Seal(mac, ReplyBody(reply));
    assert p[..|p|] == p;
    hide U32, GetU32, RootBody, PathBody, AckBody, Sealed, Head, RootRowAt;
    SealedBySeal(mac, ReplyBody(reply));
  }

  lemma {:induction false} ConfirmationIsAnAck(mac: Mac, reply: Reply, version: u32, expectedQ: Option<u32>)
    ensures ConfirmsEnrollment(mac, Seal(mac, ReplyBody(reply)), version, expectedQ)
      <==> reply.Ack? && reply.version == version && (expectedQ.Some? ==> reply.q == expectedQ.value)
  {
    ReplyFields(mac, reply);
    var p := Seal(mac, ReplyBody(reply));
    assert p[..|p|] == p;
    hide U32, GetU32, RootBody, PathBody, AckBody, Sealed, Head, RootRowAt;
    SealedBySeal(mac, ReplyBody(reply));
  }

  // --- Nothing else is accepted ----------------------------------------------------------------

  /**
   Equal but for the bytes that no reader looks at: three behind the operation and, in root records, three
   behind the status.
   */
  predicate SameButPadding(a: Bytes, b: Bytes, root: bool) {
    && |a| == |b|
    && forall k :: 0 <= k < |a| && !(5 <= k < 8) && !(root && 97 <= k < 100) ==> a[k] == b[k]
  }

  /** Whatever the server parses is, up to padding, the sealed packet of that request, and an acceptable one. */
  lemma {:induction false} OnlyPackedRequestsParse(mac: Mac, p: Bytes)
    ensures ParseRequest(mac, p).Some? ==>
      var r := ParseRequest(mac, p).value;
      && Acceptable(r) && Sealed(mac, p) && SameButPadding(p[..|p| - 32], RequestBody(r), r.EnrollRoot?)
  {
    hide U32, GetU32, U64, GetU64, RootBody, PathBody, QueryBody, Sealed;
    if ParseRequest(mac, p).Some? {
      match ParseRequest(mac, p).value
      case EnrollRoot(_, _, _) => RootPacket(OP_ENROLL_ROOT, p);
      case EnrollPath(_, _, _, _) => PathPacket(OP_ENROLL_PATH, p);
      case GetRoot(_, _, _) => QueryPacket(OP_GET_ROOT, p);
      case GetPath(_, _, _, _) =>
        QueryPacket(OP_GET_PATH, p);
        U32OfGetU32(p[76..80]);
        assert p[72..80] == p[72..76] + p[76..80];
    }
  }

  /** Whatever the client takes as a path is, up to padding, the sealed path record of that peer, version and index. */
  lemma {:induction false} OnlyPathRecordsAreFetched(mac: Mac, p: Bytes, peer: Digest, version: u32, q: u32)
    ensures FetchedPath(mac, p, peer, version, q).Some? ==>
      var path := FetchedPath(mac, p, peer, version, q).value;
      Sealed(mac, p) && |p| == 400 && SameButPadding(p[..368], PathBody(OP_PATH_RECORD, peer, version, q, path), false)
  {
    hide U32, GetU32, PathBody, Sealed;
    if FetchedPath(mac, p, peer, version, q).Some? {
      assert p[..|p|] == p;
      PathPacket(OP_PATH_RECORD, p);
    }
  }

  lemma {:induction false} OnlyRootRecordsAreFetched(mac: Mac, p: Bytes, peer: Digest, version: u32)
    ensures FetchedRoot(mac, p, peer, version).Some? ==>
      var row := FetchedRoot(mac, p, peer, version).value;
      Sealed(mac, p) && |p| == 140 && SameButPadding(p[..108], RootBody(OP_ROOT_RECORD, peer, version, row), true)
  {
    hide U32, GetU32, RootBody, Sealed, RootRowAt;
    if FetchedRoot(mac, p, peer, version).Some? {
      assert p[..|p|] == p;
      RootPacket(OP_ROOT_RECORD, p);
    }
  }

  /** Neither side acts on a datagram that does not end with the code of all its other bytes. */
  lemma {:induction false} UnsealedIsIgnored(mac: Mac, buffer: Bytes, n: nat, expectedOp: byte, version: u32,
      expectedQ: Option<u32>)
    requires n <= |buffer| && |buffer| >= 48 && expectedOp in {OP_ACK, OP_ROOT_RECORD, OP_PATH_RECORD}
    requires n >= 40 ==> buffer[n - 32..n] != mac(LAB_KEY, buffer[..n - 32])
    ensures Judge(mac, buffer, n, expectedOp, version, expectedQ) == Ignore
    ensures ParseRequest(mac, buffer[..n]) == None
  {
    hide GetU32, GetU64, RootRowAt;
    var p := buffer[..n];
    if n >= 40 {
      assert p[n - 32..] == buffer[n - 32..n] && p[..n - 32] == buffer[..n - 32];
    }
  }

  /** The client's three verdicts on a datagram, told by the bytes it looks at. */
  lemma {:induction false} VerdictsByBytes(mac: Mac, p: Bytes, expectedOp: byte, version: u32, expectedQ: Option<u32>)
    requires |p| >= 48 && expectedOp in {OP_ACK, OP_ROOT_RECORD, OP_PATH_RECORD}
    requires p[..4] == MAGIC && p[|p| - 32..] == mac(LAB_KEY, p[..|p| - 32])
    ensures Judge(mac, p, |p|, expectedOp, version, expectedQ) == Refused <==> p[4] == 8
    ensures Judge(mac, p, |p|, expectedOp, version, expectedQ) == Accepted
       <==> && p[4] == expectedOp && p[40..44] == U32(version)
            && (expectedQ.Some? ==> U32(expectedQ.value) == if expectedOp == 5 then [0, 0, 0, 0] else p[44..48])
  {
    hide U32, GetU32;
    assert p[..|p|] == p;
    U32OfGetU32(p[40..44]);
    U32OfGetU32(p[44..48]);
    assert U32(0) == [0, 0, 0, 0] by { ZeroWord(); }
  }

  /** An enrollment is confirmed by the sealed acknowledgement of its version and index, and by nothing else. */
  lemma {:induction false} OnlyAcknowledgementsConfirm(mac: Mac, p: Bytes, version: u32, expectedQ: Option<u32>)
    ensures ConfirmsEnrollment(mac, p, version, expectedQ)
       <==> && |p| == 84 && p[52..] == mac(LAB_KEY, p[..52])
            && p[..5] == [0x47, 0x43, 0x53, 0x32, 7] && p[40..44] == U32(version)
            && (expectedQ.Some? ==> p[44..48] == U32(expectedQ.value)) && p[48] == 0
  {
    hide U32, GetU32, Judge;
    if |p| == 84 {
      assert p[..5] == p[..4] + [p[4]];
      assert p[..|p|] == p;
      if p[..4] == MAGIC && p[52..] == mac(LAB_KEY, p[..52]) {
        VerdictsByBytes(mac, p, OP_ACK, version, expectedQ);
      } else if p[..4] == MAGIC {
        UnsealedIsIgnored(mac, p, |p|, OP_ACK, version, expectedQ);
      } else {
        ForeignIsIgnored(mac, p, OP_ACK, version, expectedQ);
      }
    }
  }

  lemma ForeignIsIgnored(mac: Mac, p: Bytes, expectedOp: byte, version: u32, expectedQ: Option<u32>)
    requires |p| >= 48 && expectedOp in {OP_ACK, OP_ROOT_RECORD, OP_PATH_RECORD} && p[..4] != MAGIC
    ensures Judge(mac, p, |p|, expectedOp, version, expectedQ) == Ignore
  {
  }

  lemma ZeroWord()
    ensures U32(0) == [0, 0, 0, 0]
  {
  }

  lemma RootPacket(op: byte, p: Bytes)
    requires |p| == 140 && p[..4] == MAGIC && p[4] == op
    ensures SameButPadding(p[..108], RootBody(op, p[8..40], GetU32(p[40..44]), RootRowAt(p)), true)
  {
    hide U32, GetU32, U64, GetU64;
    U32OfGetU32(p[40..44]);
    U32OfGetU32(p[92..96]);
    U64OfGetU64(p[100..108]);
    assert p[0] == p[..4][0] && p[1] == p[..4][1] && p[2] == p[..4][2] && p[3] == p[..4][3];
  }

  lemma PathPacket(op: byte, p: Bytes)
    requires |p| == 400 && p[..4] == MAGIC && p[4] == op
    ensures SameButPadding(p[..368], PathBody(op, p[8..40], GetU32(p[40..44]), GetU32(p[44..48]), p[48..368]), false)
  {
    hide U32, GetU32;
    U32OfGetU32(p[40..44]);
    U32OfGetU32(p[44..48]);
    assert p[0] == p[..4][0] && p[1] == p[..4][1] && p[2] == p[..4][2] && p[3] == p[..4][3];
  }

  lemma QueryPacket(op: byte, p: Bytes)
    requires |p| >= 108 && p[..4] == MAGIC && p[4] == op
    ensures SameButPadding(p[..|p| - 32], QueryBody(op, p[8..40], p[40..72], p[72..|p| - 32]), false)
    ensures U32(GetU32(p[72..76])) == p[72..76]
  {
    hide U32, GetU32;
    U32OfGetU32(p[72..76]);
    assert p[0] == p[..4][0] && p[1] == p[..4][1] && p[2] == p[..4][2] && p[3] == p[..4][3];
  }
}
