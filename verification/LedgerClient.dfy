/** The device's side of the ledger exchange: retry loops over one receive buffer that outlives its datagrams. */
module LedgerClient {
  import opened Octets
  import opened Wrappers
  import opened Bits
  import opened LmsSpec
  import opened LmotsLms
  import opened AuditLedger
  import opened Repository

  const GCS_RETRIES := 4
  const BUFFER_BYTES := 400

  type Buffer = b: Bytes | |b| == 400 witness seq(400, _ => 0)

  datatype Incoming = Incoming(packet: Bytes, fromGcs: bool)

  /** Whether the UDP stack took the request, and what arrived before the timeout. */
  datatype Attempt = Attempt(sent: bool, stream: seq<Incoming>)

  /** A datagram overwrites the front of the buffer; one that does not fit is drained elsewhere. */
  function AfterRead(before: Buffer, packet: Bytes): Buffer {
    if |packet| > BUFFER_BYTES then before else packet + before[|packet|..]
  }

  function VerdictOn(mac: Mac, before: Buffer, a: Incoming, op: byte, version: u32, q: Option<u32>): Verdict
    requires op in {OP_ACK, OP_ROOT_RECORD, OP_PATH_RECORD}
  {
    if !a.fromGcs || |a.packet| > BUFFER_BYTES then Ignore
    else Judge(mac, AfterRead(before, a.packet), |a.packet|, op, version, q)
  }

  /** The buffer at the end, and the length of the response if one was accepted. */
  datatype Answer = Answer(buffer: Buffer, length: Option<nat>)

  datatype Listening = Silence(buffer: Buffer) | Conclusion(answer: Answer)

  /** One attempt: the first datagram that is not ignored decides. */
  function Listen(mac: Mac, before: Buffer, stream: seq<Incoming>, op: byte, version: u32, q: Option<u32>): Listening
    requires op in {OP_ACK, OP_ROOT_RECORD, OP_PATH_RECORD}
    decreases |stream|
  {
    if stream == [] then Silence(before)
    else
      var after := AfterRead(before, stream[0].packet);
      match VerdictOn(mac, before, stream[0], op, version, q)
      case Ignore => Listen(mac, after, stream[1..], op, version, q)
      case Refused => Conclusion(Answer(after, None))
      case Accepted => Conclusion(Answer(after, Some(|stream[0].packet|)))
  }

  /** The attempts in turn; a request that cannot be sent ends the exchange. */
  function Exchange(mac: Mac, before: Buffer, attempts: seq<Attempt>, op: byte, version: u32, q: Option<u32>): Answer
    requires op in {OP_ACK, OP_ROOT_RECORD, OP_PATH_RECORD}
    decreases |attempts|
  {
    if attempts == [] || !attempts[0].sent then Answer(before, None)
    else
      match Listen(mac, before, attempts[0].stream, op, version, q)
      case Silence(after) => Exchange(mac, after, attempts[1..], op, version, q)
      case Conclusion(answer) => answer
  }

  predicate Arrived(attempts: seq<Attempt>, packet: Bytes) {
    exists k, i :: 0 <= k < |attempts| && 0 <= i < |attempts[k].stream|
      && attempts[k].stream[i] == Incoming(packet, true)
  }

  /** An accepted response stands at the front of the buffer, and passed the judgement there. */
  predicate Holds(mac: Mac, answer: Answer, op: byte, version: u32, q: Option<u32>)
    requires op in {OP_ACK, OP_ROOT_RECORD, OP_PATH_RECORD}
  {
    answer.length.Some? ==>
      && answer.length.value <= BUFFER_BYTES
      && Judge(mac, answer.buffer, answer.length.value, op, version, q) == Accepted
  }

  function Response(answer: Answer): Bytes
    requires answer.length.Some?
  {
    if answer.length.value <= BUFFER_BYTES then answer.buffer[..answer.length.value] else []
  }

  lemma {:induction false} ListenedResponseArrived(mac: Mac, before: Buffer, stream: seq<Incoming>, op: byte,
      version: u32, q: Option<u32>)
    requires op in {OP_ACK, OP_ROOT_RECORD, OP_PATH_RECORD}
    requires var l := Listen(mac, before, stream, op, version, q); l.Conclusion? && l.answer.length.Some?
    ensures var answer := Listen(mac, before, stream, op, version, q).answer;
      Holds(mac, answer, op, version, q) && Incoming(Response(answer), true) in stream
    decreases |stream|
  {
    hide Judge;
    var after := AfterRead(before, stream[0].packet);
    if VerdictOn(mac, before, stream[0], op, version, q) == Ignore {
      ListenedResponseArrived(mac, after, stream[1..], op, version, q);
    } else {
      assert after[..|stream[0].packet|] == stream[0].packet;
      assert stream[0] == Incoming(stream[0].packet, true);
    }
  }

  /** Whatever an exchange returns arrived from the ledger in one of its attempts. */
  lemma {:induction false} ResponseArrived(mac: Mac, before: Buffer, attempts: seq<Attempt>, op: byte, version: u32,
      q: Option<u32>)
    requires op in {OP_ACK, OP_ROOT_RECORD, OP_PATH_RECORD}
    requires Exchange(mac, before, attempts, op, version, q).length.Some?
    ensures var answer := Exchange(mac, before, attempts, op, version, q);
      Holds(mac, answer, op, version, q) && Arrived(attempts, Response(answer))
    decreases |attempts|
  {
    hide Holds, Listen, Response;
    match Listen(mac, before, attempts[0].stream, op, version, q)
    case Silence(after) =>
      ResponseArrived(mac, after, attempts[1..], op, version, q);
      var answer := Exchange(mac, after, attempts[1..], op, version, q);
      var k, i :| 0 <= k < |attempts[1..]| && 0 <= i < |attempts[1..][k].stream|
                  && attempts[1..][k].stream[i] == Incoming(Response(answer), true);
      assert attempts[k + 1].stream[i] == Incoming(Response(answer), true);
    case Conclusion(answer) =>
      ListenedResponseArrived(mac, before, attempts[0].stream, op, version, q);
      var i :| 0 <= i < |attempts[0].stream| && attempts[0].stream[i] == Incoming(Response(answer), true);
      assert attempts[0].stream[i] == Incoming(Response(answer), true);
  }

  /** Only the 40 to 47 bytes of a datagram shorter than version and index leave anything to older content. */
  lemma JudgedAlone(mac: Mac, answer: Answer, op: byte, version: u32, q: Option<u32>)
    requires op in {OP_ACK, OP_ROOT_RECORD, OP_PATH_RECORD}
    requires answer.length.Some? && 48 <= answer.length.value <= BUFFER_BYTES
    ensures var n := answer.length.value;
      Judge(mac, Response(answer), n, op, version, q) == Judge(mac, answer.buffer, n, op, version, q)
  {
    hide GetU32, Sealed;
    var p, b, n := Response(answer), answer.buffer, answer.length.value;
    assert p[..n] == b[..n] && p[..4] == b[..4] && p[40..44] == b[40..44] && p[44..48] == b[44..48];
  }

  /** How many confirmed enrollments leave the buffer in what state; None once one is not confirmed. */
  function AfterConfirmations(mac: Mac, before: Buffer, version: u32, firstQ: u32, exchanges: seq<seq<Attempt>>,
      n: nat): Option<Buffer>
    requires n <= |exchanges| && firstQ + n <= LMS_LEAVES
  {
    if n == 0 then Some(before)
    else
      match AfterConfirmations(mac, before, version, firstQ, exchanges, n - 1)
      case None => None
      case Some(b) =>
        var answer := Exchange(mac, b, exchanges[n - 1], OP_ACK, version, Some(firstQ + n - 1));
        if Confirms(mac, answer, version, Some(firstQ + n - 1)) then Some(answer.buffer) else None
  }

  predicate Confirms(mac: Mac, answer: Answer, version: u32, q: Option<u32>) {
    answer.length == Some(84) && ConfirmsEnrollment(mac, Response(answer), version, q)
  }

  /** Behind every confirmed enrollment stands a confirmation that arrived in its exchange. */
  lemma {:induction false} ConfirmationArrived(
    mac: Mac, before: Buffer, version: u32, firstQ: u32, exchanges: seq<seq<Attempt>>, n: nat, i: nat)
    requires i < n <= |exchanges| && firstQ + n <= LMS_LEAVES
    requires AfterConfirmations(mac, before, version, firstQ, exchanges, n).Some?
    ensures exists p :: Arrived(exchanges[i], p) && ConfirmsEnrollment(mac, p, version, Some(firstQ + i))
    decreases n
  {
    hide Exchange, ConfirmsEnrollment, Response, Arrived;
    if i < n - 1 {
      ConfirmationArrived(mac, before, version, firstQ, exchanges, n - 1, i);
    } else {
      var b := AfterConfirmations(mac, before, version, firstQ, exchanges, n - 1).value;
      ResponseArrived(mac, b, exchanges[i], OP_ACK, version, Some(firstQ + i));
    }
  }

  /** The first of several rounds that brings an accepted response. */
  function FirstAnswer(mac: Mac, before: Buffer, rounds: seq<seq<Attempt>>, version: u32): Answer
    decreases |rounds|
  {
    if rounds == [] then Answer(before, None)
    else
      var answer := Exchange(mac, before, rounds[0], OP_ROOT_RECORD, version, None);
      if answer.length.Some? then answer else FirstAnswer(mac, answer.buffer, rounds[1..], version)
  }

  // --- The request packets, filled by offset --------------------------------------------------

  /** Magic and operation over zeroed bytes. */
  method PutHead(packet: array<byte>, op: byte)
    requires packet.Length >= 8
    modifies packet
    ensures packet[..8] == Head(op)
  {
    Write(packet, 0, MAGIC);
    Write(packet, 4, [op, 0, 0, 0]);
  }

  method PutTag(mac: Mac, packet: array<byte>, ghost body: Bytes)
    requires packet.Length == |body| + 32 && packet[..|body|] == body
    modifies packet
    ensures packet[..] == Seal(mac, body)
  {
    var n := packet.Length - 32;
    Write(packet, n, mac(LAB_KEY, packet[..n]));
    assert packet[..n + 32] == packet[..];
  }

  method PackRoot(mac: Mac, device: Digest, version: u32, row: RootRow) returns (sealedPacket: Bytes)
    ensures sealedPacket == Seal(mac, RequestBody(EnrollRoot(device, version, row)))
  {
    hide Head, U32, U64, Seal;
    var packet := new byte[140](_ => 0);
    PutHead(packet, OP_ENROLL_ROOT);
    Write(packet, 8, device);
    Write(packet, 40, U32(version));
    Write(packet, 44, row.identifier);
    Write(packet, 60, row.root);
    Write(packet, 92, U32(row.suite));
    Write(packet, 96, [row.status, 0, 0, 0]);
    Write(packet, 100, U64(row.expiry));
    PutTag(mac, packet, RootBody(OP_ENROLL_ROOT, device, version, row));
    sealedPacket := packet[..];
  }

  method PackPath(mac: Mac, device: Digest, version: u32, q: u32, path: Path) returns (sealedPacket: Bytes)
    ensures sealedPacket == Seal(mac, RequestBody(EnrollPath(device, version, q, path)))
  {
    hide Head, U32, Seal;
    var packet := new byte[400](_ => 0);
    PutHead(packet, OP_ENROLL_PATH);
    Write(packet, 8, device);
    Write(packet, 40, U32(version));
    Write(packet, 44, U32(q));
    Write(packet, 48, path);
    PutTag(mac, packet, PathBody(OP_ENROLL_PATH, device, version, q, path));
    sealedPacket := packet[..];
  }

  /** The packet that enrolls path q of a tree. */
  function EnrollmentPacket(mac: Mac, device: Digest, version: u32, q: u32, t: Nodes): Bytes
    requires q < LMS_LEAVES
  {
    Seal(mac, RequestBody(EnrollPath(device, version, q, AuthPath(t, q))))
  }

  lemma PacketIs(mac: Mac, device: Digest, version: u32, q: u32, t: Nodes)
    requires q < LMS_LEAVES
    ensures EnrollmentPacket(mac, device, version, q, t)
         == Seal(mac, RequestBody(EnrollPath(device, version, q, AuthPath(t, q))))
  {
  }

  method PackGetRoot(mac: Mac, device: Digest, peer: Digest, version: u32) returns (sealedPacket: Bytes)
    ensures sealedPacket == Seal(mac, RequestBody(GetRoot(device, peer, version)))
  {
    hide Head, U32, Seal;
    var packet := new byte[108](_ => 0);
    PutHead(packet, OP_GET_ROOT);
    Write(packet, 8, device);
    Write(packet, 40, peer);
    Write(packet, 72, U32(version));
    PutTag(mac, packet, QueryBody(OP_GET_ROOT, device, peer, U32(version)));
    sealedPacket := packet[..];
  }

  method PackGetPath(mac: Mac, device: Digest, peer: Digest, version: u32, q: u32) returns (sealedPacket: Bytes)
    ensures sealedPacket == Seal(mac, RequestBody(GetPath(device, peer, version, q)))
  {
    hide Head, U32, Seal;
    var packet := new byte[112](_ => 0);
    PutHead(packet, OP_GET_PATH);
    Write(packet, 8, device);
    Write(packet, 40, peer);
    Write(packet, 72, U32(version));
    Write(packet, 76, U32(q));
    PutTag(mac, packet, QueryBody(OP_GET_PATH, device, peer, U32(version) + U32(q)));
    sealedPacket := packet[..];
  }

  class Client {
    const mac: Mac
    const buffer: array<byte>

    constructor (mac: Mac)
      ensures this.mac == mac && buffer.Length == BUFFER_BYTES && fresh(buffer)
    {
      this.mac := mac;
      buffer := new byte[BUFFER_BYTES];
    }

    ghost predicate Valid() {
      buffer.Length == BUFFER_BYTES
    }

    /** One datagram at the receive loop: read, and judged against what the caller waits for. */
    method Receive(a: Incoming, op: byte, version: u32, q: Option<u32>) returns (verdict: Verdict)
      requires Valid() && op in {OP_ACK, OP_ROOT_RECORD, OP_PATH_RECORD}
      modifies buffer
      ensures buffer[..] == AfterRead(old(buffer[..]), a.packet)
      ensures verdict == VerdictOn(mac, old(buffer[..]), a, op, version, q)
    {
      hide GetU32, Sealed;
      var n := |a.packet|;
      if n > BUFFER_BYTES {
        return Ignore;
      }
      ghost var before := buffer[..];
      Write(buffer, 0, a.packet);
      assert buffer[..] == a.packet + before[n..];
      if n < 8 + 32 || !a.fromGcs || buffer[..4] != MAGIC {
        return Ignore;
      }
      var tag := mac(LAB_KEY, buffer[..n - 32]);
      var authentic := ConstantTimeEqual(buffer[n - 32..n], tag, 32);
      SealedInBuffer(mac, buffer[..], n);
      assert buffer[n - 32..n][..32] == buffer[n - 32..n] && tag[..32] == tag;
      if !authentic {
        return Ignore;
      }
      if buffer[4] == OP_NOT_FOUND {
        return Refused;
      }
      if buffer[4] != op {
        return Ignore;
      }
      assert buffer[..][40..44] == buffer[40..44] && buffer[..][44..48] == buffer[44..48];
      var receivedVersion := GetU32(buffer[40..44]);
      var receivedQ := 0;
      if op == OP_ACK || op == OP_PATH_RECORD {
        receivedQ := GetU32(buffer[44..48]);
      }
      if receivedVersion != version || (q.Some? && receivedQ != q.value) {
        return Ignore;
      }
      return Accepted;
    }

    lemma SealedInBuffer(mac: Mac, b: Bytes, n: nat)
      requires 32 <= n <= |b|
      ensures Sealed(mac, b[..n]) <==> b[n - 32..n] == mac(LAB_KEY, b[..n - 32])
    {
      assert b[..n][n - 32..] == b[n - 32..n] && b[..n][..n - 32] == b[..n - 32];
    }

    /** `sendAndReceive`, the datagrams of each attempt given. */
    method SendAndReceive(attempts: seq<Attempt>, op: byte, version: u32, q: Option<u32>)
      returns (ok: bool, responseLength: nat)
      requires Valid() && op in {OP_ACK, OP_ROOT_RECORD, OP_PATH_RECORD} && |attempts| == GCS_RETRIES
      modifies buffer
      ensures var answer := Exchange(mac, old(buffer[..]), attempts, op, version, q);
        && buffer[..] == answer.buffer && ok == answer.length.Some?
        && (ok ==> responseLength == answer.length.value)
    {
      hide VerdictOn;
      responseLength := 0;
      ghost var before := buffer[..];
      assert attempts[0..] == attempts;
      for k := 0 to GCS_RETRIES
        invariant Exchange(mac, before, attempts, op, version, q)
          == Exchange(mac, buffer[..], attempts[k..], op, version, q)
      {
        assert attempts[k..][1..] == attempts[k + 1..];
        if !attempts[k].sent {
          return false, 0;
        }
        var stream := attempts[k].stream;
        ghost var start := buffer[..];
        assert stream[0..] == stream;
        for i := 0 to |stream|
          invariant Listen(mac, start, stream, op, version, q) == Listen(mac, buffer[..], stream[i..], op, version, q)
        {
          assert stream[i..][1..] == stream[i + 1..];
          var verdict := Receive(stream[i], op, version, q);
          if verdict == Refused {
            return false, 0;
          }
          if verdict == Accepted {
            return true, |stream[i].packet|;
          }
        }
      }
      return false, 0;
    }

    /** `enrollOwnRoot` of a built tree: any index will do in the acknowledgement. */
    method EnrollOwnRoot(signer: Signer, device: Digest, version: u32, suite: u32, status: byte, expiry: u64,
        attempts: seq<Attempt>)
      returns (ok: bool, request: Bytes)
      requires Valid() && signer.Valid() && signer.tree != null && |attempts| == GCS_RETRIES
      modifies buffer
      ensures request == Seal(mac, RequestBody(
        EnrollRoot(device, version, RootRow(signer.identifier, old(signer.tree[1]), suite, status, expiry))))
      ensures var answer := Exchange(mac, old(buffer[..]), attempts, OP_ACK, version, None);
        buffer[..] == answer.buffer && ok == Confirms(mac, answer, version, None)
      ensures ok ==> exists p :: Arrived(attempts, p) && ConfirmsEnrollment(mac, p, version, None)
    {
      hide Seal, RequestBody, Exchange, ConfirmsEnrollment, Arrived, Response;
      var row := RootRow(signer.identifier, signer.tree[1], suite, status, expiry);
      request := PackRoot(mac, device, version, row);
      ok := Confirm(version, None, attempts);
      if ok {
        ResponseArrived(mac, old(buffer[..]), attempts, OP_ACK, version, None);
      }
    }

    method Confirm(version: u32, q: Option<u32>, attempts: seq<Attempt>) returns (ok: bool)
      requires Valid() && |attempts| == GCS_RETRIES
      modifies buffer
      ensures var answer := Exchange(mac, old(buffer[..]), attempts, OP_ACK, version, q);
        buffer[..] == answer.buffer && ok == Confirms(mac, answer, version, q)
    {
      hide Exchange, Judge;
      ghost var answer := Exchange(mac, buffer[..], attempts, OP_ACK, version, q);
      var received, n := SendAndReceive(attempts, OP_ACK, version, q);
      if !received || n != 84 {
        return false;
      }
      ResponseArrived(mac, old(buffer[..]), attempts, OP_ACK, version, q);
      JudgedAlone(mac, answer, OP_ACK, version, q);
      assert Response(answer)[48] == buffer[48];
      ok := buffer[48] == 0;
    }

    /** `enrollOwnPaths`: one request and one confirmation per index, in uint32 arithmetic. */
    method EnrollOwnPaths(signer: Signer, device: Digest, version: u32, firstQ: u32, count: u32,
        exchanges: seq<seq<Attempt>>)
      returns (ok: bool, packets: seq<Bytes>)
      requires Valid() && signer.Valid() && buffer !in {signer.smallHashInput, signer.publicHashInput}
      requires |exchanges| == count && forall attempts :: attempts in exchanges ==> |attempts| == GCS_RETRIES
      modifies buffer
      ensures ok <==>
        && 0 < count && firstQ + count <= LMS_LEAVES && signer.tree != null
        && AfterConfirmations(mac, old(buffer[..]), version, firstQ, exchanges, count).Some?
      ensures |packets| <= count && (ok ==> |packets| == count)
      ensures packets != [] ==> signer.tree != null && firstQ + |packets| <= LMS_LEAVES
      ensures forall i :: 0 <= i < |packets| ==>
        packets[i] == EnrollmentPacket(mac, device, version, firstQ + i, signer.tree[..])
    {
      hide Exchange, Confirms, AuthPath, AfterConfirmations, EnrollmentPacket, Seal, RequestBody;
      packets := [];
      if count == 0 || (firstQ + count) % 0x1_0000_0000 > LMS_LEAVES {
        return false, packets;
      }
      ghost var before := buffer[..];
      var path := new byte[LMS_PATH_BYTES];
      if firstQ <= LMS_LEAVES {
        NothingConfirmedYet(mac, before, version, firstQ, exchanges);
      }
      for i := 0 to count
        invariant |packets| == i && (i > 0 ==> signer.tree != null && firstQ + i <= LMS_LEAVES)
        invariant firstQ + i <= LMS_LEAVES ==>
          AfterConfirmations(mac, before, version, firstQ, exchanges, i) == Some(buffer[..])
        invariant forall k: nat :: k < i ==>
          packets[k] == EnrollmentPacket(mac, device, version, firstQ + k, signer.tree[..])
      {
        var q := (firstQ + i) % 0x1_0000_0000;
        var extracted := signer.ExtractPath(q, path);
        if !extracted {
          return false, packets;
        }
        var packet := PackPath(mac, device, version, q, path[..]);
        PacketIs(mac, device, version, q, signer.tree[..]);
        packets := packets + [packet];
        OneMoreConfirmation(mac, before, version, firstQ, exchanges, i, buffer[..]);
        var confirmed := Confirm(version, Some(q), exchanges[i]);
        if !confirmed {
          if firstQ + count <= LMS_LEAVES {
            Unconfirmed(mac, before, version, firstQ, exchanges, i + 1, count);
          }
          return false, packets;
        }
      }
      return true, packets;
    }

    lemma NothingConfirmedYet(mac: Mac, before: Buffer, version: u32, firstQ: u32, exchanges: seq<seq<Attempt>>)
      requires firstQ <= LMS_LEAVES
      ensures AfterConfirmations(mac, before, version, firstQ, exchanges, 0) == Some(before)
    {
    }

    lemma OneMoreConfirmation(
      mac: Mac, before: Buffer, version: u32, firstQ: u32, exchanges: seq<seq<Attempt>>, n: nat, b: Buffer)
      requires n < |exchanges| && firstQ + n < LMS_LEAVES
      requires AfterConfirmations(mac, before, version, firstQ, exchanges, n) == Some(b)
      ensures var answer := Exchange(mac, b, exchanges[n], OP_ACK, version, Some(firstQ + n));
        AfterConfirmations(mac, before, version, firstQ, exchanges, n + 1)
        == if Confirms(mac, answer, version, Some(firstQ + n)) then Some(answer.buffer) else None
    {
      hide Exchange, Confirms;
    }

    lemma {:induction false} Unconfirmed(
      mac: Mac, before: Buffer, version: u32, firstQ: u32, exchanges: seq<seq<Attempt>>, n: nat, m: nat)
      requires n <= m <= |exchanges| && firstQ + m <= LMS_LEAVES
      requires AfterConfirmations(mac, before, version, firstQ, exchanges, n).None?
      ensures AfterConfirmations(mac, before, version, firstQ, exchanges, m).None?
    {
      hide Exchange, Confirms;
      if n < m {
        Unconfirmed(mac, before, version, firstQ, exchanges, n, m - 1);
      }
    }

    /** `fetchPeerPath`: the response is used only if it is a path record of this peer. */
    method FetchPeerPath(device: Digest, peer: Digest, version: u32, q: u32, attempts: seq<Attempt>)
      returns (path: Option<Path>, request: Option<Bytes>)
      requires Valid() && |attempts| == GCS_RETRIES
      modifies buffer
      ensures request == if q >= LMS_LEAVES then None
        else Some(Seal(mac, RequestBody(GetPath(device, peer, version, q))))
      ensures var answer := Exchange(mac, old(buffer[..]), attempts, OP_PATH_RECORD, version, Some(q));
        path == if q < LMS_LEAVES && answer.length == Some(400) then FetchedPath(mac, answer.buffer, peer, version, q)
          else None
      ensures path.Some? ==> exists p :: Arrived(attempts, p) && FetchedPath(mac, p, peer, version, q) == path
    {
      hide Exchange, Judge, Arrived, Seal, RequestBody;
      if q >= LMS_LEAVES {
        return None, None;
      }
      var packet := PackGetPath(mac, device, peer, version, q);
      request := Some(packet);
      ghost var answer := Exchange(mac, buffer[..], attempts, OP_PATH_RECORD, version, Some(q));
      var received, n := SendAndReceive(attempts, OP_PATH_RECORD, version, Some(q));
      if !received || n != 400 {
        return None, request;
      }
      ResponseArrived(mac, old(buffer[..]), attempts, OP_PATH_RECORD, version, Some(q));
      assert Response(answer) == answer.buffer == buffer[..];
      assert buffer[..][8..40] == buffer[8..40] && buffer[..][48..368] == buffer[48..368];
      var same := ConstantTimeEqual(buffer[8..40], peer, 32);
      path := if same then Some(buffer[48..368]) else None;
    }

    /**
     `fetchPeerRoot` waits up to 120 rounds; an accepted response of another length or peer ends it without a
     record.
     */
    method FetchPeerRoot(device: Digest, peer: Digest, version: u32, rounds: seq<seq<Attempt>>)
      returns (row: Option<RootRow>, request: Bytes)
      requires Valid() && |rounds| == 120 && forall attempts :: attempts in rounds ==> |attempts| == GCS_RETRIES
      modifies buffer
      ensures var answer := FirstAnswer(mac, old(buffer[..]), rounds, version);
        row == if answer.length == Some(140) then FetchedRoot(mac, answer.buffer[..140], peer, version) else None
      ensures request == Seal(mac, RequestBody(GetRoot(device, peer, version)))
      ensures row.Some? ==>
        exists k, p :: 0 <= k < |rounds| && Arrived(rounds[k], p) && FetchedRoot(mac, p, peer, version) == row
    {
      hide Exchange, Judge, RootRowAt, Arrived, Seal, RequestBody;
      request := PackGetRoot(mac, device, peer, version);
      ghost var before := buffer[..];
      assert rounds[0..] == rounds;
      for waitRound := 0 to 120
        invariant FirstAnswer(mac, before, rounds, version)
          == FirstAnswer(mac, buffer[..], rounds[waitRound..], version)
      {
        ghost var start := buffer[..];
        ghost var answer := Exchange(mac, start, rounds[waitRound], OP_ROOT_RECORD, version, None);
        var received, n := SendAndReceive(rounds[waitRound], OP_ROOT_RECORD, version, None);
        assert rounds[waitRound..][1..] == rounds[waitRound + 1..];
        if received {
          if n != 140 {
            return None, request;
          }
          ResponseArrived(mac, start, rounds[waitRound], OP_ROOT_RECORD, version, None);
          JudgedAlone(mac, answer, OP_ROOT_RECORD, version, None);
          var p := buffer[..140];
          assert p == Response(answer);
          var same := ConstantTimeEqual(p[8..40], peer, 32);
          row := if same then Some(RootRowAt(p)) else None;
          assert Arrived(rounds[waitRound], p) && FetchedRoot(mac, p, peer, version) == row;
          return;
        }
      }
      return None, request;
    }
  }
}
