/** Requests and responses between a device and its Fabric gateway, and how responses are matched to requests. */
module FabricClient {
  import opened Octets
  import opened Wrappers

  const GATEWAY_MAGIC: u16 := 0xA952
  const GATEWAY_VERSION: byte := 1
  const REQUEST_HEADER_BYTES := 12
  const RESPONSE_HEADER_BYTES := 19
  const TAG_BYTES := 32
  const MAX_PAYLOAD_BYTES := 928
  const GW_OK: byte := 0
  const GATEWAY_RETRIES := 6

  const GATEWAY_HMAC_KEY: Bytes := [
    0x7a, 0x0c, 0x9e, 0x51, 0x2b, 0xd8, 0x44, 0xf0, 0xa1, 0x63, 0x37, 0x8d, 0xe4, 0x05, 0xc9, 0x72,
    0x19, 0xb6, 0x2f, 0xaa, 0x84, 0x33, 0xd1, 0x5c, 0x68, 0xef, 0x90, 0x47, 0x12, 0xbc, 0x5a, 0x26]

  type Payload = b: Bytes | |b| < 0x1_0000

  datatype Request = Request(op: byte, id: u32, slot: u16, payload: Payload)
  datatype Response = Response(op: byte, id: u32, status: byte, fabricUs: u64, payload: Payload)

  datatype Parsed = Rejected(status: byte) | Authentic(request: Request)

  function Seal(mac: Mac, body: Bytes): Bytes {
    body + mac(GATEWAY_HMAC_KEY, body)
  }

  function RequestBody(r: Request): Bytes {
    U16(GATEWAY_MAGIC) + [GATEWAY_VERSION, r.op] + U32(r.id) + U16(r.slot) + U16(|r.payload|) + r.payload
  }

  /** `parseRequest` of the gateway. */
  function ParseRequest(mac: Mac, p: Bytes): Parsed {
    if |p| < REQUEST_HEADER_BYTES + TAG_BYTES then Rejected(1)
    else if GetU16(p[..2]) != GATEWAY_MAGIC || p[2] != GATEWAY_VERSION then Rejected(1)
    else
      var n := REQUEST_HEADER_BYTES + GetU16(p[10..12]);
      if n + TAG_BYTES != |p| then Rejected(1)
      else if p[n..] != mac(GATEWAY_HMAC_KEY, p[..n]) then Rejected(4)
      else Authentic(Request(p[3], GetU32(p[4..8]), GetU16(p[8..10]), p[12..n]))
  }

  /** op | 0x80 */
  function ReplyOp(op: byte): byte {
    if op < 0x80 then op + 0x80 else op
  }

  function ResponseBody(r: Response): Bytes {
    U16(GATEWAY_MAGIC) + [GATEWAY_VERSION, ReplyOp(r.op)] + U32(r.id) + [r.status] + U64(r.fabricUs)
    + U16(|r.payload|) + r.payload
  }

  /** The checks of `transact` on one datagram. */
  predicate Accepts(mac: Mac, p: Bytes, op: byte, id: u32) {
    && RESPONSE_HEADER_BYTES + TAG_BYTES <= |p| <= RESPONSE_HEADER_BYTES + MAX_PAYLOAD_BYTES + TAG_BYTES
    && GetU16(p[..2]) == GATEWAY_MAGIC && p[2] == GATEWAY_VERSION
    && p[3] == ReplyOp(op) && GetU32(p[4..8]) == id
    && var n := RESPONSE_HEADER_BYTES + GetU16(p[17..19]);
       n + TAG_BYTES == |p| && p[n..] == mac(GATEWAY_HMAC_KEY, p[..n])
  }

  lemma RequestFields(mac: Mac, r: Request)
    ensures var p := Seal(mac, RequestBody(r));
      && |p| == REQUEST_HEADER_BYTES + |r.payload| + TAG_BYTES
      && GetU16(p[..2]) == GATEWAY_MAGIC && p[2] == GATEWAY_VERSION && p[3] == r.op && GetU32(p[4..8]) == r.id
      && GetU16(p[8..10]) == r.slot && GetU16(p[10..12]) == |r.payload| && p[12..12 + |r.payload|] == r.payload
      && p[..12 + |r.payload|] == RequestBody(r) && p[12 + |r.payload|..] == mac(GATEWAY_HMAC_KEY, RequestBody(r))
  {
    hide U16, GetU16, U32, GetU32;
    var p := Seal(mac, RequestBody(r));
    assert p[..2] == U16(GATEWAY_MAGIC) && p[4..8] == U32(r.id) && p[8..10] == U16(r.slot);
    assert p[10..12] == U16(|r.payload|) && p[12..12 + |r.payload|] == r.payload;
  }

  /** The gateway recovers every field of every framed request. */
  lemma {:induction false} GatewayReadsRequest(mac: Mac, r: Request)
    ensures ParseRequest(mac, Seal(mac, RequestBody(r))) == Authentic(r)
  {
    RequestFields(mac, r);
    hide U16, GetU16, U32, GetU32, Seal, RequestBody;
  }

  /** And nothing else is a request: what parses is the sealed frame of what it parses to. */
  lemma {:induction false} OnlyFramedRequestsParse(mac: Mac, p: Bytes)
    ensures ParseRequest(mac, p).Authentic? ==> p == Seal(mac, RequestBody(ParseRequest(mac, p).request))
  {
    hide U16, GetU16, U32, GetU32;
    if ParseRequest(mac, p).Authentic? {
      var n := |p| - TAG_BYTES;
      U16OfGetU16(p[..2]);
      U32OfGetU32(p[4..8]);
      U16OfGetU16(p[8..10]);
      U16OfGetU16(p[10..12]);
      assert p[..n] == p[..2] + [p[2], p[3]] + p[4..8] + p[8..10] + p[10..12] + p[12..n];
      assert p == p[..n] + p[n..];
    }
  }

  lemma ResponseFields(mac: Mac, r: Response)
    ensures var p := Seal(mac, ResponseBody(r));
      && |p| == RESPONSE_HEADER_BYTES + |r.payload| + TAG_BYTES
      && GetU16(p[..2]) == GATEWAY_MAGIC && p[2] == GATEWAY_VERSION && p[3] == ReplyOp(r.op) && GetU32(p[4..8]) == r.id
      && p[8] == r.status && GetU64(p[9..17]) == r.fabricUs && GetU16(p[17..19]) == |r.payload|
      && p[19..19 + |r.payload|] == r.payload
      && p[..19 + |r.payload|] == ResponseBody(r) && p[19 + |r.payload|..] == mac(GATEWAY_HMAC_KEY, ResponseBody(r))
  {
    hide U16, GetU16, U32, GetU32, U64, GetU64;
    var p := Seal(mac, ResponseBody(r));
    assert p[..2] == U16(GATEWAY_MAGIC) && p[4..8] == U32(r.id) && p[9..17] == U64(r.fabricUs);
    assert p[17..19] == U16(|r.payload|) && p[19..19 + |r.payload|] == r.payload;
  }

  /** A built response is accepted exactly by transactions of its operation and request number. */
  lemma {:induction false} ResponseMatchesOpAndId(mac: Mac, r: Response, op: byte, id: u32)
    ensures Accepts(mac, Seal(mac, ResponseBody(r)), op, id)
      <==> ReplyOp(r.op) == ReplyOp(op) && r.id == id && |r.payload| <= MAX_PAYLOAD_BYTES
  {
    ResponseFields(mac, r);
    hide U16, GetU16, U32, GetU32, Seal, ResponseBody, ReplyOp;
  }

  predicate BuiltBy(p: Bytes, mac: Mac, op: byte, id: u32, status: byte, fabricUs: u64, payload: Payload) {
    |payload| <= MAX_PAYLOAD_BYTES && p == Seal(mac, ResponseBody(Response(op, id, status, fabricUs, payload)))
  }

  /** A transaction accepts exactly the sealed responses to its operation and number. */
  lemma {:induction false} OnlyBuiltResponsesAreAccepted(mac: Mac, p: Bytes, op: byte, id: u32)
    ensures Accepts(mac, p, op, id) <==>
      exists status, fabricUs, payload :: BuiltBy(p, mac, op, id, status, fabricUs, payload)
  {
    hide U16, GetU16, U32, GetU32, U64, GetU64, Seal, ResponseBody, Accepts, ReplyOp;
    if Accepts(mac, p, op, id) {
      AcceptedFrame(mac, p, op, id);
      assert BuiltBy(p, mac, op, id, p[8], GetU64(p[9..17]), p[19..|p| - TAG_BYTES]);
    }
    if status, fabricUs, payload :| BuiltBy(p, mac, op, id, status, fabricUs, payload) {
      ResponseMatchesOpAndId(mac, Response(op, id, status, fabricUs, payload), op, id);
    }
  }

  lemma AcceptedFrame(mac: Mac, p: Bytes, op: byte, id: u32)
    requires Accepts(mac, p, op, id)
    ensures RESPONSE_HEADER_BYTES + TAG_BYTES <= |p| <= RESPONSE_HEADER_BYTES + MAX_PAYLOAD_BYTES + TAG_BYTES
    ensures p == Seal(mac, ResponseBody(Response(op, id, p[8], GetU64(p[9..17]), p[19..|p| - TAG_BYTES])))
  {
    hide U16, GetU16, U32, GetU32, U64, GetU64, ReplyOp;
    var n := |p| - TAG_BYTES;
    U16OfGetU16(p[..2]);
    U32OfGetU32(p[4..8]);
    U64OfGetU64(p[9..17]);
    U16OfGetU16(p[17..19]);
    assert p[..n] == p[..2] + [p[2], p[3]] + p[4..8] + [p[8]] + p[9..17] + p[17..19] + p[19..n];
    assert p == p[..n] + p[n..];
  }

  /** What either side accepts ends with the code of all its other bytes, and starts as its kind and number demand. */
  lemma {:induction false} AcceptedIsSealed(mac: Mac, p: Bytes, op: byte, id: u32)
    ensures ParseRequest(mac, p).Authentic? ==>
      && |p| >= 44 && p[..3] == [0xA9, 0x52, 1] && p[|p| - 32..] == mac(GATEWAY_HMAC_KEY, p[..|p| - 32])
    ensures Accepts(mac, p, op, id) && op < 0x80 ==>
      && |p| >= 51 && p[..4] == [0xA9, 0x52, 1, 0x80 + op] && p[4..8] == U32(id)
      && p[|p| - 32..] == mac(GATEWAY_HMAC_KEY, p[..|p| - 32])
  {
    hide U32, GetU32;
    if |p| >= 44 {
      assert p[..3] == p[..2] + [p[2]];
      U32OfGetU32(p[4..8]);
    }
  }

  // --- The client ----------------------------------------------------------------------------

  datatype Incoming = Incoming(packet: Bytes, fromGateway: bool)

  /** Whether the UDP stack took the frame, and what arrived before the timeout. */
  datatype Attempt = Attempt(sent: bool, stream: seq<Incoming>)

  predicate Conclusive(mac: Mac, a: Incoming, op: byte, id: u32) {
    a.fromGateway && Accepts(mac, a.packet, op, id)
  }

  function FirstConclusive(mac: Mac, stream: seq<Incoming>, op: byte, id: u32): (i: nat)
    ensures i <= |stream|
    ensures i < |stream| ==> Conclusive(mac, stream[i], op, id)
    ensures forall k :: 0 <= k < i ==> !Conclusive(mac, stream[k], op, id)
  {
    if stream == [] || Conclusive(mac, stream[0], op, id) then 0 else 1 + FirstConclusive(mac, stream[1..], op, id)
  }

  /** The datagram that decides a transaction: the first matching one before a frame cannot be sent. */
  function Decisive(mac: Mac, attempts: seq<Attempt>, op: byte, id: u32): (p: Option<Bytes>)
    ensures p.Some? ==> Accepts(mac, p.value, op, id)
    ensures p.Some? ==> exists k :: 0 <= k < |attempts| && Incoming(p.value, true) in attempts[k].stream
    decreases |attempts|
  {
    if attempts == [] || !attempts[0].sent then None
    else
      var i := FirstConclusive(mac, attempts[0].stream, op, id);
      if i < |attempts[0].stream| then
        assert Incoming(attempts[0].stream[i].packet, true) in attempts[0].stream;
        Some(attempts[0].stream[i].packet)
      else Decisive(mac, attempts[1..], op, id)
  }

  class Client {
    const mac: Mac
    var nextRequestId: u32
    var lastStatus: byte

    constructor (mac: Mac)
      ensures this.mac == mac && nextRequestId == 1
    {
      this.mac, nextRequestId, lastStatus := mac, 1, 1;
    }

    /** One transaction: the same frame up to six times, the first matching datagram decides. */
    method Transact(op: byte, slot: u16, payload: Payload, capacity: u16, attempts: seq<Attempt>)
      returns (ok: bool, frame: Bytes, response: Bytes)
      requires |attempts| == GATEWAY_RETRIES
      modifies this
      ensures |payload| > MAX_PAYLOAD_BYTES ==>
        !ok && frame == [] && nextRequestId == old(nextRequestId) && lastStatus == old(lastStatus)
      ensures |payload| <= MAX_PAYLOAD_BYTES ==>
        var id := old(nextRequestId);
        var decisive := Decisive(mac, attempts, op, id);
        && nextRequestId == (id + 1) % 0x1_0000_0000
        && frame == Seal(mac, RequestBody(Request(op, id, slot, payload)))
        && match decisive
           case None => !ok && lastStatus == old(lastStatus)
           case Some(p) =>
             && lastStatus == p[8]
             && ok == (p[8] == GW_OK && GetU16(p[17..19]) <= capacity)
             && (ok ==> response == p[RESPONSE_HEADER_BYTES..|p| - TAG_BYTES])
    {
      hide Seal, RequestBody, Accepts, U16, U32;
      ok, frame, response := false, [], [];
      if REQUEST_HEADER_BYTES + |payload| + TAG_BYTES > REQUEST_HEADER_BYTES + MAX_PAYLOAD_BYTES + TAG_BYTES {
        return;
      }
      var id := nextRequestId;
      nextRequestId := (nextRequestId + 1) % 0x1_0000_0000;
      frame := Seal(mac, RequestBody(Request(op, id, slot, payload)));
      assert attempts[0..] == attempts;
      for k := 0 to GATEWAY_RETRIES
        invariant !ok && lastStatus == old(lastStatus)
        invariant Decisive(mac, attempts, op, id) == Decisive(mac, attempts[k..], op, id)
      {
        assert attempts[k..][1..] == attempts[k + 1..];
        if !attempts[k].sent {
          return;
        }
        var stream := attempts[k].stream;
        for i := 0 to |stream|
          invariant forall n :: 0 <= n < i ==> !Conclusive(mac, stream[n], op, id)
        {
          if stream[i].fromGateway && Accepts(mac, stream[i].packet, op, id) {
            assert FirstConclusive(mac, stream, op, id) == i;
            AcceptedLength(mac, stream[i].packet, op, id);
            var p := stream[i].packet;
            lastStatus := p[8];
            if lastStatus != GW_OK || GetU16(p[17..19]) > capacity {
              return;
            }
            ok, response := true, p[RESPONSE_HEADER_BYTES..|p| - TAG_BYTES];
            return;
          }
        }
        assert FirstConclusive(mac, stream, op, id) == |stream|;
      }
    }
  }

  lemma AcceptedLength(mac: Mac, p: Bytes, op: byte, id: u32)
    requires Accepts(mac, p, op, id)
    ensures |p| >= RESPONSE_HEADER_BYTES + TAG_BYTES
  {
  }

  /** The i-th datagram of attempt k matches; until then every frame was sent and no datagram matched. */
  predicate DecidesAt(mac: Mac, attempts: seq<Attempt>, op: byte, id: u32, k: int, i: int) {
    && 0 <= k < |attempts| && attempts[k].sent && 0 <= i < |attempts[k].stream|
    && attempts[k].stream[i].fromGateway && Accepts(mac, attempts[k].stream[i].packet, op, id)
    && (forall n :: 0 <= n < i ==> Unmatched(mac, attempts[k].stream[n], op, id))
    && (forall m :: 0 <= m < k ==> UnmatchedAttempt(mac, attempts[m], op, id))
  }

  predicate Unmatched(mac: Mac, a: Incoming, op: byte, id: u32) {
    !a.fromGateway || !Accepts(mac, a.packet, op, id)
  }

  predicate UnmatchedAttempt(mac: Mac, attempt: Attempt, op: byte, id: u32) {
    attempt.sent && forall n :: 0 <= n < |attempt.stream| ==> Unmatched(mac, attempt.stream[n], op, id)
  }

  /** Whichever of the six attempts brings it, the first matching datagram decides, and nothing else ever does. */
  lemma {:induction false} FirstMatchDecides(mac: Mac, attempts: seq<Attempt>, op: byte, id: u32)
    ensures forall k, i :: DecidesAt(mac, attempts, op, id, k, i) ==>
      Decisive(mac, attempts, op, id) == Some(attempts[k].stream[i].packet)
    ensures Decisive(mac, attempts, op, id).Some? <==> exists k, i :: DecidesAt(mac, attempts, op, id, k, i)
    decreases |attempts|
  {
    hide Accepts;
    if attempts != [] && attempts[0].sent {
      var first := FirstConclusive(mac, attempts[0].stream, op, id);
      if first < |attempts[0].stream| {
        assert DecidesAt(mac, attempts, op, id, 0, first);
        assert !Unmatched(mac, attempts[0].stream[first], op, id);
        assert !UnmatchedAttempt(mac, attempts[0], op, id);
        forall k, i | DecidesAt(mac, attempts, op, id, k, i) ensures k == 0 && i == first {
        }
      } else {
        FirstMatchDecides(mac, attempts[1..], op, id);
        MatchMovesOn(mac, attempts, op, id);
      }
    }
  }

  lemma MatchMovesOn(mac: Mac, attempts: seq<Attempt>, op: byte, id: u32)
    requires attempts != [] && attempts[0].sent
    requires FirstConclusive(mac, attempts[0].stream, op, id) == |attempts[0].stream|
    ensures forall k, i :: DecidesAt(mac, attempts, op, id, k, i) ==> DecidesAt(mac, attempts[1..], op, id, k - 1, i)
    ensures forall k, i :: DecidesAt(mac, attempts[1..], op, id, k, i) ==> DecidesAt(mac, attempts, op, id, k + 1, i)
  {
    hide Accepts;
    var rest := attempts[1..];
    forall n | 0 <= n < |attempts[0].stream| ensures Unmatched(mac, attempts[0].stream[n], op, id) {
      assert !Conclusive(mac, attempts[0].stream[n], op, id);
    }
    forall k, i | DecidesAt(mac, attempts, op, id, k, i) ensures DecidesAt(mac, rest, op, id, k - 1, i) {
      if k == 0 {
        assert false;
      }
      forall m | 0 <= m < k - 1 ensures UnmatchedAttempt(mac, rest[m], op, id) {
        assert UnmatchedAttempt(mac, attempts[m + 1], op, id);
      }
    }
    forall k, i | DecidesAt(mac, rest, op, id, k, i) ensures DecidesAt(mac, attempts, op, id, k + 1, i) {
      forall m | 0 <= m < k + 1 ensures UnmatchedAttempt(mac, attempts[m], op, id) {
        if m > 0 {
          assert UnmatchedAttempt(mac, rest[m - 1], op, id);
        }
      }
    }
  }

  // --- Matching over boots ---------------------------------------------------------------------

  /** Requests sent before and since the last boot; request numbers restart at one with every boot. */
  datatype History = History(earlier: seq<Request>, current: seq<Request>)

  datatype Step = Reboot | Send(op: byte, slot: u16, payload: Payload)

  function Advance(h: History, step: Step): History {
    match step
    case Reboot => History(h.earlier + h.current, [])
    case Send(op, slot, payload) =>
      h.(current := h.current + [Request(op, (1 + |h.current|) % 0x1_0000_0000, slot, payload)])
  }

  function AdvanceAll(steps: seq<Step>): History {
    if steps == [] then History([], []) else Advance(AdvanceAll(steps[..|steps| - 1]), steps[|steps| - 1])
  }

  predicate Numbered(h: History) {
    forall i :: 0 <= i < |h.current| ==> h.current[i].id == (1 + i) % 0x1_0000_0000
  }

  lemma {:induction false} RequestsAreNumbered(steps: seq<Step>)
    ensures Numbered(AdvanceAll(steps))
  {
    if steps != [] {
      RequestsAreNumbered(steps[..|steps| - 1]);
    }
  }

  /** Some other request, of the same operation and number, differs in slot or payload. */
  predicate HasTwin(requests: seq<Request>, r: Request) {
    exists other :: other in requests && other != r && ReplyOp(other.op) == ReplyOp(r.op) && other.id == r.id
  }

  /** Within one boot and fewer than 2^32 transactions no request has a twin. */
  lemma {:induction false} OneBootHasNoTwins(steps: seq<Step>, r: Request)
    requires var h := AdvanceAll(steps); h.earlier == [] && |h.current| < 0x1_0000_0000 && r in h.current
    ensures var h := AdvanceAll(steps); !HasTwin(h.earlier + h.current, r)
  {
    hide AdvanceAll, ReplyOp;
    RequestsAreNumbered(steps);
    var h := AdvanceAll(steps);
    assert h.earlier + h.current == h.current;
    var i :| 0 <= i < |h.current| && h.current[i] == r;
    forall other | other in h.current && other.id == r.id ensures other == r {
      var j :| 0 <= j < |h.current| && h.current[j] == other;
      NumbersAreDistinct(i, j);
    }
  }

  lemma NumbersAreDistinct(i: nat, j: nat)
    requires i < 0x1_0000_0000 && j < 0x1_0000_0000 && (1 + i) % 0x1_0000_0000 == (1 + j) % 0x1_0000_0000
    ensures i == j
  {
  }

  /** A reboot breaks this: two boots that each query once, for different identities, produce twins. */
  lemma {:induction false} RebootCreatesTwins(a: Payload, b: Payload)
    requires a != b
    ensures var h := AdvanceAll([Send(2, 0, a), Reboot, Send(2, 0, b)]);
      h.current == [Request(2, 1, 0, b)] && HasTwin(h.earlier + h.current, Request(2, 1, 0, b))
  {
    var steps := [Send(2, 0, a), Reboot, Send(2, 0, b)];
    assert steps[..2] == [Send(2, 0, a), Reboot] && steps[..2][..1] == [Send(2, 0, a)] && steps[..2][..1][..0] == [];
    assert AdvanceAll([]) == History([], []);
    assert AdvanceAll(steps[..2][..1]) == History([], [Request(2, 1, 0, a)]);
    assert AdvanceAll(steps[..2]) == History([Request(2, 1, 0, a)], []);
    var h := AdvanceAll(steps);
    assert h.earlier + h.current == [Request(2, 1, 0, a), Request(2, 1, 0, b)];
    assert Request(2, 1, 0, a) in h.earlier + h.current;
  }
}
