/** The gateway between the UDP frames of the devices and the chaincode's transactions. */
module Gateway {
  import opened Octets
  import opened Wrappers
  import opened CredentialLedger
  import opened CredentialCodec
  import opened FabricClient

  const OP_PUT_CREDENTIAL: byte := 1
  const OP_QUERY_ID_SLOT: byte := 2
  const OP_QUERY_TID: byte := 3
  const OP_PING: byte := 4
  const STATUS_OK: byte := 0
  const STATUS_BAD_REQUEST: byte := 1
  const STATUS_NOT_FOUND: byte := 2
  const STATUS_FABRIC_ERROR: byte := 3

  datatype Outcome = Outcome(status: byte, payload: Bytes, table: Table)

  /** Both "not found" and "missing" in an error text become the not-found status. */
  function StatusOf(e: Error): byte {
    if e == NotFound || e == IndexedMissing then STATUS_NOT_FOUND else STATUS_FABRIC_ERROR
  }

  function Deliver(t: Table, found: Result<Credential>): Outcome {
    match found
    case Err(e) => Outcome(StatusOf(e), [], t)
    case Ok(c) =>
      match CredentialPayload(c)
      case None => Outcome(STATUS_FABRIC_ERROR, [], t)
      case Some(payload) => Outcome(STATUS_OK, payload, t)
  }

  /** `handle`: a put that finds its own credential already stored submits nothing. */
  function Handle(t: Table, r: Request): Outcome {
    if r.op == OP_PING then Outcome(STATUS_OK, [], t)
    else if r.op == OP_PUT_CREDENTIAL then
      match CredentialFromPayload(r.payload, r.slot)
      case None => Outcome(STATUS_BAD_REQUEST, [], t)
      case Some(c) =>
        if QueryByIdentitySlot(t, c.identityHash, r.slot) == Ok(c) then Outcome(STATUS_OK, [], t)
        else
          match Put(t, c)
          case Ok(t') => Outcome(STATUS_OK, [], t')
          case Err(_) => Outcome(STATUS_FABRIC_ERROR, [], t)
    else if r.op == OP_QUERY_ID_SLOT then
      if |r.payload| != 32 then Outcome(STATUS_BAD_REQUEST, [], t)
      else Deliver(t, QueryByIdentitySlot(t, HexEncode(r.payload), r.slot))
    else if r.op == OP_QUERY_TID then
      if |r.payload| != 32 then Outcome(STATUS_BAD_REQUEST, [], t)
      else Deliver(t, QueryByTemporaryIdentity(t, HexEncode(r.payload)))
    else Outcome(STATUS_BAD_REQUEST, [], t)
  }

  /** One request at the gateway, with the chaincode's state changed in place. */
  method Serve(contract: SmartContract, r: Request) returns (status: byte, payload: Bytes)
    modifies contract
    ensures Outcome(status, payload, contract.state) == Handle(old(contract.state), r)
  {
    hide QueryByIdentitySlot, QueryByTemporaryIdentity, CredentialFromPayload, CredentialPayload, CheckCredential;
    if r.op != OP_PUT_CREDENTIAL {
      var o := Handle(contract.state, r);
      return o.status, o.payload;
    }
    var c := CredentialFromPayload(r.payload, r.slot);
    if c.None? {
      return STATUS_BAD_REQUEST, [];
    }
    if QueryByIdentitySlot(contract.state, c.value.identityHash, r.slot) == Ok(c.value) {
      return STATUS_OK, [];
    }
    var submitted := contract.PutCredential(c.value);
    return if submitted.Ok? then STATUS_OK else STATUS_FABRIC_ERROR, [];
  }

  /** What the device makes of the answer to a query. */
  function Answer(t: Table, r: Request): Option<FabricCredential> {
    var o := Handle(t, r);
    if o.status == STATUS_OK && |o.payload| == 928 then Some(Parse(o.payload)) else None
  }

  function RecordQuery(identityHash: Digest, slot: u16): Request {
    Request(OP_QUERY_ID_SLOT, 1, slot, identityHash)
  }

  function TidQuery(tid: Digest): Request {
    Request(OP_QUERY_TID, 1, 0, tid)
  }

  function Enrollment(c: FabricCredential, slot: u16): Request {
    Request(OP_PUT_CREDENTIAL, 1, slot, Serialize(c))
  }

  /** In a sound table a device's enrollment always succeeds, and has the effect of the chaincode's put. */
  lemma {:induction false} EnrollmentIsPut(t: Table, c: FabricCredential, slot: u16)
    requires Sound(t)
    ensures Put(t, Stored(c, slot)).Ok?
    ensures Handle(t, Enrollment(c, slot)) == Outcome(STATUS_OK, [], Put(t, Stored(c, slot)).value)
  {
    hide HexEncode, Serialize, CheckCredential, TidKey, CredentialKey;
    CredentialRoundTrip(c, slot);
    var stored := Stored(c, slot);
    if KeyOf(stored) in t {
      assert EntryOk(t, KeyOf(stored));
      if t[KeyOf(stored)].Reference? {
        RecordKeysAreNotTidKeys(stored, t[t[KeyOf(stored)].key].credential.tid);
        assert false;
      }
    }
  }

  /**
   An enrolled credential comes back unchanged under its identity and slot, and under its TID if the index was
   exact.
   */
  lemma {:induction false} EnrolledCredentialComesBack(t: Table, c: FabricCredential, slot: u16)
    requires Sound(t)
    ensures var t' := Handle(t, Enrollment(c, slot)).table;
      && Answer(t', RecordQuery(c.identityHash, slot)) == Some(c)
      && (Complete(t) || t' != t ==> Answer(t', TidQuery(c.tid)) == Some(c))
  {
    hide HexEncode, Serialize, Parse, CheckCredential, TidKey, CredentialPayload;
    EnrollmentIsPut(t, c, slot);
    CredentialRoundTrip(c, slot);
    var stored := Stored(c, slot);
    var t' := Put(t, stored).value;
    RecordKeysAreNotTidKeys(stored, stored.tid);
    assert KeyOf(stored) in t' && t'[KeyOf(stored)] == Record(stored);
    ValidFields(c, slot);
    if t' == t && Complete(t) {
      assert Indexed(t, KeyOf(stored));
    }
  }

  lemma ValidFields(c: FabricCredential, slot: u16)
    ensures ValidHex(Stored(c, slot).identityHash, 32) && ValidHex(Stored(c, slot).tid, 32)
  {
  }

  /** Handling a retransmitted enrollment once more changes nothing. */
  lemma {:induction false} RetransmittedEnrollmentChangesNothing(t: Table, c: FabricCredential, slot: u16)
    requires Sound(t)
    ensures var o := Handle(t, Enrollment(c, slot));
      Handle(o.table, Enrollment(c, slot)) == o
  {
    hide Stored, Put, Handle, Sound;
    EnrollmentIsPut(t, c, slot);
    PutKeepsSound(t, Stored(c, slot));
    EnrollmentIsPut(Put(t, Stored(c, slot)).value, c, slot);
    RepeatedPutChangesNothing(t, Stored(c, slot));
  }

  /** What a query must bring back: the payload of the record found, or the status of a missing one. */
  predicate Reports(o: Outcome, t: Table, found: Result<Credential>) {
    && o.table == t
    && match found
       case Ok(c) => o.status == 0 && CredentialPayload(c) == Some(o.payload) && |o.payload| == 928
       case Err(_) => o.status == 2 && o.payload == []
  }

  /** Over a sound table a query reports the record, and fails in no other way than for want of one. */
  lemma {:induction false} QueriesReportTheTable(t: Table, identityHash: Digest, slot: u16, tid: Digest)
    requires Sound(t)
    ensures Reports(Handle(t, RecordQuery(identityHash, slot)), t,
                    QueryByIdentitySlot(t, HexEncode(identityHash), slot))
    ensures Reports(Handle(t, TidQuery(tid)), t, QueryByTemporaryIdentity(t, HexEncode(tid)))
  {
    hide HexEncode, CredentialPayload, CheckCredential, TidKey, CredentialKey;
    var q := QueryByIdentitySlot(t, HexEncode(identityHash), slot);
    DeleteSucceedsExactlyWhenFound(t, HexEncode(identityHash), slot);
    if q.Ok? {
      assert EntryOk(t, CredentialKey(HexEncode(identityHash), slot));
      StorableExactlyWhenSendable(q.value);
    }
    TidQueryIsTruthful(t, HexEncode(tid));
    var r := QueryByTemporaryIdentity(t, HexEncode(tid));
    if r.Ok? {
      assert EntryOk(t, KeyOf(r.value));
      StorableExactlyWhenSendable(r.value);
    }
  }

  /** Over all runs of the chaincode, the query by identity and slot reports the last put that was not deleted. */
  lemma {:induction false} QueriesReportTheHistory(txs: seq<Transaction>, identityHash: Digest, slot: u16)
    ensures var t := CommitAll(txs);
      Reports(Handle(t, RecordQuery(identityHash, slot)), t, LastPut(txs, HexEncode(identityHash), slot))
  {
    hide HexEncode, Handle, CommitAll, LastPut, RecordQuery, Reports, QueryByIdentitySlot, Sound;
    ReachableTables(txs);
    QueriesReportTheTable(CommitAll(txs), identityHash, slot, identityHash);
    QueriesFollowHistory(txs, HexEncode(identityHash), slot);
  }

  /** The payload lengths and operations that the gateway handles at all. */
  predicate Handled(r: Request) {
    r.op == 4 || (r.op == 1 && |r.payload| == 928) || (r.op in {2, 3} && |r.payload| == 32)
  }

  /** Everything else is a bad request without effect, and nothing that is handled is a bad request. */
  lemma {:induction false} BadExactlyWhenUnhandled(t: Table, r: Request)
    ensures Handle(t, r).status == 1 <==> !Handled(r)
    ensures !Handled(r) || r.op != 1 ==> Handle(t, r).table == t
    ensures r.op == 4 ==> Handle(t, r) == Outcome(0, [], t)
  {
    hide QueryByIdentitySlot, QueryByTemporaryIdentity, Put, HexEncode, CredentialPayload;
  }

  // --- Which request an accepted response answers ------------------------------------------

  /** The packet with which the gateway answers r when the ledger is in state t. */
  function Answering(mac: Mac, t: Table, r: Request, fabricUs: u64): Bytes {
    AnswerFits(t, r);
    var o := Handle(t, r);
    Seal(mac, ResponseBody(Response(r.op, r.id, o.status, fabricUs, o.payload)))
  }

  /** Whatever the transaction of r accepts among the gateway's answers to these requests answers r itself. */
  ghost predicate OnlyOwnAnswers(mac: Mac, requests: seq<Request>, r: Request) {
    forall other, t, fabricUs ::
      other in requests && Accepts(mac, Answering(mac, t, other, fabricUs), r.op, r.id) ==> other == r
  }

  /** That is so, over every state the ledger may have been in, exactly when r has no twin among the requests. */
  lemma {:induction false} RepliesMatchExactlyWithoutTwins(mac: Mac, requests: seq<Request>, r: Request)
    ensures OnlyOwnAnswers(mac, requests, r) <==> !HasTwin(requests, r)
  {
    hide Accepts, ResponseBody, FabricClient.Seal, ReplyOp, Handle;
    if HasTwin(requests, r) {
      var other :| other in requests && other != r && ReplyOp(other.op) == ReplyOp(r.op) && other.id == r.id;
      AnswerFits(map[], other);
      var o := Handle(map[], other);
      ResponseMatchesOpAndId(mac, Response(other.op, other.id, o.status, 0, o.payload), r.op, r.id);
      assert Accepts(mac, Answering(mac, map[], other, 0), r.op, r.id);
    } else {
      forall other, t, fabricUs |
        other in requests && Accepts(mac, Answering(mac, t, other, fabricUs), r.op, r.id)
        ensures other == r
      {
        AnswerFits(t, other);
        var o := Handle(t, other);
        ResponseMatchesOpAndId(mac, Response(other.op, other.id, o.status, fabricUs, o.payload), r.op, r.id);
      }
    }
  }

  /** Whatever arrives from the gateway's address answers one of the requests it was ever sent, however late. */
  ghost predicate OnlyAnswersArrive(mac: Mac, requests: seq<Request>, attempts: seq<Attempt>) {
    forall attempt, p :: attempt in attempts && Incoming(p, true) in attempt.stream ==> Answers(mac, requests, p)
  }

  ghost predicate Answers(mac: Mac, requests: seq<Request>, p: Bytes) {
    exists other, t, fabricUs :: other in requests && p == Answering(mac, t, other, fabricUs)
  }

  /**
   What a transaction returns: for a request without a twin, the datagram that decides it carries status and
   payload of the gateway's answer to that very request, on some state of the ledger.
   */
  lemma {:induction false} TransactionReturnsItsAnswer(
    mac: Mac, requests: seq<Request>, r: Request, attempts: seq<Attempt>)
    requires OnlyAnswersArrive(mac, requests, attempts) && !HasTwin(requests, r)
    requires Decisive(mac, attempts, r.op, r.id).Some?
    ensures var p := Decisive(mac, attempts, r.op, r.id).value;
      exists t :: p[8] == Handle(t, r).status && p[RESPONSE_HEADER_BYTES..|p| - TAG_BYTES] == Handle(t, r).payload
  {
    hide Accepts, ResponseBody, FabricClient.Seal, ReplyOp, Handle, Decisive, HasTwin;
    var p := Decisive(mac, attempts, r.op, r.id).value;
    var k :| 0 <= k < |attempts| && Incoming(p, true) in attempts[k].stream;
    assert Answers(mac, requests, p);
    var other, t, fabricUs :| other in requests && p == Answering(mac, t, other, fabricUs);
    RepliesMatchExactlyWithoutTwins(mac, requests, r);
    assert other == r;
    AnswerFits(t, r);
    ResponseFields(mac, Response(r.op, r.id, Handle(t, r).status, fabricUs, Handle(t, r).payload));
    assert p[8] == Handle(t, r).status;
  }

  /** No answer of the gateway is too long for a device. */
  lemma AnswerFits(t: Table, r: Request)
    ensures |Handle(t, r).payload| <= MAX_PAYLOAD_BYTES
  {
    hide QueryByIdentitySlot, QueryByTemporaryIdentity, Put, HexEncode, HexDecode, CredentialFromPayload;
  }

  /**
   The twins of a reboot are real: a device that asked for one identity, rebooted and now asks for
   another accepts the delayed answer, whose record is that of the first identity.
   */
  lemma {:induction false} DelayedAnswerIsTaken(
    mac: Mac, t: Table, c: FabricCredential, slot: u16, other: Digest, fabricUs: u64)
    requires Sound(t) && other != c.identityHash
    ensures var table := Handle(t, Enrollment(c, slot)).table;
      var h := AdvanceAll([FabricClient.Send(OP_QUERY_ID_SLOT, slot, c.identityHash), Reboot,
                           FabricClient.Send(OP_QUERY_ID_SLOT, slot, other)]);
      var p := Answering(mac, table, RecordQuery(c.identityHash, slot), fabricUs);
      && h == History([RecordQuery(c.identityHash, slot)], [RecordQuery(other, slot)])
      && Accepts(mac, p, OP_QUERY_ID_SLOT, h.current[0].id) && p[8] == STATUS_OK
      && p[RESPONSE_HEADER_BYTES..|p| - TAG_BYTES] == Serialize(c)
  {
    hide Accepts, ResponseBody, FabricClient.Seal, ReplyOp, Handle, Serialize, Parse, HexEncode;
    var first := RecordQuery(c.identityHash, slot);
    var table := Handle(t, Enrollment(c, slot)).table;
    RecordAnswer(t, c, slot);
    var response := Response(first.op, first.id, STATUS_OK, fabricUs, Serialize(c));
    ResponseMatchesOpAndId(mac, response, OP_QUERY_ID_SLOT, 1);
    ResponseFields(mac, response);
    QueryRebootQuery(c.identityHash, other, slot);
  }

  lemma RecordAnswer(t: Table, c: FabricCredential, slot: u16)
    requires Sound(t)
    ensures Handle(Handle(t, Enrollment(c, slot)).table, RecordQuery(c.identityHash, slot))
         == Outcome(STATUS_OK, Serialize(c), Handle(t, Enrollment(c, slot)).table)
  {
    hide HexEncode, Serialize, Parse, CheckCredential, TidKey, CredentialPayload, Put;
    EnrollmentIsPut(t, c, slot);
    CredentialRoundTrip(c, slot);
    ValidFields(c, slot);
    PutStores(t, Stored(c, slot));
  }

  lemma PutStores(t: Table, c: Credential)
    requires Sound(t) && Put(t, c).Ok?
    ensures var t' := Put(t, c).value; KeyOf(c) in t' && t'[KeyOf(c)] == Record(c)
  {
    hide KeyOf, TidKey, CheckCredential;
    RecordKeysAreNotTidKeys(c, c.tid);
  }

  lemma QueryRebootQuery(a: Digest, b: Digest, slot: u16)
    ensures AdvanceAll([FabricClient.Send(OP_QUERY_ID_SLOT, slot, a), Reboot,
      FabricClient.Send(OP_QUERY_ID_SLOT, slot, b)])
         == History([RecordQuery(a, slot)], [RecordQuery(b, slot)])
  {
    var steps := [FabricClient.Send(OP_QUERY_ID_SLOT, slot, a), Reboot, FabricClient.Send(OP_QUERY_ID_SLOT, slot, b)];
    assert steps[..2] == [steps[0], Reboot] && steps[..2][..1] == [steps[0]] && steps[..2][..1][..0] == [];
    assert AdvanceAll([]) == History([], []);
    assert AdvanceAll(steps[..2][..1]) == History([], [RecordQuery(a, slot)]);
    assert AdvanceAll(steps[..2]) == History([RecordQuery(a, slot)], []);
  }
}
