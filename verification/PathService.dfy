/** Devices and ledger together: what a confirmed enrollment and a fetched path are worth. */
module PathService {
  import opened Octets
  import opened Wrappers
  import opened LmsSpec
  import opened LmsCorrectness
  import opened OneTimeIndex
  import opened AuditLedger
  import opened Repository
  import opened LedgerClient

  // --- The server over its ledger --------------------------------------------------------------

  /** One turn of the server loop: tables change and a reply goes out exactly as the packet functions say. */
  method Serve(mac: Mac, ledger: Ledger, packet: Bytes, source: string, time: int) returns (reply: Option<Bytes>)
    requires ledger.Open()
    modifies ledger
    ensures ledger.Open() && (old(ledger.Valid()) ==> ledger.Valid())
    ensures var before := Tables(old(ledger.roots), old(ledger.paths));
      var after := Tables(ledger.roots, ledger.paths);
      match ParseRequest(mac, packet)
      case None => reply == None && after == before
      case Some(r) => after == Update(before, r) && reply == Some(Seal(mac, ReplyBody(Respond(after, r))))
  {
    hide ParseRequest, Seal, ReplyBody;
    match ParseRequest(mac, packet)
    case None =>
      return None;
    case Some(EnrollRoot(device, version, row)) =>
      var _ := ledger.UpsertRoot((device, version), row, source, time);
      return Some(Seal(mac, ReplyBody(Ack(device, version, 0))));
    case Some(EnrollPath(device, version, q, path)) =>
      var _ := ledger.UpsertPath((device, version, q), path, source, time);
      return Some(Seal(mac, ReplyBody(Ack(device, version, q))));
    case Some(GetRoot(_, target, version)) =>
      if (target, version) in ledger.roots {
        return Some(Seal(mac, ReplyBody(RootRecord(target, version, ledger.roots[(target, version)]))));
      }
      return Some(Seal(mac, ReplyBody(NotFound(target, version, 0))));
    case Some(GetPath(_, target, version, q)) =>
      if (target, version, q) in ledger.paths {
        return Some(Seal(mac, ReplyBody(PathRecord(target, version, q, ledger.paths[(target, version, q)]))));
      }
      return Some(Seal(mac, ReplyBody(NotFound(target, version, q))));
  }

  /** The counter never hands out an index outside the enrolled range. */
  lemma ReservableIsEnrolled(nvs: Nvs, c: Config, put: Put)
    requires 0 < c.sessions && c.firstQ + c.sessions <= LMS_LEAVES
    ensures var q := Reserved(nvs, c, put);
      q.Some? ==> c.firstQ <= q.value < c.firstQ + c.sessions
  {
  }

  // --- All packets of one ledger ------------------------------------------------------------

  /** The tree of each device for each credential version: the seed is derived from both. */
  type Trees = (Digest, u32) -> Nodes

  /** The ledger's tables and every reply ever sent, with its addressee. */
  datatype World = World(tables: Tables, replies: set<(Digest, Bytes)>)

  const EMPTY_WORLD := World(Tables(map[], map[]), {})

  /** What the firmware of `device` sends: its own root and paths, and queries in its own name. */
  predicate Honest(trees: Trees, device: Digest, r: Request) {
    Acceptable(r) &&
    match r
    case EnrollRoot(d, version, row) => d == device && row.root == trees(device, version)[1]
    case EnrollPath(d, version, q, path) => d == device && path == AuthPath(trees(device, version), q)
    case GetRoot(requester, _, _) => requester == device
    case GetPath(requester, _, _, _) => requester == device
  }

  /** One datagram at the server; requests that do not parse are dropped. */
  function Receive(mac: Mac, w: World, source: Digest, packet: Bytes): World {
    match ParseRequest(mac, packet)
    case None => w
    case Some(r) =>
      var tables := Update(w.tables, r);
      World(tables, w.replies + {(source, Seal(mac, ReplyBody(Respond(tables, r))))})
  }

  datatype Arrival = Arrival(source: Digest, packet: Bytes)

  function ReceiveAll(mac: Mac, arrivals: seq<Arrival>): World {
    if arrivals == [] then EMPTY_WORLD
    else
      var last := arrivals[|arrivals| - 1];
      Receive(mac, ReceiveAll(mac, arrivals[..|arrivals| - 1]), last.source, last.packet)
  }

  /** Whatever parses was sealed by the device it comes from; losses, delays and duplicates are free. */
  predicate HonestTraffic(mac: Mac, trees: Trees, arrivals: seq<Arrival>) {
    forall a :: a in arrivals && ParseRequest(mac, a.packet).Some? ==>
      Honest(trees, a.source, ParseRequest(mac, a.packet).value)
  }

  predicate Recorded(t: Tables, device: Digest, version: u32, q: u32) {
    (device, version, q) in t.paths
  }

  predicate ReplyOk(trees: Trees, t: Tables, addressee: Digest, reply: Reply) {
    match reply
    case Ack(id, version, q) => id == addressee && (Recorded(t, id, version, q) || (q == 0 && (id, version) in t.roots))
    case PathRecord(id, version, q, path) => q < LMS_LEAVES && path == AuthPath(trees(id, version), q)
    case RootRecord(id, version, row) => row.root == trees(id, version)[1]
    case NotFound(_, _, _) => true
  }

  ghost predicate WorldOk(mac: Mac, trees: Trees, w: World) {
    && (forall k :: k in w.tables.paths ==> k.2 < LMS_LEAVES && w.tables.paths[k] == AuthPath(trees(k.0, k.1), k.2))
    && (forall k :: k in w.tables.roots ==> w.tables.roots[k].root == trees(k.0, k.1)[1])
    && (forall a :: a in w.replies ==>
          exists reply :: a.1 == Seal(mac, ReplyBody(reply)) && ReplyOk(trees, w.tables, a.0, reply))
  }

  lemma UpdateKeepsReplies(trees: Trees, t: Tables, r: Request, addressee: Digest, reply: Reply)
    requires ReplyOk(trees, t, addressee, reply)
    ensures ReplyOk(trees, Update(t, r), addressee, reply)
  {
    hide AuthPath;
  }

  lemma HonestResponse(trees: Trees, t: Tables, device: Digest, r: Request)
    requires Honest(trees, device, r)
    requires forall k :: k in t.paths ==> k.2 < LMS_LEAVES && t.paths[k] == AuthPath(trees(k.0, k.1), k.2)
    requires forall k :: k in t.roots ==> t.roots[k].root == trees(k.0, k.1)[1]
    ensures var t' := Update(t, r);
      && (forall k :: k in t'.paths ==> k.2 < LMS_LEAVES && t'.paths[k] == AuthPath(trees(k.0, k.1), k.2))
      && (forall k :: k in t'.roots ==> t'.roots[k].root == trees(k.0, k.1)[1])
      && ReplyOk(trees, t', device, Respond(t', r))
  {
    hide AuthPath;
  }

  lemma {:induction false} TrafficKeepsWorld(mac: Mac, trees: Trees, arrivals: seq<Arrival>)
    requires HonestTraffic(mac, trees, arrivals)
    ensures WorldOk(mac, trees, ReceiveAll(mac, arrivals))
  {
    hide AuthPath, ParseRequest, Update, Respond, ReplyOk, Honest, Seal, ReplyBody;
    if arrivals != [] {
      var before, last := arrivals[..|arrivals| - 1], arrivals[|arrivals| - 1];
      assert forall a :: a in before ==> a in arrivals;
      TrafficKeepsWorld(mac, trees, before);
      var w := ReceiveAll(mac, before);
      if ParseRequest(mac, last.packet).Some? {
        var r := ParseRequest(mac, last.packet).value;
        var w' := Receive(mac, w, last.source, last.packet);
        HonestResponse(trees, w.tables, last.source, r);
        forall a | a in w'.replies
          ensures exists reply :: a.1 == Seal(mac, ReplyBody(reply)) && ReplyOk(trees, w'.tables, a.0, reply)
        {
          if a in w.replies {
            var reply :| a.1 == Seal(mac, ReplyBody(reply)) && ReplyOk(trees, w.tables, a.0, reply);
            UpdateKeepsReplies(trees, w.tables, r, a.0, reply);
          }
        }
      }
    }
  }

  /** A reply that the client takes for a root record carries the root of that peer's tree for that version. */
  lemma {:induction false} FetchedRootIsTheTree(
    mac: Mac, trees: Trees, arrivals: seq<Arrival>, addressee: Digest, packet: Bytes, peer: Digest, version: u32)
    requires HonestTraffic(mac, trees, arrivals) && (addressee, packet) in ReceiveAll(mac, arrivals).replies
    requires FetchedRoot(mac, packet, peer, version).Some?
    ensures FetchedRoot(mac, packet, peer, version).value.root == trees(peer, version)[1]
  {
    hide AuthPath, FetchedRoot, Seal, ReplyBody;
    TrafficKeepsWorld(mac, trees, arrivals);
    var reply :| packet == Seal(mac, ReplyBody(reply))
      && ReplyOk(trees, ReceiveAll(mac, arrivals).tables, addressee, reply);
    FetchedRootIsTheRecord(mac, reply, peer, version);
  }

  /**
   Completed fetches yield exactly the signer's path and root, so the signature over any message verifies with
   them.
   */
  lemma {:induction false} FetchedPathVerifies(
    mac: Mac, sha: Hash, id: Identifier, seed: Digest, trees: Trees, arrivals: seq<Arrival>,
    addressee: Digest, rootPacket: Bytes, packet: Bytes, peer: Digest, version: u32, q: u32, c: Digest, message: Bytes)
    requires HonestTraffic(mac, trees, arrivals)
    requires (addressee, rootPacket) in ReceiveAll(mac, arrivals).replies
      && FetchedRoot(mac, rootPacket, peer, version).Some?
    requires (addressee, packet) in ReceiveAll(mac, arrivals).replies
      && FetchedPath(mac, packet, peer, version, q).Some?
    requires IsTree(sha, id, seed, trees(peer, version)) && Fits(message)
    ensures q < LMS_LEAVES
    ensures FetchedPath(mac, packet, peer, version, q).value == AuthPath(trees(peer, version), q)
    ensures Verify(sha, q, message, LmsSpec.Sign(sha, id, seed, q, c, message), id,
                   FetchedPath(mac, packet, peer, version, q).value,
                   FetchedRoot(mac, rootPacket, peer, version).value.root)
  {
    hide AuthPath, Verify, LmsSpec.Sign, IsTree, FetchedPath, FetchedRoot, Seal, ReplyBody;
    TrafficKeepsWorld(mac, trees, arrivals);
    FetchedRootIsTheTree(mac, trees, arrivals, addressee, rootPacket, peer, version);
    var reply :| packet == Seal(mac, ReplyBody(reply))
      && ReplyOk(trees, ReceiveAll(mac, arrivals).tables, addressee, reply);
    FetchedPathIsTheRecord(mac, reply, peer, version, q);
    SignThenVerify(sha, id, seed, trees(peer, version), q, c, message);
  }

  /** A recorded path is found: the reply to the query decodes to it. */
  lemma {:induction false} RecordedPathIsServed(mac: Mac, w: World, requester: Digest, peer: Digest, version: u32,
      q: u32)
    requires q < LMS_LEAVES && Recorded(w.tables, peer, version, q)
    ensures var w' := Receive(mac, w, requester, Seal(mac, RequestBody(GetPath(requester, peer, version, q))));
      exists packet :: (requester, packet) in w'.replies
        && FetchedPath(mac, packet, peer, version, q) == Some(w.tables.paths[(peer, version, q)])
  {
    hide FetchedPath, Seal, ReplyBody, RequestBody, ParseRequest;
    var r := GetPath(requester, peer, version, q);
    ServerReadsRequest(mac, r);
    var reply := Respond(w.tables, r);
    FetchedPathIsTheRecord(mac, reply, peer, version, q);
    assert (requester, Seal(mac, ReplyBody(reply))) in Receive(mac, w, requester, Seal(mac, RequestBody(r))).replies;
  }

  /** So is a recorded root: the reply to the query decodes to the whole row. */
  lemma {:induction false} RecordedRootIsServed(mac: Mac, w: World, requester: Digest, peer: Digest, version: u32)
    requires (peer, version) in w.tables.roots
    ensures var w' := Receive(mac, w, requester, Seal(mac, RequestBody(GetRoot(requester, peer, version))));
      exists packet :: (requester, packet) in w'.replies
        && FetchedRoot(mac, packet, peer, version) == Some(w.tables.roots[(peer, version)])
  {
    hide FetchedRoot, Seal, ReplyBody, RequestBody, ParseRequest;
    var r := GetRoot(requester, peer, version);
    ServerReadsRequest(mac, r);
    var reply := Respond(w.tables, r);
    FetchedRootIsTheRecord(mac, reply, peer, version);
    assert (requester, Seal(mac, ReplyBody(reply))) in Receive(mac, w, requester, Seal(mac, RequestBody(r))).replies;
  }

  /** The only new reply is to the sender. */
  predicate Answers(w: World, w': World, requester: Digest, packet: Bytes) {
    w'.replies == w.replies + {(requester, packet)}
  }

  predicate IsRefusal(mac: Mac, packet: Bytes, expectedOp: byte, version: u32, expectedQ: Option<u32>)
    requires expectedOp in {OP_ROOT_RECORD, OP_PATH_RECORD}
  {
    |packet| == 84 && Judge(mac, packet, 84, expectedOp, version, expectedQ) == Refused
  }

  /** A query changes no record, and for what is not recorded its one reply is a refusal. */
  lemma {:induction false} UnrecordedIsRefused(mac: Mac, w: World, requester: Digest, peer: Digest, version: u32,
      q: u32)
    requires q < LMS_LEAVES
    ensures var w' := Receive(mac, w, requester, Seal(mac, RequestBody(GetRoot(requester, peer, version))));
      && w'.tables == w.tables
      && ((peer, version) !in w.tables.roots ==> exists packet ::
            Answers(w, w', requester, packet) && IsRefusal(mac, packet, OP_ROOT_RECORD, version, None))
    ensures var w' := Receive(mac, w, requester, Seal(mac, RequestBody(GetPath(requester, peer, version, q))));
      && w'.tables == w.tables
      && (!Recorded(w.tables, peer, version, q) ==> exists packet ::
            Answers(w, w', requester, packet) && IsRefusal(mac, packet, OP_PATH_RECORD, version, Some(q)))
  {
    hide Judge, Seal, ReplyBody, RequestBody, ParseRequest;
    var root, path := GetRoot(requester, peer, version), GetPath(requester, peer, version, q);
    ServerReadsRequest(mac, root);
    ServerReadsRequest(mac, path);
    NotFoundIsRefused(mac, NotFound(peer, version, 0), OP_ROOT_RECORD, version, None);
    NotFoundIsRefused(mac, NotFound(peer, version, q), OP_PATH_RECORD, version, Some(q));
    assert Answers(w, Receive(mac, w, requester, Seal(mac, RequestBody(root))), requester,
                   Seal(mac, ReplyBody(Respond(w.tables, root))));
    assert Answers(w, Receive(mac, w, requester, Seal(mac, RequestBody(path))), requester,
                   Seal(mac, ReplyBody(Respond(w.tables, path))));
  }

  lemma NotFoundIsRefused(mac: Mac, reply: Reply, expectedOp: byte, version: u32, expectedQ: Option<u32>)
    requires reply.NotFound? && expectedOp in {OP_ACK, OP_ROOT_RECORD, OP_PATH_RECORD}
    ensures var p := Seal(mac, ReplyBody(reply));
      |p| == 84 && Judge(mac, p, 84, expectedOp, version, expectedQ) == Refused
  {
    ReplyFields(mac, reply);
    SealedBySeal(mac, ReplyBody(reply));
    var p := Seal(mac, ReplyBody(reply));
    assert p[..84] == p;
  }

  /**
   A sealed enrollment records what it carries, touches nothing else, and its one reply confirms it: the tables
   hold the newest row and the newest path of every key.
   */
  lemma {:induction false} EnrollmentIsConfirmed(mac: Mac, w: World, device: Digest, version: u32, row: RootRow,
      q: u32, path: Path)
    ensures row.status <= 3 ==>
      var w' := Receive(mac, w, device, Seal(mac, RequestBody(EnrollRoot(device, version, row))));
      && w'.tables.roots == w.tables.roots[(device, version) := row] && w'.tables.paths == w.tables.paths
      && exists packet :: Answers(w, w', device, packet) && ConfirmsEnrollment(mac, packet, version, None)
    ensures q < LMS_LEAVES ==>
      var w' := Receive(mac, w, device, Seal(mac, RequestBody(EnrollPath(device, version, q, path))));
      && w'.tables.roots == w.tables.roots && w'.tables.paths == w.tables.paths[(device, version, q) := path]
      && exists packet :: Answers(w, w', device, packet) && ConfirmsEnrollment(mac, packet, version, Some(q))
  {
    hide ConfirmsEnrollment, Seal, ReplyBody, RequestBody, ParseRequest;
    if row.status <= 3 {
      var r := EnrollRoot(device, version, row);
      ServerReadsRequest(mac, r);
      ConfirmationIsAnAck(mac, Respond(w.tables, r), version, None);
      assert Answers(w, Receive(mac, w, device, Seal(mac, RequestBody(r))), device,
                     Seal(mac, ReplyBody(Respond(w.tables, r))));
    }
    if q < LMS_LEAVES {
      var r := EnrollPath(device, version, q, path);
      ServerReadsRequest(mac, r);
      ConfirmationIsAnAck(mac, Respond(w.tables, r), version, Some(q));
      assert Answers(w, Receive(mac, w, device, Seal(mac, RequestBody(r))), device,
                     Seal(mac, ReplyBody(Respond(w.tables, r))));
    }
  }

  /** A confirmation for an index above zero proves the path recorded, so no such index is stranded. */
  lemma {:induction false} ConfirmedPathIsRecorded(mac: Mac, trees: Trees, arrivals: seq<Arrival>,
                                                   device: Digest, packet: Bytes, version: u32, q: u32)
    requires HonestTraffic(mac, trees, arrivals) && (device, packet) in ReceiveAll(mac, arrivals).replies
    requires ConfirmsEnrollment(mac, packet, version, Some(q))
    ensures var t := ReceiveAll(mac, arrivals).tables;
      Recorded(t, device, version, q) || (q == 0 && (device, version) in t.roots)
  {
    hide Seal, ReplyBody, ConfirmsEnrollment, AuthPath;
    TrafficKeepsWorld(mac, trees, arrivals);
    var reply :| packet == Seal(mac, ReplyBody(reply))
      && ReplyOk(trees, ReceiveAll(mac, arrivals).tables, device, reply);
    ConfirmationIsAnAck(mac, reply, version, Some(q));
  }

  /** Everything that reached the device in its exchanges was sent to it by the ledger. */
  predicate SentBy(w: World, device: Digest, exchanges: seq<seq<Attempt>>) {
    forall attempts, attempt, a ::
      attempts in exchanges && attempt in attempts && a in attempt.stream && a.fromGcs ==>
        (device, a.packet) in w.replies
  }

  /** Once `enrollOwnPaths` has succeeded, each index above zero that `reserveQ` can return has its path recorded. */
  lemma {:induction false} ReservableIsRecorded(
    mac: Mac, trees: Trees, arrivals: seq<Arrival>, device: Digest, version: u32, c: Config,
    before: Buffer, exchanges: seq<seq<Attempt>>, nvs: Nvs, put: Put)
    requires HonestTraffic(mac, trees, arrivals) && SentBy(ReceiveAll(mac, arrivals), device, exchanges)
    requires 0 < c.sessions && c.firstQ + c.sessions <= LMS_LEAVES && |exchanges| == c.sessions
    requires AfterConfirmations(mac, before, version, c.firstQ, exchanges, c.sessions).Some?
    ensures var q := Reserved(nvs, c, put);
      q.Some? && q.value > 0 ==> Recorded(ReceiveAll(mac, arrivals).tables, device, version, q.value)
  {
    hide ReceiveAll, HonestTraffic, ConfirmsEnrollment, AfterConfirmations;
    var q := Reserved(nvs, c, put);
    if q.Some? {
      ReservableIsEnrolled(nvs, c, put);
      var i: nat := q.value - c.firstQ;
      ConfirmationArrived(mac, before, version, c.firstQ, exchanges, c.sessions, i);
      var p :| Arrived(exchanges[i], p) && ConfirmsEnrollment(mac, p, version, Some(q.value));
      ArrivedWasSent(ReceiveAll(mac, arrivals), device, exchanges, i, p);
      ConfirmedPathIsRecorded(mac, trees, arrivals, device, p, version, q.value);
    }
  }

  lemma ArrivedWasSent(w: World, device: Digest, exchanges: seq<seq<Attempt>>, i: nat, p: Bytes)
    requires SentBy(w, device, exchanges) && i < |exchanges| && Arrived(exchanges[i], p)
    ensures (device, p) in w.replies
  {
    var k, j :| 0 <= k < |exchanges[i]| && 0 <= j < |exchanges[i][k].stream|
                && exchanges[i][k].stream[j] == Incoming(p, true);
    assert exchanges[i] in exchanges && exchanges[i][k] in exchanges[i];
    assert exchanges[i][k].stream[j] in exchanges[i][k].stream;
  }

  /**
   Index zero is the exception: the acknowledgement of the root enrollment carries q = 0, so a
   retransmitted root enrollment leaves a reply that confirms path zero before it is recorded.
   */
  lemma {:induction false} RootAckConfirmsIndexZero(
    mac: Mac, trees: Trees, addressee: Digest, device: Digest, version: u32, row: RootRow)
    requires row.status <= 3 && row.root == trees(addressee, version)[1]
    ensures var arrivals := [Arrival(addressee, Seal(mac, RequestBody(EnrollRoot(addressee, version, row))))];
      var w := ReceiveAll(mac, arrivals);
      && HonestTraffic(mac, trees, arrivals)
      && !Recorded(w.tables, device, version, 0)
      && exists packet :: (addressee, packet) in w.replies && ConfirmsEnrollment(mac, packet, version, Some(0))
  {
    hide Seal, ReplyBody, RequestBody, ConfirmsEnrollment, ParseRequest;
    var r := EnrollRoot(addressee, version, row);
    var arrivals := [Arrival(addressee, Seal(mac, RequestBody(r)))];
    ServerReadsRequest(mac, r);
    assert arrivals[..0] == [];
    assert ReceiveAll(mac, arrivals[..0]) == EMPTY_WORLD;
    ConfirmationIsAnAck(mac, Ack(addressee, version, 0), version, Some(0));
    assert (addressee, Seal(mac, ReplyBody(Ack(addressee, version, 0)))) in ReceiveAll(mac, arrivals).replies;
  }

  /**
   Whatever the history of the ledger, a reply of it to `addressee` that confirms index q means that path q of
   `device` is recorded.
   */
  ghost predicate ConfirmationMeansRecorded(mac: Mac, trees: Trees, addressee: Digest, device: Digest, version: u32,
      q: u32) {
    forall arrivals, packet ::
      HonestTraffic(mac, trees, arrivals) && (addressee, packet) in ReceiveAll(mac, arrivals).replies
      && ConfirmsEnrollment(mac, packet, version, Some(q))
      ==> Recorded(ReceiveAll(mac, arrivals).tables, device, version, q)
  }

  /**
   Confirmations are reliable for every index but zero, and for the device they were sent to: the client does not
   look at the device in an acknowledgement. Indices outside the tree are never acknowledged.
   */
  lemma {:induction false} ConfirmationIsReliableExactlyAboveZeroForItsAddressee(
    mac: Mac, trees: Trees, addressee: Digest, device: Digest, version: u32, q: u32)
    ensures ConfirmationMeansRecorded(mac, trees, addressee, device, version, q)
       <==> q != 0 && (addressee == device || q >= LMS_LEAVES)
  {
    hide ConfirmsEnrollment, HonestTraffic, ReceiveAll, Recorded, Seal, RequestBody, WorldOk;
    if q == 0 {
      var row := RootRow(seq(16, _ => 0), trees(addressee, version)[1], 0, 1, 0);
      RootAckConfirmsIndexZero(mac, trees, addressee, device, version, row);
    } else if addressee != device && q < LMS_LEAVES {
      ForeignAckConfirms(mac, trees, addressee, device, version, q);
    } else {
      forall arrivals, packet |
        HonestTraffic(mac, trees, arrivals) && (addressee, packet) in ReceiveAll(mac, arrivals).replies
        && ConfirmsEnrollment(mac, packet, version, Some(q))
        ensures Recorded(ReceiveAll(mac, arrivals).tables, device, version, q)
      {
        ConfirmedPathIsRecorded(mac, trees, arrivals, addressee, packet, version, q);
        TrafficKeepsWorld(mac, trees, arrivals);
        OnlyLeavesAreRecorded(mac, trees, ReceiveAll(mac, arrivals), addressee, version, q);
      }
    }
  }

  lemma OnlyLeavesAreRecorded(mac: Mac, trees: Trees, w: World, device: Digest, version: u32, q: u32)
    requires WorldOk(mac, trees, w) && Recorded(w.tables, device, version, q)
    ensures q < LMS_LEAVES
  {
    hide AuthPath, ReplyOk, Seal, ReplyBody;
  }

  /** The acknowledgement of another device's path, of the same version and index, confirms here as well. */
  lemma {:induction false} ForeignAckConfirms(mac: Mac, trees: Trees, other: Digest, device: Digest, version: u32,
      q: u32)
    requires other != device && q < LMS_LEAVES
    ensures var request := EnrollPath(other, version, q, AuthPath(trees(other, version), q));
      var arrivals := [Arrival(other, Seal(mac, RequestBody(request)))];
      var w := ReceiveAll(mac, arrivals);
      && HonestTraffic(mac, trees, arrivals)
      && !Recorded(w.tables, device, version, q)
      && exists packet :: (other, packet) in w.replies && ConfirmsEnrollment(mac, packet, version, Some(q))
  {
    hide Seal, ReplyBody, RequestBody, ConfirmsEnrollment, ParseRequest, AuthPath;
    var r := EnrollPath(other, version, q, AuthPath(trees(other, version), q));
    var arrivals := [Arrival(other, Seal(mac, RequestBody(r)))];
    ServerReadsRequest(mac, r);
    assert arrivals[..0] == [];
    assert ReceiveAll(mac, arrivals[..0]) == EMPTY_WORLD;
    ConfirmationIsAnAck(mac, Ack(other, version, q), version, Some(q));
    assert (other, Seal(mac, ReplyBody(Ack(other, version, q)))) in ReceiveAll(mac, arrivals).replies;
  }
}
