/** A whole session in repository mode: both paths come through the ledger, and the handshake completes. */
module RepositorySession {
  import opened Octets
  import opened Wrappers
  import opened LmsSpec
  import opened Handshake
  import opened Agreement
  import opened HonestSession
  import opened Repository
  import opened PathService

  /** With these paths delivered, the eight steps of the undisturbed session lead both sides to one record. */
  ghost predicate SessionCompletes(u: Setup, s: System, coins: Coins, pathA: Path, pathB: Path)
    requires Ready(s)
  {
    && (forall n: nat :: n < 8 ==>
          Advances(u, Stage(u, s, coins, n), Script(u, s, coins, pathA, pathB)[n], Stage(u, s, coins, n + 1)))
    && Stage(u, s, coins, 0) == s
    && Stage(u, s, coins, 8).accepted == s.accepted + [TheResponse(u, s, coins)]
    && Stage(u, s, coins, 8).completed == s.completed + [TheCompletion(u, s, coins)]
    && Agree(TheCompletion(u, s, coins), TheResponse(u, s, coins))
  }

  lemma {:induction false} ServedPathsComplete(u: Setup, s: System, coins: Coins, pathA: Path, pathB: Path)
    requires Undisturbed(u, s, pathA, pathB)
    ensures SessionCompletes(u, s, coins, pathA, pathB)
  {
    hide Advances, Stage, Script, Undisturbed, TheResponse, TheCompletion, Agree;
    ReadyIf(u, s, pathA, pathB);
    forall n: nat | n < 8
      ensures Advances(u, Stage(u, s, coins, n), Script(u, s, coins, pathA, pathB)[n], Stage(u, s, coins, n + 1))
    {
      HonestSessionCompletes(u, s, coins, pathA, pathB, n);
    }
    HonestSessionCompletes(u, s, coins, pathA, pathB, 0);
  }

  lemma ReadyIf(u: Setup, s: System, pathA: Path, pathB: Path)
    requires Undisturbed(u, s, pathA, pathB)
    ensures Ready(s)
  {
    hide KemCorrect, Provisioned, Ready;
  }

  /** Two provisioned devices, ready for a session, whose next indices have their paths recorded. */
  ghost predicate Enrolled(mac: Mac, trees: Trees, arrivals: seq<Arrival>, u: Setup, s: System) {
    && HonestTraffic(mac, trees, arrivals) && KemCorrect(u) && Provisioned(u) && Ready(s)
    && trees(u.idA, u.versionA) == u.treeA && trees(u.idB, u.versionB) == u.treeB
    && var t := ReceiveAll(mac, arrivals).tables;
       Recorded(t, u.idA, u.versionA, IndexA(s)) && Recorded(t, u.idB, u.versionB, IndexB(s))
  }

  /** The ledger after both queries: the responder's for the initiator's path, and the other way round. */
  function AfterQueries(mac: Mac, w: World, u: Setup, s: System): World
    requires Ready(s)
  {
    var asked := Receive(mac, w, u.idB, Seal(mac, RequestBody(GetPath(u.idB, u.idA, u.versionA, IndexA(s)))));
    Receive(mac, asked, u.idA, Seal(mac, RequestBody(GetPath(u.idA, u.idB, u.versionB, IndexB(s)))))
  }

  /** Replies of the ledger to both queries whose paths let the session complete. */
  ghost predicate ServesSession(mac: Mac, w: World, u: Setup, s: System, coins: Coins, toB: Bytes, toA: Bytes)
    requires Ready(s)
  {
    && (u.idB, toB) in w.replies && (u.idA, toA) in w.replies
    && var (pathA, pathB) := (FetchedPath(mac, toB, u.idA, u.versionA, IndexA(s)),
                              FetchedPath(mac, toA, u.idB, u.versionB, IndexB(s)));
       pathA.Some? && pathB.Some? && SessionCompletes(u, s, coins, pathA.value, pathB.value)
  }

  /** Enrollment, query, reply, fetch, signature and handshake together: the session completes in repository mode. */
  lemma {:induction false} RepositorySessionCompletes(
    mac: Mac, trees: Trees, arrivals: seq<Arrival>, u: Setup, s: System, coins: Coins)
    requires Enrolled(mac, trees, arrivals, u, s)
    ensures exists toB, toA :: ServesSession(mac, AfterQueries(mac, ReceiveAll(mac, arrivals), u, s), u, s, coins, toB,
      toA)
  {
    hide ReceiveAll, HonestTraffic, FetchedPath, Seal, RequestBody, SessionCompletes, Provisioned, AuthPath, KemCorrect,
         WorldOk, Receive, Recorded, Ready, IndexA, IndexB;
    var w := ReceiveAll(mac, arrivals);
    IndicesAreLeaves(s);
    TrafficKeepsWorld(mac, trees, arrivals);
    RecordedIsOwn(mac, trees, w, u.idA, u.versionA, IndexA(s));
    RecordedIsOwn(mac, trees, w, u.idB, u.versionB, IndexB(s));
    RecordedPathIsServed(mac, w, u.idB, u.idA, u.versionA, IndexA(s));
    var queryA := GetPath(u.idB, u.idA, u.versionA, IndexA(s));
    var asked := Receive(mac, w, u.idB, Seal(mac, RequestBody(queryA)));
    var toB :| (u.idB, toB) in asked.replies
      && FetchedPath(mac, toB, u.idA, u.versionA, IndexA(s)) == Some(w.tables.paths[(u.idA, u.versionA, IndexA(s))]);
    QueryChangesNoTable(mac, w, u.idB, queryA);
    RecordedPathIsServed(mac, asked, u.idA, u.idB, u.versionB, IndexB(s));
    var queryB := GetPath(u.idA, u.idB, u.versionB, IndexB(s));
    var toA :| (u.idA, toA) in Receive(mac, asked, u.idA, Seal(mac, RequestBody(queryB))).replies
      && FetchedPath(mac, toA, u.idB, u.versionB, IndexB(s)) == Some(w.tables.paths[(u.idB, u.versionB, IndexB(s))]);
    QueryChangesNoTable(mac, asked, u.idA, queryB);
    ServedPathsComplete(u, s, coins, AuthPath(u.treeA, IndexA(s)), AuthPath(u.treeB, IndexB(s)));
    assert ServesSession(mac, AfterQueries(mac, w, u, s), u, s, coins, toB, toA);
  }

  lemma IndicesAreLeaves(s: System)
    requires Ready(s)
    ensures IndexA(s) < LMS_LEAVES && IndexB(s) < LMS_LEAVES
  {
  }

  lemma RecordedIsOwn(mac: Mac, trees: Trees, w: World, device: Digest, version: u32, q: u32)
    requires WorldOk(mac, trees, w) && Recorded(w.tables, device, version, q) && q < LMS_LEAVES
    ensures (device, version, q) in w.tables.paths
    ensures w.tables.paths[(device, version, q)] == AuthPath(trees(device, version), q)
  {
    hide AuthPath, ReplyOk, Seal, ReplyBody;
  }

  /** A query leaves the tables alone and takes no reply back. */
  lemma QueryChangesNoTable(mac: Mac, w: World, source: Digest, r: Request)
    requires r.GetPath? && Acceptable(r)
    ensures var w' := Receive(mac, w, source, Seal(mac, RequestBody(r)));
      w'.tables == w.tables && w.replies <= w'.replies
  {
    hide Seal, RequestBody, ReplyBody, ParseRequest;
    ServerReadsRequest(mac, r);
  }
}
