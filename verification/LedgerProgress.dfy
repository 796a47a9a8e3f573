/** What the device's ledger exchanges must achieve: a good response that arrives in time is the one returned. */
module LedgerProgress {
  import opened Octets
  import opened Wrappers
  import opened LmsSpec
  import opened AuditLedger
  import opened Repository
  import opened LedgerClient

  /** A datagram of the ledger that is long enough to be judged alone, and accepted. */
  predicate Good(mac: Mac, a: Incoming, op: byte, version: u32, q: Option<u32>)
    requires op in {OP_ACK, OP_ROOT_RECORD, OP_PATH_RECORD}
  {
    a.fromGcs && 48 <= |a.packet| <= 400 && Judge(mac, a.packet, |a.packet|, op, version, q) == Accepted
  }

  /** Whatever the buffer held before: nothing follows from this datagram. */
  ghost predicate Idle(mac: Mac, a: Incoming, op: byte, version: u32, q: Option<u32>)
    requires op in {OP_ACK, OP_ROOT_RECORD, OP_PATH_RECORD}
  {
    forall before: Buffer :: VerdictOn(mac, before, a, op, version, q) == Ignore
  }

  /** Foreign, oversized, short and unsealed datagrams, and sealed ones of another operation, are idle. */
  lemma {:induction false} StraysAreIdle(mac: Mac, a: Incoming, op: byte, version: u32, q: Option<u32>)
    requires op in {OP_ACK, OP_ROOT_RECORD, OP_PATH_RECORD}
    requires var p := a.packet;
      || !a.fromGcs || |p| < 40 || |p| > 400 || p[..4] != MAGIC
      || p[|p| - 32..] != mac(LAB_KEY, p[..|p| - 32]) || p[4] !in {op, OP_NOT_FOUND}
    ensures Idle(mac, a, op, version, q)
  {
    hide GetU32;
    forall before: Buffer ensures VerdictOn(mac, before, a, op, version, q) == Ignore {
      if a.fromGcs && |a.packet| <= 400 {
        var p, b := a.packet, AfterRead(before, a.packet);
        assert b[..|p|] == p;
        if |p| >= 40 {
          assert b[..4] == p[..4] && b[4] == p[4];
        }
      }
    }
  }

  lemma GoodFromAnyBuffer(mac: Mac, before: Buffer, a: Incoming, op: byte, version: u32, q: Option<u32>)
    requires op in {OP_ACK, OP_ROOT_RECORD, OP_PATH_RECORD} && Good(mac, a, op, version, q)
    ensures VerdictOn(mac, before, a, op, version, q) == Accepted
    ensures AfterRead(before, a.packet)[..|a.packet|] == a.packet
  {
    hide GetU32, Sealed;
    var p, b := a.packet, AfterRead(before, a.packet);
    assert b[..|p|] == p && p[..|p|] == p;
    assert b[..4] == p[..4] && b[40..44] == p[40..44] && b[44..48] == p[44..48] && b[4] == p[4];
  }

  /** The first datagram of a stream that is not idle is a good one, at position i. */
  ghost predicate GoodAt(mac: Mac, stream: seq<Incoming>, i: nat, op: byte, version: u32, q: Option<u32>)
    requires op in {OP_ACK, OP_ROOT_RECORD, OP_PATH_RECORD}
  {
    && i < |stream| && Good(mac, stream[i], op, version, q)
    && forall k :: 0 <= k < i ==> Idle(mac, stream[k], op, version, q)
  }

  lemma {:induction false} GoodIsHeard(mac: Mac, before: Buffer, stream: seq<Incoming>, i: nat, op: byte, version: u32,
      q: Option<u32>)
    requires op in {OP_ACK, OP_ROOT_RECORD, OP_PATH_RECORD} && GoodAt(mac, stream, i, op, version, q)
    ensures var l := Listen(mac, before, stream, op, version, q);
      && l.Conclusion? && l.answer.length == Some(|stream[i].packet|)
      && Response(l.answer) == stream[i].packet
    decreases i
  {
    hide VerdictOn, Good;
    if i == 0 {
      GoodFromAnyBuffer(mac, before, stream[0], op, version, q);
      assert Good(mac, stream[0], op, version, q);
      GoodLength(mac, stream[0], op, version, q);
    } else {
      assert Idle(mac, stream[0], op, version, q);
      GoodIsHeard(mac, AfterRead(before, stream[0].packet), stream[1..], i - 1, op, version, q);
    }
  }

  lemma GoodLength(mac: Mac, a: Incoming, op: byte, version: u32, q: Option<u32>)
    requires op in {OP_ACK, OP_ROOT_RECORD, OP_PATH_RECORD} && Good(mac, a, op, version, q)
    ensures |a.packet| <= 400
  {
  }

  lemma {:induction false} IdleIsSilence(mac: Mac, before: Buffer, stream: seq<Incoming>, op: byte, version: u32,
      q: Option<u32>)
    requires op in {OP_ACK, OP_ROOT_RECORD, OP_PATH_RECORD}
    requires forall k :: 0 <= k < |stream| ==> Idle(mac, stream[k], op, version, q)
    ensures Listen(mac, before, stream, op, version, q).Silence?
    decreases |stream|
  {
    hide VerdictOn;
    if stream != [] {
      assert Idle(mac, stream[0], op, version, q);
      IdleIsSilence(mac, AfterRead(before, stream[0].packet), stream[1..], op, version, q);
    }
  }

  /** The good datagram is the i-th of attempt j; until then every request was sent and nothing but idle ones came. */
  ghost predicate GoodIn(mac: Mac, attempts: seq<Attempt>, j: nat, i: nat, op: byte, version: u32, q: Option<u32>)
    requires op in {OP_ACK, OP_ROOT_RECORD, OP_PATH_RECORD}
  {
    && j < |attempts| && attempts[j].sent && GoodAt(mac, attempts[j].stream, i, op, version, q)
    && forall k :: 0 <= k < j ==> IdleAttempt(mac, attempts[k], op, version, q)
  }

  ghost predicate IdleAttempt(mac: Mac, attempt: Attempt, op: byte, version: u32, q: Option<u32>)
    requires op in {OP_ACK, OP_ROOT_RECORD, OP_PATH_RECORD}
  {
    attempt.sent && forall k :: 0 <= k < |attempt.stream| ==> Idle(mac, attempt.stream[k], op, version, q)
  }

  /** Lost, late and stray datagrams only cost attempts: the good one, in whichever attempt, is returned whole. */
  lemma {:induction false} GoodResponseIsReturned(mac: Mac, before: Buffer, attempts: seq<Attempt>, j: nat, i: nat,
      op: byte, version: u32, q: Option<u32>)
    requires op in {OP_ACK, OP_ROOT_RECORD, OP_PATH_RECORD} && GoodIn(mac, attempts, j, i, op, version, q)
    ensures var answer := Exchange(mac, before, attempts, op, version, q);
      var p := attempts[j].stream[i].packet;
      answer.length == Some(|p|) && Response(answer) == p
    decreases j
  {
    hide Listen, GoodAt, Response, Idle;
    if j == 0 {
      GoodIsHeard(mac, before, attempts[0].stream, i, op, version, q);
    } else {
      assert IdleAttempt(mac, attempts[0], op, version, q);
      IdleIsSilence(mac, before, attempts[0].stream, op, version, q);
      var after := Listen(mac, before, attempts[0].stream, op, version, q).buffer;
      assert forall k :: 0 <= k < j - 1 ==> attempts[1..][k] == attempts[k + 1];
      GoodResponseIsReturned(mac, after, attempts[1..], j - 1, i, op, version, q);
    }
  }

  /** A sealed refusal of the ledger. */
  predicate Refusal(mac: Mac, a: Incoming) {
    var p := a.packet;
    a.fromGcs && 40 <= |p| <= 400 && p[..4] == MAGIC && p[4] == 8 && p[|p| - 32..] == mac(LAB_KEY, p[..|p| - 32])
  }

  /** What ends an exchange without a response: a refusal before anything good, or a request that cannot be sent. */
  ghost predicate EndsAt(mac: Mac, attempts: seq<Attempt>, j: nat, op: byte, version: u32, q: Option<u32>)
    requires op in {OP_ACK, OP_ROOT_RECORD, OP_PATH_RECORD}
  {
    && j < |attempts| && (forall k :: 0 <= k < j ==> IdleAttempt(mac, attempts[k], op, version, q))
    && (!attempts[j].sent || exists i: nat :: RefusedAt(mac, attempts[j].stream, i, op, version, q))
  }

  ghost predicate RefusedAt(mac: Mac, stream: seq<Incoming>, i: nat, op: byte, version: u32, q: Option<u32>)
    requires op in {OP_ACK, OP_ROOT_RECORD, OP_PATH_RECORD}
  {
    i < |stream| && Refusal(mac, stream[i]) && forall k :: 0 <= k < i ==> Idle(mac, stream[k], op, version, q)
  }

  lemma {:induction false} RefusalIsHeard(mac: Mac, before: Buffer, stream: seq<Incoming>, i: nat, op: byte,
      version: u32, q: Option<u32>)
    requires op in {OP_ACK, OP_ROOT_RECORD, OP_PATH_RECORD} && RefusedAt(mac, stream, i, op, version, q)
    ensures var l := Listen(mac, before, stream, op, version, q); l.Conclusion? && l.answer.length.None?
    decreases i
  {
    hide VerdictOn, Refusal;
    if i == 0 {
      assert Refusal(mac, stream[0]);
      RefusalFromAnyBuffer(mac, before, stream[0], op, version, q);
    } else {
      assert Idle(mac, stream[0], op, version, q);
      RefusalIsHeard(mac, AfterRead(before, stream[0].packet), stream[1..], i - 1, op, version, q);
    }
  }

  lemma RefusalFromAnyBuffer(mac: Mac, before: Buffer, a: Incoming, op: byte, version: u32, q: Option<u32>)
    requires op in {OP_ACK, OP_ROOT_RECORD, OP_PATH_RECORD} && Refusal(mac, a)
    ensures VerdictOn(mac, before, a, op, version, q) == Refused
  {
    hide GetU32;
    var p, b := a.packet, AfterRead(before, a.packet);
    assert b[..|p|] == p && b[..4] == p[..4] && b[4] == p[4];
  }

  /** A refusal is believed and a failed send is final: whatever the later attempts would have brought is not read. */
  lemma {:induction false} EndedExchangeReturnsNothing(mac: Mac, before: Buffer, attempts: seq<Attempt>, j: nat,
      op: byte, version: u32, q: Option<u32>)
    requires op in {OP_ACK, OP_ROOT_RECORD, OP_PATH_RECORD} && EndsAt(mac, attempts, j, op, version, q)
    ensures Exchange(mac, before, attempts, op, version, q).length.None?
    decreases j
  {
    hide Listen, RefusedAt, Idle;
    if j == 0 {
      if attempts[0].sent {
        var i: nat :| RefusedAt(mac, attempts[0].stream, i, op, version, q);
        RefusalIsHeard(mac, before, attempts[0].stream, i, op, version, q);
      }
    } else {
      assert IdleAttempt(mac, attempts[0], op, version, q);
      IdleIsSilence(mac, before, attempts[0].stream, op, version, q);
      var after := Listen(mac, before, attempts[0].stream, op, version, q).buffer;
      assert forall k :: 0 <= k < j - 1 ==> attempts[1..][k] == attempts[k + 1];
      EndedExchangeReturnsNothing(mac, after, attempts[1..], j - 1, op, version, q);
    }
  }

  // --- Rounds ------------------------------------------------------------------------------------

  /** A round without anything to accept: refusals, silence, failed sends. */
  ghost predicate Fruitless(mac: Mac, attempts: seq<Attempt>, op: byte, version: u32, q: Option<u32>)
    requires op in {OP_ACK, OP_ROOT_RECORD, OP_PATH_RECORD}
  {
    forall a, k :: 0 <= k < |attempts| && a in attempts[k].stream ==> Unaccepted(mac, a, op, version, q)
  }

  ghost predicate Unaccepted(mac: Mac, a: Incoming, op: byte, version: u32, q: Option<u32>)
    requires op in {OP_ACK, OP_ROOT_RECORD, OP_PATH_RECORD}
  {
    forall before: Buffer :: VerdictOn(mac, before, a, op, version, q) != Accepted
  }

  lemma {:induction false} FruitlessReturnsNothing(mac: Mac, before: Buffer, attempts: seq<Attempt>, op: byte,
      version: u32, q: Option<u32>)
    requires op in {OP_ACK, OP_ROOT_RECORD, OP_PATH_RECORD} && Fruitless(mac, attempts, op, version, q)
    ensures Exchange(mac, before, attempts, op, version, q).length.None?
  {
    hide Judge, Unaccepted, Response;
    if Exchange(mac, before, attempts, op, version, q).length.Some? {
      AcceptedSomething(mac, before, attempts, op, version, q);
      var b: Buffer, a, k :| 0 <= k < |attempts| && a in attempts[k].stream && TakenFrom(mac, b, a, op, version, q);
      UnacceptedIsNotTaken(mac, b, a, op, version, q);
    }
  }

  predicate TakenFrom(mac: Mac, before: Buffer, a: Incoming, op: byte, version: u32, q: Option<u32>)
    requires op in {OP_ACK, OP_ROOT_RECORD, OP_PATH_RECORD}
  {
    VerdictOn(mac, before, a, op, version, q) == Accepted
  }

  lemma UnacceptedIsNotTaken(mac: Mac, before: Buffer, a: Incoming, op: byte, version: u32, q: Option<u32>)
    requires op in {OP_ACK, OP_ROOT_RECORD, OP_PATH_RECORD} && Unaccepted(mac, a, op, version, q)
    ensures !TakenFrom(mac, before, a, op, version, q)
  {
  }

  lemma {:induction false} HeardSomething(mac: Mac, before: Buffer, stream: seq<Incoming>, op: byte, version: u32,
      q: Option<u32>)
    requires op in {OP_ACK, OP_ROOT_RECORD, OP_PATH_RECORD}
    requires var l := Listen(mac, before, stream, op, version, q); l.Conclusion? && l.answer.length.Some?
    ensures exists b: Buffer, a :: a in stream && TakenFrom(mac, b, a, op, version, q)
    decreases |stream|
  {
    hide VerdictOn;
    if VerdictOn(mac, before, stream[0], op, version, q) == Ignore {
      var after := AfterRead(before, stream[0].packet);
      HeardSomething(mac, after, stream[1..], op, version, q);
      var b: Buffer, a :| a in stream[1..] && TakenFrom(mac, b, a, op, version, q);
      assert a in stream;
    } else {
      assert TakenFrom(mac, before, stream[0], op, version, q);
    }
  }

  lemma {:induction false} AcceptedSomething(mac: Mac, before: Buffer, attempts: seq<Attempt>, op: byte, version: u32,
      q: Option<u32>)
    requires op in {OP_ACK, OP_ROOT_RECORD, OP_PATH_RECORD}
    requires Exchange(mac, before, attempts, op, version, q).length.Some?
    ensures exists b: Buffer, a, k ::
      0 <= k < |attempts| && a in attempts[k].stream && TakenFrom(mac, b, a, op, version, q)
    decreases |attempts|
  {
    hide Listen, TakenFrom;
    match Listen(mac, before, attempts[0].stream, op, version, q)
    case Silence(after) =>
      AcceptedSomething(mac, after, attempts[1..], op, version, q);
      var b: Buffer, a, k :| 0 <= k < |attempts[1..]| && a in attempts[1..][k].stream
                             && TakenFrom(mac, b, a, op, version, q);
      assert a in attempts[k + 1].stream;
    case Conclusion(_) =>
      HeardSomething(mac, before, attempts[0].stream, op, version, q);
  }

  /** Rounds of refusals and silence only delay: the first round with a good root record ends the wait with it. */
  lemma {:induction false} GoodRoundIsReturned(mac: Mac, before: Buffer, rounds: seq<seq<Attempt>>, version: u32,
      n: nat, j: nat, i: nat)
    requires n < |rounds| && GoodIn(mac, rounds[n], j, i, OP_ROOT_RECORD, version, None)
    requires forall k :: 0 <= k < n ==> Fruitless(mac, rounds[k], OP_ROOT_RECORD, version, None)
    ensures var answer := FirstAnswer(mac, before, rounds, version);
      var p := rounds[n][j].stream[i].packet;
      answer.length == Some(|p|) && Response(answer) == p
    decreases n
  {
    hide Exchange, GoodIn, Fruitless, Response;
    if n == 0 {
      GoodInRange(mac, rounds[0], j, i, OP_ROOT_RECORD, version, None);
      GoodResponseIsReturned(mac, before, rounds[0], j, i, OP_ROOT_RECORD, version, None);
    } else {
      FruitlessReturnsNothing(mac, before, rounds[0], OP_ROOT_RECORD, version, None);
      var after := Exchange(mac, before, rounds[0], OP_ROOT_RECORD, version, None).buffer;
      assert forall k :: 0 <= k < n - 1 ==> rounds[1..][k] == rounds[k + 1];
      GoodInRange(mac, rounds[n], j, i, OP_ROOT_RECORD, version, None);
      GoodRoundIsReturned(mac, after, rounds[1..], version, n - 1, j, i);
    }
  }

  lemma GoodInRange(mac: Mac, attempts: seq<Attempt>, j: nat, i: nat, op: byte, version: u32, q: Option<u32>)
    requires op in {OP_ACK, OP_ROOT_RECORD, OP_PATH_RECORD} && GoodIn(mac, attempts, j, i, op, version, q)
    ensures j < |attempts| && i < |attempts[j].stream|
  {
  }

  // --- What the callers make of it -----------------------------------------------------------------

  /** The peer's record, once it arrives, is what `fetchPeerRoot` ends with. */
  lemma {:induction false} ServedRootIsFetched(mac: Mac, before: Buffer, rounds: seq<seq<Attempt>>, peer: Digest,
      version: u32, n: nat, j: nat, i: nat)
    requires n < |rounds| && GoodIn(mac, rounds[n], j, i, OP_ROOT_RECORD, version, None)
    requires forall k :: 0 <= k < n ==> Fruitless(mac, rounds[k], OP_ROOT_RECORD, version, None)
    requires FetchedRoot(mac, rounds[n][j].stream[i].packet, peer, version).Some?
    ensures var answer := FirstAnswer(mac, before, rounds, version);
      && answer.length == Some(140)
      && FetchedRoot(mac, answer.buffer[..140], peer, version)
      == FetchedRoot(mac, rounds[n][j].stream[i].packet, peer, version)
  {
    hide FirstAnswer, GoodIn, Fruitless, Judge, RootRowAt;
    GoodInRange(mac, rounds[n], j, i, OP_ROOT_RECORD, version, None);
    GoodRoundIsReturned(mac, before, rounds, version, n, j, i);
  }

  /** The path, once it arrives, is what `fetchPeerPath` ends with. */
  lemma {:induction false} ServedPathIsFetched(mac: Mac, before: Buffer, attempts: seq<Attempt>, peer: Digest,
      version: u32, q: u32, j: nat, i: nat)
    requires GoodIn(mac, attempts, j, i, OP_PATH_RECORD, version, Some(q))
    requires FetchedPath(mac, attempts[j].stream[i].packet, peer, version, q).Some?
    ensures var answer := Exchange(mac, before, attempts, OP_PATH_RECORD, version, Some(q));
      && answer.length == Some(400)
      && FetchedPath(mac, answer.buffer, peer, version, q)
      == FetchedPath(mac, attempts[j].stream[i].packet, peer, version, q)
  {
    hide Exchange, Judge, Idle, Good;
    GoodInRange(mac, attempts, j, i, OP_PATH_RECORD, version, Some(q));
    GoodResponseIsReturned(mac, before, attempts, j, i, OP_PATH_RECORD, version, Some(q));
    var answer := Exchange(mac, before, attempts, OP_PATH_RECORD, version, Some(q));
    assert answer.buffer[..400] == answer.buffer;
  }

  /** Every acknowledgement, record and path that passes its caller's test is a good response. */
  lemma {:induction false} TakenResponsesAreGood(mac: Mac, p: Bytes, peer: Digest, version: u32, q: Option<u32>)
    ensures ConfirmsEnrollment(mac, p, version, q) ==> Good(mac, Incoming(p, true), OP_ACK, version, q)
    ensures FetchedRoot(mac, p, peer, version).Some? ==> Good(mac, Incoming(p, true), OP_ROOT_RECORD, version, None)
    ensures q.Some? && FetchedPath(mac, p, peer, version, q.value).Some? ==>
      Good(mac, Incoming(p, true), OP_PATH_RECORD, version, q)
  {
    hide Judge, RootRowAt;
  }

  /** The acknowledgement of path q is the first good response of its exchange. */
  ghost predicate Acknowledged(mac: Mac, attempts: seq<Attempt>, version: u32, q: u32) {
    exists j: nat, i: nat :: AcknowledgedAt(mac, attempts, version, q, j, i)
  }

  ghost predicate AcknowledgedAt(mac: Mac, attempts: seq<Attempt>, version: u32, q: u32, j: nat, i: nat) {
    && GoodIn(mac, attempts, j, i, OP_ACK, version, Some(q))
    && ConfirmsEnrollment(mac, attempts[j].stream[i].packet, version, Some(q))
  }

  lemma AcknowledgedConfirms(mac: Mac, before: Buffer, attempts: seq<Attempt>, version: u32, q: u32)
    requires Acknowledged(mac, attempts, version, q)
    ensures Confirms(mac, Exchange(mac, before, attempts, OP_ACK, version, Some(q)), version, Some(q))
  {
    hide Exchange, Judge, Idle, Good, Response;
    var j: nat, i: nat :| AcknowledgedAt(mac, attempts, version, q, j, i);
    GoodInRange(mac, attempts, j, i, OP_ACK, version, Some(q));
    GoodResponseIsReturned(mac, before, attempts, j, i, OP_ACK, version, Some(q));
  }

  /** If every path of the range is acknowledged, in whichever attempt, `enrollOwnPaths` succeeds. */
  lemma {:induction false} AcknowledgedPathsEnroll(mac: Mac, before: Buffer, version: u32, firstQ: u32,
      exchanges: seq<seq<Attempt>>, n: nat)
    requires n <= |exchanges| && firstQ + n <= LMS_LEAVES
    requires forall k: nat :: k < n ==> Acknowledged(mac, exchanges[k], version, firstQ + k)
    ensures AfterConfirmations(mac, before, version, firstQ, exchanges, n).Some?
  {
    hide Exchange, Confirms, Acknowledged;
    if n > 0 {
      AcknowledgedPathsEnroll(mac, before, version, firstQ, exchanges, n - 1);
      var b := AfterConfirmations(mac, before, version, firstQ, exchanges, n - 1).value;
      AcknowledgedConfirms(mac, b, exchanges[n - 1], version, firstQ + n - 1);
    }
  }
}
