/** The two session programs answer each other: fed with what the other sends, both finish and agree. */
module HonestPrograms {
  import opened Octets
  import opened Wrappers
  import opened LmsSpec
  import opened OneTimeIndex
  import opened Wire
  import opened Handshake
  import opened Agreement
  import opened HonestSession
  import opened Sessions

  /** The inputs of an initiator that receives what the responder sends. */
  function FedInitiator(u: Setup, s: System, coins: Coins, path: Option<Path>): InitiatorInputs
    requires Ready(s)
  {
    InitiatorInputs(coins.nonceA, Some(TheM1(u, coins)), coins.sk, Succeeded, true, coins.cA,
                    Some(M3Of(u, TheResponse(u, s, coins))), path)
  }

  /** The inputs of a responder that receives what the initiator sends. */
  function FedResponder(u: Setup, s: System, coins: Coins, path: Option<Path>): ResponderInputs
    requires Ready(s)
  {
    ResponderInputs(Some(TheM0(u, coins)), coins.nonceB, Some(TheStart(u, s, coins).m2), path, coins.encaps,
                    Succeeded, true, coins.cB, Some(M4Of(u, TheCompletion(u, s, coins))))
  }

  lemma InitiatorOpens(u: Setup, s: System, coins: Coins, path: Option<Path>)
    requires Ready(s)
    ensures var start := TheStart(u, s, coins);
      AfterM1(u, s, FedInitiator(u, s, coins, path)).a
      == ReservedA(start.m0, start.m1, start.sid, coins.sk, IndexA(s))
  {
    hide BuildM2, Sid0Input, ValidM1, M0, M1, M3Of, TheResponse;
    SentM1IsValid(u, coins.nonceA, coins.nonceB);
  }

  lemma ResponderOpens(u: Setup, s: System, coins: Coins, path: Option<Path>)
    requires Ready(s)
    ensures var start := TheStart(u, s, coins);
      && ValidM0(u, start.m0) && start.m0[66..82] == coins.nonceA
      && AfterM0(u, s, FedResponder(u, s, coins, path)).b == AwaitM2(start.m0, start.m1, start.sid)
  {
    hide BuildM2, Sid0Input, ValidM0, M0, M1, M4Of, TheCompletion;
    SentM0IsValid(u, coins.nonceA);
  }

  lemma ResponderReserves(u: Setup, s: System, coins: Coins, path: Option<Path>)
    requires Ready(s) && Provisioned(u) && HasPath(u, path) && Serves(u, u.treeA, IndexA(s), PathOf(path))
    ensures var start := TheStart(u, s, coins);
      AfterM2(u, s, FedResponder(u, s, coins, path)).b
      == ReservedB(start.m0, start.m1, start.sid, start.m2, coins.encaps, IndexB(s))
  {
    hide BuildM2, Sid0Input, ValidM0, AfterM0, M0, M1, M4Of, TheCompletion, AcceptsM2, IsTree;
    ResponderOpens(u, s, coins, path);
    AfterM0Idles(u, s, FedResponder(u, s, coins, path));
    BuiltM2Verifies(u, TheSid(u, coins), IndexA(s), u.kemPublic(coins.sk), coins.cA, PathOf(path));
  }

  /** Carried with the messages, or answered by the repository, each side has the signer's own path. */
  ghost predicate Supplied(u: Setup, s: System, pathA: Option<Path>, pathB: Option<Path>) {
    && HasPath(u, pathA) && HasPath(u, pathB) && Undisturbed(u, s, PathOf(pathA), PathOf(pathB))
  }

  lemma InitiatorFinishes(u: Setup, s: System, coins: Coins, pathA: Option<Path>, pathB: Option<Path>)
    requires Supplied(u, s, pathA, pathB)
    ensures var i := FedInitiator(u, s, coins, pathB);
      var end := InitiatorEnd(u, s, i);
      && end.started == s.started + [TheStart(u, s, coins)]
      && end.completed == s.completed + [TheCompletion(u, s, coins)]
      && InitiatorSent(u, i, s, end)
         == [TheM0(u, coins), TheStart(u, s, coins).m2, M4Of(u, TheCompletion(u, s, coins))]
  {
    hide InitiatorEnd, AfterM1, AcceptsM3, M0, M1, M3Of, M4Of, TheResponse, IsTree, BuildM2, Sid0Input, InnerOf,
         CompletionOf;
    InitiatorOpens(u, s, coins, pathB);
    InitiatorEnds(u, s, FedInitiator(u, s, coins, pathB));
    TheM3Accepted(u, s, coins, PathOf(pathB));
    CompletionIs(u, s, coins);
  }

  lemma ResponderFinishes(u: Setup, s: System, coins: Coins, pathA: Option<Path>, pathB: Option<Path>)
    requires Supplied(u, s, pathA, pathB)
    ensures var i := FedResponder(u, s, coins, pathA);
      var end := ResponderEnd(u, s, i);
      && end.responded == s.responded + [TheResponse(u, s, coins)]
      && end.accepted == s.accepted + [TheResponse(u, s, coins)]
      && ResponderSent(u, i, s, end) == [TheM1(u, coins), M3Of(u, TheResponse(u, s, coins))]
  {
    hide ResponderEnd, AfterM2, AcceptsM4, M0, M1, M3Of, M4Of, TheCompletion, IsTree, BuildM2, Sid0Input, ResponseOf,
         ValidM0;
    ResponderOpens(u, s, coins, pathA);
    ResponderReserves(u, s, coins, pathA);
    ResponderEnds(u, s, FedResponder(u, s, coins, pathA));
    SessionsAgree(u, s, coins);
    SentM4Accepted(u, TheCompletion(u, s, coins), TheResponse(u, s, coins));
  }

  /** Messages as the receiver meets them. */
  function Delivered(sent: seq<Bytes>): seq<Option<Bytes>> {
    seq(|sent|, k requires 0 <= k < |sent| => Some(sent[k]))
  }

  /** What each side sent is what the other was given, and both end with one more session, of the same record. */
  predicate AnswerEachOther(u: Setup, s: System, i: InitiatorInputs, r: ResponderInputs, a: InitiatorRun,
      b: ResponderRun)
    requires s.ramA.Some? && s.a.IdleA? && s.ramB.Some? && s.b.IdleB?
  {
    var (endA, endB) := (InitiatorEnd(u, s, i), ResponderEnd(u, s, r));
    && Delivered(InitiatorSent(u, i, s, endA)) == [r.m0, r.m2, r.m4]
    && Delivered(ResponderSent(u, r, s, endB)) == [i.m1, i.m3]
    && endA.completed == s.completed + [a] && endB.accepted == s.accepted + [b]
    && a.t == b.t && a.secret == b.secret
  }

  /**
   Each program, given the messages that the other one sends, sends the messages that the other one was given, up to
   the last; both sessions end with the same transcript and secret, and so with one key.
   */
  lemma {:induction false} ProgramsAnswerEachOther(u: Setup, s: System, coins: Coins, pathA: Option<Path>,
      pathB: Option<Path>)
    requires Supplied(u, s, pathA, pathB)
    ensures AnswerEachOther(u, s, FedInitiator(u, s, coins, pathB), FedResponder(u, s, coins, pathA),
                            TheCompletion(u, s, coins), TheResponse(u, s, coins))
  {
    hide InitiatorEnd, ResponderEnd, InitiatorSent, ResponderSent, M0, M1, M3Of, M4Of, TheResponse, TheStart,
         TheCompletion, TranscriptBytes;
    InitiatorFinishes(u, s, coins, pathA, pathB);
    ResponderFinishes(u, s, coins, pathA, pathB);
    SessionsAgree(u, s, coins);
  }
}
