/**
 Two devices at once: any interleaving of what their programs do, boot after boot and with power cut at any
 step, is a run of the step machine. So what the agreement theorems say of runs holds of the programs.
 */
module Programs {
  import opened Wrappers
  import opened OneTimeIndex
  import opened Handshake
  import opened Agreement
  import opened Sessions

  // --- The two sides ----------------------------------------------------------------------

  predicate OfA(action: Action) {
    match action
    case BootA(_, _) => true
    case CrashA => true
    case AbandonA => true
    case BeginA(_) => true
    case DeliverM1(_, _, _) => true
    case SendM2(_) => true
    case DeliverM3(_, _) => true
    case _ => false
  }

  datatype SideA = SideA(nvs: Nvs, ram: Option<Config>, phase: PhaseA, started: seq<InitiatorStart>,
    completed: seq<InitiatorRun>)
  datatype SideB = SideB(nvs: Nvs, ram: Option<Config>, phase: PhaseB, responded: seq<ResponderRun>,
    accepted: seq<ResponderRun>)

  function PartA(s: System): SideA { SideA(s.nvsA, s.ramA, s.a, s.started, s.completed) }
  function PartB(s: System): SideB { SideB(s.nvsB, s.ramB, s.b, s.responded, s.accepted) }

  /** An action changes one side, and how depends on that side alone. */
  lemma ActionOfA(u: Setup, s: System, s': System, action: Action)
    requires OfA(action) && PartA(s) == PartA(s')
    ensures Enabled(s, action) <==> Enabled(s', action)
    ensures Enabled(s, action) ==>
      PartB(Act(u, s, action)) == PartB(s) && PartA(Act(u, s, action)) == PartA(Act(u, s', action))
  {
    hide Wire.Sid0Input, ValidM1, BuildM2, AcceptsM3, CompletionOf, TranscriptBytes, Wire.M0;
  }

  lemma ActionOfB(u: Setup, s: System, s': System, action: Action)
    requires !OfA(action) && PartB(s) == PartB(s')
    ensures Enabled(s, action) <==> Enabled(s', action)
    ensures Enabled(s, action) ==>
      PartA(Act(u, s, action)) == PartA(s) && PartB(Act(u, s, action)) == PartB(Act(u, s', action))
  {
    hide Wire.Sid0Input, ValidM0, BuildInner, AcceptsM2, AcceptsM4, TranscriptBytes, Wire.M1, ResponseOf;
  }

  // --- Runs of action lists ----------------------------------------------------------------

  function Do(u: Setup, s: System, action: Action): System {
    if Enabled(s, action) then Act(u, s, action) else s
  }

  function Run(u: Setup, s: System, actions: seq<Action>): System
    decreases |actions|
  {
    if actions == [] then s else Run(u, Do(u, s, actions[0]), actions[1..])
  }

  /** Every action is enabled when its turn comes. */
  predicate Runs(u: Setup, s: System, actions: seq<Action>)
    decreases |actions|
  {
    actions != [] ==> Enabled(s, actions[0]) && Runs(u, Act(u, s, actions[0]), actions[1..])
  }

  lemma {:induction false} RunInParts(u: Setup, s: System, xs: seq<Action>, ys: seq<Action>)
    ensures Run(u, s, xs + ys) == Run(u, Run(u, s, xs), ys)
    ensures Runs(u, s, xs + ys) <==> Runs(u, s, xs) && Runs(u, Run(u, s, xs), ys)
    decreases |xs|
  {
    hide Act, Enabled;
    if xs == [] {
      assert xs + ys == ys;
    } else {
      assert (xs + ys)[1..] == xs[1..] + ys;
      RunInParts(u, Do(u, s, xs[0]), xs[1..], ys);
    }
  }

  /** The actions of one side, in order. */
  function Of(actions: seq<Action>, a: bool): seq<Action>
    decreases |actions|
  {
    if actions == [] then []
    else (if OfA(actions[0]) == a then [actions[0]] else []) + Of(actions[1..], a)
  }

  /** Interleaved, each side goes through what it goes through alone. */
  lemma {:induction false} SidesRunAlone(u: Setup, s: System, sA: System, sB: System, actions: seq<Action>)
    requires PartA(s) == PartA(sA) && PartB(s) == PartB(sB)
    ensures PartA(Run(u, s, actions)) == PartA(Run(u, sA, Of(actions, true)))
    ensures PartB(Run(u, s, actions)) == PartB(Run(u, sB, Of(actions, false)))
    ensures Runs(u, sA, Of(actions, true)) && Runs(u, sB, Of(actions, false)) ==> Runs(u, s, actions)
    decreases |actions|
  {
    hide Act, Enabled, OfA, PartA, PartB;
    if actions != [] {
      var action, rest := actions[0], actions[1..];
      if OfA(action) {
        ActionOfA(u, s, sA, action);
        assert Of(actions, true) == [action] + Of(rest, true) && Of(actions, false) == Of(rest, false);
        assert ([action] + Of(rest, true))[1..] == Of(rest, true);
        SidesRunAlone(u, Do(u, s, action), Do(u, sA, action), sB, rest);
      } else {
        ActionOfB(u, s, sB, action);
        assert Of(actions, false) == [action] + Of(rest, false) && Of(actions, true) == Of(rest, true);
        assert ([action] + Of(rest, false))[1..] == Of(rest, false);
        SidesRunAlone(u, Do(u, s, action), sA, Do(u, sB, action), rest);
      }
    }
  }

  // --- What the programs do ------------------------------------------------------------------

  /** The actions of `runInitiatorSession` on these inputs. */
  function InitiatorActions(u: Setup, s: System, i: InitiatorInputs): seq<Action>
    requires s.ramA.Some? && s.a.IdleA?
  {
    if i.m1.None? then [BeginA(i.nonceA), AbandonA]
    else
      [BeginA(i.nonceA), DeliverM1(i.m1.value, i.sk, i.put)] + InitiatorClosing(u, AfterM1(u, s, i), i)
  }

  function InitiatorClosing(u: Setup, s2: System, i: InitiatorInputs): seq<Action> {
    if s2.a.IdleA? then []
    else if !i.pufOk then [AbandonA]
    else [SendM2(i.c), if i.m3.None? || !HasPath(u, i.path) then AbandonA else DeliverM3(i.m3.value, PathOf(i.path))]
  }

  function ResponderActions(u: Setup, s: System, i: ResponderInputs): seq<Action>
    requires s.ramB.Some? && s.b.IdleB?
  {
    if i.m0.None? then []
    else
      [DeliverM0(i.m0.value, i.nonceB)]
      + ResponderMiddle(u, AfterM0(u, s, i), i) + ResponderClosing(AfterM2(u, s, i), i)
  }

  function ResponderMiddle(u: Setup, s1: System, i: ResponderInputs): seq<Action> {
    if s1.b.IdleB? then []
    else [if i.m2.None? || !HasPath(u, i.path) then AbandonB else DeliverM2(i.m2.value, PathOf(i.path), i.coins, i.put)]
  }

  function ResponderClosing(s2: System, i: ResponderInputs): seq<Action> {
    if s2.b.IdleB? then []
    else if !i.pufOk then [AbandonB]
    else [SendM3(i.c), if i.m4.None? then AbandonB else DeliverM4(i.m4.value)]
  }

  lemma One(u: Setup, s: System, x: Action)
    requires Enabled(s, x)
    ensures Runs(u, s, [x]) && Run(u, s, [x]) == Act(u, s, x)
  {
    hide Act, Enabled;
    assert [x][1..] == [];
  }

  lemma Two(u: Setup, s: System, x: Action, y: Action)
    requires Enabled(s, x) && Enabled(Act(u, s, x), y)
    ensures Runs(u, s, [x, y]) && Run(u, s, [x, y]) == Act(u, Act(u, s, x), y)
  {
    hide Act, Enabled;
    One(u, s, x);
    One(u, Act(u, s, x), y);
    RunInParts(u, s, [x], [y]);
    assert [x] + [y] == [x, y];
  }

  /** The session that the device method performs from s is this list of actions. */
  lemma {:induction false} InitiatorSessionIsRun(u: Setup, s: System, i: InitiatorInputs)
    requires s.ramA.Some? && s.a.IdleA?
    ensures Runs(u, s, InitiatorActions(u, s, i)) && Run(u, s, InitiatorActions(u, s, i)) == InitiatorEnd(u, s, i)
  {
    hide Run, Runs, BuildM2, AcceptsM3, ValidM1, Wire.Sid0Input, Wire.M0, CompletionOf, TranscriptBytes;
    AfterM1Starts(u, s, i);
    if i.m1.None? {
      Two(u, s, BeginA(i.nonceA), AbandonA);
    } else {
      Two(u, s, BeginA(i.nonceA), DeliverM1(i.m1.value, i.sk, i.put));
      InitiatorClosingIsRun(u, AfterM1(u, s, i), s, i);
      RunInParts(u, s, [BeginA(i.nonceA), DeliverM1(i.m1.value, i.sk, i.put)],
        InitiatorClosing(u, AfterM1(u, s, i), i));
    }
  }

  lemma InitiatorClosingIsRun(u: Setup, s2: System, s: System, i: InitiatorInputs)
    requires s.ramA.Some? && s.a.IdleA? && s2 == AfterM1(u, s, i)
    ensures Runs(u, s2, InitiatorClosing(u, s2, i)) && Run(u, s2, InitiatorClosing(u, s2, i)) == InitiatorEnd(u, s, i)
  {
    hide AfterM1, BuildM2, AcceptsM3, CompletionOf, TranscriptBytes;
    AfterM1Starts(u, s, i);
    if s2.a.IdleA? {
    } else if !i.pufOk {
      One(u, s2, AbandonA);
    } else {
      var last := if i.m3.None? || !HasPath(u, i.path) then AbandonA else DeliverM3(i.m3.value, PathOf(i.path));
      Two(u, s2, SendM2(i.c), last);
    }
  }

  lemma {:induction false} ResponderSessionIsRun(u: Setup, s: System, i: ResponderInputs)
    requires s.ramB.Some? && s.b.IdleB?
    ensures Runs(u, s, ResponderActions(u, s, i)) && Run(u, s, ResponderActions(u, s, i)) == ResponderEnd(u, s, i)
  {
    hide AfterM0, AfterM2, ResponderEnd, Act, Enabled, ResponderClosing, ResponderMiddle;
    if i.m0.None? {
      NoM0(u, s, i);
    } else {
      var opening, middle := [DeliverM0(i.m0.value, i.nonceB)], ResponderMiddle(u, AfterM0(u, s, i), i);
      var closing := ResponderClosing(AfterM2(u, s, i), i);
      OpeningIsRun(u, s, i);
      MiddleIsRun(u, s, i);
      ClosingIsRun(u, s, i);
      RunInParts(u, s, opening, middle);
      RunInParts(u, s, opening + middle, closing);
    }
  }

  lemma NoM0(u: Setup, s: System, i: ResponderInputs)
    requires s.ramB.Some? && s.b.IdleB? && i.m0.None?
    ensures ResponderEnd(u, s, i) == s
  {
  }

  lemma OpeningIsRun(u: Setup, s: System, i: ResponderInputs)
    requires s.ramB.Some? && s.b.IdleB? && i.m0.Some?
    ensures var opening := [DeliverM0(i.m0.value, i.nonceB)];
      Runs(u, s, opening) && Run(u, s, opening) == AfterM0(u, s, i)
  {
    hide M0ToB;
    One(u, s, DeliverM0(i.m0.value, i.nonceB));
  }

  lemma MiddleIsRun(u: Setup, s: System, i: ResponderInputs)
    requires s.ramB.Some? && s.b.IdleB?
    ensures var s1 := AfterM0(u, s, i);
      Runs(u, s1, ResponderMiddle(u, s1, i)) && Run(u, s1, ResponderMiddle(u, s1, i)) == AfterM2(u, s, i)
  {
    hide AfterM0, M2ToB, ValidM0;
    AfterM0Idles(u, s, i);
    var s1 := AfterM0(u, s, i);
    if !s1.b.IdleB? {
      One(u, s1, if i.m2.None? || !HasPath(u, i.path) then AbandonB
        else DeliverM2(i.m2.value, PathOf(i.path), i.coins, i.put));
    }
  }

  lemma ClosingIsRun(u: Setup, s: System, i: ResponderInputs)
    requires s.ramB.Some? && s.b.IdleB?
    ensures var s2 := AfterM2(u, s, i);
      Runs(u, s2, ResponderClosing(s2, i)) && Run(u, s2, ResponderClosing(s2, i)) == ResponderEnd(u, s, i)
  {
    hide AfterM2, AfterM0, ResponseOf, AcceptsM4, TranscriptBytes;
    AfterM2Starts(u, s, i);
    var s2 := AfterM2(u, s, i);
    if s2.b.IdleB? {
    } else if !i.pufOk {
      One(u, s2, AbandonB);
    } else {
      Two(u, s2, SendM3(i.c), if i.m4.None? then AbandonB else DeliverM4(i.m4.value));
    }
  }

  // --- Whole programs ----------------------------------------------------------------------------

  /** Power comes on; a session runs; a session is cut off by a loss of power after some of its steps. */
  datatype Episode<Inputs> = PowerUp(config: Config, put: Put) | Session(i: Inputs) | Cut(i: Inputs, steps: nat)

  function Cutoff(actions: seq<Action>, steps: nat): seq<Action> {
    if steps <= |actions| then actions[..steps] else actions
  }

  function EpisodeA(u: Setup, s: System, e: Episode<InitiatorInputs>): seq<Action> {
    match e
    case PowerUp(config, put) => [BootA(config, put)]
    case Session(i) => if s.ramA.Some? && s.a.IdleA? then InitiatorActions(u, s, i) else []
    case Cut(i, steps) =>
      (if s.ramA.Some? && s.a.IdleA? then Cutoff(InitiatorActions(u, s, i), steps) else []) + [CrashA]
  }

  function EpisodeB(u: Setup, s: System, e: Episode<ResponderInputs>): seq<Action> {
    match e
    case PowerUp(config, put) => [BootB(config, put)]
    case Session(i) => if s.ramB.Some? && s.b.IdleB? then ResponderActions(u, s, i) else []
    case Cut(i, steps) =>
      (if s.ramB.Some? && s.b.IdleB? then Cutoff(ResponderActions(u, s, i), steps) else []) + [CrashB]
  }

  function ProgramA(u: Setup, s: System, episodes: seq<Episode<InitiatorInputs>>): seq<Action>
    decreases |episodes|
  {
    if episodes == [] then []
    else
      var first := EpisodeA(u, s, episodes[0]);
      first + ProgramA(u, Run(u, s, first), episodes[1..])
  }

  function ProgramB(u: Setup, s: System, episodes: seq<Episode<ResponderInputs>>): seq<Action>
    decreases |episodes|
  {
    if episodes == [] then []
    else
      var first := EpisodeB(u, s, episodes[0]);
      first + ProgramB(u, Run(u, s, first), episodes[1..])
  }

  lemma CutoffRuns(u: Setup, s: System, actions: seq<Action>, steps: nat)
    requires Runs(u, s, actions)
    ensures Runs(u, s, Cutoff(actions, steps))
  {
    hide Run, Runs;
    if steps <= |actions| {
      assert actions == actions[..steps] + actions[steps..];
      RunInParts(u, s, actions[..steps], actions[steps..]);
    }
  }

  lemma {:induction false} ProgramRunsA(u: Setup, s: System, episodes: seq<Episode<InitiatorInputs>>)
    ensures Runs(u, s, ProgramA(u, s, episodes))
    decreases |episodes|
  {
    hide Run, Runs, InitiatorActions, Act, Cutoff;
    if episodes == [] {
      NothingRuns(u, s);
    } else {
      var first := EpisodeA(u, s, episodes[0]);
      match episodes[0] {
        case PowerUp(config, put) => One(u, s, BootA(config, put));
        case Session(i) =>
          NothingRuns(u, s);
          if s.ramA.Some? && s.a.IdleA? { InitiatorSessionIsRun(u, s, i); }
        case Cut(i, steps) =>
          var part := if s.ramA.Some? && s.a.IdleA? then Cutoff(InitiatorActions(u, s, i), steps) else [];
          NothingRuns(u, s);
          if s.ramA.Some? && s.a.IdleA? {
            InitiatorSessionIsRun(u, s, i);
            CutoffRuns(u, s, InitiatorActions(u, s, i), steps);
          }
          One(u, Run(u, s, part), CrashA);
          RunInParts(u, s, part, [CrashA]);
      }
      ProgramRunsA(u, Run(u, s, first), episodes[1..]);
      RunInParts(u, s, first, ProgramA(u, Run(u, s, first), episodes[1..]));
    }
  }

  lemma {:induction false} ProgramRunsB(u: Setup, s: System, episodes: seq<Episode<ResponderInputs>>)
    ensures Runs(u, s, ProgramB(u, s, episodes))
    decreases |episodes|
  {
    hide Run, Runs, ResponderActions, Act, Cutoff;
    if episodes == [] {
      NothingRuns(u, s);
    } else {
      var first := EpisodeB(u, s, episodes[0]);
      match episodes[0] {
        case PowerUp(config, put) => One(u, s, BootB(config, put));
        case Session(i) =>
          NothingRuns(u, s);
          if s.ramB.Some? && s.b.IdleB? { ResponderSessionIsRun(u, s, i); }
        case Cut(i, steps) =>
          var part := if s.ramB.Some? && s.b.IdleB? then Cutoff(ResponderActions(u, s, i), steps) else [];
          NothingRuns(u, s);
          if s.ramB.Some? && s.b.IdleB? {
            ResponderSessionIsRun(u, s, i);
            CutoffRuns(u, s, ResponderActions(u, s, i), steps);
          }
          One(u, Run(u, s, part), CrashB);
          RunInParts(u, s, part, [CrashB]);
      }
      ProgramRunsB(u, Run(u, s, first), episodes[1..]);
      RunInParts(u, s, first, ProgramB(u, Run(u, s, first), episodes[1..]));
    }
  }

  lemma NothingRuns(u: Setup, s: System)
    ensures Runs(u, s, []) && Run(u, s, []) == s
  {
  }

  // --- Agreement of the programs -------------------------------------------------------------------

  /** The assumptions of the agreement theorems, at every step of an interleaving. */
  ghost predicate Assumed(u: Setup, actions: seq<Action>) {
    forall n :: 0 <= n < |actions| && Enabled(Run(u, INITIAL, actions[..n]), actions[n]) ==>
      Admitted(u, Run(u, INITIAL, actions[..n]), actions[n])
  }

  lemma RunStep(u: Setup, actions: seq<Action>, n: nat)
    requires n < |actions| && Runs(u, INITIAL, actions)
    ensures var s := Run(u, INITIAL, actions[..n]);
      Enabled(s, actions[n]) && Run(u, INITIAL, actions[..n + 1]) == Act(u, s, actions[n])
  {
    hide Act, Enabled, Run, Runs;
    var s, x := Run(u, INITIAL, actions[..n]), actions[n];
    assert actions == actions[..n] + actions[n..] && actions[n..] == [x] + actions[n + 1..];
    RunInParts(u, INITIAL, actions[..n], actions[n..]);
    RunInParts(u, s, [x], actions[n + 1..]);
    FirstIsEnabled(u, s, x);
    One(u, s, x);
    assert actions[..n + 1] == actions[..n] + [x];
    RunInParts(u, INITIAL, actions[..n], [x]);
  }

  lemma FirstIsEnabled(u: Setup, s: System, x: Action)
    requires Runs(u, s, [x])
    ensures Enabled(s, x)
  {
    hide Act, Enabled;
  }

  /** Interleaved programs are runs in the sense of the agreement theorems. */
  lemma {:induction false} InterleavingIsRun(
    u: Setup, programA: seq<Episode<InitiatorInputs>>, programB: seq<Episode<ResponderInputs>>, actions: seq<Action>)
    returns (states: seq<System>)
    requires Of(actions, true) == ProgramA(u, INITIAL, programA) && Of(actions, false) == ProgramB(u, INITIAL, programB)
    requires Assumed(u, actions)
    ensures IsRun(u, states, actions) && states[|actions|] == Run(u, INITIAL, actions)
  {
    hide Act, Enabled, Run, Runs, Of, ProgramA, ProgramB, Admitted;
    ProgramRunsA(u, INITIAL, programA);
    ProgramRunsB(u, INITIAL, programB);
    SidesRunAlone(u, INITIAL, INITIAL, INITIAL, actions);
    states := seq(|actions| + 1, n requires 0 <= n <= |actions| => Run(u, INITIAL, actions[..n]));
    NothingRuns(u, INITIAL);
    assert actions[..0] == [] && actions[..|actions|] == actions;
    forall n | 0 <= n < |actions|
      ensures Enabled(states[n], actions[n])
           && Admitted(u, states[n], actions[n]) && states[n + 1] == Act(u, states[n], actions[n])
    {
      RunStep(u, actions, n);
    }
  }

  /**
   Injective agreement of the programs: whatever two devices go through on their own, and however the
   network and the power supply interleave it, the acceptances of one and the completions of the other
   agree one to one.
   */
  lemma {:induction false} ProgramsAgree(
    u: Setup, programA: seq<Episode<InitiatorInputs>>, programB: seq<Episode<ResponderInputs>>, actions: seq<Action>)
    requires KemCorrect(u) && Assumed(u, actions)
    requires Of(actions, true) == ProgramA(u, INITIAL, programA) && Of(actions, false) == ProgramB(u, INITIAL, programB)
    ensures var a := Run(u, INITIAL, ProgramA(u, INITIAL, programA));
      var b := Run(u, INITIAL, ProgramB(u, INITIAL, programB));
      && (forall run :: run in b.accepted ==> OneInitiator(a.completed, run))
      && (forall run :: run in a.completed ==> OneResponder(b.responded, run))
      && (forall run :: run in a.completed ==>
            forall i :: 0 <= i < |b.accepted| && Agree(run, b.accepted[i]) ==> OnlyFor(b.accepted, run, i))
      && (forall run :: run in b.responded ==>
            forall j :: 0 <= j < |a.completed| && Agree(a.completed[j], run) ==> OnlyAt(a.completed, run, j))
  {
    hide Act, Enabled, Run, Of, ProgramA, ProgramB, Assumed, OneInitiator, OneResponder, OnlyFor, OnlyAt, IsRun,
         KemCorrect;
    var states := InterleavingIsRun(u, programA, programB, actions);
    ResponderInjectiveAgreement(u, states, actions);
    InitiatorInjectiveAgreement(u, states, actions);
    SidesRunAlone(u, INITIAL, INITIAL, INITIAL, actions);
  }
}
