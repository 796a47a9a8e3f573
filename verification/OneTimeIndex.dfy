/**
 The persisted one-time index: `nextq` survives crashes in NVS, everything else
 is lost. Integers are the firmware's uint32, so range ends can wrap.
 */
module OneTimeIndex {
  import opened Octets
  import opened Wrappers
  import opened LmsSpec

  datatype Config = Config(firstQ: u32, sessions: u32, reset: bool)

  /** A `putUInt`: it may fail, and a failed put may or may not have reached the flash. */
  datatype Put = Succeeded | Failed(reachedFlash: bool)

  type Nvs = Option<u32>

  function EndQ(c: Config): u32 {
    (c.firstQ + c.sessions) % 0x1_0000_0000
  }

  /** `getUInt("nextq", firstQ)` */
  function NextQ(nvs: Nvs, c: Config): u32 {
    if nvs.Some? then nvs.value else c.firstQ
  }

  function Store(nvs: Nvs, value: u32, put: Put): Nvs {
    if put == Failed(false) then nvs else Some(value)
  }

  predicate Available(c: Config, q: u32) {
    c.firstQ <= q < EndQ(c) && q < LMS_LEAVES
  }

  /** The range check at the start of `begin`. */
  predicate Admissible(c: Config) {
    c.sessions != 0 && EndQ(c) <= LMS_LEAVES
  }

  function NvsAfterBoot(nvs: Nvs, c: Config, put: Put): Nvs {
    if c.reset then Store(nvs, c.firstQ, put) else nvs
  }

  function NvsAfterReserve(nvs: Nvs, c: Config, put: Put): Nvs {
    var q := NextQ(nvs, c);
    if Available(c, q) then Store(nvs, q + 1, put) else nvs
  }

  function Reserved(nvs: Nvs, c: Config, put: Put): Option<u32> {
    var q := NextQ(nvs, c);
    if Available(c, q) && put == Succeeded then Some(q) else None
  }

  class Counter {
    var nvs: Nvs
    var config: Config

    constructor (nvs: Nvs, config: Config)
      ensures this.nvs == nvs && this.config == config
    {
      this.nvs, this.config := nvs, config;
    }

    method PutUInt(value: u32, put: Put) returns (written: bool)
      modifies this`nvs
      ensures nvs == Store(old(nvs), value, put) && written == (put == Succeeded)
    {
      if put != Failed(false) {
        nvs := Some(value);
      }
      written := put == Succeeded;
    }

    method InitializePersistentCounter(put: Put) returns (ok: bool)
      modifies this`nvs
      ensures nvs == NvsAfterBoot(old(nvs), config, put)
      ensures ok == Available(config, NextQ(nvs, config))
    {
      if config.reset {
        var _ := PutUInt(config.firstQ, put);
      }
      var nextQ := NextQ(nvs, config);
      if nextQ < config.firstQ || nextQ >= EndQ(config) || nextQ >= LMS_LEAVES {
        return false;
      }
      return true;
    }

    /** Persists q + 1 before q is handed out. */
    method ReserveQ(put: Put) returns (ok: bool, q: u32)
      modifies this`nvs
      ensures nvs == NvsAfterReserve(old(nvs), config, put)
      ensures ok == Reserved(old(nvs), config, put).Some?
      ensures ok ==> q == Reserved(old(nvs), config, put).value
    {
      var nextQ := NextQ(nvs, config);
      q := 0;
      if nextQ < config.firstQ || nextQ >= EndQ(config) || nextQ >= LMS_LEAVES {
        return false, q;
      }
      var written := PutUInt((nextQ + 1) % 0x1_0000_0000, put);
      if !written {
        return false, q;
      }
      return true, nextQ;
    }
  }

  // --- Whole runs ---------------------------------------------------------------------

  datatype Event =
    | Boot(config: Config, put: Put)
    | Reserve(put: Put)
    | Sign(message: Bytes)
    | Crash

  /** RAM of a running device: its configuration and the index reserved for the session at hand. */
  datatype Ram = Off | On(config: Config, pending: Option<u32>)

  /** `reserved` and `signed` are the history of everything handed out and signed, on all boots. */
  datatype Device = Device(nvs: Nvs, ram: Ram, reserved: seq<u32>, signed: seq<(u32, Bytes)>)

  const NEW_DEVICE := Device(None, Off, [], [])

  function Step(d: Device, e: Event): Device {
    match e
    case Boot(c, put) =>
      if !Admissible(c) then d.(ram := Off)
      else
        var nvs := NvsAfterBoot(d.nvs, c, put);
        d.(nvs := nvs, ram := if Available(c, NextQ(nvs, c)) then On(c, None) else Off)
    case Reserve(put) =>
      if d.ram.Off? then d
      else
        var q := Reserved(d.nvs, d.ram.config, put);
        d.(nvs := NvsAfterReserve(d.nvs, d.ram.config, put),
           ram := d.ram.(pending := q),
           reserved := if q.Some? then d.reserved + [q.value] else d.reserved)
    case Sign(message) =>
      if d.ram.Off? || d.ram.pending.None? then d
      else d.(ram := d.ram.(pending := None), signed := d.signed + [(d.ram.pending.value, message)])
    case Crash => d.(ram := Off)
  }

  function Run(d: Device, events: seq<Event>): Device {
    if events == [] then d else Step(Run(d, events[..|events| - 1]), events[|events| - 1])
  }

  predicate NeverResets(events: seq<Event>) {
    forall e :: e in events && e.Boot? ==> !e.config.reset
  }

  predicate Increasing(s: seq<u32>) {
    forall i, j :: 0 <= i < j < |s| ==> s[i] < s[j]
  }

  /** Every handed-out index lies below the persisted one, and the pending index has signed nothing yet. */
  predicate Fresh(d: Device) {
    && Increasing(d.reserved)
    && (forall q :: q in d.reserved ==> q < LMS_LEAVES && d.nvs.Some? && q < d.nvs.value)
    && (forall i, j :: 0 <= i < j < |d.signed| ==> d.signed[i].0 != d.signed[j].0)
    && (forall i :: 0 <= i < |d.signed| ==> d.signed[i].0 in d.reserved)
    && (d.ram.On? && d.ram.pending.Some? ==>
          && d.ram.pending.value in d.reserved
          && forall i :: 0 <= i < |d.signed| ==> d.signed[i].0 != d.ram.pending.value)
  }

  lemma StepKeepsFresh(d: Device, e: Event)
    requires Fresh(d) && (e.Boot? ==> !e.config.reset)
    ensures Fresh(Step(d, e))
  {
    if e.Reserve? && d.ram.On? {
      ReserveKeepsFresh(d, e.put);
    } else if e.Sign? {
      SignKeepsFresh(d, e.message);
    }
  }

  lemma ReserveKeepsFresh(d: Device, put: Put)
    requires Fresh(d) && d.ram.On?
    ensures Fresh(Step(d, Reserve(put)))
  {
    var d' := Step(d, Reserve(put));
    var q := Reserved(d.nvs, d.ram.config, put);
    if q.Some? {
      assert forall r :: r in d.reserved ==> r < q.value;
      assert d'.reserved == d.reserved + [q.value] && d'.reserved[|d.reserved|] == q.value;
      assert forall i :: 0 <= i < |d.reserved| ==> d.reserved[i] in d.reserved;
      forall i | 0 <= i < |d.signed| ensures d.signed[i].0 in d'.reserved && d.signed[i].0 < q.value {
        assert d.signed[i].0 in d.reserved;
      }
    }
  }

  lemma SignKeepsFresh(d: Device, message: Bytes)
    requires Fresh(d)
    ensures Fresh(Step(d, Sign(message)))
  {
  }

  /** Crash-safe one-time use, over every run without counter resets. */
  lemma {:induction false} IndicesAreUsedOnce(d: Device, events: seq<Event>)
    requires Fresh(d) && NeverResets(events)
    ensures Fresh(Run(d, events))
  {
    if events != [] {
      var before, e := events[..|events| - 1], events[|events| - 1];
      assert forall x :: x in before ==> x in events;
      IndicesAreUsedOnce(d, before);
      StepKeepsFresh(Run(d, before), e);
    }
  }

  // --- Every index of the range ---------------------------------------------------------------

  /**
   The range check adds in uint32 and may wrap. All the same a device comes up exactly if its range is not empty and
   ends inside the tree, and the index that comes next lies in it.
   */
  lemma {:induction false} BootsExactlyWithinTheTree(d: Device, c: Config, put: Put)
    ensures var next := if !c.reset || put == Failed(false) then NextQ(d.nvs, c) else c.firstQ;
      Step(d, Boot(c, put)).ram.On?
      <==> c.sessions > 0 && c.firstQ + c.sessions <= 1024 && c.firstQ <= next < c.firstQ + c.sessions
  {
    assert c.firstQ + c.sessions >= 0x1_0000_0000 ==> EndQ(c) == c.firstQ + c.sessions - 0x1_0000_0000;
  }

  /** One reservation that succeeds hands out the next index; behind the range none does. */
  lemma ReservesNext(d: Device, put: Put)
    requires d.ram.On?
    ensures var (c, q) := (d.ram.config, NextQ(d.nvs, d.ram.config));
      var d' := Step(d, Reserve(put));
      && d'.ram.On? && d'.ram.config == c
      && (c.firstQ <= q < EndQ(c) <= LMS_LEAVES && put == Succeeded ==>
            d'.reserved == d.reserved + [q] && d'.nvs == Some(q + 1))
      && (q >= EndQ(c) ==> d'.reserved == d.reserved && d'.nvs == d.nvs)
  {
  }

  /** A new device whose puts succeed hands out the configured range in order, without a gap, and then nothing more. */
  lemma {:induction false} RangeIsHandedOutInOrder(c: Config, n: nat)
    requires Admissible(c) && c.firstQ < EndQ(c) && n <= EndQ(c) - c.firstQ
    ensures var d := Run(NEW_DEVICE, [Boot(c, Succeeded)] + seq(n, _ => Reserve(Succeeded)));
      && d.reserved == seq(n, i requires 0 <= i < n => c.firstQ + i)
      && d.ram.On? && d.ram.config == c && NextQ(d.nvs, c) == c.firstQ + n
      && (n == EndQ(c) - c.firstQ ==>
            forall put :: Step(d, Reserve(put)).reserved == d.reserved && Step(d, Reserve(put)).nvs == d.nvs)
  {
    hide Step;
    var events := [Boot(c, Succeeded)] + seq(n, _ => Reserve(Succeeded));
    var d := Run(NEW_DEVICE, events);
    if n == 0 {
      assert events == [Boot(c, Succeeded)] && events[..0] == [];
      assert Run(NEW_DEVICE, events[..0]) == NEW_DEVICE;
      NewDeviceBoots(c);
    } else {
      RangeIsHandedOutInOrder(c, n - 1);
      assert events[..|events| - 1] == [Boot(c, Succeeded)] + seq(n - 1, _ => Reserve(Succeeded));
      ReservesNext(Run(NEW_DEVICE, events[..|events| - 1]), Succeeded);
    }
    forall put | n == EndQ(c) - c.firstQ
      ensures Step(d, Reserve(put)).reserved == d.reserved && Step(d, Reserve(put)).nvs == d.nvs
    {
      ReservesNext(d, put);
    }
  }

  lemma NewDeviceBoots(c: Config)
    requires Admissible(c) && c.firstQ < EndQ(c)
    ensures var d := Step(NEW_DEVICE, Boot(c, Succeeded));
      d.reserved == [] && d.ram == On(c, None) && NextQ(d.nvs, c) == c.firstQ
  {
  }

  /** A put that fails costs the index only if it reached the flash after all; otherwise the same index comes next. */
  lemma {:induction false} FailedPutLosesAtMostOne(d: Device, reachedFlash: bool)
    requires d.ram.On? && Available(d.ram.config, NextQ(d.nvs, d.ram.config))
    ensures var (c, q) := (d.ram.config, NextQ(d.nvs, d.ram.config));
      var next := if reachedFlash then q + 1 else q;
      var d' := Step(d, Reserve(Failed(reachedFlash)));
      && d'.reserved == d.reserved
      && Step(d', Reserve(Succeeded)).reserved
         == if next < EndQ(c) && next < LMS_LEAVES then d.reserved + [next] else d.reserved
  {
    var q := NextQ(d.nvs, d.ram.config);
    var d' := Step(d, Reserve(Failed(reachedFlash)));
    assert NextQ(d'.nvs, d.ram.config) == if reachedFlash then q + 1 else q;
  }

  // --- Resetting the counter ---------------------------------------------------------------

  predicate Distinct(s: seq<u32>) {
    forall i, j :: 0 <= i < j < |s| ==> s[i] != s[j]
  }

  /** Whatever happens after the boot, short of another reset, no index is handed out twice. */
  ghost predicate NeverRepeats(d: Device) {
    forall events :: NeverResets(events) ==> Distinct(Run(d, events).reserved)
  }

  /** A reset boot is safe exactly when every index handed out so far lies below the new first index. */
  lemma {:induction false} ResetIsSafeExactlyAboveHistory(d: Device, c: Config)
    requires Fresh(d) && c.reset && Admissible(c) && c.firstQ < EndQ(c)
    ensures NeverRepeats(Step(d, Boot(c, Succeeded))) <==> forall q :: q in d.reserved ==> q < c.firstQ
  {
    hide Run, Step;
    var booted := Device(Some(c.firstQ), On(c, None), d.reserved, d.signed);
    BootAfterReset(d, c);
    if forall q :: q in d.reserved ==> q < c.firstQ {
      forall events | NeverResets(events) ensures Distinct(Run(booted, events).reserved) {
        IndicesAreUsedOnce(booted, events);
      }
    } else {
      var q :| q in d.reserved && q >= c.firstQ;
      ReusesIndex(booted, c.firstQ, q);
    }
  }

  lemma BootAfterReset(d: Device, c: Config)
    requires c.reset && Admissible(c) && c.firstQ < EndQ(c)
    ensures Step(d, Boot(c, Succeeded)) == Device(Some(c.firstQ), On(c, None), d.reserved, d.signed)
  {
  }

  lemma ReusesIndex(d: Device, firstQ: u32, q: u32)
    requires d.nvs == Some(firstQ) && firstQ <= q < LMS_LEAVES && q in d.reserved
    ensures !NeverRepeats(d)
  {
    hide Run, Step;
    var wide := Config(firstQ, LMS_LEAVES - firstQ, false);
    var n := q - firstQ + 1;
    var events := [Boot(wide, Succeeded)] + seq(n, _ => Reserve(Succeeded));
    ReserveUpTo(d, wide, n);
    var after := Run(d, events).reserved;
    var i :| 0 <= i < |d.reserved| && d.reserved[i] == q;
    assert after[i] == q && after[|after| - 1] == q;
    assert NeverResets(events) && !Distinct(after);
  }

  lemma {:induction false} ReserveUpTo(d: Device, c: Config, n: nat)
    requires d.nvs == Some(c.firstQ) && !c.reset && Admissible(c) && c.firstQ < EndQ(c) && n <= EndQ(c) - c.firstQ
    ensures var after := Run(d, [Boot(c, Succeeded)] + seq(n, _ => Reserve(Succeeded)));
      && after.nvs == Some(c.firstQ + n) && after.ram.On? && after.ram.config == c
      && |after.reserved| == |d.reserved| + n && d.reserved <= after.reserved
      && (n > 0 ==> after.reserved[|after.reserved| - 1] == c.firstQ + n - 1)
  {
    var events := [Boot(c, Succeeded)] + seq(n, _ => Reserve(Succeeded));
    if n == 0 {
      assert events == [Boot(c, Succeeded)] && events[..0] == [];
      assert Run(d, events[..0]) == d;
    } else {
      ReserveUpTo(d, c, n - 1);
      assert events[..|events| - 1] == [Boot(c, Succeeded)] + seq(n - 1, _ => Reserve(Succeeded));
    }
  }

  /** The laboratory reset switch after one session: index 0 signs two different messages. */
  lemma {:induction false} ResetSignsTwice(first: Bytes, second: Bytes)
    ensures var boot := Boot(Config(0, 500, true), Succeeded);
      Run(NEW_DEVICE, [boot, Reserve(Succeeded), Sign(first), boot, Reserve(Succeeded), Sign(second)]).signed
      == [(0, first), (0, second)]
  {
    hide Run;
    var c := Config(0, 500, true);
    var boot := Boot(c, Succeeded);
    var events := [boot, Reserve(Succeeded), Sign(first), boot, Reserve(Succeeded), Sign(second)];
    RunOfNothing(NEW_DEVICE, events);
    RunUnfolds(NEW_DEVICE, events, 0);
    assert Run(NEW_DEVICE, events[..1]) == Device(Some(0), On(c, None), [], []);
    RunUnfolds(NEW_DEVICE, events, 1);
    assert Run(NEW_DEVICE, events[..2]) == Device(Some(1), On(c, Some(0)), [0], []);
    RunUnfolds(NEW_DEVICE, events, 2);
    assert Run(NEW_DEVICE, events[..3]) == Device(Some(1), On(c, None), [0], [(0, first)]);
    RunUnfolds(NEW_DEVICE, events, 3);
    assert Run(NEW_DEVICE, events[..4]) == Device(Some(0), On(c, None), [0], [(0, first)]);
    RunUnfolds(NEW_DEVICE, events, 4);
    assert Run(NEW_DEVICE, events[..5]) == Device(Some(1), On(c, Some(0)), [0, 0], [(0, first)]);
    RunUnfolds(NEW_DEVICE, events, 5);
    assert events[..6] == events;
  }

  lemma RunOfNothing(d: Device, events: seq<Event>)
    ensures Run(d, events[..0]) == d
  {
  }

  lemma RunUnfolds(d: Device, events: seq<Event>, n: nat)
    requires n < |events|
    ensures Run(d, events[..n + 1]) == Step(Run(d, events[..n]), events[n])
  {
    assert events[..n + 1][..n] == events[..n];
  }
}
