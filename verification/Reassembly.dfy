/**
 The receiver of the fragmented transport as a fold over what arrives: it
 latches onto the first acceptable datagram and keeps the first payload of
 every fragment index of that message.
 */
module Reassembly {
  import opened Octets
  import opened Wrappers
  import opened Fragments

  datatype Arrival = Quiet | Datagram(packet: Bytes, ip: u32, port: u16)

  /** kind 0xff and session 0 are wildcards. */
  datatype Expectation = Expectation(kind: byte, session: u32, capacity: u16)

  /** The header and source to which the receiver has latched. */
  datatype Origin = Origin(header: Header, ip: u32, port: u16)

  datatype State = Listening | Collecting(origin: Origin, got: map<nat, Bytes>)

  predicate Wanted(e: Expectation, f: Fragment) {
    && (e.kind != 0xff ==> f.header.kind == e.kind)
    && (e.session != 0 ==> f.header.session == e.session)
  }

  predicate Latchable(e: Expectation, a: Arrival) {
    && a.Datagram? && Decode(a.packet).Some?
    && Wanted(e, Decode(a.packet).value)
    && Decode(a.packet).value.header.total <= e.capacity
  }

  function OriginOf(a: Arrival): Origin
    requires a.Datagram? && Decode(a.packet).Some?
  {
    Origin(Decode(a.packet).value.header, a.ip, a.port)
  }

  /** A datagram of the latched message, whether or not its payload fits. */
  predicate Matches(o: Origin, a: Arrival) {
    a.Datagram? && Decode(a.packet).Some? && OriginOf(a) == o
  }

  predicate Fits(f: Fragment) {
    f.index * FRAGMENT_PAYLOAD_BYTES + |f.payload| <= f.header.total
  }

  function Keep(got: map<nat, Bytes>, f: Fragment): map<nat, Bytes> {
    if !Fits(f) || f.index in got then got else got[f.index as nat := f.payload]
  }

  function Deliver(e: Expectation, s: State, a: Arrival): State {
    if a.Quiet? || Decode(a.packet).None? || !Wanted(e, Decode(a.packet).value) then s
    else
      var f := Decode(a.packet).value;
      match s
      case Listening =>
        if f.header.total > e.capacity then s else Collecting(OriginOf(a), Keep(map[], f))
      case Collecting(o, got) =>
        if OriginOf(a) != o then s else Collecting(o, Keep(got, f))
  }

  function After(e: Expectation, arrivals: seq<Arrival>): State {
    if arrivals == [] then Listening
    else Deliver(e, After(e, arrivals[..|arrivals| - 1]), arrivals[|arrivals| - 1])
  }

  /** `completed == activeCount` */
  predicate Complete(s: State) {
    s.Collecting? && |s.got| == s.origin.header.count
  }

  // --- Where every kept payload comes from -------------------------------------------

  /** Everything kept is the fitting payload of a datagram of the latched message. */
  predicate Provenance(s: State, arrivals: seq<Arrival>) {
    s.Collecting? ==>
      && 0 < s.origin.header.count <= MAX_FRAGMENTS
      && s.origin.header.total <= MAX_PROTOCOL_MESSAGE_BYTES
      && forall i :: i in s.got ==>
        && i < s.origin.header.count && |s.got[i]| <= FRAGMENT_PAYLOAD_BYTES
        && i * FRAGMENT_PAYLOAD_BYTES + |s.got[i]| <= s.origin.header.total
        && exists k :: 0 <= k < |arrivals| && Carries(s.origin, arrivals[k], i, s.got[i])
  }

  predicate Carries(o: Origin, a: Arrival, index: nat, payload: Bytes) {
    Matches(o, a) && Decode(a.packet).value.index == index && Decode(a.packet).value.payload == payload
  }

  lemma {:induction false} KeptPayloadsArrived(e: Expectation, arrivals: seq<Arrival>)
    ensures Provenance(After(e, arrivals), arrivals)
  {
    hide Decode;
    if arrivals != [] {
      var before, a := arrivals[..|arrivals| - 1], arrivals[|arrivals| - 1];
      KeptPayloadsArrived(e, before);
      var s, s' := After(e, before), After(e, arrivals);
      if s'.Collecting? {
        forall i | i in s'.got
          ensures exists k :: 0 <= k < |arrivals| && Carries(s'.origin, arrivals[k], i, s'.got[i])
        {
          if s.Collecting? && i in s.got {
            var k :| 0 <= k < |before| && Carries(s.origin, before[k], i, s.got[i]);
            assert Carries(s'.origin, arrivals[k], i, s'.got[i]);
          } else {
            assert Carries(s'.origin, arrivals[|arrivals| - 1], i, s'.got[i]);
          }
        }
      }
    }
  }

  /** Latched at position `at`, and holding every fitting fragment index seen since. */
  predicate LatchedAt(e: Expectation, s: State, arrivals: seq<Arrival>, at: nat) {
    && s.Collecting? && at < |arrivals|
    && Latchable(e, arrivals[at]) && OriginOf(arrivals[at]) == s.origin
    && (forall k :: 0 <= k < at ==> !Latchable(e, arrivals[k]))
    && (forall k :: at <= k < |arrivals| && Matches(s.origin, arrivals[k]) && Fits(Decode(arrivals[k].packet).value)
          ==> Decode(arrivals[k].packet).value.index in s.got)
  }

  lemma {:induction false} LatchesOnFirst(e: Expectation, arrivals: seq<Arrival>)
    ensures After(e, arrivals) == Listening <==> forall k :: 0 <= k < |arrivals| ==> !Latchable(e, arrivals[k])
    ensures After(e, arrivals).Collecting? ==> exists at: nat :: LatchedAt(e, After(e, arrivals), arrivals, at)
  {
    hide Decode;
    if arrivals != [] {
      var before, a := arrivals[..|arrivals| - 1], arrivals[|arrivals| - 1];
      LatchesOnFirst(e, before);
      var s, s' := After(e, before), After(e, arrivals);
      if s.Listening? {
        if s'.Collecting? {
          assert LatchedAt(e, s', arrivals, |arrivals| - 1);
        }
      } else {
        var at: nat :| LatchedAt(e, s, before, at);
        assert LatchedAt(e, s', arrivals, at);
      }
    }
  }

  /** The latch is what was asked for: kind 0xff and session 0 accept any, and the message fits the buffer. */
  lemma {:induction false} LatchedAsAskedFor(e: Expectation, arrivals: seq<Arrival>)
    ensures var s := After(e, arrivals);
      s.Collecting? ==>
        && (e.kind == 0xff || s.origin.header.kind == e.kind)
        && (e.session == 0 || s.origin.header.session == e.session)
        && s.origin.header.total <= e.capacity
  {
    hide Decode;
    if arrivals != [] {
      LatchedAsAskedFor(e, arrivals[..|arrivals| - 1]);
    }
  }

  /** A frame that answers what was asked, and fits. */
  predicate IsAnswer(e: Expectation, a: Arrival, f: Fragment) {
    && WellFormed(f) && a.Datagram? && a.packet == Encode(f)
    && (e.kind == 0xff || e.kind == f.header.kind) && (e.session == 0 || e.session == f.header.session)
    && f.header.total <= e.capacity
  }

  lemma LatchableIsAnswer(e: Expectation, a: Arrival)
    ensures Latchable(e, a) <==> exists f :: IsAnswer(e, a, f)
  {
    hide Encode, WellFormed;
    if Latchable(e, a) {
      DecodeIsCanonical(a.packet);
      assert IsAnswer(e, a, Decode(a.packet).value);
    }
    if f :| IsAnswer(e, a, f) {
      DecodeEncode(f);
    }
  }

  /** And nothing that was asked for is passed over: the first such frame is latched onto. */
  lemma {:induction false} LatchesOnFirstAnswer(e: Expectation, arrivals: seq<Arrival>, a: Arrival, f: Fragment)
    requires IsAnswer(e, a, f)
    requires forall k :: 0 <= k < |arrivals| ==> forall f' :: !IsAnswer(e, arrivals[k], f')
    ensures After(e, arrivals) == Listening
    ensures var s := After(e, arrivals + [a]); s.Collecting? && s.origin == Origin(f.header, a.ip, a.port)
  {
    hide Decode, Encode, WellFormed;
    forall k | 0 <= k < |arrivals| ensures !Latchable(e, arrivals[k]) {
      LatchableIsAnswer(e, arrivals[k]);
    }
    LatchesOnFirst(e, arrivals);
    DecodeEncode(f);
    assert (arrivals + [a])[..|arrivals|] == arrivals;
  }

  // --- Completion means every index -----------------------------------------------------

  lemma {:induction false} FullExactlyWhenAllPresent(keys: set<nat>, n: nat)
    requires forall i :: i in keys ==> i < n
    ensures |keys| <= n
    ensures |keys| == n <==> forall i: nat :: i < n ==> i in keys
  {
    if n == 0 {
      assert keys == {};
    } else {
      var rest := keys - {n - 1};
      FullExactlyWhenAllPresent(rest, n - 1);
      if n - 1 in keys {
        assert keys == rest + {n - 1};
        assert |keys| == |rest| + 1;
      } else {
        assert keys == rest;
      }
    }
  }

  /** The i-th fragment of the message is among the arrivals, from the latched source. */
  predicate Arrived(o: Origin, kind: byte, session: u32, data: Bytes, arrivals: seq<Arrival>, i: nat)
    requires Sendable(data) && i < FragmentCount(|data|)
  {
    Datagram(Encode(FragmentOf(kind, session, data, i)), o.ip, o.port) in arrivals
  }

  /** All datagrams of the latched header and source stem from one `sendMessage`. */
  predicate OneSender(o: Origin, kind: byte, session: u32, data: Bytes, arrivals: seq<Arrival>)
    requires Sendable(data)
  {
    forall a :: a in arrivals && Matches(o, a) ==>
      exists i: nat :: i < FragmentCount(|data|) && a.packet == Encode(FragmentOf(kind, session, data, i))
  }

  lemma SentFragment(kind: byte, session: u32, data: Bytes, a: Arrival, o: Origin)
    requires Sendable(data) && Matches(o, a)
    requires exists i: nat :: i < FragmentCount(|data|) && a.packet == Encode(FragmentOf(kind, session, data, i))
    ensures o.header == HeaderOf(kind, session, data)
    ensures var f := Decode(a.packet).value;
      Fits(f) && f == FragmentOf(kind, session, data, f.index)
  {
    hide Encode, Decode;
    var i: nat :| i < FragmentCount(|data|) && a.packet == Encode(FragmentOf(kind, session, data, i));
    DecodeEncode(FragmentOf(kind, session, data, i));
  }

  /** Safety: whatever has been kept of an honestly sent message is its own slice. */
  lemma {:induction false} KeptSlices(e: Expectation, kind: byte, session: u32, data: Bytes, arrivals: seq<Arrival>)
    requires Sendable(data)
    requires var s := After(e, arrivals); s.Collecting? && OneSender(s.origin, kind, session, data, arrivals)
    ensures var s := After(e, arrivals);
      && s.origin.header == HeaderOf(kind, session, data)
      && forall i :: i in s.got ==> i < FragmentCount(|data|) && s.got[i] == Slice(data, i)
  {
    hide Encode, Decode, After, Fits;
    var s := After(e, arrivals);
    KeptPayloadsArrived(e, arrivals);
    LatchesOnFirst(e, arrivals);
    var at: nat :| LatchedAt(e, s, arrivals, at);
    SentFragment(kind, session, data, arrivals[at], s.origin);
    forall i | i in s.got ensures i < FragmentCount(|data|) && s.got[i] == Slice(data, i) {
      var k :| 0 <= k < |arrivals| && Carries(s.origin, arrivals[k], i, s.got[i]);
      SentFragment(kind, session, data, arrivals[k], s.origin);
    }
  }

  /** Progress: the receiver is complete exactly when every fragment has arrived, in any order, any number of times. */
  lemma {:induction false} CompleteExactlyWhenAllArrived(e: Expectation, kind: byte, session: u32, data: Bytes,
      arrivals: seq<Arrival>)
    requires Sendable(data)
    requires var s := After(e, arrivals); s.Collecting? && OneSender(s.origin, kind, session, data, arrivals)
    ensures var s := After(e, arrivals);
      Complete(s) <==> forall i: nat :: i < FragmentCount(|data|) ==>
        Arrived(s.origin, kind, session, data, arrivals, i)
  {
    hide Encode, Decode, After, Fits;
    var s := After(e, arrivals);
    KeptSlices(e, kind, session, data, arrivals);
    FullExactlyWhenAllPresent(s.got.Keys, FragmentCount(|data|));
    forall i: nat | i < FragmentCount(|data|)
      ensures i in s.got <==> Arrived(s.origin, kind, session, data, arrivals, i)
    {
      KeptExactlyWhenArrived(e, kind, session, data, arrivals, i);
    }
  }

  lemma KeptExactlyWhenArrived(e: Expectation, kind: byte, session: u32, data: Bytes, arrivals: seq<Arrival>, i: nat)
    requires Sendable(data) && i < FragmentCount(|data|)
    requires var s := After(e, arrivals); s.Collecting? && OneSender(s.origin, kind, session, data, arrivals)
    ensures var s := After(e, arrivals); i in s.got <==> Arrived(s.origin, kind, session, data, arrivals, i)
  {
    hide Encode, Decode, After, Slice;
    var s := After(e, arrivals);
    KeptSlices(e, kind, session, data, arrivals);
    KeptPayloadsArrived(e, arrivals);
    LatchesOnFirst(e, arrivals);
    var at: nat :| LatchedAt(e, s, arrivals, at);
    var f := FragmentOf(kind, session, data, i);
    DecodeEncode(f);
    if i in s.got {
      var k :| 0 <= k < |arrivals| && Carries(s.origin, arrivals[k], i, s.got[i]);
      SentFragment(kind, session, data, arrivals[k], s.origin);
      DecodeIsCanonical(arrivals[k].packet);
      assert arrivals[k] == Datagram(Encode(f), s.origin.ip, s.origin.port);
    }
    if Arrived(s.origin, kind, session, data, arrivals, i) {
      var k :| 0 <= k < |arrivals| && arrivals[k] == Datagram(Encode(f), s.origin.ip, s.origin.port);
      assert Latchable(e, arrivals[k]);
      assert at <= k && Matches(s.origin, arrivals[k]);
      SentFragment(kind, session, data, arrivals[k], s.origin);
    }
  }

  // --- The output buffer --------------------------------------------------------------------

  /** The buffer holds every kept payload at its own offset. */
  predicate Placed(output: Bytes, got: map<nat, Bytes>) {
    forall i :: i in got ==> PlacedAt(output, i, got[i])
  }

  predicate PlacedAt(output: Bytes, i: nat, payload: Bytes) {
    var offset := i * FRAGMENT_PAYLOAD_BYTES;
    offset + |payload| <= |output| && output[offset..offset + |payload|] == payload
  }

  lemma PlacedSlicesAreTheMessage(got: map<nat, Bytes>, data: Bytes, output: Bytes)
    requires Sendable(data) && Placed(output, got)
    requires forall i: nat :: i < FragmentCount(|data|) ==> i in got && got[i] == Slice(data, i)
    ensures |data| <= |output| && output[..|data|] == data
  {
    var last: nat := FragmentCount(|data|) - 1;
    assert PlacedAt(output, last, got[last]);
    forall k | 0 <= k < |data| ensures output[k] == data[k] {
      var i: nat := k / FRAGMENT_PAYLOAD_BYTES;
      assert PlacedAt(output, i, got[i]);
      assert output[k] == got[i][k - i * FRAGMENT_PAYLOAD_BYTES];
    }
  }

  /** Main result: on completion the buffer starts with exactly the message that was sent. */
  lemma {:induction false} ReceivesWhatWasSent(e: Expectation, kind: byte, session: u32, data: Bytes,
      arrivals: seq<Arrival>, output: Bytes)
    requires Sendable(data)
    requires var s := After(e, arrivals);
      && s.Collecting? && OneSender(s.origin, kind, session, data, arrivals)
      && Complete(s) && Placed(output, s.got)
    ensures |data| <= |output| && output[..|data|] == data
    ensures FramedBytes(After(e, arrivals).got, MAX_FRAGMENTS) == |data| + FRAGMENT_HEADER_BYTES * FragmentCount(|data|)
  {
    hide Encode, Decode, After, Placed, FramedBytes, OneSender, Slice;
    var s := After(e, arrivals);
    var count := FragmentCount(|data|);
    KeptSlices(e, kind, session, data, arrivals);
    FullExactlyWhenAllPresent(s.got.Keys, count);
    PlacedSlicesAreTheMessage(s.got, data, output);
    FramedBytesOfSlices(s.got, data, count);
    FramedBytesBeyond(s.got, count, MAX_FRAGMENTS);
  }

  /** Header and payload bytes of the kept fragments with index below n. */
  function FramedBytes(got: map<nat, Bytes>, n: nat): nat {
    if n == 0 then 0
    else FramedBytes(got, n - 1) + (if n - 1 in got then FRAGMENT_HEADER_BYTES + |got[n - 1]| else 0)
  }

  lemma {:induction false} FramedBytesBeyond(got: map<nat, Bytes>, n: nat, m: nat)
    requires n <= m && forall i :: i in got ==> i < n
    ensures FramedBytes(got, m) == FramedBytes(got, n)
  {
    if n < m {
      FramedBytesBeyond(got, n, m - 1);
    }
  }

  lemma {:induction false} FramedBytesOfSlices(got: map<nat, Bytes>, data: Bytes, n: nat)
    requires n <= FragmentCount(|data|)
    requires forall i: nat :: i < n ==> i in got && got[i] == Slice(data, i)
    ensures FramedBytes(got, n) == FRAGMENT_HEADER_BYTES * n
              + if n * FRAGMENT_PAYLOAD_BYTES <= |data| then n * FRAGMENT_PAYLOAD_BYTES else |data|
  {
    if n > 0 {
      FramedBytesOfSlices(got, data, n - 1);
    }
  }

  // --- Arbitrary senders: when does completion mean a full buffer? ---------------------------

  /** Byte k of the message was written by some kept fragment. */
  predicate Covered(got: map<nat, Bytes>, k: nat) {
    exists i :: i in got && i * FRAGMENT_PAYLOAD_BYTES <= k < i * FRAGMENT_PAYLOAD_BYTES + |got[i]|
  }

  /** The payload of the first fitting datagram of the latched message that carries index i. */
  function FirstPayload(o: Origin, arrivals: seq<Arrival>, i: nat): Option<Bytes> {
    if arrivals == [] then None
    else
      var before, a := FirstPayload(o, arrivals[..|arrivals| - 1], i), arrivals[|arrivals| - 1];
      if before.Some? || !Matches(o, a) then before
      else
        var f := Decode(a.packet).value;
        if f.index == i && Fits(f) then Some(f.payload) else None
  }

  lemma {:induction false} NothingBeforeLatching(e: Expectation, arrivals: seq<Arrival>, o: Origin, a: Arrival, i: nat)
    requires Latchable(e, a) && OriginOf(a) == o && forall k :: 0 <= k < |arrivals| ==> !Latchable(e, arrivals[k])
    ensures FirstPayload(o, arrivals, i) == None
  {
    hide Decode, Fits;
    if arrivals != [] {
      NothingBeforeLatching(e, arrivals[..|arrivals| - 1], o, a, i);
      assert !Latchable(e, arrivals[|arrivals| - 1]);
    }
  }

  /** What is kept of an index is what arrived first for it. */
  lemma {:induction false} KeptIsFirst(e: Expectation, arrivals: seq<Arrival>, i: nat)
    ensures var s := After(e, arrivals);
      s.Collecting? ==>
        FirstPayload(s.origin, arrivals, i) == if i in s.got then Some(s.got[i]) else None
  {
    hide Decode, Fits;
    if arrivals != [] {
      var before, a := arrivals[..|arrivals| - 1], arrivals[|arrivals| - 1];
      var s, s' := After(e, before), After(e, arrivals);
      KeptIsFirst(e, before, i);
      LatchesOnFirst(e, before);
      if s.Collecting? {
        var at: nat :| LatchedAt(e, s, before, at);
        assert Matches(s.origin, a) ==> Wanted(e, Decode(a.packet).value);
      } else if s'.Collecting? {
        NothingBeforeLatching(e, before, s'.origin, a, i);
      }
    }
  }

  /** The first fragment to arrive for index i carries all the bytes that the announced total leaves for it. */
  predicate FirstIsFull(o: Origin, arrivals: seq<Arrival>, i: nat) {
    var first := FirstPayload(o, arrivals, i);
    first.Some? && |first.value| == Room(o.header.total, i)
  }

  /** The announced count suffices for the announced total, and the first arrival for every index is full. */
  predicate FirstArrivalsFill(o: Origin, arrivals: seq<Arrival>) {
    && o.header.count * FRAGMENT_PAYLOAD_BYTES >= o.header.total
    && forall i: nat :: i < o.header.count ==> FirstIsFull(o, arrivals, i)
  }

  /**
   The receiver never compares payload lengths with the announced total. For any datagrams at all, a
   completed receive has written every byte of the message exactly when the first arrivals fill it, and
   exactly when the framed byte count it reports is the total plus one header per fragment.
   */
  lemma {:induction false} CompleteFillsExactlyWhenFirstArrivalsFill(e: Expectation, arrivals: seq<Arrival>)
    requires Complete(After(e, arrivals))
    ensures var s := After(e, arrivals);
      (forall k: nat :: k < s.origin.header.total ==> Covered(s.got, k)) <==> FirstArrivalsFill(s.origin, arrivals)
    ensures var s := After(e, arrivals);
      var h := s.origin.header;
      FirstArrivalsFill(s.origin, arrivals)
      <==> FramedBytes(s.got, MAX_FRAGMENTS) == h.total + FRAGMENT_HEADER_BYTES * h.count
  {
    hide Decode, After, FramedBytes, Covered, WithinRoom, Carries, FirstPayload;
    var s := After(e, arrivals);
    var count, total := s.origin.header.count, s.origin.header.total;
    KeptPayloadsArrived(e, arrivals);
    FullExactlyWhenAllPresent(s.got.Keys, count);
    FramedBytesBeyond(s.got, count, MAX_FRAGMENTS);
    WithinRoomOf(s, arrivals);
    forall i: nat ensures i in s.got <==> i < count {
      assert i in s.got <==> i in s.got.Keys;
    }
    forall i: nat | i < count ensures FirstIsFull(s.origin, arrivals, i) <==> |s.got[i]| == Room(total, i) {
      KeptIsFirst(e, arrivals, i);
    }
    FilledExactlyWhenFramedBytesMatch(s.got, total, count);
  }

  lemma FilledExactlyWhenFramedBytesMatch(got: map<nat, Bytes>, total: nat, count: nat)
    requires forall i: nat :: i in got <==> i < count
    requires WithinRoom(got, total, count)
    ensures (forall k: nat :: k < total ==> Covered(got, k))
            <==> count * FRAGMENT_PAYLOAD_BYTES >= total && forall i: nat :: i < count ==> |got[i]| == Room(total, i)
    ensures (forall k: nat :: k < total ==> Covered(got, k))
            <==> FramedBytes(got, count) == total + FRAGMENT_HEADER_BYTES * count
  {
    hide FramedBytes, Covered;
    if forall i: nat :: i < count ==> |got[i]| == Room(total, i) {
      FullFragmentsCover(got, total, count);
    } else {
      var i: nat :| i < count && |got[i]| != Room(total, i);
      ShortFragmentLeavesGap(got, total, count, i);
    }
  }

  lemma WithinRoomOf(s: State, arrivals: seq<Arrival>)
    requires s.Collecting? && Provenance(s, arrivals)
    requires forall i: nat :: i < s.origin.header.count ==> i in s.got
    ensures WithinRoom(s.got, s.origin.header.total, s.origin.header.count)
  {
    hide Carries;
  }

  lemma FullFragmentsCover(got: map<nat, Bytes>, total: nat, count: nat)
    requires forall i: nat :: i in got <==> i < count
    requires forall i: nat :: i < count ==> |got[i]| == Room(total, i)
    ensures (forall k: nat :: k < total ==> Covered(got, k)) <==> count * FRAGMENT_PAYLOAD_BYTES >= total
    ensures count * FRAGMENT_PAYLOAD_BYTES >= total
            <==> FramedBytes(got, count) == total + FRAGMENT_HEADER_BYTES * count
  {
    hide FramedBytes;
    FramedBytesWhenFull(got, total, count);
    if count * FRAGMENT_PAYLOAD_BYTES < total {
      assert !Covered(got, total - 1);
    } else {
      forall k: nat | k < total ensures Covered(got, k) {
        assert k / FRAGMENT_PAYLOAD_BYTES in got;
      }
    }
  }

  lemma ShortFragmentLeavesGap(got: map<nat, Bytes>, total: nat, count: nat, short: nat)
    requires forall i: nat :: i in got <==> i < count
    requires WithinRoom(got, total, count) && short < count && |got[short]| != Room(total, short)
    ensures exists k: nat :: k < total && !Covered(got, k)
    ensures FramedBytes(got, count) < total + FRAGMENT_HEADER_BYTES * count
  {
    hide FramedBytes;
    FramedBytesBelow(got, total, count, short);
    assert |got[short]| < Room(total, short);
    assert !Covered(got, short * FRAGMENT_PAYLOAD_BYTES + |got[short]|);
  }

  /** The most a fragment of index i can contribute to a message of `total` bytes. */
  function Room(total: nat, i: nat): int {
    if total - i * FRAGMENT_PAYLOAD_BYTES < FRAGMENT_PAYLOAD_BYTES then total - i * FRAGMENT_PAYLOAD_BYTES
    else FRAGMENT_PAYLOAD_BYTES
  }

  function Capped(total: nat, n: nat): nat {
    if n * FRAGMENT_PAYLOAD_BYTES <= total then n * FRAGMENT_PAYLOAD_BYTES else total
  }

  predicate WithinRoom(got: map<nat, Bytes>, total: nat, n: nat) {
    forall i: nat :: i < n ==> i in got && |got[i]| <= Room(total, i)
  }

  lemma {:induction false} FramedBytesAtMost(got: map<nat, Bytes>, total: nat, n: nat)
    requires WithinRoom(got, total, n)
    ensures FramedBytes(got, n) <= FRAGMENT_HEADER_BYTES * n + Capped(total, n)
  {
    if n > 0 {
      FramedBytesAtMost(got, total, n - 1);
      assert |got[n - 1]| <= Room(total, n - 1);
    }
  }

  lemma {:induction false} FramedBytesWhenFull(got: map<nat, Bytes>, total: nat, n: nat)
    requires forall i: nat :: i < n ==> i in got && |got[i]| == Room(total, i)
    ensures FramedBytes(got, n) == FRAGMENT_HEADER_BYTES * n + Capped(total, n)
  {
    if n > 0 {
      FramedBytesWhenFull(got, total, n - 1);
      assert |got[n - 1]| == Room(total, n - 1);
    }
  }

  lemma {:induction false} FramedBytesBelow(got: map<nat, Bytes>, total: nat, n: nat, short: nat)
    requires WithinRoom(got, total, n) && short < n && |got[short]| < Room(total, short)
    ensures FramedBytes(got, n) < FRAGMENT_HEADER_BYTES * n + Capped(total, n)
  {
    FramedBytesAtMost(got, total, n - 1);
    assert |got[n - 1]| <= Room(total, n - 1);
    if short < n - 1 {
      FramedBytesBelow(got, total, n - 1, short);
    }
  }

  /** A lone datagram announcing five bytes and carrying none completes a receive that wrote nothing. */
  lemma CompleteWithoutData()
    ensures var h := Header(0x10, 1, 5, 1);
      var s := After(Expectation(0x10, 0, 86), [Datagram(Encode(Fragment(h, 0, [])), 7, 4210)]);
      Complete(s) && s.origin.header.total == 5 && !Covered(s.got, 0)
  {
    hide Encode, Decode;
    var h := Header(0x10, 1, 5, 1);
    var f := Fragment(h, 0, []);
    DecodeEncode(f);
    var arrivals := [Datagram(Encode(f), 7, 4210)];
    assert arrivals[..0] == [];
    assert After(Expectation(0x10, 0, 86), arrivals[..0]) == Listening;
  }
}
