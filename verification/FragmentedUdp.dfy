/** The transport class: fragments a message into its buffer, and reassembles one from arriving datagrams. */
module FragmentedUdp {
  import opened Octets
  import opened Wrappers
  import opened Fragments
  import opened Reassembly

  datatype ReceivedPacket = ReceivedPacket(origin: Origin, framedBytes: nat)

  /** Writing one more payload at its offset disturbs none of those already placed. */
  lemma StorePlaced(original: Bytes, before: Bytes, after: Bytes, got: map<nat, Bytes>, index: nat, payload: Bytes)
    requires var offset := index * FRAGMENT_PAYLOAD_BYTES;
      && offset + |payload| <= |before| == |original| && |payload| <= FRAGMENT_PAYLOAD_BYTES
      && after == before[..offset] + payload + before[offset + |payload|..]
    requires index !in got && Placed(before, got)
    requires forall i :: i in got ==> |got[i]| <= FRAGMENT_PAYLOAD_BYTES
    requires forall k :: 0 <= k < |before| && !Covered(got, k) ==> before[k] == original[k]
    ensures Placed(after, got[index := payload])
    ensures forall k :: 0 <= k < |after| && !Covered(got[index := payload], k) ==> after[k] == original[k]
  {
    var got' := got[index := payload];
    var offset := index * FRAGMENT_PAYLOAD_BYTES;
    forall i | i in got' ensures PlacedAt(after, i, got'[i]) {
      if i == index {
        assert after[offset..offset + |payload|] == payload;
      } else {
        assert PlacedAt(before, i, got[i]);
        WrittenElsewhere(before, after, offset, payload, i * FRAGMENT_PAYLOAD_BYTES, |got[i]|);
      }
    }
    UncoveredUntouched(original, before, after, got, index, payload);
  }

  lemma WrittenElsewhere(before: Bytes, after: Bytes, offset: nat, payload: Bytes, at: nat, n: nat)
    requires offset + |payload| <= |before| && after == before[..offset] + payload + before[offset + |payload|..]
    requires at + n <= |before| && (at + n <= offset || offset + |payload| <= at)
    ensures after[at..at + n] == before[at..at + n]
  {
    assert |after| == |before|;
    assert forall k :: at <= k < at + n ==> after[k] == before[k];
  }

  lemma UncoveredUntouched(original: Bytes, before: Bytes, after: Bytes, got: map<nat, Bytes>, index: nat,
      payload: Bytes)
    requires var offset := index * FRAGMENT_PAYLOAD_BYTES;
      && offset + |payload| <= |before| == |original|
      && after == before[..offset] + payload + before[offset + |payload|..]
    requires index !in got
    requires forall k :: 0 <= k < |before| && !Covered(got, k) ==> before[k] == original[k]
    ensures forall k :: 0 <= k < |after| && !Covered(got[index := payload], k) ==> after[k] == original[k]
  {
    var got' := got[index := payload];
    var offset := index * FRAGMENT_PAYLOAD_BYTES;
    forall k | 0 <= k < |after| && !Covered(got', k) ensures after[k] == original[k] {
      assert forall i :: i in got ==> i in got' && got'[i] == got[i];
      assert !(offset <= k < offset + |payload|) by {
        assert index in got' && got'[index] == payload;
      }
    }
  }

  lemma {:induction false} FramedBytesOfNothing(n: nat)
    ensures FramedBytes(map[], n) == 0
  {
    if n > 0 {
      FramedBytesOfNothing(n - 1);
    }
  }

  lemma {:induction false} FramedBytesStored(got: map<nat, Bytes>, index: nat, payload: Bytes, n: nat)
    requires index !in got
    ensures FramedBytes(got[index := payload], n)
         == FramedBytes(got, n) + if index < n then FRAGMENT_HEADER_BYTES + |payload| else 0
  {
    if n > 0 {
      FramedBytesStored(got, index, payload, n - 1);
    }
  }

  lemma NothingPlaced(original: Bytes)
    ensures Placed(original, map[])
  {
  }

  /** The locals of the receive loop, with the kept payloads as their ghost meaning. */
  class Reception {
    const receivedFragments: array<bool>
    var activeOrigin: Origin
    var active: bool
    var completed: nat
    var framedBytes: nat
    ghost var got: map<nat, Bytes>

    constructor ()
      ensures State() == Listening && fresh(receivedFragments)
      ensures forall original: Bytes :: Placed(original, map[]) ==> Valid(original, original)
    {
      hide Placed, Covered;
      receivedFragments := new bool[MAX_FRAGMENTS](_ => false);
      activeOrigin, active := Origin(Header(0, 0, 0, 0), 0, 0), false;
      completed, framedBytes := 0, 0;
      got := map[];
      FramedBytesOfNothing(MAX_FRAGMENTS);
    }

    ghost function State(): State
      reads this
    {
      if active then Collecting(activeOrigin, got) else Listening
    }

    ghost predicate Valid(output: Bytes, original: Bytes)
      reads this, receivedFragments
    {
      && receivedFragments.Length == MAX_FRAGMENTS
      && (active ==> 0 < activeOrigin.header.count <= MAX_FRAGMENTS)
      && (!active ==> got == map[])
      && (forall i: nat :: i in got <==> i < MAX_FRAGMENTS && receivedFragments[i])
      && (forall i :: i in got ==> |got[i]| <= FRAGMENT_PAYLOAD_BYTES)
      && completed == |got| && framedBytes == FramedBytes(got, MAX_FRAGMENTS)
      && |output| == |original| && Placed(output, got)
      && (forall k :: 0 <= k < |output| && !Covered(got, k) ==> output[k] == original[k])
    }

    method Record(index: nat, payload: Bytes)
      requires receivedFragments.Length == MAX_FRAGMENTS && index < MAX_FRAGMENTS && index !in got
      requires framedBytes == FramedBytes(got, MAX_FRAGMENTS) && completed == |got|
      requires forall i: nat :: i in got <==> i < MAX_FRAGMENTS && receivedFragments[i]
      modifies this`completed, this`framedBytes, this`got, receivedFragments
      ensures got == old(got)[index := payload]
      ensures framedBytes == FramedBytes(got, MAX_FRAGMENTS) && completed == |got|
      ensures forall i: nat :: i in got <==> i < MAX_FRAGMENTS && receivedFragments[i]
    {
      hide FramedBytes;
      FramedBytesStored(got, index, payload, MAX_FRAGMENTS);
      receivedFragments[index] := true;
      completed := completed + 1;
      framedBytes := framedBytes + FRAGMENT_HEADER_BYTES + |payload|;
      got := got[index := payload];
    }
  }

  class Transport {
    const fragmentBuffer: array<byte>

    constructor ()
      ensures fresh(fragmentBuffer) && fragmentBuffer.Length == FRAGMENT_HEADER_BYTES + FRAGMENT_PAYLOAD_BYTES
    {
      fragmentBuffer := new byte[FRAGMENT_HEADER_BYTES + FRAGMENT_PAYLOAD_BYTES];
    }

    ghost predicate Valid() {
      fragmentBuffer.Length == FRAGMENT_HEADER_BYTES + FRAGMENT_PAYLOAD_BYTES
    }

    /** linkUp(i) says whether the UDP stack takes the i-th datagram; `sent` is what it took. */
    method SendMessage(kind: byte, session: u32, data: Bytes, linkUp: nat -> bool)
      returns (ok: bool, framedBytes: nat, sent: seq<Bytes>)
      requires Valid() && |data| < 0x1_0000
      modifies fragmentBuffer
      ensures ok <==> Sendable(data) && forall i: nat :: i < FragmentCount(|data|) ==> linkUp(i)
      ensures if Sendable(data) then sent <= Datagrams(kind, session, data) else sent == []
      ensures ok ==> sent == Datagrams(kind, session, data)
      ensures ok ==> framedBytes == |data| + FRAGMENT_HEADER_BYTES * FragmentCount(|data|)
    {
      hide EncodeHeader, U16, U32, Slice;
      framedBytes, sent := 0, [];
      if |data| == 0 || |data| > MAX_PROTOCOL_MESSAGE_BYTES {
        return false, 0, [];
      }
      var fragmentCount := FragmentCount(|data|);
      // The firmware's second guard, a count of zero or above the limit, cannot fire.
      assert 0 < fragmentCount <= MAX_FRAGMENTS;
      var fragmentIndex := 0;
      while fragmentIndex < fragmentCount
        invariant fragmentIndex <= fragmentCount
        invariant sent == Datagrams(kind, session, data)[..fragmentIndex]
        invariant forall i: nat :: i < fragmentIndex ==> linkUp(i)
        invariant framedBytes == FRAGMENT_HEADER_BYTES * fragmentIndex + Capped(|data|, fragmentIndex)
      {
        var sourceOffset := fragmentIndex * FRAGMENT_PAYLOAD_BYTES;
        var payloadLength := if |data| - sourceOffset < FRAGMENT_PAYLOAD_BYTES then |data| - sourceOffset
                             else FRAGMENT_PAYLOAD_BYTES;
        PutHeader(HeaderOf(kind, session, data), fragmentIndex, payloadLength);
        Write(fragmentBuffer, FRAGMENT_HEADER_BYTES, data[sourceOffset..sourceOffset + payloadLength]);
        SliceIs(data, fragmentIndex, payloadLength);
        if !linkUp(fragmentIndex) {
          return false, framedBytes, sent;
        }
        var datagramLength := FRAGMENT_HEADER_BYTES + payloadLength;
        sent := sent + [fragmentBuffer[..datagramLength]];
        framedBytes := framedBytes + datagramLength;
        fragmentIndex := fragmentIndex + 1;
      }
      ok := true;
    }

    lemma SliceIs(data: Bytes, index: nat, payloadLength: nat)
      requires index * FRAGMENT_PAYLOAD_BYTES <= |data|
      requires payloadLength == if |data| - index * FRAGMENT_PAYLOAD_BYTES < FRAGMENT_PAYLOAD_BYTES
                                then |data| - index * FRAGMENT_PAYLOAD_BYTES else FRAGMENT_PAYLOAD_BYTES
      ensures data[index * FRAGMENT_PAYLOAD_BYTES..index * FRAGMENT_PAYLOAD_BYTES + payloadLength] == Slice(data, index)
    {
    }

    method PutHeader(h: Header, index: byte, payloadLength: u16)
      requires Valid()
      modifies fragmentBuffer
      ensures fragmentBuffer[..FRAGMENT_HEADER_BYTES] == EncodeHeader(h, index, payloadLength)
    {
      hide U16, U32;
      Write(fragmentBuffer, 0, U16(FRAGMENT_MAGIC));
      Write(fragmentBuffer, 2, [PROTOCOL_VERSION, h.kind]);
      Write(fragmentBuffer, 4, U32(h.session));
      Write(fragmentBuffer, 8, U16(h.total));
      Write(fragmentBuffer, 10, [index, h.count]);
      Write(fragmentBuffer, 12, U16(payloadLength));
    }

    /** Parses a datagram in the fragment buffer; the payload stays there for the caller. */
    method ReadOneDatagram(packet: Bytes) returns (ok: bool, header: Header, index: byte, payloadLength: u16)
      requires Valid()
      modifies fragmentBuffer
      ensures ok == Decode(packet).Some?
      ensures ok ==> var f := Decode(packet).value;
        && header == f.header && index == f.index && payloadLength == |f.payload| <= FRAGMENT_PAYLOAD_BYTES
        && fragmentBuffer[FRAGMENT_HEADER_BYTES..FRAGMENT_HEADER_BYTES + payloadLength] == f.payload
    {
      hide U16, U32, GetU16, GetU32;
      ok, header, index, payloadLength := false, Header(0, 0, 0, 0), 0, 0;
      if |packet| > fragmentBuffer.Length {
        return;
      }
      Write(fragmentBuffer, 0, packet);
      assert fragmentBuffer[..|packet|] == packet;
      if |packet| < FRAGMENT_HEADER_BYTES {
        return;
      }
      if GetU16(fragmentBuffer[..2]) != FRAGMENT_MAGIC || fragmentBuffer[2] != PROTOCOL_VERSION {
        assert packet[..2] == fragmentBuffer[..2];
        return;
      }
      header := Header(fragmentBuffer[3], GetU32(fragmentBuffer[4..8]), GetU16(fragmentBuffer[8..10]),
        fragmentBuffer[11]);
      index := fragmentBuffer[10];
      payloadLength := GetU16(fragmentBuffer[12..14]);
      assert packet[..2] == fragmentBuffer[..2] && packet[4..8] == fragmentBuffer[4..8]
          && packet[8..10] == fragmentBuffer[8..10] && packet[12..14] == fragmentBuffer[12..14];
      if header.count == 0 || header.count > MAX_FRAGMENTS || index >= header.count
         || payloadLength > FRAGMENT_PAYLOAD_BYTES || FRAGMENT_HEADER_BYTES + payloadLength != |packet|
         || header.total > MAX_PROTOCOL_MESSAGE_BYTES {
        return;
      }
      ok := true;
    }

    /** One turn of the receive loop: the datagram is dropped, or latched onto, or stored at its offset. */
    method Take(e: Expectation, a: Arrival, r: Reception, output: array<byte>, ghost original: Bytes)
      requires Valid() && r.Valid(output[..], original) && output != fragmentBuffer && e.capacity <= output.Length
      requires r.active ==> r.activeOrigin.header.total <= e.capacity
      modifies output, fragmentBuffer, r, r.receivedFragments
      ensures r.State() == Deliver(e, old(r.State()), a)
      ensures r.Valid(output[..], original)
      ensures r.active ==> r.activeOrigin.header.total <= e.capacity
      ensures r.active && !old(r.active) ==>
        var h := r.activeOrigin.header;
        (e.kind == 0xff || h.kind == e.kind) && (e.session == 0 || h.session == e.session)
    {
      hide Decode, Covered, FramedBytes, Placed;
      if a.Quiet? {
        return;
      }
      var read, header, fragmentIndex, payloadLength := ReadOneDatagram(a.packet);
      if !read {
        return;
      }
      if e.kind != 0xff && header.kind != e.kind {
        return;
      }
      if e.session != 0 && header.session != e.session {
        return;
      }
      if !r.active {
        if header.total > e.capacity {
          return;
        }
        r.active, r.activeOrigin := true, Origin(header, a.ip, a.port);
      }
      if Origin(header, a.ip, a.port) != r.activeOrigin {
        return;
      }
      var outputOffset := fragmentIndex * FRAGMENT_PAYLOAD_BYTES;
      if outputOffset + payloadLength > r.activeOrigin.header.total {
        return;
      }
      Store(r, fragmentIndex, payloadLength, output, original);
    }

    /** Copies the payload in the fragment buffer to its offset, unless that fragment is already there. */
    method Store(r: Reception, fragmentIndex: nat, payloadLength: nat, output: array<byte>, ghost original: Bytes)
      requires Valid() && r.active && r.Valid(output[..], original) && output != fragmentBuffer
        && fragmentIndex < MAX_FRAGMENTS
      requires payloadLength <= FRAGMENT_PAYLOAD_BYTES
        && fragmentIndex * FRAGMENT_PAYLOAD_BYTES + payloadLength <= output.Length
      modifies output, r`completed, r`framedBytes, r`got, r.receivedFragments
      ensures var payload := old(fragmentBuffer[FRAGMENT_HEADER_BYTES..FRAGMENT_HEADER_BYTES + payloadLength]);
        r.got == if fragmentIndex in old(r.got) then old(r.got) else old(r.got)[fragmentIndex := payload]
      ensures r.Valid(output[..], original)
    {
      hide Covered, FramedBytes, Placed;
      if !r.receivedFragments[fragmentIndex] {
        var outputOffset := fragmentIndex * FRAGMENT_PAYLOAD_BYTES;
        var payload := fragmentBuffer[FRAGMENT_HEADER_BYTES..FRAGMENT_HEADER_BYTES + payloadLength];
        ghost var before := output[..];
        Write(output, outputOffset, payload);
        StorePlaced(original, before, output[..], r.got, fragmentIndex, payload);
        r.Record(fragmentIndex, payload);
      }
    }

    /** The receive loop over a finite stream; running out of arrivals is the timeout. */
    method ReceiveMessage(e: Expectation, arrivals: seq<Arrival>, output: array<byte>)
      returns (ok: bool, received: ReceivedPacket, consumed: nat)
      requires Valid() && output != fragmentBuffer && e.capacity <= output.Length
      modifies output, fragmentBuffer
      ensures consumed <= |arrivals|
      ensures forall n :: 0 <= n < consumed ==> !Complete(After(e, arrivals[..n]))
      ensures ok == Complete(After(e, arrivals[..consumed]))
      ensures !ok ==> consumed == |arrivals|
      ensures var s := After(e, arrivals[..consumed]);
        var got := if s.Listening? then map[] else s.got;
        && Placed(output[..], got)
        && forall k :: 0 <= k < output.Length && !Covered(got, k) ==> output[k] == old(output[k])
      ensures ok ==>
        var s := After(e, arrivals[..consumed]);
        received.origin == s.origin && received.framedBytes == FramedBytes(s.got, MAX_FRAGMENTS)
      ensures ok ==>
        var h := received.origin.header;
        && (e.kind == 0xff || h.kind == e.kind) && (e.session == 0 || h.session == e.session)
        && h.total <= e.capacity
    {
      hide Deliver, Covered, FramedBytes, Placed;
      var r := new Reception();
      received, ok, consumed := ReceivedPacket(r.activeOrigin, 0), false, 0;
      ghost var original := output[..];
      NothingPlaced(original);
      assert arrivals[..0] == [];
      while consumed < |arrivals|
        invariant consumed <= |arrivals| && fresh(r) && fresh(r.receivedFragments)
        invariant forall n :: 0 <= n <= consumed ==> !Complete(After(e, arrivals[..n]))
        invariant r.State() == After(e, arrivals[..consumed])
        invariant r.Valid(output[..], original)
        invariant r.active ==> r.activeOrigin.header.total <= e.capacity
      {
        Take(e, arrivals[consumed], r, output, original);
        consumed := consumed + 1;
        assert arrivals[..consumed][..consumed - 1] == arrivals[..consumed - 1];
        if r.active && r.completed == r.activeOrigin.header.count {
          received := ReceivedPacket(r.activeOrigin, r.framedBytes);
          LatchedAsAskedFor(e, arrivals[..consumed]);
          return true, received, consumed;
        }
      }
    }
  }
}
