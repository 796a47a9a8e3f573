/** The datagram format of the fragmented transport, and what a message looks like on the wire. */
module Fragments {
  import opened Octets
  import opened Wrappers

  const FRAGMENT_MAGIC: u16 := 0xA55A
  const PROTOCOL_VERSION: byte := 1
  const FRAGMENT_HEADER_BYTES := 14
  const FRAGMENT_PAYLOAD_BYTES := 1000
  const MAX_FRAGMENTS := 8
  const MAX_PROTOCOL_MESSAGE_BYTES := 3378

  datatype Header = Header(kind: byte, session: u32, total: u16, count: byte)
  datatype Fragment = Fragment(header: Header, index: byte, payload: Bytes)

  predicate WellFormed(f: Fragment) {
    && 0 < f.header.count <= MAX_FRAGMENTS
    && f.index < f.header.count
    && |f.payload| <= FRAGMENT_PAYLOAD_BYTES
    && f.header.total <= MAX_PROTOCOL_MESSAGE_BYTES
  }

  function EncodeHeader(h: Header, index: byte, payloadLength: u16): (r: Bytes)
    ensures |r| == FRAGMENT_HEADER_BYTES
  {
    U16(FRAGMENT_MAGIC) + [PROTOCOL_VERSION, h.kind] + U32(h.session) + U16(h.total) + [index, h.count]
    + U16(payloadLength)
  }

  function Encode(f: Fragment): Bytes
    requires WellFormed(f)
  {
    EncodeHeader(f.header, f.index, |f.payload|) + f.payload
  }

  /** `readOneDatagram` on the content of one datagram. */
  function Decode(packet: Bytes): (r: Option<Fragment>)
    ensures r.Some? ==> WellFormed(r.value)
  {
    if |packet| < FRAGMENT_HEADER_BYTES || |packet| > FRAGMENT_HEADER_BYTES + FRAGMENT_PAYLOAD_BYTES then None
    else if GetU16(packet[..2]) != FRAGMENT_MAGIC || packet[2] != PROTOCOL_VERSION then None
    else
      var header := Header(packet[3], GetU32(packet[4..8]), GetU16(packet[8..10]), packet[11]);
      var f := Fragment(header, packet[10], packet[14..]);
      if WellFormed(f) && GetU16(packet[12..14]) == |f.payload| then Some(f) else None
  }

  lemma HeaderFields(h: Header, index: byte, payloadLength: u16, rest: Bytes)
    ensures var p := EncodeHeader(h, index, payloadLength) + rest;
      && GetU16(p[..2]) == FRAGMENT_MAGIC && p[2] == PROTOCOL_VERSION && p[3] == h.kind
      && GetU32(p[4..8]) == h.session && GetU16(p[8..10]) == h.total
      && p[10] == index && p[11] == h.count && GetU16(p[12..14]) == payloadLength && p[14..] == rest
  {
    var p := EncodeHeader(h, index, payloadLength) + rest;
    assert p[..2] == U16(FRAGMENT_MAGIC);
    assert p[4..8] == U32(h.session);
    assert p[8..10] == U16(h.total);
    assert p[12..14] == U16(payloadLength);
    hide U16, GetU16, U32, GetU32;
  }

  /** Magic, version, kind, session, total, index, count, length and payload, big-endian and in this order. */
  lemma FrameLayout(f: Fragment)
    requires WellFormed(f)
    ensures Encode(f)
         == [0xA5, 0x5A, 1, f.header.kind] + U32(f.header.session) + U16(f.header.total) + [f.index, f.header.count]
            + U16(|f.payload|) + f.payload
  {
    hide U32;
    assert U16(FRAGMENT_MAGIC) == [0xA5, 0x5A];
  }

  lemma DecodeEncode(f: Fragment)
    requires WellFormed(f)
    ensures Decode(Encode(f)) == Some(f)
  {
    HeaderFields(f.header, f.index, |f.payload|, f.payload);
  }

  lemma {:induction false} DecodeIsCanonical(packet: Bytes)
    ensures Decode(packet).Some? ==> Encode(Decode(packet).value) == packet
  {
    hide U16, GetU16, U32, GetU32;
    if Decode(packet).Some? {
      U16OfGetU16(packet[..2]);
      U32OfGetU32(packet[4..8]);
      U16OfGetU16(packet[8..10]);
      U16OfGetU16(packet[12..14]);
      assert packet == packet[..2] + [packet[2], packet[3]] + packet[4..8] + packet[8..10]
                     + [packet[10], packet[11]] + packet[12..14] + packet[14..];
    }
  }

  // --- A message as fragments --------------------------------------------------------

  predicate Sendable(data: Bytes) {
    0 < |data| <= MAX_PROTOCOL_MESSAGE_BYTES
  }

  function FragmentCount(length: nat): nat {
    (length + FRAGMENT_PAYLOAD_BYTES - 1) / FRAGMENT_PAYLOAD_BYTES
  }

  /** The slice of a message that its index-th fragment carries. */
  function Slice(data: Bytes, index: nat): (r: Bytes)
    requires index * FRAGMENT_PAYLOAD_BYTES <= |data|
    ensures |r| <= FRAGMENT_PAYLOAD_BYTES
  {
    var offset := index * FRAGMENT_PAYLOAD_BYTES;
    data[offset..if |data| - offset < FRAGMENT_PAYLOAD_BYTES then |data| else offset + FRAGMENT_PAYLOAD_BYTES]
  }

  function HeaderOf(kind: byte, session: u32, data: Bytes): Header
    requires Sendable(data)
  {
    Header(kind, session, |data|, FragmentCount(|data|))
  }

  function FragmentOf(kind: byte, session: u32, data: Bytes, index: nat): (f: Fragment)
    requires Sendable(data) && index < FragmentCount(|data|)
    ensures WellFormed(f)
  {
    Fragment(HeaderOf(kind, session, data), index, Slice(data, index))
  }

  /** The datagrams of one message, in the order in which `sendMessage` emits them. */
  function Datagrams(kind: byte, session: u32, data: Bytes): (r: seq<Bytes>)
    requires Sendable(data)
    ensures |r| == FragmentCount(|data|)
  {
    seq(FragmentCount(|data|), i requires 0 <= i < FragmentCount(|data|) => Encode(FragmentOf(kind, session, data, i)))
  }
}
