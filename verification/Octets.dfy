/** Byte strings, big-endian integers and the `memcpy` of the firmware. */
module Octets {

  type byte = x: int | 0 <= x < 256
  type u16 = x: int | 0 <= x < 0x1_0000
  type u32 = x: int | 0 <= x < 0x1_0000_0000
  type u64 = x: int | 0 <= x < 0x1_0000_0000_0000_0000

  type Bytes = seq<byte>

  /** Every hash, tag, nonce-free key and identity in both stacks is 32 bytes long. */
  type Digest = d: Bytes | |d| == 32 witness seq(32, _ => 0)

  const ZERO_DIGEST: Digest := seq(32, _ => 0)

  /** SHA-256 is an arbitrary function; theorems hold for every choice of it. */
  type Hash = Bytes -> Digest

  /** HMAC-SHA-256, key first. */
  type Mac = (Bytes, Bytes) -> Digest

  function U16(x: u16): (r: Bytes)
    ensures |r| == 2 && GetU16(r) == x
  {
    [x / 0x100, x % 0x100]
  }

  function GetU16(b: Bytes): u16
    requires |b| == 2
  {
    (b[0] as int) * 0x100 + b[1]
  }

  lemma U16OfGetU16(b: Bytes)
    requires |b| == 2
    ensures U16(GetU16(b)) == b
  {
  }

  function U32(x: u32): (r: Bytes)
    ensures |r| == 4 && GetU32(r) == x
  {
    U16(x / 0x1_0000) + U16(x % 0x1_0000)
  }

  function GetU32(b: Bytes): u32
    requires |b| == 4
  {
    (GetU16(b[..2]) as int) * 0x1_0000 + GetU16(b[2..])
  }

  lemma U32OfGetU32(b: Bytes)
    requires |b| == 4
    ensures U32(GetU32(b)) == b
  {
    hide U16, GetU16;
    U16OfGetU16(b[..2]);
    U16OfGetU16(b[2..]);
  }

  function U64(x: u64): (r: Bytes)
    ensures |r| == 8 && GetU64(r) == x
  {
    U32(x / 0x1_0000_0000) + U32(x % 0x1_0000_0000)
  }

  function GetU64(b: Bytes): u64
    requires |b| == 8
  {
    (GetU32(b[..4]) as int) * 0x1_0000_0000 + GetU32(b[4..])
  }

  lemma U64OfGetU64(b: Bytes)
    requires |b| == 8
    ensures U64(GetU64(b)) == b
  {
    hide U32, GetU32;
    U32OfGetU32(b[..4]);
    U32OfGetU32(b[4..]);
  }

  /** `memcpy(buffer + offset, source, |source|)`; the bounds are the caller's duty. */
  method Write(buffer: array<byte>, offset: nat, source: Bytes)
    requires offset + |source| <= buffer.Length
    modifies buffer
    ensures buffer[..offset] == old(buffer[..offset])
    ensures buffer[offset..offset + |source|] == source
    ensures buffer[offset + |source|..] == old(buffer[offset + |source|..])
    ensures buffer[..offset + |source|] == old(buffer[..offset]) + source
  {
    forall k | 0 <= k < |source| {
      buffer[offset + k] := source[k];
    }
  }

  /** Digests laid end to end, as the LM-OTS arrays and the LMS path are. */
  function Join(parts: seq<Digest>): (r: Bytes)
    ensures |r| == 32 * |parts|
  {
    if parts == [] then [] else Join(parts[..|parts| - 1]) + parts[|parts| - 1]
  }

  /** The k-th digest of a joined array. */
  function Part(joined: Bytes, k: nat): Digest
    requires 32 * k + 32 <= |joined|
  {
    joined[32 * k..32 * k + 32]
  }

  lemma {:induction false} PartOfJoin(parts: seq<Digest>, k: nat)
    requires k < |parts|
    ensures Part(Join(parts), k) == parts[k]
  {
    var init, last := parts[..|parts| - 1], parts[|parts| - 1];
    if k < |init| {
      PartOfJoin(init, k);
      assert Part(Join(init) + last, k) == Part(Join(init), k);
    }
  }

  lemma JoinInjective(a: seq<Digest>, b: seq<Digest>)
    requires |a| == |b| && Join(a) == Join(b)
    ensures a == b
  {
    forall k | 0 <= k < |a| ensures a[k] == b[k] {
      PartOfJoin(a, k);
      PartOfJoin(b, k);
    }
  }
}
