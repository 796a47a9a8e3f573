/** HKDF-SHA-256 of RFC 5869, and the firmware's expand loop. */
module Hkdf {
  import opened Octets

  const MAX_INFO_BYTES := 128
  const MAX_OUTPUT_BYTES := 8160

  function Extract(mac: Mac, salt: Bytes, ikm: Bytes): Digest {
    mac(if salt == [] then ZERO_DIGEST else salt, ikm)
  }

  /** T(n) of section 2.3 of RFC 5869. */
  function T(mac: Mac, prk: Digest, info: Bytes, n: nat): (r: Bytes)
    requires n <= 255
    ensures |r| == if n == 0 then 0 else 32
  {
    if n == 0 then [] else mac(prk, T(mac, prk, info, n - 1) + info + [n])
  }

  /** T(1) | T(2) | ... | T(n) */
  function Expanded(mac: Mac, prk: Digest, info: Bytes, n: nat): (r: Bytes)
    requires n <= 255
    ensures |r| == 32 * n
  {
    if n == 0 then [] else Expanded(mac, prk, info, n - 1) + T(mac, prk, info, n)
  }

  /** The number of hash blocks that cover `length` bytes. */
  function BlockCount(length: nat): nat {
    (length + 31) / 32
  }

  predicate Derivable(info: Bytes, length: nat) {
    0 < length <= MAX_OUTPUT_BYTES && |info| <= MAX_INFO_BYTES
  }

  function Derive(mac: Mac, ikm: Bytes, salt: Bytes, info: Bytes, length: nat): (r: Bytes)
    requires Derivable(info, length)
    ensures |r| == length
  {
    Expanded(mac, Extract(mac, salt, ikm), info, BlockCount(length))[..length]
  }

  /** A shorter request yields a prefix of a longer one. */
  lemma {:induction false} ExpandedIsPrefix(mac: Mac, prk: Digest, info: Bytes, n: nat, m: nat)
    requires n <= m <= 255
    ensures Expanded(mac, prk, info, n) == Expanded(mac, prk, info, m)[..32 * n]
  {
    if n < m {
      ExpandedIsPrefix(mac, prk, info, n, m - 1);
    }
  }

  lemma {:induction false} ShorterKeyIsPrefix(mac: Mac, ikm: Bytes, salt: Bytes, info: Bytes, short: nat, long: nat)
    requires short <= long && Derivable(info, short) && Derivable(info, long)
    ensures Derive(mac, ikm, salt, info, short) == Derive(mac, ikm, salt, info, long)[..short]
  {
    ExpandedIsPrefix(mac, Extract(mac, salt, ikm), info, BlockCount(short), BlockCount(long));
  }

  /** Section 2.3 read as a recurrence: each block authenticates the one before, the info and its own number. */
  ghost predicate IsStream(mac: Mac, prk: Digest, info: Bytes, blocks: seq<Digest>) {
    && |blocks| <= 255
    && (blocks != [] ==> blocks[0] == mac(prk, info + [1]))
    && forall i :: 1 <= i < |blocks| ==> blocks[i] == mac(prk, blocks[i - 1] + info + [i + 1])
  }

  /** Whatever satisfies the recurrence, under the key that section 2.2 extracts, starts with the derived key. */
  lemma {:induction false} DerivedIsStream(mac: Mac, ikm: Bytes, salt: Bytes, info: Bytes, length: nat,
      blocks: seq<Digest>)
    requires Derivable(info, length) && 32 * |blocks| >= length
    requires IsStream(mac, mac(if |salt| == 0 then seq(32, _ => 0) else salt, ikm), info, blocks)
    ensures Derive(mac, ikm, salt, info, length) == Join(blocks)[..length]
  {
    hide Expanded, Join, IsStream;
    var prk := Extract(mac, salt, ikm);
    assert prk == mac(if |salt| == 0 then seq(32, _ => 0) else salt, ikm);
    StreamIsExpanded(mac, prk, info, blocks);
    ExpandedIsPrefix(mac, prk, info, BlockCount(length), |blocks|);
  }

  lemma {:induction false} StreamIsExpanded(mac: Mac, prk: Digest, info: Bytes, blocks: seq<Digest>)
    requires IsStream(mac, prk, info, blocks)
    ensures |blocks| <= 255
    ensures Expanded(mac, prk, info, |blocks|) == Join(blocks)
    ensures blocks != [] ==> T(mac, prk, info, |blocks|) == blocks[|blocks| - 1]
  {
    if blocks != [] {
      var init := blocks[..|blocks| - 1];
      StreamIsExpanded(mac, prk, info, init);
      assert [] + info + [1] == info + [1];
    }
  }

  lemma ExpandedStart(mac: Mac, prk: Digest, info: Bytes)
    ensures T(mac, prk, info, 0) == [] && Expanded(mac, prk, info, 0) == []
  {
  }

  lemma ExpandedNext(mac: Mac, prk: Digest, info: Bytes, n: nat, block: Digest)
    requires n < 255 && block == mac(prk, T(mac, prk, info, n) + info + [n + 1])
    ensures T(mac, prk, info, n + 1) == block
    ensures Expanded(mac, prk, info, n + 1) == Expanded(mac, prk, info, n) + block
  {
  }

  method ExpandBlock(mac: Mac, prk: Digest, previous: Bytes, info: Bytes, counter: byte, expandInput: array<byte>)
    returns (block: Digest)
    requires |previous| <= 32 && |info| <= MAX_INFO_BYTES && expandInput.Length == 32 + 128 + 1
    modifies expandInput
    ensures block == mac(prk, previous + info + [counter])
  {
    var offset := 0;
    Write(expandInput, offset, previous);
    offset := offset + |previous|;
    Write(expandInput, offset, info);
    offset := offset + |info|;
    Write(expandInput, offset, [counter]);
    offset := offset + 1;
    assert expandInput[..offset] == previous + info + [counter];
    block := mac(prk, expandInput[..offset]);
  }

  method HkdfSha256(mac: Mac, ikm: Bytes, salt: Bytes, info: Bytes, output: array<byte>, outputLength: nat)
    returns (ok: bool)
    requires outputLength <= output.Length
    modifies output
    ensures ok == Derivable(info, outputLength)
    ensures ok ==> output[..outputLength] == Derive(mac, ikm, salt, info, outputLength)
    ensures output[outputLength..] == old(output[outputLength..])
    ensures !ok ==> output[..] == old(output[..])
  {
    hide T, Expanded;
    if outputLength == 0 || outputLength > 255 * 32 {
      return false;
    }
    var effectiveSalt := if |salt| == 0 then ZERO_DIGEST else salt;
    var prk := mac(effectiveSalt, ikm);
    var previous: Bytes := [];
    var outputOffset := 0;
    var counter: byte := 1;
    var expandInput := new byte[32 + 128 + 1];
    if |info| > 128 {
      return false;
    }
    ghost var blocks := 0;
    ExpandedStart(mac, prk, info);
    while outputOffset < outputLength
      invariant 0 <= blocks <= BlockCount(outputLength)
      invariant outputOffset == if 32 * blocks < outputLength then 32 * blocks else outputLength
      invariant counter == (blocks + 1) % 256
      invariant previous == T(mac, prk, info, blocks)
      invariant output[..outputOffset] == Expanded(mac, prk, info, blocks)[..outputOffset]
      invariant output[outputLength..] == old(output[outputLength..])
      invariant outputOffset == outputLength ==> blocks == BlockCount(outputLength)
    {
      var block := ExpandBlock(mac, prk, previous, info, counter, expandInput);
      ExpandedNext(mac, prk, info, blocks, block);
      var remaining := outputLength - outputOffset;
      var copyLength := if remaining < 32 then remaining else 32;
      ghost var before := output[..];
      Write(output, outputOffset, block[..copyLength]);
      assert output[outputLength..] == before[outputLength..];
      assert output[..outputOffset + copyLength] == before[..outputOffset] + block[..copyLength];
      previous := block;
      outputOffset := outputOffset + copyLength;
      counter := (counter + 1) % 256;
      blocks := blocks + 1;
    }
    return true;
  }
}
