/** One credential in three formats: the device record, the wire payload, and the gateway's hex strings. */
module CredentialCodec {
  import opened Octets
  import opened Wrappers
  import CredentialLedger

  type KyberKey = b: Bytes | |b| == 800 witness seq(800, _ => 0)
  type RecordBytes = b: Bytes | |b| == 928 witness seq(928, _ => 0)

  datatype FabricCredential = FabricCredential(
    identityHash: Digest, tid: Digest, publicKey: KyberKey, w: Digest, verifyHash: Digest)

  // --- The device's record ------------------------------------------------------------

  function Serialize(c: FabricCredential): RecordBytes {
    c.identityHash + c.tid + c.publicKey + c.w + c.verifyHash
  }

  function Parse(b: RecordBytes): FabricCredential {
    FabricCredential(b[..32], b[32..64], b[64..864], b[864..896], b[896..])
  }

  method SerializeCredential(c: FabricCredential, output: array<byte>)
    requires output.Length == 928
    modifies output
    ensures output[..] == Serialize(c)
  {
    var offset := 0;
    Write(output, offset, c.identityHash);
    offset := offset + 32;
    Write(output, offset, c.tid);
    offset := offset + 32;
    Write(output, offset, c.publicKey);
    offset := offset + 800;
    Write(output, offset, c.w);
    offset := offset + 32;
    Write(output, offset, c.verifyHash);
    assert output[..928] == output[..];
  }

  lemma ParseOfSerialize(c: FabricCredential)
    ensures Parse(Serialize(c)) == c
  {
    var b := Serialize(c);
    assert b[..32] == c.identityHash && b[32..64] == c.tid && b[64..864] == c.publicKey;
    assert b[864..896] == c.w && b[896..] == c.verifyHash;
  }

  // --- Hex -------------------------------------------------------------------------------

  function HexChar(n: nat): char
    requires n < 16
  {
    if n < 10 then '0' + n as char else 'a' + (n - 10) as char
  }

  function HexValue(c: char): (n: nat)
    requires CredentialLedger.HexDigit(c)
    ensures n < 16
  {
    if '0' <= c <= '9' then (c - '0') as nat
    else if 'a' <= c <= 'f' then (c - 'a') as nat + 10
    else (c - 'A') as nat + 10
  }

  function HexEncode(b: Bytes): (s: string)
    ensures |s| == 2 * |b| && CredentialLedger.ValidHex(s, |b|)
  {
    if b == [] then ""
    else
      var last := b[|b| - 1];
      HexEncode(b[..|b| - 1]) + [HexChar(last / 16), HexChar(last % 16)]
  }

  /** `hex.DecodeString`: both cases are accepted, odd lengths and other characters are not. */
  function HexDecode(s: string): Option<Bytes> {
    if s == "" then Some([])
    else if |s| == 1 then None
    else
      var high, low := s[|s| - 2], s[|s| - 1];
      match HexDecode(s[..|s| - 2])
      case None => None
      case Some(b) =>
        if CredentialLedger.HexDigit(high) && CredentialLedger.HexDigit(low)
        then Some(b + [16 * HexValue(high) + HexValue(low)]) else None
  }

  /** Decoding succeeds exactly on the strings that the chaincode's hex check lets through. */
  lemma {:induction false} DecodableExactlyWhenValid(s: string, bytes: nat)
    ensures CredentialLedger.ValidHex(s, bytes) <==> HexDecode(s).Some? && |HexDecode(s).value| == bytes
    decreases |s|
  {
    hide HexValue, CredentialLedger.HexDigit;
    if |s| >= 2 {
      var init, high, low := s[..|s| - 2], s[|s| - 2], s[|s| - 1];
      assert s == init + [high, low];
      assert high in s && low in s && forall c :: c in s <==> c in init || c == high || c == low;
      if bytes > 0 {
        DecodableExactlyWhenValid(init, bytes - 1);
      } else {
        DecodableExactlyWhenValid(init, |init| / 2);
      }
    }
  }

  lemma {:induction false} HexRoundTrip(b: Bytes)
    ensures HexDecode(HexEncode(b)) == Some(b)
  {
    hide HexChar, HexValue;
    if b != [] {
      var init, last := b[..|b| - 1], b[|b| - 1];
      HexRoundTrip(init);
      HexOfNibble(last / 16);
      HexOfNibble(last % 16);
      var s := HexEncode(b);
      assert s == HexEncode(init) + [HexChar(last / 16), HexChar(last % 16)];
      assert s[..|s| - 2] == HexEncode(init) && s[|s| - 2] == HexChar(last / 16) && s[|s| - 1] == HexChar(last % 16);
      assert b == init + [last];
    }
  }

  lemma HexOfNibble(n: nat)
    requires n < 16
    ensures CredentialLedger.HexDigit(HexChar(n)) && HexValue(HexChar(n)) == n
  {
  }

  // --- The gateway's record -----------------------------------------------------------------

  function CredentialFromPayload(payload: Bytes, slot: u16): Option<CredentialLedger.Credential> {
    if |payload| != 928 then None
    else Some(CredentialLedger.Credential(HexEncode(payload[..32]), slot, HexEncode(payload[32..64]),
                HexEncode(payload[64..864]), HexEncode(payload[864..896]), HexEncode(payload[896..])))
  }

  function DecodeField(value: string, size: nat): Option<Bytes> {
    match HexDecode(value)
    case Some(b) => if |b| == size then Some(b) else None
    case None => None
  }

  function CredentialPayload(c: CredentialLedger.Credential): Option<Bytes> {
    match (DecodeField(c.identityHash, 32), DecodeField(c.tid, 32), DecodeField(c.publicKey, 800),
           DecodeField(c.w, 32), DecodeField(c.verifyHash, 32))
    case (Some(a), Some(b), Some(p), Some(w), Some(v)) => Some(a + b + p + w + v)
    case _ => None
  }

  /** The ledger form of a device record. */
  function Stored(c: FabricCredential, slot: u16): CredentialLedger.Credential {
    CredentialLedger.Credential(HexEncode(c.identityHash), slot, HexEncode(c.tid), HexEncode(c.publicKey),
                                HexEncode(c.w), HexEncode(c.verifyHash))
  }

  /** From the device through gateway and ledger and back to a device, every field and the slot survive. */
  lemma {:induction false} CredentialRoundTrip(c: FabricCredential, slot: u16)
    ensures CredentialFromPayload(Serialize(c), slot) == Some(Stored(c, slot))
    ensures CredentialLedger.CheckCredential(Stored(c, slot)).Ok?
    ensures CredentialPayload(Stored(c, slot)) == Some(Serialize(c))
    ensures Parse(CredentialPayload(Stored(c, slot)).value) == c
  {
    hide HexEncode, HexDecode;
    ParseOfSerialize(c);
    HexRoundTrip(c.identityHash);
    HexRoundTrip(c.tid);
    HexRoundTrip(c.publicKey);
    HexRoundTrip(c.w);
    HexRoundTrip(c.verifyHash);
  }

  /** The chaincode stores exactly the credentials that the gateway can send back, as 928 bytes. */
  lemma {:induction false} StorableExactlyWhenSendable(c: CredentialLedger.Credential)
    ensures CredentialLedger.CheckCredential(c).Ok? <==> CredentialPayload(c).Some?
    ensures CredentialPayload(c).Some? ==> |CredentialPayload(c).value| == 928
  {
    hide HexDecode, CredentialLedger.ValidHex;
    DecodableExactlyWhenValid(c.identityHash, 32);
    DecodableExactlyWhenValid(c.tid, 32);
    DecodableExactlyWhenValid(c.publicKey, 800);
    DecodableExactlyWhenValid(c.w, 32);
    DecodableExactlyWhenValid(c.verifyHash, 32);
  }
}
