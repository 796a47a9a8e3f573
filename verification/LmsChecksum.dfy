/**
 Why the Winternitz checksum works: the 67 step counts of two different
 digests are incomparable, so raising some chain always lowers another.
 */
module LmsChecksum {
  import opened Octets
  import opened LmsSpec

  /** The 16-bit checksum never overflows, and its three nibbles are the deficit in base 16. */
  lemma ChecksumNibbles(digest: Digest)
    ensures Deficit(digest, 64) * 16 < 0x1_0000
    ensures Deficit(digest, 64) == 256 * Steps(digest, 64) + 16 * Steps(digest, 65) + Steps(digest, 66)
  {
    var sum := Deficit(digest, 64);
    var tail := U16(sum * 16);
    assert WithChecksum(digest)[32..] == tail;
    assert tail[0] == sum / 16 && tail[1] == 16 * (sum % 16);
  }

  lemma StepsOfDigest(digest: Digest, i: nat)
    requires i < 64
    ensures Steps(digest, i) == Coefficient(digest, i)
  {
    assert WithChecksum(digest)[i / 2] == digest[i / 2];
  }

  /** A digest dominated nibble by nibble has the larger deficit, unless the nibbles agree. */
  lemma {:induction false} DominationLowersDeficit(a: Bytes, b: Bytes, n: nat)
    requires n <= 2 * |a| && n <= 2 * |b|
    requires forall i :: 0 <= i < n ==> Coefficient(a, i) >= Coefficient(b, i)
    ensures Deficit(a, n) <= Deficit(b, n)
    ensures Deficit(a, n) == Deficit(b, n) ==> forall i :: 0 <= i < n ==> Coefficient(a, i) == Coefficient(b, i)
  {
    if n > 0 {
      DominationLowersDeficit(a, b, n - 1);
    }
  }

  lemma NibblesDetermineDigest(a: Digest, b: Digest)
    requires forall i :: 0 <= i < 64 ==> Coefficient(a, i) == Coefficient(b, i)
    ensures a == b
  {
    forall k | 0 <= k < 32 ensures a[k] == b[k] {
      assert Coefficient(a, 2 * k) == Coefficient(b, 2 * k);
      assert Coefficient(a, 2 * k + 1) == Coefficient(b, 2 * k + 1);
    }
  }

  lemma {:induction false} ChecksumAntichain(a: Digest, b: Digest)
    requires a != b
    ensures exists i: nat :: i < P && Steps(a, i) < Steps(b, i)
  {
    if forall i: nat :: i < P ==> Steps(a, i) >= Steps(b, i) {
      forall i | 0 <= i < 64 ensures Coefficient(a, i) >= Coefficient(b, i) {
        StepsOfDigest(a, i);
        StepsOfDigest(b, i);
        assert Steps(a, i) >= Steps(b, i);
      }
      DominationLowersDeficit(a, b, 64);
      ChecksumNibbles(a);
      ChecksumNibbles(b);
      assert Steps(a, 64) >= Steps(b, 64) && Steps(a, 65) >= Steps(b, 65) && Steps(a, 66) >= Steps(b, 66);
      NibblesDetermineDigest(a, b);
      assert false;
    }
  }
}
