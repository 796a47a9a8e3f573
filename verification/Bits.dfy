/** Exclusive and inclusive or on bytes, bit by bit, and the XOR algebra on byte strings. */
module Bits {
  import opened Octets

  function Xor(a: nat, b: nat): nat
    decreases a + b
  {
    if a == 0 && b == 0 then 0 else 2 * Xor(a / 2, b / 2) + (if a % 2 == b % 2 then 0 else 1)
  }

  function Or(a: nat, b: nat): nat
    decreases a + b
  {
    if a == 0 && b == 0 then 0 else 2 * Or(a / 2, b / 2) + (if a % 2 == 1 || b % 2 == 1 then 1 else 0)
  }

  lemma {:induction false} XorIsZero(a: nat, b: nat)
    ensures Xor(a, b) == 0 <==> a == b
    decreases a + b
  {
    if a != 0 || b != 0 {
      XorIsZero(a / 2, b / 2);
    }
  }

  lemma {:induction false} OrIsZero(a: nat, b: nat)
    ensures Or(a, b) == 0 <==> a == 0 && b == 0
    decreases a + b
  {
    if a != 0 || b != 0 {
      OrIsZero(a / 2, b / 2);
    }
  }

  lemma {:induction false} XorCommutes(a: nat, b: nat)
    ensures Xor(a, b) == Xor(b, a)
    decreases a + b
  {
    if a != 0 || b != 0 {
      XorCommutes(a / 2, b / 2);
    }
  }

  lemma XorHalf(a: nat, b: nat)
    ensures Xor(a, b) / 2 == Xor(a / 2, b / 2) && (Xor(a, b) % 2 == 0 <==> a % 2 == b % 2)
  {
  }

  lemma {:induction false} XorAssociates(a: nat, b: nat, c: nat)
    ensures Xor(Xor(a, b), c) == Xor(a, Xor(b, c))
    decreases a + b + c
  {
    hide Xor;
    XorZero(0);
    if a != 0 || b != 0 || c != 0 {
      XorAssociates(a / 2, b / 2, c / 2);
      var x, y := Xor(a, b), Xor(b, c);
      XorUnfold(x, c);
      XorUnfold(a, y);
      XorHalf(a, b);
      XorHalf(b, c);
    }
  }

  lemma XorUnfold(a: nat, b: nat)
    ensures Xor(a, b) == 2 * Xor(a / 2, b / 2) + (if a % 2 == b % 2 then 0 else 1)
  {
  }

  lemma {:induction false} XorZero(a: nat)
    ensures Xor(a, 0) == a
  {
    if a != 0 {
      XorZero(a / 2);
    }
  }

  lemma {:induction false} XorBound(a: nat, b: nat, bound: nat)
    requires a < bound && b < bound
    requires PowerOfTwo(bound)
    ensures Xor(a, b) < bound
    decreases bound
  {
    if bound > 1 {
      XorBound(a / 2, b / 2, bound / 2);
      XorUnfold(a, b);
    }
  }

  predicate PowerOfTwo(n: nat) {
    n == 1 || (n > 0 && n % 2 == 0 && PowerOfTwo(n / 2))
  }

  // --- On bytes and byte strings ----------------------------------------------------

  function XorByte(a: byte, b: byte): byte {
    assert PowerOfTwo(16);
    assert PowerOfTwo(256);
    XorBound(a, b, 256);
    Xor(a, b)
  }

  function XorAll(a: Bytes, b: Bytes): (r: Bytes)
    requires |a| == |b|
    ensures |r| == |a|
  {
    seq(|a|, i requires 0 <= i < |a| => XorByte(a[i], b[i]))
  }

  lemma {:induction false} XorAllCommutes(a: Bytes, b: Bytes)
    requires |a| == |b|
    ensures XorAll(a, b) == XorAll(b, a)
  {
    forall i | 0 <= i < |a| ensures XorByte(a[i], b[i]) == XorByte(b[i], a[i]) {
      XorCommutes(a[i], b[i]);
    }
  }

  lemma {:induction false} XorAllAssociates(a: Bytes, b: Bytes, c: Bytes)
    requires |a| == |b| == |c|
    ensures XorAll(XorAll(a, b), c) == XorAll(a, XorAll(b, c))
  {
    hide Xor;
    forall i | 0 <= i < |a|
      ensures XorByte(XorByte(a[i], b[i]), c[i]) == XorByte(a[i], XorByte(b[i], c[i]))
    {
      XorAssociates(a[i], b[i], c[i]);
    }
  }

  /** Masking twice with the same mask is the identity. */
  lemma {:induction false} XorAllCancels(a: Bytes, mask: Bytes)
    requires |a| == |mask|
    ensures XorAll(XorAll(a, mask), mask) == a
  {
    hide Xor;
    forall i | 0 <= i < |a| ensures XorByte(XorByte(a[i], mask[i]), mask[i]) == a[i] {
      XorAssociates(a[i], mask[i], mask[i]);
      XorIsZero(mask[i], mask[i]);
      XorZero(a[i]);
    }
  }

  /** The in-place loop of `xorBytes` and of the PUF maps: out = a ^ b, byte by byte. */
  method XorInto(a: Bytes, b: Bytes, output: array<byte>, offset: nat)
    requires |a| == |b| && offset + |a| <= output.Length
    modifies output
    ensures output[offset..offset + |a|] == XorAll(a, b)
    ensures output[..offset] == old(output[..offset])
    ensures output[offset + |a|..] == old(output[offset + |a|..])
  {
    for i := 0 to |a|
      invariant output[offset..offset + i] == XorAll(a, b)[..i]
      invariant output[..offset] == old(output[..offset])
      invariant output[offset + |a|..] == old(output[offset + |a|..])
    {
      output[offset + i] := XorByte(a[i], b[i]);
      assert output[offset..offset + i + 1] == output[offset..offset + i] + [XorAll(a, b)[i]];
    }
  }

  /** `constantTimeEqual`: accumulates the differences of all bytes before deciding. */
  method ConstantTimeEqual(left: Bytes, right: Bytes, length: nat) returns (equal: bool)
    requires length <= |left| && length <= |right|
    ensures equal == (left[..length] == right[..length])
  {
    var difference: nat := 0;
    for i := 0 to length
      invariant difference == 0 <==> left[..i] == right[..i]
    {
      OrIsZero(difference, Xor(left[i], right[i]));
      XorIsZero(left[i], right[i]);
      difference := Or(difference, Xor(left[i], right[i]));
      assert left[..i + 1] == left[..i] + [left[i]] && right[..i + 1] == right[..i] + [right[i]];
    }
    equal := difference == 0;
  }
}
