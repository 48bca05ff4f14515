/** The bit helpers of slotmap.c on one byte. */
module Bits {
  type Byte = bv8

  /** `1 << bit`, truncated to a byte. */
  function Mask(bit: nat): Byte
    requires bit < 8
  {
    if bit == 0 then 1 else if bit == 1 then 2 else if bit == 2 then 4 else if bit == 3 then 8
    else if bit == 4 then 16 else if bit == 5 then 32 else if bit == 6 then 64 else 128
  }

  predicate Bit(v: Byte, bit: nat)
    requires bit < 8
  {
    v & Mask(bit) != 0
  }

  function SetBit(v: Byte, bit: nat): (r: Byte)
    requires bit < 8
    ensures forall j: nat :: j < 8 ==> (Bit(r, j) <==> j == bit || Bit(v, j))
  {
    v | Mask(bit)
  }

  function ClearBit(v: Byte, bit: nat): (r: Byte)
    requires bit < 8
    ensures forall j: nat :: j < 8 ==> (Bit(r, j) <==> j != bit && Bit(v, j))
  {
    assert 0xFF - Mask(bit) == !Mask(bit);
    v & (0xFF - Mask(bit))
  }

  lemma {:induction false} BytesEqual(v: Byte, w: Byte)
    requires forall j: nat :: j < 8 ==> (Bit(v, j) <==> Bit(w, j))
    ensures v == w
  {
    assert Bit(v, 0) <==> Bit(w, 0);
    assert Bit(v, 1) <==> Bit(w, 1);
    assert Bit(v, 2) <==> Bit(w, 2);
    assert Bit(v, 3) <==> Bit(w, 3);
    assert Bit(v, 4) <==> Bit(w, 4);
    assert Bit(v, 5) <==> Bit(w, 5);
    assert Bit(v, 6) <==> Bit(w, 6);
    assert Bit(v, 7) <==> Bit(w, 7);
  }

  lemma {:induction false} FullByte(v: Byte)
    ensures v == 0xFF <==> forall j: nat :: j < 8 ==> Bit(v, j)
  {
    if forall j: nat :: j < 8 ==> Bit(v, j) {
      BytesEqual(v, 0xFF);
    }
  }

  lemma {:induction false} ZeroByte(v: Byte)
    ensures v == 0 <==> forall j: nat :: j < 8 ==> !Bit(v, j)
  {
    if forall j: nat :: j < 8 ==> !Bit(v, j) {
      BytesEqual(v, 0);
    }
  }
}
