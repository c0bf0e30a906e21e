/** Allocation bitmaps: one bit per frame or slot, eight to a byte, as the
    physical memory manager and the demand-paged pools keep them. */
module Bitmap {

  function Mask(i: nat): bv8
    requires i < 8
  {
    if i == 0 then 1 else if i == 1 then 2 else if i == 2 then 4 else if i == 3 then 8
    else if i == 4 then 16 else if i == 5 then 32 else if i == 6 then 64 else 128
  }

  predicate HasBit(byte: bv8, i: nat)
    requires i < 8
  {
    byte & Mask(i) != 0
  }

  /** Bit i is worth 2 to the i. */
  lemma BitIs(byte: bv8, i: nat)
    requires i < 8
    ensures HasBit(byte, i) <==> (byte >> i) & 1 == 1
  {
    assert Mask(i) == 1 << i;
  }

  function WithBit(byte: bv8, i: nat): bv8
    requires i < 8
  {
    byte | Mask(i)
  }

  function WithoutBit(byte: bv8, i: nat): bv8
    requires i < 8
  {
    byte & !Mask(i)
  }

  lemma WithBitHas(byte: bv8, i: nat, j: nat)
    requires i < 8 && j < 8
    ensures HasBit(WithBit(byte, i), j) <==> i == j || HasBit(byte, j)
    ensures WithBit(byte, i) == byte <==> HasBit(byte, i)
  {
  }

  lemma WithoutBitHas(byte: bv8, i: nat, j: nat)
    requires i < 8 && j < 8
    ensures HasBit(WithoutBit(byte, i), j) <==> i != j && HasBit(byte, j)
    ensures WithoutBit(byte, i) == byte <==> !HasBit(byte, i)
  {
  }

  lemma PlainBytes(i: nat)
    requires i < 8
    ensures !HasBit(0, i)
    ensures HasBit(0xFF, i)
  {
  }

  /** Whether bit f of a bitmap is set; bits past its end count as set. */
  predicate Used(map8: seq<bv8>, f: nat) {
    f / 8 < |map8| ==> HasBit(map8[f / 8], f % 8)
  }

  function Set(map8: seq<bv8>, f: nat): seq<bv8>
    requires f / 8 < |map8|
  {
    map8[f / 8 := WithBit(map8[f / 8], f % 8)]
  }

  function Clear(map8: seq<bv8>, f: nat): seq<bv8>
    requires f / 8 < |map8|
  {
    map8[f / 8 := WithoutBit(map8[f / 8], f % 8)]
  }

  lemma SetUses(map8: seq<bv8>, f: nat, g: nat)
    requires f / 8 < |map8|
    ensures Used(Set(map8, f), g) <==> f == g || Used(map8, g)
  {
    if f / 8 == g / 8 { WithBitHas(map8[f / 8], f % 8, g % 8); }
  }

  lemma ClearUses(map8: seq<bv8>, f: nat, g: nat)
    requires f / 8 < |map8|
    ensures Used(Clear(map8, f), g) <==> f != g && Used(map8, g)
  {
    if f / 8 == g / 8 { WithoutBitHas(map8[f / 8], f % 8, g % 8); }
  }

  /** Freeing what was just allocated restores the bitmap bit for bit. */
  lemma ClearUndoesSet(map8: seq<bv8>, f: nat)
    requires f / 8 < |map8| && !Used(map8, f)
    ensures Clear(Set(map8, f), f) == map8
  {
    var b, i := map8[f / 8], f % 8;
    assert WithoutBit(WithBit(b, i), i) == b by { MaskUndo(b, i); }
  }

  lemma MaskUndo(b: bv8, i: nat)
    requires i < 8 && !HasBit(b, i)
    ensures WithoutBit(WithBit(b, i), i) == b
  {
  }
}
