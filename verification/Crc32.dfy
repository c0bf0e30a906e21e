/** The kernel image checksum of the stage2 loader: a table-driven CRC-32 that
    consumes one nibble per lookup, compared with the bit-serial definition. */
module Crc32 {

  const POLYNOMIAL: bv32 := 0xEDB88320

  const BITS_PER_BYTE: nat := 8

  const INITIAL: bv32 := 0xFFFF_FFFF

  /** The sixteen-entry table embedded in the loader. */
  function Table(nibble: bv32): bv32
    requires nibble < 16
  {
    if nibble == 0 then 0x00000000 else if nibble == 1 then 0x1DB71064
    else if nibble == 2 then 0x3B6E20C8 else if nibble == 3 then 0x26D930AC
    else if nibble == 4 then 0x76DC4190 else if nibble == 5 then 0x6B6B51F4
    else if nibble == 6 then 0x4DB26158 else if nibble == 7 then 0x5005713C
    else if nibble == 8 then 0xEDB88320 else if nibble == 9 then 0xF00F9344
    else if nibble == 10 then 0xD6D6A3E8 else if nibble == 11 then 0xCB61B38C
    else if nibble == 12 then 0x9B64C2B0 else if nibble == 13 then 0x86D3D2D4
    else if nibble == 14 then 0xA00AE278 else 0xBDBDF21C
  }

  /** One lookup round of the loader: the low nibble leaves the register. */
  function NibbleRound(c: bv32): bv32 {
    (c >> 4) ^ Table(c & 0xF)
  }

  /** A byte xored into the low byte of the register. */
  function Mix(c: bv32, b: bv8): bv32 {
    c ^ (b as bv32)
  }

  /** The loader's update for one byte: xor it into the low byte, two rounds. */
  function TableByte(c: bv32, b: bv8): bv32 {
    NibbleRound(NibbleRound(Mix(c, b)))
  }

  /** One step of the bit-serial reflected CRC (section 8 of RFC 1952). */
  function BitStep(c: bv32): bv32 {
    if c & 1 == 1 then (c >> 1) ^ POLYNOMIAL else c >> 1
  }

  function BitSteps(c: bv32, n: nat): bv32
    decreases n
  {
    if n == 0 then c else BitSteps(BitStep(c), n - 1)
  }

  /** One byte shifted through the register, bit by bit. */
  function SerialByte(c: bv32, b: bv8): bv32 {
    BitSteps(Mix(c, b), BITS_PER_BYTE)
  }

  /** A register after a whole message, one element at a time. */
  function Fold<R, B>(step: (R, B) -> R, r: R, data: seq<B>): R
    decreases data
  {
    if data == [] then r else Fold(step, step(r, data[0]), data[1..])
  }

  /** The CRC-32 of a message by the bit-serial definition. */
  function Checksum(data: seq<bv8>): bv32 {
    Fold(SerialByte, INITIAL, data) ^ 0xFFFF_FFFF
  }

  // ---- The table form computes the bit-serial definition ----

  lemma NibbleRoundIsFourSteps(c: bv32)
    ensures NibbleRound(c) == BitStep(BitStep(BitStep(BitStep(c))))
  {
    if c & 1 == 1 { if c & 2 == 2 { } } else { if c & 2 == 2 { } }
  }

  lemma StepsUnfold(c: bv32, n: nat)
    requires n >= 4
    ensures BitSteps(c, n) == BitSteps(BitStep(BitStep(BitStep(BitStep(c)))), n - 4)
  {
    var c2 := BitStep(BitStep(c));
    assert BitSteps(c, n) == BitSteps(c2, n - 2);
    assert BitSteps(c2, n - 2) == BitSteps(BitStep(BitStep(c2)), n - 4);
  }

  /** For every register value and byte, the loader's two table lookups are
      eight bit-serial steps. */
  lemma TableByteIsSerialByte(c: bv32, b: bv8)
    ensures TableByte(c, b) == SerialByte(c, b)
  {
    TwoRoundsAreSteps(Mix(c, b), BITS_PER_BYTE);
  }

  lemma TwoRoundsAreSteps(x: bv32, n: nat)
    requires n == BITS_PER_BYTE
    ensures NibbleRound(NibbleRound(x)) == BitSteps(x, n)
  {
    StepsUnfold(x, n);
    NibbleRoundIsFourSteps(x);
    StepsUnfold(NibbleRound(x), n - 4);
    NibbleRoundIsFourSteps(NibbleRound(x));
  }

  /** Feeding a message in two pieces (cluster after cluster) gives the
      register of the whole message. */
  lemma {:induction false} FoldSplits<R, B>(step: (R, B) -> R, r: R, a: seq<B>, b: seq<B>)
    ensures Fold(step, r, a + b) == Fold(step, Fold(step, r, a), b)
    decreases a
  {
    if a == [] {
      assert a + b == b;
    } else {
      assert (a + b)[1..] == a[1..] + b;
      FoldSplits(step, step(r, a[0]), a[1..], b);
    }
  }

  lemma {:induction false} FoldAgrees<R(!new), B(!new)>(f: (R, B) -> R, g: (R, B) -> R, r: R, data: seq<B>)
    requires forall x, b :: f(x, b) == g(x, b)
    ensures Fold(f, r, data) == Fold(g, r, data)
    decreases data
  {
    if data != [] { FoldAgrees(f, g, f(r, data[0]), data[1..]); }
  }

  /** The loader's running value, inverted at the end, is the CRC-32. */
  lemma TableFoldIsChecksum(data: seq<bv8>)
    ensures Fold(TableByte, INITIAL, data) ^ 0xFFFF_FFFF == Checksum(data)
  {
    forall c: bv32, b: bv8 ensures TableByte(c, b) == SerialByte(c, b) { TableByteIsSerialByte(c, b); }
    FoldAgrees(TableByte, SerialByte, INITIAL, data);
  }

  /** A message from position k on takes the register from registers[k] to the last. */
  lemma {:induction false} FoldThrough<R, B>(step: (R, B) -> R, registers: seq<R>, data: seq<B>, k: nat)
    requires |registers| == |data| + 1 && k <= |data|
    requires forall i :: 0 <= i < |data| ==> step(registers[i], data[i]) == registers[i + 1]
    ensures Fold(step, registers[k], data[k..]) == registers[|data|]
    decreases |data| - k
  {
    if k < |data| {
      FoldThrough(step, registers, data, k + 1);
      assert data[k..][1..] == data[k + 1..];
    }
  }

  lemma CheckRegisters()
    ensures TableByte(0xFFFF_FFFF, 0x31) == 0x7C23_1048
    ensures TableByte(0x7C23_1048, 0x32) == 0xB0AC_BB32
    ensures TableByte(0xB0AC_BB32, 0x33) == 0x77B7_9C2D
    ensures TableByte(0x77B7_9C2D, 0x34) == 0x641C_1F5C
    ensures TableByte(0x641C_1F5C, 0x35) == 0x340A_C5E3
    ensures TableByte(0x340A_C5E3, 0x36) == 0xF68D_2C9E
    ensures TableByte(0xF68D_2C9E, 0x37) == 0xAFFC_9660
    ensures TableByte(0xAFFC_9660, 0x38) == 0x651F_2550
    ensures TableByte(0x651F_2550, 0x39) == 0x340B_C6D9
  {
  }

  /** The values by which this CRC is told from others of its width: that of no
      bytes, and that of the digits 1 to 9. */
  lemma CheckValue()
    ensures Checksum([]) == 0
    ensures Checksum([0x31, 0x32, 0x33, 0x34, 0x35, 0x36, 0x37, 0x38, 0x39]) == 0xCBF4_3926
  {
    var digits: seq<bv8> := [0x31, 0x32, 0x33, 0x34, 0x35, 0x36, 0x37, 0x38, 0x39];
    CheckRegisters();
    FoldThrough(TableByte, [0xFFFF_FFFF, 0x7C23_1048, 0xB0AC_BB32, 0x77B7_9C2D, 0x641C_1F5C,
                            0x340A_C5E3, 0xF68D_2C9E, 0xAFFC_9660, 0x651F_2550, 0x340B_C6D9], digits, 0);
    assert digits[0..] == digits;
    TableFoldIsChecksum(digits);
  }

  // ---- What the checksum is for: corruption is noticed ----

  /** The top bit of the result says whether the polynomial was folded in, so
      a step can be undone. */
  lemma BitStepInjective(c: bv32, d: bv32)
    requires BitStep(c) == BitStep(d)
    ensures c == d
  {
  }

  lemma {:induction false} BitStepsInjective(c: bv32, d: bv32, n: nat)
    requires BitSteps(c, n) == BitSteps(d, n)
    ensures c == d
    decreases n
  {
    if n != 0 {
      BitStepsInjective(BitStep(c), BitStep(d), n - 1);
      BitStepInjective(c, d);
    }
  }

  lemma XorCancels(x: bv32, y: bv32, k: bv32)
    requires x ^ k == y ^ k
    ensures x == y
  {
    assert (x ^ k) ^ k == x && (y ^ k) ^ k == y;
  }

  lemma MixInjective(c: bv32, d: bv32, b: bv8)
    requires Mix(c, b) == Mix(d, b)
    ensures c == d
  {
    XorCancels(c, d, b as bv32);
  }

  lemma MixDistinguishes(c: bv32, b: bv8, b': bv8)
    requires Mix(c, b) == Mix(c, b')
    ensures b == b'
  {
  }

  lemma SerialByteInjective(c: bv32, d: bv32, b: bv8)
    requires SerialByte(c, b) == SerialByte(d, b)
    ensures c == d
  {
    BitStepsInjective(Mix(c, b), Mix(d, b), BITS_PER_BYTE);
    MixInjective(c, d, b);
  }

  lemma SerialByteDistinguishes(c: bv32, b: bv8, b': bv8)
    requires SerialByte(c, b) == SerialByte(c, b')
    ensures b == b'
  {
    BitStepsInjective(Mix(c, b), Mix(c, b'), BITS_PER_BYTE);
    MixDistinguishes(c, b, b');
  }

  /** A register that forgets nothing: replacing one element of a message by
      another, anywhere, changes the final register. */
  lemma {:induction false} FoldInjective<R(!new), B(!new)>(step: (R, B) -> R, r: R, q: R, data: seq<B>)
    requires forall x, y, b :: step(x, b) == step(y, b) ==> x == y
    requires Fold(step, r, data) == Fold(step, q, data)
    ensures r == q
    decreases data
  {
    if data != [] { FoldInjective(step, step(r, data[0]), step(q, data[0]), data[1..]); }
  }

  lemma FoldNoticesChange<R(!new), B(!new)>(step: (R, B) -> R, r: R, before: seq<B>, b: B, b': B, after: seq<B>)
    requires forall x, y, c :: step(x, c) == step(y, c) ==> x == y
    requires forall x, c, c' :: step(x, c) == step(x, c') ==> c == c'
    requires b != b'
    ensures Fold(step, r, before + [b] + after) != Fold(step, r, before + [b'] + after)
  {
    var q := Fold(step, r, before);
    forall x: B ensures Fold(step, r, before + [x] + after) == Fold(step, step(q, x), after) {
      FoldSplits(step, r, before + [x], after);
      FoldSplits(step, r, before, [x]);
      assert Fold(step, q, [x]) == step(q, x);
    }
    if Fold(step, step(q, b), after) == Fold(step, step(q, b'), after) {
      FoldInjective(step, step(q, b), step(q, b'), after);
    }
  }

  lemma SerialRegisterNoticesChange(before: seq<bv8>, b: bv8, b': bv8, after: seq<bv8>)
    requires b != b'
    ensures Fold(SerialByte, INITIAL, before + [b] + after) != Fold(SerialByte, INITIAL, before + [b'] + after)
  {
    forall x: bv32, y: bv32, c: bv8 | SerialByte(x, c) == SerialByte(y, c) ensures x == y {
      SerialByteInjective(x, y, c);
    }
    forall x: bv32, c: bv8, c': bv8 | SerialByte(x, c) == SerialByte(x, c') ensures c == c' {
      SerialByteDistinguishes(x, c, c');
    }
    FoldNoticesChange(SerialByte, INITIAL, before, b, b', after);
  }

  /** Whatever the rest of the image, a change confined to one byte changes
      the checksum: the loader's comparison rejects every such image. */
  lemma ByteCorruptionIsDetected(before: seq<bv8>, b: bv8, b': bv8, after: seq<bv8>)
    requires b != b'
    ensures Checksum(before + [b] + after) != Checksum(before + [b'] + after)
  {
    SerialRegisterNoticesChange(before, b, b', after);
    if Checksum(before + [b] + after) == Checksum(before + [b'] + after) {
      XorCancels(Fold(SerialByte, INITIAL, before + [b] + after),
                 Fold(SerialByte, INITIAL, before + [b'] + after), 0xFFFF_FFFF);
    }
  }
}
