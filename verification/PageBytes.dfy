/** The bytes of a page: four to a word, least significant first. */
module PageBytes {
  import opened PageTables

  const PAGE_BYTES: nat := 4096

  function Pack(b0: nat, b1: nat, b2: nat, b3: nat): nat { b0 + 0x100 * (b1 + 0x100 * (b2 + 0x100 * b3)) }

  function ByteIn(word: nat, r: nat): nat {
    if r == 0 then word % 0x100 else ByteIn(word / 0x100, r - 1)
  }

  /** The word with byte r replaced. */
  function PutByte(word: nat, r: nat, byte: nat): nat {
    if r == 0 then word / 0x100 * 0x100 + byte else word % 0x100 + 0x100 * PutByte(word / 0x100, r - 1, byte)
  }

  function ByteOr0(data: seq<nat>, k: nat): nat { if k < |data| then data[k] else 0 }

  predicate IsBytes(data: seq<nat>) { forall k :: 0 <= k < |data| ==> data[k] < 0x100 }

  function WordOf(data: seq<nat>, w: nat): nat {
    Pack(ByteOr0(data, 4 * w), ByteOr0(data, 4 * w + 1), ByteOr0(data, 4 * w + 2), ByteOr0(data, 4 * w + 3))
  }

  /** A page that starts with the given bytes and is zero behind them. */
  function PageWith(data: seq<nat>): Page { seq(ENTRIES, w requires 0 <= w < ENTRIES => WordOf(data, w)) }

  function PageByte(page: Page, k: nat): nat
    requires k < PAGE_BYTES
  {
    ByteIn(page[k / 4], k % 4)
  }

  lemma LowByte(b: nat, rest: nat)
    requires b < 0x100
    ensures (b + 0x100 * rest) % 0x100 == b && (b + 0x100 * rest) / 0x100 == rest
  {
  }

  lemma BytesOfPack(b0: nat, b1: nat, b2: nat, b3: nat)
    requires b0 < 0x100 && b1 < 0x100 && b2 < 0x100 && b3 < 0x100
    ensures var w := Pack(b0, b1, b2, b3);
      ByteIn(w, 0) == b0 && ByteIn(w, 1) == b1 && ByteIn(w, 2) == b2 && ByteIn(w, 3) == b3
  {
    var w, w1, w2 := Pack(b0, b1, b2, b3), b1 + 0x100 * (b2 + 0x100 * b3), b2 + 0x100 * b3;
    LowByte(b0, w1);
    LowByte(b1, w2);
    LowByte(b2, b3);
    assert ByteIn(w, 1) == ByteIn(w1, 0);
    assert ByteIn(w, 2) == ByteIn(w1, 1) == ByteIn(w2, 0);
    assert ByteIn(w, 3) == ByteIn(w1, 2) == ByteIn(w2, 1) == ByteIn(b3, 0);
  }

  lemma WordByte(data: seq<nat>, w: nat, r: nat)
    requires IsBytes(data) && r < 4
    ensures ByteIn(WordOf(data, w), r) == ByteOr0(data, 4 * w + r)
  {
    BytesOfPack(ByteOr0(data, 4 * w), ByteOr0(data, 4 * w + 1), ByteOr0(data, 4 * w + 2), ByteOr0(data, 4 * w + 3));
  }

  lemma Quarter(k: nat)
    ensures k == 4 * (k / 4) + k % 4 && k % 4 < 4
  {
  }

  /** Every byte of such a page is the data's, then zero. */
  lemma PageReads(data: seq<nat>, k: nat)
    requires IsBytes(data) && k < PAGE_BYTES
    ensures PageByte(PageWith(data), k) == ByteOr0(data, k)
  {
    Quarter(k);
    WordByte(data, k / 4, k % 4);
  }

  lemma NoBytes()
    ensures PageWith([]) == ZeroPage()
  {
  }

  lemma PutStep(b: nat, rest: nat, r: nat, byte: nat)
    requires b < 0x100
    ensures PutByte(b + 0x100 * rest, r, byte) ==
      if r == 0 then byte + 0x100 * rest else b + 0x100 * PutByte(rest, r - 1, byte)
  {
    LowByte(b, rest);
  }

  /** Replacing a byte behind the first. */
  lemma PutBehind(b: nat, rest: nat, r: nat, byte: nat, put: nat)
    requires b < 0x100 && r > 0 && PutByte(rest, r - 1, byte) == put
    ensures PutByte(b + 0x100 * rest, r, byte) == b + 0x100 * put
  {
    PutStep(b, rest, r, byte);
  }

  lemma PutFront(b: nat, rest: nat, byte: nat)
    requires b < 0x100
    ensures PutByte(b + 0x100 * rest, 0, byte) == byte + 0x100 * rest
  {
    PutStep(b, rest, 0, byte);
  }

  lemma PutInPack(b0: nat, b1: nat, b2: nat, b3: nat, r: nat, byte: nat)
    requires b0 < 0x100 && b1 < 0x100 && b2 < 0x100 && b3 < 0x100 && r < 4
    ensures PutByte(Pack(b0, b1, b2, b3), r, byte)
      == Pack(if r == 0 then byte else b0, if r == 1 then byte else b1,
              if r == 2 then byte else b2, if r == 3 then byte else b3)
  {
    var w2 := b2 + 0x100 * b3;
    var w1 := b1 + 0x100 * w2;
    if r == 0 {
      PutFront(b0, w1, byte);
    } else if r == 1 {
      PutFront(b1, w2, byte);
      PutBehind(b0, w1, 1, byte, byte + 0x100 * w2);
    } else if r == 2 {
      PutFront(b2, b3, byte);
      PutBehind(b1, w2, 1, byte, byte + 0x100 * b3);
      PutBehind(b0, w1, 2, byte, b1 + 0x100 * (byte + 0x100 * b3));
    } else {
      PutFront(b3, 0, byte);
      PutBehind(b2, b3, 1, byte, byte);
      PutBehind(b1, w2, 2, byte, b2 + 0x100 * byte);
      PutBehind(b0, w1, 3, byte, b1 + 0x100 * (b2 + 0x100 * byte));
    }
  }

  /** A word with byte r replaced. */
  function PutInWordOf(data: seq<nat>, w: nat, r: nat, byte: nat): nat {
    Pack(if r == 0 then byte else ByteOr0(data, 4 * w), if r == 1 then byte else ByteOr0(data, 4 * w + 1),
         if r == 2 then byte else ByteOr0(data, 4 * w + 2), if r == 3 then byte else ByteOr0(data, 4 * w + 3))
  }

  lemma PutIs(data: seq<nat>, w: nat, r: nat, byte: nat)
    requires IsBytes(data) && r < 4
    ensures PutByte(WordOf(data, w), r, byte) == PutInWordOf(data, w, r, byte)
  {
    PutInPack(ByteOr0(data, 4 * w), ByteOr0(data, 4 * w + 1), ByteOr0(data, 4 * w + 2), ByteOr0(data, 4 * w + 3),
              r, byte);
  }

  lemma ByteAdded(data: seq<nat>, k: nat, n: nat)
    requires k < |data|
    ensures ByteOr0(data[..k + 1], n) == if n == k then data[k] else ByteOr0(data[..k], n)
  {
  }

  lemma PutInWord(data: seq<nat>, w: nat, r: nat)
    requires IsBytes(data) && r < 4 && 4 * w + r < |data|
    ensures var k := 4 * w + r; PutInWordOf(data[..k], w, r, data[k]) == WordOf(data[..k + 1], w)
  {
    var k := 4 * w + r;
    ByteAdded(data, k, 4 * w);
    ByteAdded(data, k, 4 * w + 1);
    ByteAdded(data, k, 4 * w + 2);
    ByteAdded(data, k, 4 * w + 3);
  }

  lemma OtherWord(data: seq<nat>, k: nat, v: nat)
    requires k < |data| && v != k / 4
    ensures WordOf(data[..k + 1], v) == WordOf(data[..k], v)
  {
    ByteAdded(data, k, 4 * v);
    ByteAdded(data, k, 4 * v + 1);
    ByteAdded(data, k, 4 * v + 2);
    ByteAdded(data, k, 4 * v + 3);
  }

  lemma PutNextWord(data: seq<nat>, w: nat, r: nat)
    requires IsBytes(data) && r < 4 && 4 * w + r < |data|
    ensures var k := 4 * w + r; PutByte(WordOf(data[..k], w), r, data[k]) == WordOf(data[..k + 1], w)
  {
    PutInWord(data, w, r);
    PutIs(data[..4 * w + r], w, r, data[4 * w + r]);
  }

  lemma NextPage(data: seq<nat>, k: nat)
    requires k < |data| <= PAGE_BYTES
    ensures PageWith(data[..k])[k / 4 := WordOf(data[..k + 1], k / 4)] == PageWith(data[..k + 1])
  {
    forall v: nat | v < ENTRIES && v != k / 4 ensures WordOf(data[..k + 1], v) == WordOf(data[..k], v) {
      OtherWord(data, k, v);
    }
  }

  /** Storing the next byte extends the data by one. */
  lemma PutNext(data: seq<nat>, k: nat)
    requires IsBytes(data) && k < |data| <= PAGE_BYTES
    ensures PutByte(PageWith(data[..k])[k / 4], k % 4, data[k]) == WordOf(data[..k + 1], k / 4)
    ensures PageWith(data[..k])[k / 4 := WordOf(data[..k + 1], k / 4)] == PageWith(data[..k + 1])
  {
    Quarter(k);
    PutNextWord(data, k / 4, k % 4);
    NextPage(data, k);
  }
}
