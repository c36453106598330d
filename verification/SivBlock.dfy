/** Blocks of 16 bytes as libaes_siv/aes_siv.c treats them: words in big-endian
    order, xor, and doubling in GF(2^128). */
module SivBlock {
  import opened Gf128

  type Byte = bv8
  type Bytes = seq<Byte>

  const BLOCK := 16

  /** getword, in the form that does not depend on the byte order of the machine. */
  function GetWord(b: Bytes, i: nat): (w: bv64)
    requires |b| == BLOCK && i < 2
  {
    Join(b[8 * i], b[8 * i + 1], b[8 * i + 2], b[8 * i + 3], b[8 * i + 4], b[8 * i + 5], b[8 * i + 6], b[8 * i + 7])
  }

  function Join(b0: Byte, b1: Byte, b2: Byte, b3: Byte, b4: Byte, b5: Byte, b6: Byte, b7: Byte): (w: bv64) {
    (b7 as bv64) | ((b6 as bv64) << 8) | ((b5 as bv64) << 16) | ((b4 as bv64) << 24) |
    ((b3 as bv64) << 32) | ((b2 as bv64) << 40) | ((b1 as bv64) << 48) | ((b0 as bv64) << 56)
  }

  /** putword, likewise: the eight bytes of a word. */
  function WordBytes(x: bv64): (b: Bytes)
    ensures |b| == 8
  {
    [ByteAt(x, 56), ByteAt(x, 48), ByteAt(x, 40), ByteAt(x, 32), ByteAt(x, 24), ByteAt(x, 16), ByteAt(x, 8), ByteAt(x, 0)]
  }

  function ByteAt(x: bv64, shift: bv7): Byte
    requires shift <= 56
  {
    ((x >> shift) & 0xff) as Byte
  }

  /** The block with the two given words. */
  function FromWords(high: bv64, low: bv64): (b: Bytes)
    ensures |b| == BLOCK
  {
    WordBytes(high) + WordBytes(low)
  }

  lemma JoinOfBytes(x: bv64)
    ensures Join(ByteAt(x, 56), ByteAt(x, 48), ByteAt(x, 40), ByteAt(x, 32),
                 ByteAt(x, 24), ByteAt(x, 16), ByteAt(x, 8), ByteAt(x, 0)) == x
  {
  }

  lemma BytesOfJoin(b0: Byte, b1: Byte, b2: Byte, b3: Byte, b4: Byte, b5: Byte, b6: Byte, b7: Byte)
    ensures WordBytes(Join(b0, b1, b2, b3, b4, b5, b6, b7)) == [b0, b1, b2, b3, b4, b5, b6, b7]
  {
  }

  /** getword and putword are inverse to each other. */
  lemma WordsOfBlock(b: Bytes)
    requires |b| == BLOCK
    ensures FromWords(GetWord(b, 0), GetWord(b, 1)) == b
  {
    BytesOfJoin(b[0], b[1], b[2], b[3], b[4], b[5], b[6], b[7]);
    BytesOfJoin(b[8], b[9], b[10], b[11], b[12], b[13], b[14], b[15]);
  }

  lemma BlockOfWords(high: bv64, low: bv64)
    ensures GetWord(FromWords(high, low), 0) == high && GetWord(FromWords(high, low), 1) == low
  {
    JoinOfBytes(high);
    JoinOfBytes(low);
  }

  // ----- byte order

  function RotL(x: bv32): bv32 { (x << 8) | (x >> 24) }

  function RotR(x: bv32): bv32 { (x >> 8) | (x << 24) }

  /** The portable bswap64. */
  function BSwap64(x: bv64): bv64 {
    var high := (x >> 32) as bv32;
    var low := (x & 0xffff_ffff) as bv32;
    var high' := (RotL(high) & 0x00ff_00ff) | (RotR(high) & 0xff00_ff00);
    var low' := (RotL(low) & 0x00ff_00ff) | (RotR(low) & 0xff00_ff00);
    ((low' as bv64) << 32) | (high' as bv64)
  }

  /** On a little-endian machine, swapping the bytes of a native word gives the big-endian word. */
  lemma SwapIsBigEndian(b0: Byte, b1: Byte, b2: Byte, b3: Byte, b4: Byte, b5: Byte, b6: Byte, b7: Byte)
    ensures BSwap64(Join(b7, b6, b5, b4, b3, b2, b1, b0)) == Join(b0, b1, b2, b3, b4, b5, b6, b7)
  {
  }

  // ----- xor

  function Xor(a: Bytes, b: Bytes): (r: Bytes)
    requires |a| == |b|
    ensures |r| == |a| && forall i :: 0 <= i < |a| ==> r[i] == a[i] ^ b[i]
  {
    seq(|a|, i requires 0 <= i < |a| => a[i] ^ b[i])
  }

  /** xorblock works on words; that is xor byte by byte. */
  lemma JoinXor(a0: Byte, a1: Byte, a2: Byte, a3: Byte, a4: Byte, a5: Byte, a6: Byte, a7: Byte,
                b0: Byte, b1: Byte, b2: Byte, b3: Byte, b4: Byte, b5: Byte, b6: Byte, b7: Byte)
    ensures Join(a0, a1, a2, a3, a4, a5, a6, a7) ^ Join(b0, b1, b2, b3, b4, b5, b6, b7) ==
            Join(a0 ^ b0, a1 ^ b1, a2 ^ b2, a3 ^ b3, a4 ^ b4, a5 ^ b5, a6 ^ b6, a7 ^ b7)
  {
  }

  /** Both words of a block are zero just when all its bytes are. */
  lemma ZeroWords(b: Bytes)
    requires |b| == BLOCK
    ensures GetWord(b, 0) | GetWord(b, 1) == 0 <==> forall i :: 0 <= i < BLOCK ==> b[i] == 0
  {
    if GetWord(b, 0) | GetWord(b, 1) == 0 {
      OrZero(GetWord(b, 0), GetWord(b, 1));
      WordsOfBlock(b);
      ZeroBytes();
    }
  }

  lemma OrZero(x: bv64, y: bv64)
    requires x | y == 0
    ensures x == 0 && y == 0
  {
  }

  lemma ZeroBytes()
    ensures WordBytes(0) == [0, 0, 0, 0, 0, 0, 0, 0]
  {
  }

  // ----- doubling

  /** dbl on the two words of a block. */
  function Dbl(b: Bytes): (r: Bytes)
    requires |b| == BLOCK
    ensures |r| == BLOCK
  {
    FromWords(DblHigh(GetWord(b, 0), GetWord(b, 1)), DblLow(GetWord(b, 0), GetWord(b, 1)))
  }

  /** dbl on a block doubles its two big-endian words. */
  lemma DblOfWords(b: Bytes)
    requires |b| == BLOCK
    ensures GetWord(Dbl(b), 0) == DblHigh(GetWord(b, 0), GetWord(b, 1))
    ensures GetWord(Dbl(b), 1) == DblLow(GetWord(b, 0), GetWord(b, 1))
  {
    BlockOfWords(DblHigh(GetWord(b, 0), GetWord(b, 1)), DblLow(GetWord(b, 0), GetWord(b, 1)));
  }

  /** No two blocks have the same double. */
  lemma DblInjective(a: Bytes, b: Bytes)
    requires |a| == |b| == BLOCK && Dbl(a) == Dbl(b)
    ensures a == b
  {
    var h1, l1, h2, l2 := GetWord(a, 0), GetWord(a, 1), GetWord(b, 0), GetWord(b, 1);
    BlockOfWords(DblHigh(h1, l1), DblLow(h1, l1));
    BlockOfWords(DblHigh(h2, l2), DblLow(h2, l2));
    DblWordsInjective(h1, l1, h2, l2);
    WordsOfBlock(a);
    WordsOfBlock(b);
  }
}
