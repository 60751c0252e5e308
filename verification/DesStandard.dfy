/** Which bits the steps of DES move where: the permutations and the selection of the standard (ANSI X3.92),
    bit by bit, and the key bits of the schedule. Bits are counted from zero, most significant first. */
module DesStandard {
  import opened Feistel
  import opened Basics
  import opened DesBits
  import opened Des
  import opened DesKey

  /** Bit `n` of a half. */
  predicate Bit(x: Half, n: nat)
    requires n < 32
  {
    (x >> (31 - n)) & 1 == 1
  }

  /** Bit `n` of a block. */
  predicate BlockBit(s: Halves<Half>, n: nat)
    requires n < 64
  {
    if n < 32 then Bit(s.left, n) else Bit(s.right, n - 32)
  }

  // The initial permutation, row by row of the table of each half: column `c` has a bit of byte 7 - `c`, an odd one
  // in the left half and an even one in the right half. The program keeps both halves rotated by one bit.

  lemma InitialRow0(s: Halves<Half>, c: nat)
    requires c < 8
    ensures Bit(Ror(Initial(s).left), 0 + c) == BlockBit(s, 8 * (7 - c) + 1)
    ensures Bit(Ror(Initial(s).right), 0 + c) == BlockBit(s, 8 * (7 - c) + 0)
  {
    if c == 0 { return; }
    if c == 1 { return; }
    if c == 2 { return; }
    if c == 3 { return; }
    if c == 4 { return; }
    if c == 5 { return; }
    if c == 6 { return; }
  }

  lemma InitialRow1(s: Halves<Half>, c: nat)
    requires c < 8
    ensures Bit(Ror(Initial(s).left), 8 + c) == BlockBit(s, 8 * (7 - c) + 3)
    ensures Bit(Ror(Initial(s).right), 8 + c) == BlockBit(s, 8 * (7 - c) + 2)
  {
    if c == 0 { return; }
    if c == 1 { return; }
    if c == 2 { return; }
    if c == 3 { return; }
    if c == 4 { return; }
    if c == 5 { return; }
    if c == 6 { return; }
  }

  lemma InitialRow2(s: Halves<Half>, c: nat)
    requires c < 8
    ensures Bit(Ror(Initial(s).left), 16 + c) == BlockBit(s, 8 * (7 - c) + 5)
    ensures Bit(Ror(Initial(s).right), 16 + c) == BlockBit(s, 8 * (7 - c) + 4)
  {
    if c == 0 { return; }
    if c == 1 { return; }
    if c == 2 { return; }
    if c == 3 { return; }
    if c == 4 { return; }
    if c == 5 { return; }
    if c == 6 { return; }
  }

  lemma InitialRow3(s: Halves<Half>, c: nat)
    requires c < 8
    ensures Bit(Ror(Initial(s).left), 24 + c) == BlockBit(s, 8 * (7 - c) + 7)
    ensures Bit(Ror(Initial(s).right), 24 + c) == BlockBit(s, 8 * (7 - c) + 6)
  {
    if c == 0 { return; }
    if c == 1 { return; }
    if c == 2 { return; }
    if c == 3 { return; }
    if c == 4 { return; }
    if c == 5 { return; }
    if c == 6 { return; }
  }

  /** The last six bits of a half. */
  function LastSix(x: Half): bv6 { (x & 0x3f) as bv6 }

  // What the rounds look up with: for a half that is kept rotated, the standard's selection of six bits for each
  // S-box. For S-box `n` these are the group of four bits from 4 * `n` on, the bit before it and the bit after it.

  lemma OddSelection(right: Half)
    ensures Six24(OddWord(Rol(right), 0)) == LastSix((right << 5) | (right >> 27))
    ensures Six16(OddWord(Rol(right), 0)) == LastSix((right << 13) | (right >> 19))
    ensures Six8(OddWord(Rol(right), 0)) == LastSix((right << 21) | (right >> 11))
    ensures Six0(OddWord(Rol(right), 0)) == LastSix((right << 29) | (right >> 3))
  {
  }

  lemma EvenSelection(right: Half)
    ensures Six24(EvenWord(Rol(right), 0)) == LastSix((right << 9) | (right >> 23))
    ensures Six16(EvenWord(Rol(right), 0)) == LastSix((right << 17) | (right >> 15))
    ensures Six8(EvenWord(Rol(right), 0)) == LastSix((right << 25) | (right >> 7))
    ensures Six0(EvenWord(Rol(right), 0)) == LastSix((right << 1) | (right >> 31))
  {
  }

  lemma SixOfSum(v: Half, w: Half)
    ensures Six24(v ^ w) == Six24(v) ^ Six24(w) && Six16(v ^ w) == Six16(v) ^ Six16(w)
    ensures Six8(v ^ w) == Six8(v) ^ Six8(w) && Six0(v ^ w) == Six0(v) ^ Six0(w)
  {
  }

  lemma KeyIsAdded(right: Half, k: Half)
    ensures OddWord(right, k) == OddWord(right, 0) ^ k && EvenWord(right, k) == EvenWord(right, 0) ^ k
  {
  }

  lemma OddLookUps(right: Half, k: Half)
    ensures Six24(OddWord(right, k)) == Six24(OddWord(right, 0)) ^ Six24(k)
    ensures Six16(OddWord(right, k)) == Six16(OddWord(right, 0)) ^ Six16(k)
    ensures Six8(OddWord(right, k)) == Six8(OddWord(right, 0)) ^ Six8(k)
    ensures Six0(OddWord(right, k)) == Six0(OddWord(right, 0)) ^ Six0(k)
  {
    KeyIsAdded(right, k);
    SixOfSum(OddWord(right, 0), k);
  }

  lemma EvenLookUps(right: Half, k: Half)
    ensures Six24(EvenWord(right, k)) == Six24(EvenWord(right, 0)) ^ Six24(k)
    ensures Six16(EvenWord(right, k)) == Six16(EvenWord(right, 0)) ^ Six16(k)
    ensures Six8(EvenWord(right, k)) == Six8(EvenWord(right, 0)) ^ Six8(k)
    ensures Six0(EvenWord(right, k)) == Six0(EvenWord(right, 0)) ^ Six0(k)
  {
    KeyIsAdded(right, k);
    SixOfSum(EvenWord(right, 0), k);
  }

  lemma OddEntries(right: Half, k: Half, w: Half, a: bv6 -> Half, b: bv6 -> Half, c: bv6 -> Half, d: bv6 -> Half)
    requires w == OddWord(Rol(right), k)
    ensures Entries(w, a, b, c, d)
         == Or4(a(LastSix((right << 29) | (right >> 3)) ^ Six0(k)),
                b(LastSix((right << 21) | (right >> 11)) ^ Six8(k)),
                c(LastSix((right << 13) | (right >> 19)) ^ Six16(k)),
                d(LastSix((right << 5) | (right >> 27)) ^ Six24(k)))
  {
    OddLookUps(Rol(right), k);
    OddSelection(right);
  }

  lemma EvenEntries(right: Half, k: Half, w: Half, a: bv6 -> Half, b: bv6 -> Half, c: bv6 -> Half, d: bv6 -> Half)
    requires w == EvenWord(Rol(right), k)
    ensures Entries(w, a, b, c, d)
         == Or4(a(LastSix((right << 1) | (right >> 31)) ^ Six0(k)),
                b(LastSix((right << 25) | (right >> 7)) ^ Six8(k)),
                c(LastSix((right << 17) | (right >> 15)) ^ Six16(k)),
                d(LastSix((right << 9) | (right >> 23)) ^ Six24(k)))
  {
    EvenLookUps(Rol(right), k);
    EvenSelection(right);
  }

  lemma Joined(b: Boxes, right: Half, k: RoundKey, odd: Half, even: Half)
    requires odd == Entries(OddWord(right, k.odd), b.sp7, b.sp5, b.sp3, b.sp1)
    requires even == Entries(EvenWord(right, k.even), b.sp8, b.sp6, b.sp4, b.sp2)
    ensures F(b, right, k) == odd | even
  {
  }

  lemma OddHalf(b: Boxes, right: Half, k: Half) returns (odd: Half)
    ensures odd == Entries(OddWord(Rol(right), k), b.sp7, b.sp5, b.sp3, b.sp1)
    ensures odd == Or4(b.sp7(LastSix((right << 29) | (right >> 3)) ^ Six0(k)),
                       b.sp5(LastSix((right << 21) | (right >> 11)) ^ Six8(k)),
                       b.sp3(LastSix((right << 13) | (right >> 19)) ^ Six16(k)),
                       b.sp1(LastSix((right << 5) | (right >> 27)) ^ Six24(k)))
  {
    OddEntries(right, k, OddWord(Rol(right), k), b.sp7, b.sp5, b.sp3, b.sp1);
    odd := Entries(OddWord(Rol(right), k), b.sp7, b.sp5, b.sp3, b.sp1);
  }

  lemma EvenHalf(b: Boxes, right: Half, k: Half) returns (even: Half)
    ensures even == Entries(EvenWord(Rol(right), k), b.sp8, b.sp6, b.sp4, b.sp2)
    ensures even == Or4(b.sp8(LastSix((right << 1) | (right >> 31)) ^ Six0(k)),
                        b.sp6(LastSix((right << 25) | (right >> 7)) ^ Six8(k)),
                        b.sp4(LastSix((right << 17) | (right >> 15)) ^ Six16(k)),
                        b.sp2(LastSix((right << 9) | (right >> 23)) ^ Six24(k)))
  {
    EvenEntries(right, k, EvenWord(Rol(right), k), b.sp8, b.sp6, b.sp4, b.sp2);
    even := Entries(EvenWord(Rol(right), k), b.sp8, b.sp6, b.sp4, b.sp2);
  }

  /** The round function of the standard: for each of the eight boxes, six selected bits of the right half plus six
      bits of the key. */
  lemma RoundFunction(b: Boxes, right: Half, k: RoundKey) returns (odd: Half, even: Half)
    ensures F(b, Rol(right), k) == odd | even
    ensures odd == Or4(b.sp7(LastSix((right << 29) | (right >> 3)) ^ Six0(k.odd)),
                       b.sp5(LastSix((right << 21) | (right >> 11)) ^ Six8(k.odd)),
                       b.sp3(LastSix((right << 13) | (right >> 19)) ^ Six16(k.odd)),
                       b.sp1(LastSix((right << 5) | (right >> 27)) ^ Six24(k.odd)))
    ensures even == Or4(b.sp8(LastSix((right << 1) | (right >> 31)) ^ Six0(k.even)),
                        b.sp6(LastSix((right << 25) | (right >> 7)) ^ Six8(k.even)),
                        b.sp4(LastSix((right << 17) | (right >> 15)) ^ Six16(k.even)),
                        b.sp2(LastSix((right << 9) | (right >> 23)) ^ Six24(k.even)))
  {
    odd := OddHalf(b, right, k.odd);
    even := EvenHalf(b, right, k.even);
    Joined(b, Rol(right), k, odd, even);
  }

  /** A round of the standard. */
  lemma RoundExchanges(b: Boxes, s: Halves<Half>, k: RoundKey)
    ensures DesNetwork(b).Round(s, k) == Halves(s.right, s.left ^ F(b, s.right, k))
  {
  }

  // ---------------------------------------------------------------- the key

  /** The bits of each byte of the key are counted from the least significant one on, unlike in the standard. */
  lemma KeyBitIs(key: seq<Byte>, l: nat)
    requires |key| == 8 && l < 64
    ensures KeyBit(key, l) <==> (key[l / 8] >> (l % 8)) & 1 == 1
  {
    var m := l % 8;
    if m == 0 { return; }
    if m == 1 { return; }
    if m == 2 { return; }
    if m == 3 { return; }
    if m == 4 { return; }
    if m == 5 { return; }
    if m == 6 { return; }
  }

  // The first permuted choice goes down the columns of the key: those of the bits 0 to 2 and a part of 3 in the
  // first half, those of 6 to 4 and the rest of 3 in the second. Bit 7 is not chosen.

  lemma FirstChoiceLeft(k: nat)
    requires k < 8
    ensures PC1_LEFT[k] == 8 * (7 - k) && PC1_LEFT[8 + k] == 8 * (7 - k) + 1 && PC1_LEFT[16 + k] == 8 * (7 - k) + 2
    ensures k < 4 ==> PC1_LEFT[24 + k] == 8 * (7 - k) + 3
  {
    if k == 0 { return; }
    if k == 1 { return; }
    if k == 2 { return; }
    if k == 3 { return; }
    if k == 4 { return; }
    if k == 5 { return; }
    if k == 6 { return; }
  }

  lemma FirstChoiceRight(k: nat)
    requires k < 8
    ensures PC1_RIGHT[k] == 8 * (7 - k) + 6 && PC1_RIGHT[8 + k] == 8 * (7 - k) + 5
    ensures PC1_RIGHT[16 + k] == 8 * (7 - k) + 4
    ensures k < 4 ==> PC1_RIGHT[24 + k] == 8 * (3 - k) + 3
  {
    if k == 0 { return; }
    if k == 1 { return; }
    if k == 2 { return; }
    if k == 3 { return; }
    if k == 4 { return; }
    if k == 5 { return; }
    if k == 6 { return; }
  }

  lemma NeverBit7()
    ensures forall j :: 0 <= j < 28 ==> PC1_LEFT[j] % 8 != 7
    ensures forall j :: 0 <= j < 28 ==> PC1_RIGHT[j] % 8 != 7
  {
  }

  lemma SameKeyBit(key: seq<Byte>, other: seq<Byte>, l: nat)
    requires |key| == |other| == 8 && l < 64 && l % 8 != 7 && key[l / 8] & 0x7f == other[l / 8] & 0x7f
    ensures KeyBit(key, l) == KeyBit(other, l)
  {
    var m := l % 8;
    if m == 0 { return; }
    if m == 1 { return; }
    if m == 2 { return; }
    if m == 3 { return; }
    if m == 4 { return; }
    if m == 5 { return; }
  }

  /** The top bit of each byte of the key, which is the one that is never chosen, does not matter. */
  lemma TopBitsDoNotMatter(key: seq<Byte>, other: seq<Byte>)
    requires |key| == |other| == 8 && forall i :: 0 <= i < 8 ==> key[i] & 0x7f == other[i] & 0x7f
    ensures Permuted(STANDARD_TABLES, key) == Permuted(STANDARD_TABLES, other)
    ensures Schedule(STANDARD_TABLES, key) == Schedule(STANDARD_TABLES, other)
  {
    StandardTablesComplete();
    forall j | 0 <= j < 56
      ensures KeyBit(key, STANDARD_TABLES.pc1[j]) == KeyBit(other, STANDARD_TABLES.pc1[j])
    {
      NeverBit7();
      assert STANDARD_TABLES.pc1[j] == if j < 28 then PC1_LEFT[j] else PC1_RIGHT[j - 28];
      SameKeyBit(key, other, STANDARD_TABLES.pc1[j]);
    }
    assert Permuted(STANDARD_TABLES, key) == Permuted(STANDARD_TABLES, other);
  }

  /** Each round shifts by two, but the first, second, ninth and last by one. */
  lemma TotalRotations(i: nat)
    requires 1 <= i < 16
    ensures STANDARD_TABLES.totrot[0] == 1
    ensures STANDARD_TABLES.totrot[i] - STANDARD_TABLES.totrot[i - 1] == if i == 1 || i == 8 || i == 15 then 1 else 2
  {
  }

  /** The masks of a raw word are its 24 bits, most significant first. */
  lemma MasksAreBits(bigbyte: seq<ULong>, j: nat)
    requires bigbyte == STANDARD_TABLES.bigbyte && j < 23
    ensures bigbyte[0] == 1 << 23 && bigbyte[j + 1] == bigbyte[j] >> 1
  {
    if j < 6 { return; }
    if j < 12 { return; }
    if j < 18 { return; }
  }
}
