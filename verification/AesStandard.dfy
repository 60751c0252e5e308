/** The S-boxes and the field arithmetic of FIPS 197, and the proof that they obey the laws on which
    the cipher rests. */
module AesStandard {
  import opened AesField
  import opened AesCipher
  import opened Basics

  // ---------------------------------------------------------------- the field

  /** Multiplication by x in GF(2^8): the bit that falls out comes back as x^4 + x^3 + x + 1. */
  function Mul2(b: Byte): Byte {
    var t := b >> 7;
    (b << 1) ^ t ^ (t << 1) ^ (t << 3) ^ (t << 4)
  }

  /** Mul2 is `xtime` of section 4.2.1 of FIPS 197. */
  lemma Mul2IsXTime(b: Byte)
    ensures Mul2(b) == if b & 0x80 != 0 then (b << 1) ^ 0x1b else b << 1
  {
  }

  function Mul4(b: Byte): Byte { Mul2(Mul2(b)) }
  function Mul8(b: Byte): Byte { Mul2(Mul4(b)) }
  function Mul3(b: Byte): Byte { Xor(Mul2(b), b) }
  function Mul9(b: Byte): Byte { Xor(Mul8(b), b) }
  function MulB(b: Byte): Byte { Xor(Mul8(b), Mul3(b)) }
  function MulD(b: Byte): Byte { Xor(Mul8(b), Xor(Mul4(b), b)) }
  function MulE(b: Byte): Byte { Xor(Mul8(b), Xor(Mul4(b), Mul2(b))) }

  lemma Mul2Adds(x: Byte, y: Byte)
    ensures Mul2(Xor(x, y)) == Xor(Mul2(x), Mul2(y))
  {
  }

  lemma Mul4Adds(x: Byte, y: Byte)
    ensures Mul4(Xor(x, y)) == Xor(Mul4(x), Mul4(y))
  {
    Mul2Adds(x, y);
    Mul2Adds(Mul2(x), Mul2(y));
  }

  lemma Mul8Adds(x: Byte, y: Byte)
    ensures Mul8(Xor(x, y)) == Xor(Mul8(x), Mul8(y))
  {
    Mul4Adds(x, y);
    Mul2Adds(Mul4(x), Mul4(y));
  }

  lemma MultiplesAdd(x: Byte, y: Byte)
    ensures Mul9(Xor(x, y)) == Xor(Mul9(x), Mul9(y))
    ensures MulB(Xor(x, y)) == Xor(MulB(x), MulB(y))
    ensures MulD(Xor(x, y)) == Xor(MulD(x), MulD(y))
    ensures MulE(Xor(x, y)) == Xor(MulE(x), MulE(y))
  {
    Mul2Adds(x, y);
    Mul4Adds(x, y);
    Mul8Adds(x, y);
    XorInterchanges(Mul2(x), Mul2(y), x, y);
    XorInterchanges(Mul4(x), Mul4(y), x, y);
    XorInterchanges(Mul4(x), Mul4(y), Mul2(x), Mul2(y));
    XorInterchanges(Mul8(x), Mul8(y), x, y);
    XorInterchanges(Mul8(x), Mul8(y), Mul3(x), Mul3(y));
    XorInterchanges(Mul8(x), Mul8(y), Xor(Mul4(x), x), Xor(Mul4(y), y));
    XorInterchanges(Mul8(x), Mul8(y), Xor(Mul4(x), Mul2(x)), Xor(Mul4(y), Mul2(y)));
  }

  lemma MatrixDiagonal(x: Byte)
    ensures Xor(Xor(MulE(Mul2(x)), MulB(x)), Xor(MulD(x), Mul9(Mul3(x)))) == x
    ensures Xor(Xor(Mul9(Mul2(x)), MulE(x)), Xor(MulB(x), MulD(Mul3(x)))) == 0
  {
  }

  lemma MatrixOffDiagonal(x: Byte)
    ensures Xor(Xor(MulD(Mul2(x)), Mul9(x)), Xor(MulE(x), MulB(Mul3(x)))) == 0
    ensures Xor(Xor(MulB(Mul2(x)), MulD(x)), Xor(Mul9(x), MulE(Mul3(x)))) == 0
  {
  }

  // ---------------------------------------------------------------- the S-boxes

  /** Byte `i` of a table row, counted from its most significant end. */
  function Nth(row: bv128, i: Byte): Byte {
    ((row >> (8 * (15 - (i & 15)))) & 0xff) as Byte
  }

  /** The substitution table of section 5.1.1 of FIPS 197, by the high half of the byte. */
  function SRow(h: Byte): bv128 {
    if h == 0x0 then 0x637c777b_f26b6fc5_3001672b_fed7ab76
    else if h == 0x1 then 0xca82c97d_fa5947f0_add4a2af_9ca472c0
    else if h == 0x2 then 0xb7fd9326_363ff7cc_34a5e5f1_71d83115
    else if h == 0x3 then 0x04c723c3_1896059a_071280e2_eb27b275
    else if h == 0x4 then 0x09832c1a_1b6e5aa0_523bd6b3_29e32f84
    else if h == 0x5 then 0x53d100ed_20fcb15b_6acbbe39_4a4c58cf
    else if h == 0x6 then 0xd0efaafb_434d3385_45f9027f_503c9fa8
    else if h == 0x7 then 0x51a3408f_929d38f5_bcb6da21_10fff3d2
    else if h == 0x8 then 0xcd0c13ec_5f974417_c4a77e3d_645d1973
    else if h == 0x9 then 0x60814fdc_222a9088_46eeb814_de5e0bdb
    else if h == 0xa then 0xe0323a0a_4906245c_c2d3ac62_9195e479
    else if h == 0xb then 0xe7c8376d_8dd54ea9_6c56f4ea_657aae08
    else if h == 0xc then 0xba78252e_1ca6b4c6_e8dd741f_4bbd8b8a
    else if h == 0xd then 0x703eb566_4803f60e_613557b9_86c11d9e
    else if h == 0xe then 0xe1f89811_69d98e94_9b1e87e9_ce5528df
    else 0x8ca1890d_bfe64268_41992d0f_b054bb16
  }

  /** The inverse substitution table of section 5.3.2 of FIPS 197. */
  function SiRow(h: Byte): bv128 {
    if h == 0x0 then 0x52096ad5_3036a538_bf40a39e_81f3d7fb
    else if h == 0x1 then 0x7ce33982_9b2fff87_348e4344_c4dee9cb
    else if h == 0x2 then 0x547b9432_a6c2233d_ee4c950b_42fac34e
    else if h == 0x3 then 0x082ea166_28d924b2_765ba249_6d8bd125
    else if h == 0x4 then 0x72f8f664_86689816_d4a45ccc_5d65b692
    else if h == 0x5 then 0x6c704850_fdedb9da_5e154657_a78d9d84
    else if h == 0x6 then 0x90d8ab00_8cbcd30a_f7e45805_b8b34506
    else if h == 0x7 then 0xd02c1e8f_ca3f0f02_c1afbd03_01138a6b
    else if h == 0x8 then 0x3a911141_4f67dcea_97f2cfce_f0b4e673
    else if h == 0x9 then 0x96ac7422_e7ad3585_e2f937e8_1c75df6e
    else if h == 0xa then 0x47f11a71_1d29c589_6fb7620e_aa18be1b
    else if h == 0xb then 0xfc563e4b_c6d27920_9adbc0fe_78cd5af4
    else if h == 0xc then 0x1fdda833_8807c731_b1121059_2780ec5f
    else if h == 0xd then 0x60517fa9_19b54a0d_2de57a9f_93c99cef
    else if h == 0xe then 0xa0e03b4d_ae2af5b0_c8ebbb3c_83539961
    else 0x172b047e_ba77d626_e1691463_55210c7d
  }

  function S(x: Byte): Byte { Nth(SRow(x >> 4), x) }

  function Si(x: Byte): Byte { Nth(SiRow(x >> 4), x) }

  lemma SBoxUndoneLow(x: Byte)
    requires x < 0x80
    ensures Si(S(x)) == x
  {
  }

  lemma SBoxUndoneHigh(x: Byte)
    requires x >= 0x80
    ensures Si(S(x)) == x
  {
  }

  // ---------------------------------------------------------------- where the S-box comes from

  /** The product in GF(2^8), section 4.2 of FIPS 197: one multiple of `a` for each bit of `b`. */
  function Mul(a: Byte, b: Byte): Byte {
    var a1 := Mul2(a);
    var a2 := Mul2(a1);
    var a3 := Mul2(a2);
    var a4 := Mul2(a3);
    var a5 := Mul2(a4);
    var a6 := Mul2(a5);
    var a7 := Mul2(a6);
    (if b & 1 != 0 then a else 0) ^ (if b & 2 != 0 then a1 else 0) ^ (if b & 4 != 0 then a2 else 0)
      ^ (if b & 8 != 0 then a3 else 0)
    ^ (if b & 16 != 0 then a4 else 0) ^ (if b & 32 != 0 then a5 else 0) ^ (if b & 64 != 0 then a6 else 0)
      ^ (if b & 128 != 0 then a7 else 0)
  }

  function Rotl(b: Byte, n: nat): Byte
    requires n == 1 || n == 2 || n == 3 || n == 4
  {
    match n
    case 1 => (b << 1) | (b >> 7)
    case 2 => (b << 2) | (b >> 6)
    case 3 => (b << 3) | (b >> 5)
    case 4 => (b << 4) | (b >> 4)
  }

  /** The affine map of section 5.1.1 of FIPS 197. */
  function Affine(b: Byte): Byte { b ^ Rotl(b, 1) ^ Rotl(b, 2) ^ Rotl(b, 3) ^ Rotl(b, 4) ^ 0x63 }

  /** The map that undoes it. */
  function Unaffine(s: Byte): Byte { Rotl(s, 1) ^ Rotl(s, 3) ^ Rotl(Rotl(s, 3), 3) ^ 0x05 }

  lemma AffineUndone(s: Byte)
    ensures Affine(Unaffine(s)) == s
  {
  }

  // A few values of x at a time, so that each case is small.

  lemma ProductIsOne0(x: Byte)
    requires 0 < x < 0x40
    ensures Mul(x, Unaffine(S(x))) == 1
  {
    if x < 0x04 { return; }
    if x < 0x08 { return; }
    if x < 0x0c { return; }
    if x < 0x10 { return; }
    if x < 0x14 { return; }
    if x < 0x18 { return; }
    if x < 0x1c { return; }
    if x < 0x20 { return; }
    if x < 0x24 { return; }
    if x < 0x28 { return; }
    if x < 0x2c { return; }
    if x < 0x30 { return; }
    if x < 0x34 { return; }
    if x < 0x38 { return; }
    if x < 0x3c { return; }
  }

  lemma ProductIsOne1(x: Byte)
    requires 0x40 <= x < 0x80
    ensures Mul(x, Unaffine(S(x))) == 1
  {
    if x < 0x44 { return; }
    if x < 0x48 { return; }
    if x < 0x4c { return; }
    if x < 0x50 { return; }
    if x < 0x54 { return; }
    if x < 0x58 { return; }
    if x < 0x5c { return; }
    if x < 0x60 { return; }
    if x < 0x64 { return; }
    if x < 0x68 { return; }
    if x < 0x6c { return; }
    if x < 0x70 { return; }
    if x < 0x74 { return; }
    if x < 0x78 { return; }
    if x < 0x7c { return; }
  }

  lemma ProductIsOne2(x: Byte)
    requires 0x80 <= x < 0xc0
    ensures Mul(x, Unaffine(S(x))) == 1
  {
    if x < 0x84 { return; }
    if x < 0x88 { return; }
    if x < 0x8c { return; }
    if x < 0x90 { return; }
    if x < 0x94 { return; }
    if x < 0x98 { return; }
    if x < 0x9c { return; }
    if x < 0xa0 { return; }
    if x < 0xa4 { return; }
    if x < 0xa8 { return; }
    if x < 0xac { return; }
    if x < 0xb0 { return; }
    if x < 0xb4 { return; }
    if x < 0xb8 { return; }
    if x < 0xbc { return; }
  }

  lemma ProductIsOne3(x: Byte)
    requires x >= 0xc0
    ensures Mul(x, Unaffine(S(x))) == 1
  {
    if x < 0xc4 { return; }
    if x < 0xc8 { return; }
    if x < 0xcc { return; }
    if x < 0xd0 { return; }
    if x < 0xd4 { return; }
    if x < 0xd8 { return; }
    if x < 0xdc { return; }
    if x < 0xe0 { return; }
    if x < 0xe4 { return; }
    if x < 0xe8 { return; }
    if x < 0xec { return; }
    if x < 0xf0 { return; }
    if x < 0xf4 { return; }
    if x < 0xf8 { return; }
    if x < 0xfc { return; }
  }

  lemma ProductIsOne(x: Byte)
    requires x != 0
    ensures Mul(x, Unaffine(S(x))) == 1
  {
    if x < 0x40 {
      ProductIsOne0(x);
    } else if x < 0x80 {
      ProductIsOne1(x);
    } else if x < 0xc0 {
      ProductIsOne2(x);
    } else {
      ProductIsOne3(x);
    }
  }

  /** Each entry of the S-box is the affine map of the inverse of its index in the field, where 0 stands for
      its own inverse. */
  lemma SBoxIsAffineOfInverse(x: Byte)
    ensures exists inverse :: S(x) == Affine(inverse) && if x == 0 then inverse == 0 else Mul(x, inverse) == 1
  {
    var inverse := Unaffine(S(x));
    AffineUndone(S(x));
    if x == 0 {
      assert inverse == 0;
    } else {
      ProductIsOne(x);
    }
  }

  /** The factors of the comment on the tables are products in the field. */
  lemma MultiplesAreProducts(x: Byte)
    ensures Mul2(x) == Mul(x, 0x02) && Mul3(x) == Mul(x, 0x03) && Mul9(x) == Mul(x, 0x09)
    ensures MulB(x) == Mul(x, 0x0b) && MulD(x) == Mul(x, 0x0d) && MulE(x) == Mul(x, 0x0e)
  {
  }

  /** The round constants are the powers of x. */
  lemma RconIsPower(i: nat)
    requires 1 <= i < 10
    ensures RconByte(1) == 1 && RconByte(i + 1) == Mul2(RconByte(i))
  {
  }

  // ---------------------------------------------------------------- the algebra of the standard

  // The columns of the comment on the tables: [02, 01, 01, 03] and its rotations, and
  // [0e, 09, 0d, 0b] and its rotations.
  function P0(x: Byte): Column { Column(Mul2(x), x, x, Mul3(x)) }
  function P1(x: Byte): Column { Column(Mul3(x), Mul2(x), x, x) }
  function P2(x: Byte): Column { Column(x, Mul3(x), Mul2(x), x) }
  function P3(x: Byte): Column { Column(x, x, Mul3(x), Mul2(x)) }
  function Q0(x: Byte): Column { Column(MulE(x), Mul9(x), MulD(x), MulB(x)) }
  function Q1(x: Byte): Column { Column(MulB(x), MulE(x), Mul9(x), MulD(x)) }
  function Q2(x: Byte): Column { Column(MulD(x), MulB(x), MulE(x), Mul9(x)) }
  function Q3(x: Byte): Column { Column(Mul9(x), MulD(x), MulB(x), MulE(x)) }

  const AES := Algebra(S, Si, P0, P1, P2, P3, Q0, Q1, Q2, Q3)

  lemma XorRotates(a: Byte, b: Byte, c: Byte, d: Byte)
    ensures Xor(Xor(a, b), Xor(c, d)) == Xor(Xor(d, a), Xor(b, c))
  {
    XorCommutes(c, d);
    XorInterchanges(a, b, d, c);
    XorCommutes(a, d);
  }

  lemma Rotations(a: Byte, b: Byte, c: Byte, d: Byte)
    ensures Xor(Xor(a, b), Xor(c, d)) == Xor(Xor(d, a), Xor(b, c))
         == Xor(Xor(c, d), Xor(a, b)) == Xor(Xor(b, c), Xor(d, a))
  {
    XorRotates(a, b, c, d);
    XorRotates(d, a, b, c);
    XorRotates(c, d, a, b);
  }

  function Sum(a: Column, b: Column, c: Column, d: Column): Column {
    Add(Add(a, b), Add(c, d))
  }

  /** The four columns of the product of the mixing matrices. */
  lemma ProductColumns(x: Byte)
    ensures Sum(Q0(Mul2(x)), Q1(x), Q2(x), Q3(Mul3(x))) == Column(x, 0, 0, 0)
    ensures Sum(Q0(Mul3(x)), Q1(Mul2(x)), Q2(x), Q3(x)) == Column(0, x, 0, 0)
    ensures Sum(Q0(x), Q1(Mul3(x)), Q2(Mul2(x)), Q3(x)) == Column(0, 0, x, 0)
    ensures Sum(Q0(x), Q1(x), Q2(Mul3(x)), Q3(Mul2(x))) == Column(0, 0, 0, x)
  {
    MatrixDiagonal(x);
    MatrixOffDiagonal(x);
    Rotations(MulE(Mul2(x)), MulB(x), MulD(x), Mul9(Mul3(x)));
    Rotations(Mul9(Mul2(x)), MulE(x), MulB(x), MulD(Mul3(x)));
    Rotations(MulD(Mul2(x)), Mul9(x), MulE(x), MulB(Mul3(x)));
    Rotations(MulB(Mul2(x)), MulD(x), Mul9(x), MulE(Mul3(x)));
  }

  lemma SubLaw(x: Byte)
    ensures AES.SubUndone(x)
  {
    if x < 0x80 {
      SBoxUndoneLow(x);
    } else {
      SBoxUndoneHigh(x);
    }
  }

  lemma ContributionsAdd(x: Byte, y: Byte)
    ensures Q0(Xor(x, y)) == Add(Q0(x), Q0(y)) && Q1(Xor(x, y)) == Add(Q1(x), Q1(y))
    ensures Q2(Xor(x, y)) == Add(Q2(x), Q2(y)) && Q3(Xor(x, y)) == Add(Q3(x), Q3(y))
  {
    MultiplesAdd(x, y);
  }

  lemma AdditiveLaw(x: Byte, y: Byte)
    ensures AES.Additive(x, y)
  {
    ContributionsAdd(x, y);
  }

  lemma MatrixLaw(x: Byte)
    ensures AES.MatrixProduct(x)
  {
    ProductColumns(x);
  }

  /** The functions of the standard obey the laws. */
  lemma StandardIsLawful()
    ensures AES.Lawful()
  {
    forall x
      ensures AES.SubUndone(x)
    {
      SubLaw(x);
    }
    forall x, y
      ensures AES.Additive(x, y)
    {
      AdditiveLaw(x, y);
    }
    forall x
      ensures AES.MatrixProduct(x)
    {
      MatrixLaw(x);
    }
  }
}
