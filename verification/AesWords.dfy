/** The 32-bit words in which the program computes AES, and the ten tables of its round functions. */
module AesWords {
  import opened AesField
  import opened AesCipher
  import opened Basics

  type Word = bv32

  function B0(w: Word): Byte { (w >> 24) as Byte }
  function B1(w: Word): Byte { ((w >> 16) & 0xff) as Byte }
  function B2(w: Word): Byte { ((w >> 8) & 0xff) as Byte }
  function B3(w: Word): Byte { (w & 0xff) as Byte }

  /** The column a word stands for. */
  function Col(w: Word): Column { Column(B0(w), B1(w), B2(w), B3(w)) }

  /** GETU32: a word from four bytes. */
  function GetU32(b0: Byte, b1: Byte, b2: Byte, b3: Byte): Word {
    ((b0 as Word) << 24) ^ ((b1 as Word) << 16) ^ ((b2 as Word) << 8) ^ (b3 as Word)
  }

  function Pack(c: Column): Word { GetU32(c.b0, c.b1, c.b2, c.b3) }

  lemma GetU32Col(b0: Byte, b1: Byte, b2: Byte, b3: Byte)
    ensures Col(GetU32(b0, b1, b2, b3)) == Column(b0, b1, b2, b3)
  {
  }

  lemma ColPack(c: Column)
    ensures Col(Pack(c)) == c
  {
    GetU32Col(c.b0, c.b1, c.b2, c.b3);
  }

  /** Words are added byte by byte. */
  lemma ColXor(v: Word, w: Word)
    ensures Col(v ^ w) == Add(Col(v), Col(w))
  {
  }

  method XorWord(v: Word, w: Word) returns (r: Word)
    ensures Col(r) == Add(Col(v), Col(w))
  {
    ColXor(v, w);
    r := v ^ w;
  }

  // ---------------------------------------------------------------- the tables

  // Te0 to Te3: a substituted byte times [02, 01, 01, 03] and its rotations.
  function Te0(a: Algebra, x: Byte): Word { Pack(a.p0(a.s(x))) }
  function Te1(a: Algebra, x: Byte): Word { Pack(a.p1(a.s(x))) }
  function Te2(a: Algebra, x: Byte): Word { Pack(a.p2(a.s(x))) }
  function Te3(a: Algebra, x: Byte): Word { Pack(a.p3(a.s(x))) }

  // Td0 to Td3: an inversely substituted byte times [0e, 09, 0d, 0b] and its rotations.
  function Td0(a: Algebra, x: Byte): Word { Pack(a.q0(a.si(x))) }
  function Td1(a: Algebra, x: Byte): Word { Pack(a.q1(a.si(x))) }
  function Td2(a: Algebra, x: Byte): Word { Pack(a.q2(a.si(x))) }
  function Td3(a: Algebra, x: Byte): Word { Pack(a.q3(a.si(x))) }

  // Te4 and Td4: the S-boxes, each byte four times.
  function Repeat(x: Byte): Word { GetU32(x, x, x, x) }
  function Te4(a: Algebra, x: Byte): Word { Repeat(a.s(x)) }
  function Td4(a: Algebra, x: Byte): Word { Repeat(a.si(x)) }

  // ---------------------------------------------------------------- words of a round

  /** The sum of four words. */
  method XorFour(v0: Word, v1: Word, v2: Word, v3: Word) returns (t: Word)
    ensures Col(t) == Add(Add(Col(v0), Col(v1)), Add(Col(v2), Col(v3)))
  {
    t := XorWord(v0, v1);
    t := XorWord(t, v2);
    t := XorWord(t, v3);
    AddAssociates(Add(Col(v0), Col(v1)), Col(v2), Col(v3));
  }

  /** Masking out one byte of each of four repeated bytes puts them side by side. */
  lemma MaskedBytes(x0: Byte, x1: Byte, x2: Byte, x3: Byte)
    ensures (Repeat(x0) & 0xff000000) ^ (Repeat(x1) & 0x00ff0000) ^ (Repeat(x2) & 0x0000ff00)
              ^ (Repeat(x3) & 0x000000ff)
         == GetU32(x0, x1, x2, x3)
  {
  }

  /** One word of a full round of encryption. */
  method EncryptWord(a: Algebra, w0: Word, w1: Word, w2: Word, w3: Word, k: Word) returns (t: Word)
    ensures Col(t) == Add(a.MixColumn(a.SubColumn(Column(B0(w0), B1(w1), B2(w2), B3(w3)))), Col(k))
  {
    var v0, v1, v2, v3 := Te0(a, B0(w0)), Te1(a, B1(w1)), Te2(a, B2(w2)), Te3(a, B3(w3));
    t := XorFour(v0, v1, v2, v3);
    t := XorWord(t, k);
    ColPack(a.p0(a.s(B0(w0))));
    ColPack(a.p1(a.s(B1(w1))));
    ColPack(a.p2(a.s(B2(w2))));
    ColPack(a.p3(a.s(B3(w3))));
  }

  /** One word of a full round of decryption. */
  method DecryptWord(a: Algebra, w0: Word, w1: Word, w2: Word, w3: Word, k: Word) returns (t: Word)
    ensures Col(t) == Add(a.InvMixColumn(a.InvSubColumn(Column(B0(w0), B1(w1), B2(w2), B3(w3)))), Col(k))
  {
    var v0, v1, v2, v3 := Td0(a, B0(w0)), Td1(a, B1(w1)), Td2(a, B2(w2)), Td3(a, B3(w3));
    t := XorFour(v0, v1, v2, v3);
    t := XorWord(t, k);
    ColPack(a.q0(a.si(B0(w0))));
    ColPack(a.q1(a.si(B1(w1))));
    ColPack(a.q2(a.si(B2(w2))));
    ColPack(a.q3(a.si(B3(w3))));
  }

  /** Four masked table entries, side by side, plus a key word. */
  method LastWord(v0: Word, v1: Word, v2: Word, v3: Word, k: Word, ghost c: Column) returns (t: Word)
    requires v0 == Repeat(c.b0) && v1 == Repeat(c.b1) && v2 == Repeat(c.b2) && v3 == Repeat(c.b3)
    ensures Col(t) == Add(c, Col(k))
  {
    t := (v0 & 0xff000000) ^ (v1 & 0x00ff0000) ^ (v2 & 0x0000ff00) ^ (v3 & 0x000000ff) ^ k;
    MaskedBytes(c.b0, c.b1, c.b2, c.b3);
    GetU32Col(c.b0, c.b1, c.b2, c.b3);
    ColXor(GetU32(c.b0, c.b1, c.b2, c.b3), k);
  }

  /** The inverse mixing of a key word, through the tables Te4 and Td0 to Td3. */
  method InvMixWord(a: Algebra, w: Word) returns (t: Word)
    requires a.Lawful()
    ensures Col(t) == a.InvMixColumn(Col(w))
  {
    var v0 := Td0(a, B3(Te4(a, B0(w))));
    var v1 := Td1(a, B3(Te4(a, B1(w))));
    var v2 := Td2(a, B3(Te4(a, B2(w))));
    var v3 := Td3(a, B3(Te4(a, B3(w))));
    t := XorFour(v0, v1, v2, v3);
    TdOfTe4(a, B0(w));
    TdOfTe4(a, B1(w));
    TdOfTe4(a, B2(w));
    TdOfTe4(a, B3(w));
  }

  lemma TdOfTe4(a: Algebra, x: Byte)
    requires a.Lawful()
    ensures Col(Td0(a, B3(Te4(a, x)))) == a.q0(x)
    ensures Col(Td1(a, B3(Te4(a, x)))) == a.q1(x)
    ensures Col(Td2(a, B3(Te4(a, x)))) == a.q2(x)
    ensures Col(Td3(a, B3(Te4(a, x)))) == a.q3(x)
  {
    GetU32Col(a.s(x), a.s(x), a.s(x), a.s(x));
    assert a.SubUndone(x);
    ColPack(a.q0(x));
    ColPack(a.q1(x));
    ColPack(a.q2(x));
    ColPack(a.q3(x));
  }

  // ---------------------------------------------------------------- words of the key schedule

  /** The table of round constants. */
  function RconWord(i: nat): Word { GetU32(RconByte(i + 1), 0, 0, 0) }

  /** The schedule word at a multiple of the key length. */
  method RotatedScheduleWord(a: Algebra, before: Word, temp: Word, i: nat) returns (w: Word)
    ensures Col(w) == Add(Col(before), Add(a.SubColumn(RotWord(Col(temp))), Rcon(i + 1)))
  {
    ghost var c := a.SubColumn(RotWord(Col(temp)));
    w := LastWord(Te4(a, B1(temp)), Te4(a, B2(temp)), Te4(a, B3(temp)), Te4(a, B0(temp)), RconWord(i), c);
    GetU32Col(RconByte(i + 1), 0, 0, 0);
    w := XorWord(before, w);
  }

  /** The schedule word in the middle of a 256-bit key. */
  method SubstitutedScheduleWord(a: Algebra, before: Word, temp: Word) returns (w: Word)
    ensures Col(w) == Add(Col(before), a.SubColumn(Col(temp)))
  {
    ghost var c := a.SubColumn(Col(temp));
    w := LastWord(Te4(a, B0(temp)), Te4(a, B1(temp)), Te4(a, B2(temp)), Te4(a, B3(temp)), before, c);
    AddCommutes(Col(before), c);
  }
}
