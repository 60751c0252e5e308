/** DES as the program computes it, in `unsigned long` variables of 64 bits of which 32 matter. */
module Des {
  import opened Feistel
  import opened Basics
  import opened DesBits

  type ULong = bv64

  /** The 32 bits that matter. */
  function Low(x: ULong): Half { (x & 0xffff_ffff) as Half }

  /** No bit above them is set. */
  predicate Clean(x: ULong) { x & 0xffff_ffff == x }

  function LowHalves(l: ULong, r: ULong): Halves<Half> { Halves(Low(l), Low(r)) }

  // ---------------------------------------------------------------- the round function

  /** The eight tables that combine an S-box with the permutation after it: 64 entries of 32 bits each. */
  datatype Boxes = Boxes(sp1: bv6 -> Half, sp2: bv6 -> Half, sp3: bv6 -> Half, sp4: bv6 -> Half,
                         sp5: bv6 -> Half, sp6: bv6 -> Half, sp7: bv6 -> Half, sp8: bv6 -> Half)

  /** The two words of key material of one round. */
  datatype RoundKey = RoundKey(odd: Half, even: Half)

  // Six bits of a word, from position 0, 8, 16 or 24 on: the index into one of the tables.
  function Six0(w: Half): bv6 { (w & 0x3f) as bv6 }
  function Six8(w: Half): bv6 { ((w >> 8) & 0x3f) as bv6 }
  function Six16(w: Half): bv6 { ((w >> 16) & 0x3f) as bv6 }
  function Six24(w: Half): bv6 { ((w >> 24) & 0x3f) as bv6 }

  function OddWord(right: Half, k: Half): Half { ((right << 28) | (right >> 4)) ^ k }
  function EvenWord(right: Half, k: Half): Half { right ^ k }

  function Or4(a: Half, b: Half, c: Half, d: Half): Half { a | b | c | d }

  /** The entries that a word selects from four of the tables, joined. */
  function Entries(w: Half, a: bv6 -> Half, b: bv6 -> Half, c: bv6 -> Half, d: bv6 -> Half): Half {
    Or4(a(Six0(w)), b(Six8(w)), c(Six16(w)), d(Six24(w)))
  }

  function F(b: Boxes, right: Half, k: RoundKey): Half {
    Entries(OddWord(right, k.odd), b.sp7, b.sp5, b.sp3, b.sp1)
      | Entries(EvenWord(right, k.even), b.sp8, b.sp6, b.sp4, b.sp2)
  }

  function DesNetwork(b: Boxes): Network<Half, RoundKey> {
    Network((r, k) => F(b, r, k), (x, y) => AddHalf(x, y))
  }

  function AddHalf(x: Half, y: Half): Half { x ^ y }

  lemma AddHalfCancels(x: Half, y: Half)
    ensures AddHalf(AddHalf(x, y), y) == x
  {
  }

  lemma DesNetworkIsLawful(b: Boxes)
    ensures DesNetwork(b).Lawful()
  {
    forall x: Half, y: Half
      ensures AddHalf(AddHalf(x, y), y) == x
    {
      AddHalfCancels(x, y);
    }
  }

  /** One block through DES with the given key schedule. */
  function Crypt(b: Boxes, keys: seq<RoundKey>, block: Halves<Half>): Halves<Half> {
    Final(DesNetwork(b).Run(keys, Initial(block)))
  }

  /** The same schedule in reverse order undoes the encryption. */
  lemma DecryptUndoesEncrypt(b: Boxes, keys: seq<RoundKey>, block: Halves<Half>)
    ensures Crypt(b, Reversed(keys), Crypt(b, keys, block)) == block
  {
    var s := Initial(block);
    InitialUndoesFinal(DesNetwork(b).Run(keys, s));
    DesNetworkIsLawful(b);
    DesNetwork(b).ReverseUndoes(keys, s);
    FinalUndoesInitial(block);
  }

  // ---------------------------------------------------------------- steps on long words

  lemma Long4(l: ULong, r: ULong)
    ensures LowHalves(l ^ ((((l >> 4) ^ r) & 0x0f0f0f0f) << 4), r ^ (((l >> 4) ^ r) & 0x0f0f0f0f))
              == X4(LowHalves(l, r))
  {
  }

  lemma StaysClean4(l: ULong, r: ULong)
    ensures Clean(l) ==> Clean(l ^ ((((l >> 4) ^ r) & 0x0f0f0f0f) << 4))
    ensures Clean(r) ==> Clean(r ^ (((l >> 4) ^ r) & 0x0f0f0f0f))
  {
  }

  method Step4(l: ULong, r: ULong) returns (l': ULong, r': ULong)
    ensures LowHalves(l', r') == X4(LowHalves(l, r))
    ensures (Clean(l) ==> Clean(l')) && (Clean(r) ==> Clean(r'))
  {
    Long4(l, r);
    StaysClean4(l, r);
    return l ^ ((((l >> 4) ^ r) & 0x0f0f0f0f) << 4), r ^ (((l >> 4) ^ r) & 0x0f0f0f0f);
  }

  lemma Long16(l: ULong, r: ULong)
    ensures LowHalves(l ^ ((((l >> 16) ^ r) & 0x0000ffff) << 16), r ^ (((l >> 16) ^ r) & 0x0000ffff))
              == X16(LowHalves(l, r))
  {
  }

  lemma StaysClean16(l: ULong, r: ULong)
    ensures Clean(l) ==> Clean(l ^ ((((l >> 16) ^ r) & 0x0000ffff) << 16))
    ensures Clean(r) ==> Clean(r ^ (((l >> 16) ^ r) & 0x0000ffff))
  {
  }

  method Step16(l: ULong, r: ULong) returns (l': ULong, r': ULong)
    ensures LowHalves(l', r') == X16(LowHalves(l, r))
    ensures (Clean(l) ==> Clean(l')) && (Clean(r) ==> Clean(r'))
  {
    Long16(l, r);
    StaysClean16(l, r);
    return l ^ ((((l >> 16) ^ r) & 0x0000ffff) << 16), r ^ (((l >> 16) ^ r) & 0x0000ffff);
  }

  lemma Long2(l: ULong, r: ULong)
    ensures LowHalves(l ^ ((((l >> 2) ^ r) & 0x33333333) << 2), r ^ (((l >> 2) ^ r) & 0x33333333))
              == X2(LowHalves(l, r))
  {
  }

  lemma StaysClean2(l: ULong, r: ULong)
    ensures Clean(l) ==> Clean(l ^ ((((l >> 2) ^ r) & 0x33333333) << 2))
    ensures Clean(r) ==> Clean(r ^ (((l >> 2) ^ r) & 0x33333333))
  {
  }

  method Step2(l: ULong, r: ULong) returns (l': ULong, r': ULong)
    ensures LowHalves(l', r') == X2(LowHalves(l, r))
    ensures (Clean(l) ==> Clean(l')) && (Clean(r) ==> Clean(r'))
  {
    Long2(l, r);
    StaysClean2(l, r);
    return l ^ ((((l >> 2) ^ r) & 0x33333333) << 2), r ^ (((l >> 2) ^ r) & 0x33333333);
  }

  lemma Long8(l: ULong, r: ULong)
    ensures LowHalves(l ^ ((((l >> 8) ^ r) & 0x00ff00ff) << 8), r ^ (((l >> 8) ^ r) & 0x00ff00ff))
              == X8(LowHalves(l, r))
  {
  }

  lemma StaysClean8(l: ULong, r: ULong)
    ensures Clean(l) ==> Clean(l ^ ((((l >> 8) ^ r) & 0x00ff00ff) << 8))
    ensures Clean(r) ==> Clean(r ^ (((l >> 8) ^ r) & 0x00ff00ff))
  {
  }

  method Step8(l: ULong, r: ULong) returns (l': ULong, r': ULong)
    ensures LowHalves(l', r') == X8(LowHalves(l, r))
    ensures (Clean(l) ==> Clean(l')) && (Clean(r) ==> Clean(r'))
  {
    Long8(l, r);
    StaysClean8(l, r);
    return l ^ ((((l >> 8) ^ r) & 0x00ff00ff) << 8), r ^ (((l >> 8) ^ r) & 0x00ff00ff);
  }

  lemma Long0(l: ULong, r: ULong)
    ensures LowHalves(l ^ ((l ^ r) & 0xaaaaaaaa), r ^ ((l ^ r) & 0xaaaaaaaa)) == X0(LowHalves(l, r))
  {
  }

  lemma StaysClean0(l: ULong, r: ULong)
    ensures Clean(l) ==> Clean(l ^ ((l ^ r) & 0xaaaaaaaa))
    ensures Clean(r) ==> Clean(r ^ ((l ^ r) & 0xaaaaaaaa))
  {
  }

  method Step0(l: ULong, r: ULong) returns (l': ULong, r': ULong)
    ensures LowHalves(l', r') == X0(LowHalves(l, r))
    ensures (Clean(l) ==> Clean(l')) && (Clean(r) ==> Clean(r'))
  {
    Long0(l, r);
    StaysClean0(l, r);
    return l ^ ((l ^ r) & 0xaaaaaaaa), r ^ ((l ^ r) & 0xaaaaaaaa);
  }

  lemma LongRol(x: ULong)
    ensures Low(((x << 1) | ((x >> 31) & 1)) & 0xffff_ffff) == Rol(Low(x))
    ensures Clean(((x << 1) | ((x >> 31) & 1)) & 0xffff_ffff)
  {
  }

  /** Rotation to the left, cut to 32 bits. */
  method RotateLeft(x: ULong) returns (y: ULong)
    ensures Low(y) == Rol(Low(x)) && Clean(y)
  {
    LongRol(x);
    return ((x << 1) | ((x >> 31) & 1)) & 0xffff_ffff;
  }

  lemma LongRor(x: ULong)
    requires Clean(x)
    ensures Low((x << 31) | (x >> 1)) == Ror(Low(x))
  {
  }

  /** Rotation to the right, not cut: bits above the 32 may get set. */
  method RotateRight(x: ULong) returns (y: ULong)
    requires Clean(x)
    ensures Low(y) == Ror(Low(x))
  {
    LongRor(x);
    return (x << 31) | (x >> 1);
  }

  // ---------------------------------------------------------------- rounds on long words

  method InitialLong(block0: ULong, block1: ULong) returns (leftt: ULong, right: ULong)
    requires Clean(block0) && Clean(block1)
    ensures LowHalves(leftt, right) == Initial(LowHalves(block0, block1))
    ensures Clean(leftt) && Clean(right)
  {
    leftt, right := Step4(block0, block1);
    leftt, right := Step16(leftt, right);
    right, leftt := Step2(right, leftt);
    right, leftt := Step8(right, leftt);
    right := RotateLeft(right);
    leftt, right := Step0(leftt, right);
    leftt := RotateLeft(leftt);
  }

  method FinalLong(l: ULong, r: ULong) returns (block0: ULong, block1: ULong)
    requires Clean(l) && Clean(r)
    ensures LowHalves(block0, block1) == Final(LowHalves(l, r))
  {
    var right := RotateRight(r);
    var leftt;
    leftt, right := Step0(l, right);
    leftt := RotateRight(leftt);
    leftt, right := Step8(leftt, right);
    leftt, right := Step2(leftt, right);
    right, leftt := Step16(right, leftt);
    right, leftt := Step4(right, leftt);
    return right, leftt;
  }

  lemma LongOdd(right: ULong, k: ULong)
    requires Clean(right)
    ensures Low(((right << 28) | (right >> 4)) ^ k) == OddWord(Low(right), Low(k))
  {
  }

  lemma LongEven(right: ULong, k: ULong)
    ensures Low(right ^ k) == EvenWord(Low(right), Low(k))
  {
  }

  lemma LongSixes(w: ULong)
    ensures (w & 0x3f) as bv6 == Six0(Low(w))
    ensures ((w >> 8) & 0x3f) as bv6 == Six8(Low(w))
    ensures ((w >> 16) & 0x3f) as bv6 == Six16(Low(w))
    ensures ((w >> 24) & 0x3f) as bv6 == Six24(Low(w))
  {
  }

  lemma LongEntries(a: Half, b: Half, c: Half, d: Half)
    ensures Low(a as ULong | b as ULong | c as ULong | d as ULong) == a | b | c | d
    ensures Clean(a as ULong | b as ULong | c as ULong | d as ULong)
  {
  }

  lemma LongOr(x: ULong, y: ULong)
    ensures Low(x | y) == Low(x) | Low(y)
    ensures Clean(x) && Clean(y) ==> Clean(x | y)
  {
  }

  method Sixes(w: ULong) returns (i0: bv6, i8: bv6, i16: bv6, i24: bv6)
    ensures i0 == Six0(Low(w)) && i8 == Six8(Low(w)) && i16 == Six16(Low(w)) && i24 == Six24(Low(w))
  {
    LongSixes(w);
    return (w & 0x3f) as bv6, ((w >> 8) & 0x3f) as bv6, ((w >> 16) & 0x3f) as bv6, ((w >> 24) & 0x3f) as bv6;
  }

  method Join(a: Half, b: Half, c: Half, d: Half) returns (v: ULong)
    ensures Low(v) == Or4(a, b, c, d) && Clean(v)
  {
    LongEntries(a, b, c, d);
    return a as ULong | b as ULong | c as ULong | d as ULong;
  }

  method LookUp(w: ULong, a: bv6 -> Half, b: bv6 -> Half, c: bv6 -> Half, d: bv6 -> Half) returns (v: ULong)
    ensures Low(v) == Entries(Low(w), a, b, c, d) && Clean(v)
  {
    var i0, i8, i16, i24 := Sixes(w);
    v := Join(a(i0), b(i8), c(i16), d(i24));
  }

  method OddLong(right: ULong, k: ULong) returns (w: ULong)
    requires Clean(right)
    ensures Low(w) == OddWord(Low(right), Low(k))
  {
    LongOdd(right, k);
    return ((right << 28) | (right >> 4)) ^ k;
  }

  method EvenLong(right: ULong, k: ULong) returns (w: ULong)
    ensures Low(w) == EvenWord(Low(right), Low(k))
  {
    LongEven(right, k);
    return right ^ k;
  }

  /** The table entries of one round. */
  method RoundValue(b: Boxes, right: ULong, k0: ULong, k1: ULong) returns (fval: ULong)
    requires Clean(right)
    ensures Low(fval) == F(b, Low(right), RoundKey(Low(k0), Low(k1))) && Clean(fval)
  {
    var work := OddLong(right, k0);
    fval := LookUp(work, b.sp7, b.sp5, b.sp3, b.sp1);
    work := EvenLong(right, k1);
    var more := LookUp(work, b.sp8, b.sp6, b.sp4, b.sp2);
    LongOr(fval, more);
    fval := fval | more;
  }
}
