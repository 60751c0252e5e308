/** The key schedule of DES as the program computes it, and whole blocks. */
module DesKey {
  import opened Feistel
  import opened Basics
  import opened DesBits
  import opened Des

  datatype Direction = EN0 | DE1

  type KeyPos = n: nat | n < 64
  type Pos56 = n: nat | n < 56
  type Rotation = n: nat | n <= 28

  /** The tables of the key schedule: the two permuted choices, the total rotation of each round, and
      the masks of 24 bits from the most significant one on. The schedule is proved for all of them;
      STANDARD_TABLES has those of the standard (ANSI X3.92), counted from zero. */
  datatype KeyTables = KeyTables(pc1: seq<KeyPos>, totrot: seq<Rotation>, pc2: seq<Pos56>, bigbyte: seq<ULong>) {
    predicate Complete() {
      |pc1| == 56 && |totrot| == 16 && |pc2| == 48 && |bigbyte| == 24
    }
  }

  const PC1_LEFT: seq<KeyPos> := [
    56, 48, 40, 32, 24, 16,  8,  0, 57, 49, 41, 33, 25, 17,
     9,  1, 58, 50, 42, 34, 26, 18, 10,  2, 59, 51, 43, 35]
  const PC1_RIGHT: seq<KeyPos> := [
    62, 54, 46, 38, 30, 22, 14,  6, 61, 53, 45, 37, 29, 21,
    13,  5, 60, 52, 44, 36, 28, 20, 12,  4, 27, 19, 11,  3]
  const STANDARD_TABLES := KeyTables(
    PC1_LEFT + PC1_RIGHT,
    [1, 2, 4, 6, 8, 10, 12, 14, 15, 17, 19, 21, 23, 25, 27, 28],
    [13, 16, 10, 23,  0,  4,  2, 27, 14,  5, 20,  9,
     22, 18, 11,  3, 25,  7, 15,  6, 26, 19, 12,  1,
     40, 51, 30, 36, 46, 54, 29, 39, 50, 44, 32, 47,
     43, 48, 38, 55, 33, 52, 45, 41, 49, 35, 28, 31],
    [0x800000, 0x400000, 0x200000, 0x100000, 0x80000, 0x40000, 0x20000, 0x10000, 0x8000, 0x4000, 0x2000, 0x1000,
     0x800, 0x400, 0x200, 0x100, 0x80, 0x40, 0x20, 0x10, 0x8, 0x4, 0x2, 0x1])

  lemma StandardTablesComplete()
    ensures STANDARD_TABLES.Complete()
  {
  }

  /** The mask of bit m of a byte. The bytes of the key are read from the least significant bit on. */
  function ByteBit(m: nat): Byte
    requires m < 8
  {
    match m
    case 0 => 0x01 case 1 => 0x02 case 2 => 0x04 case 3 => 0x08
    case 4 => 0x10 case 5 => 0x20 case 6 => 0x40 case _ => 0x80
  }

  predicate KeyBit(key: seq<Byte>, l: nat)
    requires |key| == 8 && l < 64
  {
    key[l / 8] & ByteBit(l % 8) != 0
  }

  /** The position that comes to position c when its half of the 56 bits is rotated by t. */
  function Rotated(c: nat, t: nat): (r: nat)
    requires c < 56 && t <= 28
    ensures r < 56 && (c < 28 <==> r < 28) && (r - c - t) % 28 == 0
  {
    if c < 28 then (if c + t < 28 then c + t else c + t - 28)
    else (if c + t < 56 then c + t else c + t - 28)
  }

  /** The 56 bits of the first permuted choice. */
  function Permuted(t: KeyTables, key: seq<Byte>): (c: seq<bool>)
    requires t.Complete() && |key| == 8
    ensures |c| == 56
  {
    seq(56, j requires 0 <= j < 56 => KeyBit(key, t.pc1[j]))
  }

  /** Of those, the 24 bits from number `from` on of the 48 that are selected for round i. */
  function SelectedBits(t: KeyTables, c: seq<bool>, i: nat, from: nat): (bits: seq<bool>)
    requires t.Complete() && |c| == 56 && i < 16 && from <= 24
    ensures |bits| == 24
  {
    seq(24, j requires 0 <= j < 24 => RotatedBits(c, t.totrot[i])[t.pc2[from + j]])
  }

  /** Both halves of the bits, rotated. */
  function RotatedBits(c: seq<bool>, r: Rotation): (d: seq<bool>)
    requires |c| == 56
    ensures |d| == 56
  {
    seq(56, n requires 0 <= n < 56 => c[Rotated(n, r)])
  }

  /** A word with the given bits. */
  function Raw(t: KeyTables, bits: seq<bool>): ULong
    requires t.Complete() && |bits| <= 24
  {
    if bits == [] then 0
    else
      var n := |bits| - 1;
      if bits[n] then Raw(t, bits[..n]) | t.bigbyte[n] else Raw(t, bits[..n])
  }

  lemma RawStep(t: KeyTables, bits: seq<bool>, j: nat)
    requires t.Complete() && j < |bits| <= 24
    ensures Raw(t, bits[..j + 1]) == if bits[j] then Raw(t, bits[..j]) | t.bigbyte[j] else Raw(t, bits[..j])
  {
    assert bits[..j + 1][..j] == bits[..j];
  }

  // The four groups of six bits of two raw words that go into each cooked word.
  function CookOdd(raw0: ULong, raw1: ULong): ULong {
    ((raw0 & 0x00fc0000) << 6) | ((raw0 & 0x00000fc0) << 10) | ((raw1 & 0x00fc0000) >> 10) | ((raw1 & 0x00000fc0) >> 6)
  }

  function CookEven(raw0: ULong, raw1: ULong): ULong {
    ((raw0 & 0x0003f000) << 12) | ((raw0 & 0x0000003f) << 16) | ((raw1 & 0x0003f000) >> 4) | (raw1 & 0x0000003f)
  }

  /** Cooking puts the eight groups of six key bits where the round function looks for them: groups
      1, 3, 5, 7 in the odd word and 2, 4, 6, 8 in the even word. */
  lemma CookedGroups(raw0: ULong, raw1: ULong)
    ensures (CookOdd(raw0, raw1) >> 24) & 0x3f == (raw0 >> 18) & 0x3f
    ensures (CookOdd(raw0, raw1) >> 16) & 0x3f == (raw0 >> 6) & 0x3f
    ensures (CookOdd(raw0, raw1) >> 8) & 0x3f == (raw1 >> 18) & 0x3f
    ensures CookOdd(raw0, raw1) & 0x3f == (raw1 >> 6) & 0x3f
    ensures (CookEven(raw0, raw1) >> 24) & 0x3f == (raw0 >> 12) & 0x3f
    ensures (CookEven(raw0, raw1) >> 16) & 0x3f == raw0 & 0x3f
    ensures (CookEven(raw0, raw1) >> 8) & 0x3f == (raw1 >> 12) & 0x3f
    ensures CookEven(raw0, raw1) & 0x3f == raw1 & 0x3f
  {
  }

  /** The key words of round i. */
  function ScheduledKey(t: KeyTables, key: seq<Byte>, i: nat): RoundKey
    requires t.Complete() && |key| == 8 && i < 16
  {
    var c := Permuted(t, key);
    var raw0, raw1 := Raw(t, SelectedBits(t, c, i, 0)), Raw(t, SelectedBits(t, c, i, 24));
    RoundKey(Low(CookOdd(raw0, raw1)), Low(CookEven(raw0, raw1)))
  }

  function Schedule(t: KeyTables, key: seq<Byte>): (keys: seq<RoundKey>)
    requires t.Complete() && |key| == 8
    ensures |keys| == 16
  {
    seq(16, i requires 0 <= i < 16 => ScheduledKey(t, key, i))
  }

  // ---------------------------------------------------------------- computing the schedule

  method Permute1(t: KeyTables, key: array<Byte>) returns (pc1m: array<bool>)
    requires t.Complete() && key.Length == 8
    ensures fresh(pc1m) && pc1m.Length == 56
    ensures pc1m[..] == Permuted(t, key[..])
  {
    pc1m := new bool[56];
    for j := 0 to 56
      invariant forall n :: 0 <= n < j ==> pc1m[n] == KeyBit(key[..], t.pc1[n])
    {
      var l := t.pc1[j];
      pc1m[j] := key[l / 8] & ByteBit(l % 8) != 0;
    }
  }

  /** Both halves rotated by the total rotation of a round. */
  method Rotate(pc1m: array<bool>, t: Rotation) returns (pcr: array<bool>)
    requires pc1m.Length == 56
    ensures fresh(pcr) && pcr[..] == RotatedBits(pc1m[..], t)
  {
    pcr := new bool[56];
    for j := 0 to 28
      invariant forall c :: 0 <= c < j ==> pcr[c] == pc1m[Rotated(c, t)]
    {
      var l := j + t;
      pcr[j] := if l < 28 then pc1m[l] else pc1m[l - 28];
    }
    for j := 28 to 56
      invariant forall c :: 0 <= c < j ==> pcr[c] == pc1m[Rotated(c, t)]
    {
      var l := j + t;
      pcr[j] := if l < 56 then pc1m[l] else pc1m[l - 28];
    }
  }

  /** The two raw words of round i. */
  method RawWords(t: KeyTables, pc1m: array<bool>, i: nat) returns (raw0: ULong, raw1: ULong)
    requires t.Complete() && i < 16 && pc1m.Length == 56
    ensures raw0 == Raw(t, SelectedBits(t, pc1m[..], i, 0)) && raw1 == Raw(t, SelectedBits(t, pc1m[..], i, 24))
  {
    var pcr := Rotate(pc1m, t.totrot[i]);
    raw0 := RawWord(t, pcr, 0, SelectedBits(t, pc1m[..], i, 0));
    raw1 := RawWord(t, pcr, 24, SelectedBits(t, pc1m[..], i, 24));
  }

  /** One raw word, from 24 entries of the second permuted choice. */
  method RawWord(t: KeyTables, pcr: array<bool>, from: nat, ghost bits: seq<bool>) returns (raw: ULong)
    requires t.Complete() && pcr.Length == 56 && from <= 24 && |bits| == 24
    requires forall j :: 0 <= j < 24 ==> bits[j] == pcr[..][t.pc2[from + j]]
    ensures raw == Raw(t, bits)
  {
    raw := 0;
    for j := 0 to 24
      invariant raw == Raw(t, bits[..j])
    {
      RawStep(t, bits, j);
      assert bits[j] == pcr[t.pc2[from + j]];
      if pcr[t.pc2[from + j]] {
        raw := raw | t.bigbyte[j];
      }
    }
    assert bits[..24] == bits;
  }

  /** The raw words of round i, for the given permuted bits. */
  ghost predicate RawPair(t: KeyTables, c: seq<bool>, i: nat, raw0: ULong, raw1: ULong)
    requires t.Complete() && |c| == 56 && i < 16
  {
    raw0 == Raw(t, SelectedBits(t, c, i, 0)) && raw1 == Raw(t, SelectedBits(t, c, i, 24))
  }

  /** Where the key of round i goes. */
  function Place(edf: Direction, i: nat): (p: nat)
    requires i < 16
    ensures p < 16
  {
    if edf.DE1? then 15 - i else i
  }

  /** The raw words of all rounds, in the order in which the rounds will use them. */
  method FillRaw(t: KeyTables, pc1m: array<bool>, edf: Direction) returns (kn: array<ULong>)
    requires t.Complete() && pc1m.Length == 56
    ensures fresh(kn) && kn.Length == 32
    ensures forall p :: 0 <= p < 16 ==> RawPair(t, pc1m[..], Place(edf, p), kn[2 * p], kn[2 * p + 1])
  {
    kn := new ULong[32];
    for i := 0 to 16
      invariant forall p :: 0 <= p < 16 && Place(edf, p) < i ==>
                  RawPair(t, pc1m[..], Place(edf, p), kn[2 * p], kn[2 * p + 1])
    {
      var p := Place(edf, i);
      var raw0, raw1 := RawWords(t, pc1m, i);
      kn[2 * p], kn[2 * p + 1] := raw0, raw1;
      assert RawPair(t, pc1m[..], i, kn[2 * p], kn[2 * p + 1]);
    }
  }

  class DesCipher {
    /** The internal key register. */
    const knl: array<ULong>

    constructor ()
      ensures Shape() && fresh(knl)
    {
      knl := new ULong[32](_ => 0);
    }

    ghost predicate Shape() {
      knl.Length == 32
    }

    /** The key words in the register, round by round. */
    ghost function Keys(): (keys: seq<RoundKey>)
      requires Shape()
      reads knl
      ensures |keys| == 16
    {
      seq(16, i requires 0 <= i < 16 reads knl => RoundKey(Low(knl[2 * i]), Low(knl[2 * i + 1])))
    }

    /** deskey: the register gets the schedule of the key, in reverse order to decrypt. */
    method SetKey(t: KeyTables, key: array<Byte>, edf: Direction)
      requires Shape() && t.Complete() && key.Length == 8
      modifies knl
      ensures Keys() == if edf.DE1? then Reversed(Schedule(t, key[..])) else Schedule(t, key[..])
    {
      var pc1m := Permute1(t, key);
      var kn := FillRaw(t, pc1m, edf);
      Cook(kn);
      ghost var c := pc1m[..];
      forall p | 0 <= p < 16
        ensures Keys()[p] == ScheduledKey(t, key[..], Place(edf, p))
      {
        assert RawPair(t, c, Place(edf, p), kn[2 * p], kn[2 * p + 1]);
      }
    }

    method Round(b: Boxes, l: ULong, r: ULong, k: nat) returns (l': ULong)
      requires Shape() && k < 16 && Clean(l) && Clean(r)
      ensures Clean(l') && Halves(Low(r), Low(l')) == DesNetwork(b).Round(LowHalves(l, r), Keys()[k])
    {
      var fval := RoundValue(b, r, knl[2 * k], knl[2 * k + 1]);
      l' := AddLong(l, fval);
    }

    /** The sixteen rounds, two in each turn of the loop. */
    method Rounds(b: Boxes, l0: ULong, r0: ULong) returns (leftt: ULong, right: ULong)
      requires Shape() && Clean(l0) && Clean(r0)
      ensures Clean(leftt) && Clean(right)
      ensures LowHalves(leftt, right) == DesNetwork(b).Run(Keys(), LowHalves(l0, r0))
    {
      ghost var n, keys, s := DesNetwork(b), Keys(), LowHalves(l0, r0);
      leftt, right := l0, r0;
      for round := 0 to 8
        invariant Clean(leftt) && Clean(right)
        invariant LowHalves(leftt, right) == n.Run(keys[..2 * round], s)
      {
        TakeTwo(n, keys, s, 2 * round);
        leftt := Round(b, leftt, right, 2 * round);
        right := Round(b, right, leftt, 2 * round + 1);
      }
      assert keys[..16] == keys;
    }

    /** des: one block through the cipher with the keys in the register. `from` and `to` may be the same. */
    method Des(b: Boxes, from: array<Byte>, to: array<Byte>)
      requires Shape() && from.Length == to.Length == 8
      modifies to
      ensures to[..] == CryptBytes(b, Keys(), old(from[..]))
    {
      var block0, block1 := Scrunch(from);
      var leftt, right := InitialLong(block0, block1);
      leftt, right := Rounds(b, leftt, right);
      block0, block1 := FinalLong(leftt, right);
      Unscrunch(block0, block1, to);
    }

    /** cookey and usekey: each pair of raw words becomes a pair of key words. */
    method Cook(kn: array<ULong>)
      requires Shape() && kn.Length == 32 && kn != knl
      modifies knl
      ensures forall p :: 0 <= p < 16 ==> knl[2 * p] == CookOdd(kn[2 * p], kn[2 * p + 1])
                                          && knl[2 * p + 1] == CookEven(kn[2 * p], kn[2 * p + 1])
    {
      for i := 0 to 16
        invariant forall p :: 0 <= p < i ==> knl[2 * p] == CookOdd(kn[2 * p], kn[2 * p + 1])
                                             && knl[2 * p + 1] == CookEven(kn[2 * p], kn[2 * p + 1])
      {
        knl[2 * i] := CookOdd(kn[2 * i], kn[2 * i + 1]);
        knl[2 * i + 1] := CookEven(kn[2 * i], kn[2 * i + 1]);
      }
    }
  }

  lemma TakeTwo(n: Network<Half, RoundKey>, keys: seq<RoundKey>, s: Halves<Half>, i: nat)
    requires i + 2 <= |keys|
    ensures n.Run(keys[..i + 2], s) == n.Round(n.Round(n.Run(keys[..i], s), keys[i]), keys[i + 1])
  {
    assert keys[..i + 1] == keys[..i] + [keys[i]] && keys[..i + 2] == keys[..i + 1] + [keys[i + 1]];
    n.RunLast(keys[..i], keys[i], s);
    n.RunLast(keys[..i + 1], keys[i + 1], s);
  }

  lemma LongXor(x: ULong, y: ULong)
    ensures Low(x ^ y) == AddHalf(Low(x), Low(y))
    ensures Clean(x) && Clean(y) ==> Clean(x ^ y)
  {
  }

  method AddLong(x: ULong, y: ULong) returns (z: ULong)
    ensures Low(z) == AddHalf(Low(x), Low(y))
    ensures Clean(x) && Clean(y) ==> Clean(z)
  {
    LongXor(x, y);
    return x ^ y;
  }

  // ---------------------------------------------------------------- blocks

  function HalfOf(b0: Byte, b1: Byte, b2: Byte, b3: Byte): Half {
    ((b0 as Half) << 24) | ((b1 as Half) << 16) | ((b2 as Half) << 8) | (b3 as Half)
  }

  function Byte0(h: Half): Byte { (h >> 24) as Byte }
  function Byte1(h: Half): Byte { ((h >> 16) & 0xff) as Byte }
  function Byte2(h: Half): Byte { ((h >> 8) & 0xff) as Byte }
  function Byte3(h: Half): Byte { (h & 0xff) as Byte }

  lemma HalfRoundTrip(h: Half)
    ensures HalfOf(Byte0(h), Byte1(h), Byte2(h), Byte3(h)) == h
  {
  }

  lemma HalfBytes(b0: Byte, b1: Byte, b2: Byte, b3: Byte)
    ensures Byte0(HalfOf(b0, b1, b2, b3)) == b0 && Byte1(HalfOf(b0, b1, b2, b3)) == b1
    ensures Byte2(HalfOf(b0, b1, b2, b3)) == b2 && Byte3(HalfOf(b0, b1, b2, b3)) == b3
  {
  }

  function BlockOf(b: seq<Byte>): Halves<Half>
    requires |b| == 8
  {
    Halves(HalfOf(b[0], b[1], b[2], b[3]), HalfOf(b[4], b[5], b[6], b[7]))
  }

  function BytesOf(s: Halves<Half>): (b: seq<Byte>)
    ensures |b| == 8
  {
    [Byte0(s.left), Byte1(s.left), Byte2(s.left), Byte3(s.left),
     Byte0(s.right), Byte1(s.right), Byte2(s.right), Byte3(s.right)]
  }

  lemma BlockRoundTrip(b: seq<Byte>, s: Halves<Half>)
    requires |b| == 8
    ensures BytesOf(BlockOf(b)) == b && BlockOf(BytesOf(s)) == s
  {
    HalfBytes(b[0], b[1], b[2], b[3]);
    HalfBytes(b[4], b[5], b[6], b[7]);
    HalfRoundTrip(s.left);
    HalfRoundTrip(s.right);
  }

  lemma LongBytes(b0: Byte, b1: Byte, b2: Byte, b3: Byte)
    ensures Low(((b0 as ULong) << 24) | ((b1 as ULong) << 16) | ((b2 as ULong) << 8) | (b3 as ULong))
              == HalfOf(b0, b1, b2, b3)
    ensures Clean(((b0 as ULong) << 24) | ((b1 as ULong) << 16) | ((b2 as ULong) << 8) | (b3 as ULong))
  {
  }

  method GatherLong(b0: Byte, b1: Byte, b2: Byte, b3: Byte) returns (w: ULong)
    ensures Low(w) == HalfOf(b0, b1, b2, b3) && Clean(w)
  {
    LongBytes(b0, b1, b2, b3);
    return ((b0 as ULong) << 24) | ((b1 as ULong) << 16) | ((b2 as ULong) << 8) | (b3 as ULong);
  }

  method Scrunch(from: array<Byte>) returns (block0: ULong, block1: ULong)
    requires from.Length == 8
    ensures LowHalves(block0, block1) == BlockOf(from[..]) && Clean(block0) && Clean(block1)
  {
    block0 := GatherLong(from[0], from[1], from[2], from[3]);
    block1 := GatherLong(from[4], from[5], from[6], from[7]);
  }

  /** Bits above the 32 are not looked at. */
  lemma BytesOfLong(w: ULong)
    ensures ((w >> 24) & 0xff) as Byte == Byte0(Low(w)) && ((w >> 16) & 0xff) as Byte == Byte1(Low(w))
    ensures ((w >> 8) & 0xff) as Byte == Byte2(Low(w)) && (w & 0xff) as Byte == Byte3(Low(w))
  {
  }

  method SplitLong(w: ULong) returns (b0: Byte, b1: Byte, b2: Byte, b3: Byte)
    ensures b0 == Byte0(Low(w)) && b1 == Byte1(Low(w)) && b2 == Byte2(Low(w)) && b3 == Byte3(Low(w))
  {
    BytesOfLong(w);
    return ((w >> 24) & 0xff) as Byte, ((w >> 16) & 0xff) as Byte, ((w >> 8) & 0xff) as Byte, (w & 0xff) as Byte;
  }

  method Unscrunch(block0: ULong, block1: ULong, to: array<Byte>)
    requires to.Length == 8
    modifies to
    ensures to[..] == BytesOf(LowHalves(block0, block1))
  {
    var b0, b1, b2, b3 := SplitLong(block0);
    var b4, b5, b6, b7 := SplitLong(block1);
    to[0], to[1], to[2], to[3] := b0, b1, b2, b3;
    to[4], to[5], to[6], to[7] := b4, b5, b6, b7;
  }

  /** A block of bytes through DES. */
  function CryptBytes(b: Boxes, keys: seq<RoundKey>, bytes: seq<Byte>): (r: seq<Byte>)
    requires |bytes| == 8
    ensures |r| == 8
  {
    BytesOf(Crypt(b, keys, BlockOf(bytes)))
  }

  lemma BytesDecrypt(b: Boxes, keys: seq<RoundKey>, bytes: seq<Byte>)
    requires |bytes| == 8
    ensures CryptBytes(b, Reversed(keys), CryptBytes(b, keys, bytes)) == bytes
  {
    BlockRoundTrip(bytes, Crypt(b, keys, BlockOf(bytes)));
    DecryptUndoesEncrypt(b, keys, BlockOf(bytes));
  }

  /** Key setup and one block, in place. */
  method Once(t: KeyTables, b: Boxes, key: array<Byte>, edf: Direction, block: seq<Byte>) returns (result: seq<Byte>)
    requires t.Complete() && key.Length == 8 && |block| == 8
    ensures |result| == 8
    ensures edf.EN0? ==> result == CryptBytes(b, Schedule(t, key[..]), block)
    ensures edf.DE1? ==> result == CryptBytes(b, Reversed(Schedule(t, key[..])), block)
  {
    var d := new DesCipher();
    d.SetKey(t, key, edf);
    var buf := new Byte[8](n requires 0 <= n < 8 => block[n]);
    assert buf[..] == block;
    d.Des(b, buf, buf);
    result := buf[..];
  }

  /** For every key of eight bytes and every block, `des` after `deskey` for decryption gives back what
      `des` after `deskey` for encryption was given. */
  method ThereAndBack(t: KeyTables, b: Boxes, key: array<Byte>, block: seq<Byte>) returns (result: seq<Byte>)
    requires t.Complete() && key.Length == 8 && |block| == 8
    ensures result == block
  {
    var cipher := Once(t, b, key, EN0, block);
    result := Once(t, b, key, DE1, cipher);
    BytesDecrypt(b, Schedule(t, key[..]), block);
  }
}
