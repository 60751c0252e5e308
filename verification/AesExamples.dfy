/** What the steps of AES do to single bits and bytes, and the examples of appendices A and B of FIPS 197. */
module AesExamples {
  import opened AesField
  import opened AesCipher
  import opened AesStandard
  import opened AesWords
  import opened RoundCipher
  import opened Basics
  import opened Aes
  import opened AesRoundTrip

  // ---------------------------------------------------------------- the steps

  /** RotWord moves the bytes of a word one place up, and the top one to the bottom. */
  lemma RotWordRotates(w: Word)
    ensures Pack(RotWord(Col(w))) == (w << 8) | (w >> 24)
  {
  }

  /** The byte in row `r` and column `c` of a state. */
  function Cell(s: State, r: nat, c: nat): Byte
    requires r < 4 && c < 4
  {
    var column := if c == 0 then s.c0 else if c == 1 then s.c1 else if c == 2 then s.c2 else s.c3;
    if r == 0 then column.b0 else if r == 1 then column.b1 else if r == 2 then column.b2 else column.b3
  }

  /** Section 5.1.2 of FIPS 197. */
  lemma ShiftRowsMoves(s: State, r: nat, c: nat)
    requires r < 4 && c < 4
    ensures Cell(ShiftRows(s), r, c) == Cell(s, r, (c + r) % 4)
    ensures Cell(InvShiftRows(s), r, (c + r) % 4) == Cell(s, r, c)
  {
  }

  /** A state is read from bytes column by column: section 3.4. */
  lemma BytesAreCells(block: seq<Byte>, r: nat, c: nat)
    requires |block| == BLOCK_SIZE && r < 4 && c < 4
    ensures Cell(StateOf(block), r, c) == block[r + 4 * c]
  {
    if c == 0 { return; }
    if c == 1 { return; }
    if c == 2 { return; }
  }

  /** The matrix of section 5.1.3; MultiplesAreProducts says that its factors are those of the field. */
  lemma MixColumnIsMatrix(c: Column)
    ensures AES.MixColumn(c)
         == Column(Xor(Xor(Mul2(c.b0), Mul3(c.b1)), Xor(c.b2, c.b3)), Xor(Xor(c.b0, Mul2(c.b1)), Xor(Mul3(c.b2), c.b3)),
                   Xor(Xor(c.b0, c.b1), Xor(Mul2(c.b2), Mul3(c.b3))), Xor(Xor(Mul3(c.b0), c.b1), Xor(c.b2, Mul2(c.b3))))
  {
  }

  // ---------------------------------------------------------------- the key of appendix A.1

  const KEY_128: seq<Byte> := [
    0x2b, 0x7e, 0x15, 0x16, 0x28, 0xae, 0xd2, 0xa6, 0xab, 0xf7, 0x15, 0x88, 0x09, 0xcf, 0x4f, 0x3c]

  /** Its round keys. */
  function Key128(r: nat): State {
    match r
    case 0 => St(0x2b7e1516, 0x28aed2a6, 0xabf71588, 0x09cf4f3c)
    case 1 => St(0xa0fafe17, 0x88542cb1, 0x23a33939, 0x2a6c7605)
    case 2 => St(0xf2c295f2, 0x7a96b943, 0x5935807a, 0x7359f67f)
    case 3 => St(0x3d80477d, 0x4716fe3e, 0x1e237e44, 0x6d7a883b)
    case 4 => St(0xef44a541, 0xa8525b7f, 0xb671253b, 0xdb0bad00)
    case 5 => St(0xd4d1c6f8, 0x7c839d87, 0xcaf2b8bc, 0x11f915bc)
    case 6 => St(0x6d88a37a, 0x110b3efd, 0xdbf98641, 0xca0093fd)
    case 7 => St(0x4e54f70e, 0x5f5fc9f3, 0x84a64fb2, 0x4ea6dc4f)
    case 8 => St(0xead27321, 0xb58dbad2, 0x312bf560, 0x7f8d292f)
    case 9 => St(0xac7766f3, 0x19fadc21, 0x28d12941, 0x575c006e)
    case _ => St(0xd014f9a8, 0xc9ee2589, 0xe13f0cc8, 0xb6630ca6)
  }

  /** Round key `r` from the one before it. */
  function NextKey(a: Algebra, k: State, r: nat): State {
    var c0 := Add(k.c0, Add(a.SubColumn(RotWord(k.c3)), Rcon(r)));
    var c1 := Add(k.c1, c0);
    var c2 := Add(k.c2, c1);
    State(c0, c1, c2, Add(k.c3, c2))
  }

  lemma Key128Step1()
    ensures NextKey(AES, St(0x2b7e1516, 0x28aed2a6, 0xabf71588, 0x09cf4f3c), 1)
         == St(0xa0fafe17, 0x88542cb1, 0x23a33939, 0x2a6c7605)
  {
  }

  lemma Key128Step2()
    ensures NextKey(AES, St(0xa0fafe17, 0x88542cb1, 0x23a33939, 0x2a6c7605), 2)
         == St(0xf2c295f2, 0x7a96b943, 0x5935807a, 0x7359f67f)
  {
  }

  lemma Key128Step3()
    ensures NextKey(AES, St(0xf2c295f2, 0x7a96b943, 0x5935807a, 0x7359f67f), 3)
         == St(0x3d80477d, 0x4716fe3e, 0x1e237e44, 0x6d7a883b)
  {
  }

  lemma Key128Step4()
    ensures NextKey(AES, St(0x3d80477d, 0x4716fe3e, 0x1e237e44, 0x6d7a883b), 4)
         == St(0xef44a541, 0xa8525b7f, 0xb671253b, 0xdb0bad00)
  {
  }

  lemma Key128Step5()
    ensures NextKey(AES, St(0xef44a541, 0xa8525b7f, 0xb671253b, 0xdb0bad00), 5)
         == St(0xd4d1c6f8, 0x7c839d87, 0xcaf2b8bc, 0x11f915bc)
  {
  }

  lemma Key128Step6()
    ensures NextKey(AES, St(0xd4d1c6f8, 0x7c839d87, 0xcaf2b8bc, 0x11f915bc), 6)
         == St(0x6d88a37a, 0x110b3efd, 0xdbf98641, 0xca0093fd)
  {
  }

  lemma Key128Step7()
    ensures NextKey(AES, St(0x6d88a37a, 0x110b3efd, 0xdbf98641, 0xca0093fd), 7)
         == St(0x4e54f70e, 0x5f5fc9f3, 0x84a64fb2, 0x4ea6dc4f)
  {
  }

  lemma Key128Step8()
    ensures NextKey(AES, St(0x4e54f70e, 0x5f5fc9f3, 0x84a64fb2, 0x4ea6dc4f), 8)
         == St(0xead27321, 0xb58dbad2, 0x312bf560, 0x7f8d292f)
  {
  }

  lemma Key128Step9()
    ensures NextKey(AES, St(0xead27321, 0xb58dbad2, 0x312bf560, 0x7f8d292f), 9)
         == St(0xac7766f3, 0x19fadc21, 0x28d12941, 0x575c006e)
  {
  }

  lemma Key128Step10()
    ensures NextKey(AES, St(0xac7766f3, 0x19fadc21, 0x28d12941, 0x575c006e), 10)
         == St(0xd014f9a8, 0xc9ee2589, 0xe13f0cc8, 0xb6630ca6)
  {
  }

  lemma Key128Steps(r: nat)
    requires r < 10
    ensures NextKey(AES, Key128(r), r + 1) == Key128(r + 1)
  {
    match r
    case 0 => Key128Step1();
    case 1 => Key128Step2();
    case 2 => Key128Step3();
    case 3 => Key128Step4();
    case 4 => Key128Step5();
    case 5 => Key128Step6();
    case 6 => Key128Step7();
    case 7 => Key128Step8();
    case 8 => Key128Step9();
    case 9 => Key128Step10();
  }

  /** The words of a schedule, looked up only where a word is named. */
  ghost predicate IsSchedule(a: Algebra, key: seq<Byte>, f: nat -> Column)
    requires |key| == 16
  {
    forall i: nat {:trigger Round(i)} :: Round(i) ==> f(i) == ExpandedWord(a, key, 4, i)
  }

  lemma Schedule(a: Algebra, key: seq<Byte>) returns (f: nat -> Column)
    requires |key| == 16
    ensures IsSchedule(a, key, f)
  {
    f := (i: nat) => ExpandedWord(a, key, 4, i);
  }

  lemma RotatedWord(a: Algebra, key: seq<Byte>, f: nat -> Column, r: nat)
    requires |key| == 16 && IsSchedule(a, key, f)
    ensures f(4 * r + 4) == Add(f(4 * r), Add(a.SubColumn(RotWord(f(4 * r + 3))), Rcon(r + 1)))
  {
    assert Round(4 * r) && Round(4 * r + 3) && Round(4 * r + 4);
    assert (4 * r + 4) % 4 == 0 && (4 * r + 4) / 4 == r + 1;
  }

  lemma PlainWord(a: Algebra, key: seq<Byte>, f: nat -> Column, i: nat)
    requires |key| == 16 && IsSchedule(a, key, f) && i % 4 != 0
    ensures f(i + 4) == Add(f(i), f(i + 3))
  {
    assert Round(i) && Round(i + 3) && Round(i + 4);
    assert (i + 4) % 4 == i % 4;
  }

  function FourWords(f: nat -> Column, r: nat): State {
    State(f(4 * r), f(4 * r + 1), f(4 * r + 2), f(4 * r + 3))
  }

  lemma NextFourWords(a: Algebra, key: seq<Byte>, f: nat -> Column, r: nat)
    requires |key| == 16 && IsSchedule(a, key, f)
    ensures FourWords(f, r + 1) == NextKey(a, FourWords(f, r), r + 1)
  {
    RotatedWord(a, key, f, r);
    PlainWord(a, key, f, 4 * r + 1);
    PlainWord(a, key, f, 4 * r + 2);
    PlainWord(a, key, f, 4 * r + 3);
  }

  lemma {:induction false} FourWordsAre(a: Algebra, key: seq<Byte>, f: nat -> Column, r: nat)
    requires a == AES && key == KEY_128 && IsSchedule(a, key, f) && r <= 10
    ensures FourWords(f, r) == Key128(r)
  {
    if r == 0 {
      assert Round(0) && Round(1) && Round(2) && Round(3);
    } else {
      FourWordsAre(a, key, f, r - 1);
      NextFourWords(a, key, f, r - 1);
      Key128Steps(r - 1);
    }
  }

  /** Appendix A.1: the expansion of the 128-bit key. */
  lemma Appendix128(a: Algebra, key: seq<Byte>, r: nat)
    requires a == AES && key == KEY_128 && r <= 10
    ensures RoundKey(a, key, 4, r) == Key128(r)
  {
    var f := Schedule(a, key);
    FourWordsAre(a, key, f, r);
    assert Round(4 * r) && Round(4 * r + 1) && Round(4 * r + 2) && Round(4 * r + 3);
  }

  // ---------------------------------------------------------------- the block of appendix B

  const PLAIN: seq<Byte> := [
    0x32, 0x43, 0xf6, 0xa8, 0x88, 0x5a, 0x30, 0x8d, 0x31, 0x31, 0x98, 0xa2, 0xe0, 0x37, 0x07, 0x34]
  const CIPHER: seq<Byte> := [
    0x39, 0x25, 0x84, 0x1d, 0x02, 0xdc, 0x09, 0xfb, 0xdc, 0x11, 0x85, 0x97, 0x19, 0x6a, 0x0b, 0x32]

  /** The state before each round but the first. */
  function StateAfter(r: nat): State {
    match r
    case 0 => St(0x193de3be, 0xa0f4e22b, 0x9ac68d2a, 0xe9f84808)
    case 1 => St(0xa49c7ff2, 0x689f352b, 0x6b5bea43, 0x026a5049)
    case 2 => St(0xaa8f5f03, 0x61dde3ef, 0x82d24ad2, 0x6832469a)
    case 3 => St(0x486c4eee, 0x671d9d0d, 0x4de3b138, 0xd65f58e7)
    case 4 => St(0xe0927fe8, 0xc86363c0, 0xd9b13550, 0x85b8be01)
    case 5 => St(0xf1006f55, 0xc1924cef, 0x7cc88b32, 0x5db5d50c)
    case 6 => St(0x260e2e17, 0x3d41b77d, 0xe86472a9, 0xfdd28b25)
    case 7 => St(0x5a4142b1, 0x1949dc1f, 0xa3e01965, 0x7a8c040c)
    case 8 => St(0xea835cf0, 0x0445332d, 0x655d98ad, 0x8596b0c5)
    case _ => St(0xeb40f21e, 0x592e3884, 0x8ba113e7, 0x1bc342d2)
  }

  lemma Substituted1()
    ensures SubBytes(AES, St(0x193de3be, 0xa0f4e22b, 0x9ac68d2a, 0xe9f84808))
         == St(0xd42711ae, 0xe0bf98f1, 0xb8b45de5, 0x1e415230)
  {
  }

  lemma Round1()
    ensures AddState(MixColumns(AES, ShiftRows(St(0xd42711ae, 0xe0bf98f1, 0xb8b45de5, 0x1e415230))),
                     St(0xa0fafe17, 0x88542cb1, 0x23a33939, 0x2a6c7605))
         == St(0xa49c7ff2, 0x689f352b, 0x6b5bea43, 0x026a5049)
  {
  }

  lemma Substituted2()
    ensures SubBytes(AES, St(0xa49c7ff2, 0x689f352b, 0x6b5bea43, 0x026a5049))
         == St(0x49ded289, 0x45db96f1, 0x7f39871a, 0x7702533b)
  {
  }

  lemma Round2()
    ensures AddState(MixColumns(AES, ShiftRows(St(0x49ded289, 0x45db96f1, 0x7f39871a, 0x7702533b))),
                     St(0xf2c295f2, 0x7a96b943, 0x5935807a, 0x7359f67f))
         == St(0xaa8f5f03, 0x61dde3ef, 0x82d24ad2, 0x6832469a)
  {
  }

  lemma Substituted3()
    ensures SubBytes(AES, St(0xaa8f5f03, 0x61dde3ef, 0x82d24ad2, 0x6832469a))
         == St(0xac73cf7b, 0xefc111df, 0x13b5d6b5, 0x45235ab8)
  {
  }

  lemma Round3()
    ensures AddState(MixColumns(AES, ShiftRows(St(0xac73cf7b, 0xefc111df, 0x13b5d6b5, 0x45235ab8))),
                     St(0x3d80477d, 0x4716fe3e, 0x1e237e44, 0x6d7a883b))
         == St(0x486c4eee, 0x671d9d0d, 0x4de3b138, 0xd65f58e7)
  {
  }

  lemma Substituted4()
    ensures SubBytes(AES, St(0x486c4eee, 0x671d9d0d, 0x4de3b138, 0xd65f58e7))
         == St(0x52502f28, 0x85a45ed7, 0xe311c807, 0xf6cf6a94)
  {
  }

  lemma Round4()
    ensures AddState(MixColumns(AES, ShiftRows(St(0x52502f28, 0x85a45ed7, 0xe311c807, 0xf6cf6a94))),
                     St(0xef44a541, 0xa8525b7f, 0xb671253b, 0xdb0bad00))
         == St(0xe0927fe8, 0xc86363c0, 0xd9b13550, 0x85b8be01)
  {
  }

  lemma Substituted5()
    ensures SubBytes(AES, St(0xe0927fe8, 0xc86363c0, 0xd9b13550, 0x85b8be01))
         == St(0xe14fd29b, 0xe8fbfbba, 0x35c89653, 0x976cae7c)
  {
  }

  lemma Round5()
    ensures AddState(MixColumns(AES, ShiftRows(St(0xe14fd29b, 0xe8fbfbba, 0x35c89653, 0x976cae7c))),
                     St(0xd4d1c6f8, 0x7c839d87, 0xcaf2b8bc, 0x11f915bc))
         == St(0xf1006f55, 0xc1924cef, 0x7cc88b32, 0x5db5d50c)
  {
  }

  lemma Substituted6()
    ensures SubBytes(AES, St(0xf1006f55, 0xc1924cef, 0x7cc88b32, 0x5db5d50c))
         == St(0xa163a8fc, 0x784f29df, 0x10e83d23, 0x4cd503fe)
  {
  }

  lemma Round6()
    ensures AddState(MixColumns(AES, ShiftRows(St(0xa163a8fc, 0x784f29df, 0x10e83d23, 0x4cd503fe))),
                     St(0x6d88a37a, 0x110b3efd, 0xdbf98641, 0xca0093fd))
         == St(0x260e2e17, 0x3d41b77d, 0xe86472a9, 0xfdd28b25)
  {
  }

  lemma Substituted7()
    ensures SubBytes(AES, St(0x260e2e17, 0x3d41b77d, 0xe86472a9, 0xfdd28b25))
         == St(0xf7ab31f0, 0x2783a9ff, 0x9b4340d3, 0x54b53d3f)
  {
  }

  lemma Round7()
    ensures AddState(MixColumns(AES, ShiftRows(St(0xf7ab31f0, 0x2783a9ff, 0x9b4340d3, 0x54b53d3f))),
                     St(0x4e54f70e, 0x5f5fc9f3, 0x84a64fb2, 0x4ea6dc4f))
         == St(0x5a4142b1, 0x1949dc1f, 0xa3e01965, 0x7a8c040c)
  {
  }

  lemma Substituted8()
    ensures SubBytes(AES, St(0x5a4142b1, 0x1949dc1f, 0xa3e01965, 0x7a8c040c))
         == St(0xbe832cc8, 0xd43b86c0, 0x0ae1d44d, 0xda64f2fe)
  {
  }

  lemma Round8()
    ensures AddState(MixColumns(AES, ShiftRows(St(0xbe832cc8, 0xd43b86c0, 0x0ae1d44d, 0xda64f2fe))),
                     St(0xead27321, 0xb58dbad2, 0x312bf560, 0x7f8d292f))
         == St(0xea835cf0, 0x0445332d, 0x655d98ad, 0x8596b0c5)
  {
  }

  lemma Substituted9()
    ensures SubBytes(AES, St(0xea835cf0, 0x0445332d, 0x655d98ad, 0x8596b0c5))
         == St(0x87ec4a8c, 0xf26ec3d8, 0x4d4c4695, 0x9790e7a6)
  {
  }

  lemma Round9()
    ensures AddState(MixColumns(AES, ShiftRows(St(0x87ec4a8c, 0xf26ec3d8, 0x4d4c4695, 0x9790e7a6))),
                     St(0xac7766f3, 0x19fadc21, 0x28d12941, 0x575c006e))
         == St(0xeb40f21e, 0x592e3884, 0x8ba113e7, 0x1bc342d2)
  {
  }

  lemma Substituted10()
    ensures SubBytes(AES, St(0xeb40f21e, 0x592e3884, 0x8ba113e7, 0x1bc342d2))
         == St(0xe9098972, 0xcb31075f, 0x3d327d94, 0xaf2e2cb5)
  {
  }

  lemma Round10()
    ensures AddState(ShiftRows(St(0xe9098972, 0xcb31075f, 0x3d327d94, 0xaf2e2cb5)),
                     St(0xd014f9a8, 0xc9ee2589, 0xe13f0cc8, 0xb6630ca6))
         == St(0x3925841d, 0x02dc09fb, 0xdc118597, 0x196a0b32)
  {
  }

  lemma StateSteps(r: nat)
    requires 1 <= r <= 9
    ensures AddState(MixColumns(AES, SubShift(AES, StateAfter(r - 1))), Key128(r)) == StateAfter(r)
  {
    if r <= 5 {
      EarlySteps(r);
    } else {
      LateSteps(r);
    }
  }

  lemma EarlySteps(r: nat)
    requires 1 <= r <= 5
    ensures AddState(MixColumns(AES, SubShift(AES, StateAfter(r - 1))), Key128(r)) == StateAfter(r)
  {
    match r
    case 1 => Substituted1(); Round1();
    case 2 => Substituted2(); Round2();
    case 3 => Substituted3(); Round3();
    case 4 => Substituted4(); Round4();
    case 5 => Substituted5(); Round5();
  }

  lemma LateSteps(r: nat)
    requires 6 <= r <= 9
    ensures AddState(MixColumns(AES, SubShift(AES, StateAfter(r - 1))), Key128(r)) == StateAfter(r)
  {
    match r
    case 6 => Substituted6(); Round6();
    case 7 => Substituted7(); Round7();
    case 8 => Substituted8(); Round8();
    case 9 => Substituted9(); Round9();
  }

  lemma StateStarts()
    ensures AddState(StateOf(PLAIN), Key128(0)) == StateAfter(0)
  {
  }

  lemma LastRound(s: State, k: State)
    requires s == St(0xeb40f21e, 0x592e3884, 0x8ba113e7, 0x1bc342d2)
    requires k == St(0xd014f9a8, 0xc9ee2589, 0xe13f0cc8, 0xb6630ca6)
    ensures BytesOf(AddState(SubShift(AES, s), k)) == CIPHER
  {
    Substituted10();
    Round10();
    CipherBytes();
  }

  lemma CipherBytes()
    ensures BytesOf(St(0x3925841d, 0x02dc09fb, 0xdc118597, 0x196a0b32)) == CIPHER
  {
  }

  /** The states of the rounds. */
  lemma {:induction false} RoundsOfBlock(keys: seq<State>, input: State, r: nat)
    requires |keys| == 11 && (forall i :: 0 <= i < 11 ==> keys[i] == Key128(i)) && input == StateOf(PLAIN) && r <= 9
    ensures AesRounds(AES).After(keys, input, r) == StateAfter(r)
  {
    if r == 0 {
      StateStarts();
    } else {
      RoundsOfBlock(keys, input, r - 1);
      StateSteps(r);
    }
  }

  /** Appendix B: the block of the standard's example. */
  lemma AppendixB(a: Algebra, key: seq<Byte>)
    requires a == AES && key == KEY_128
    ensures EncryptBlock(a, KeyExpansion(a, key, 4), PLAIN) == CIPHER
  {
    var keys := KeyExpansion(a, key, 4);
    forall r | 0 <= r < 11
      ensures keys[r] == Key128(r)
    {
      Appendix128(a, key, r);
    }
    RoundsOfBlock(keys, StateOf(PLAIN), 9);
    LastRound(StateAfter(9), Key128(10));
  }

  /** A key of 128 bits, set up for encryption. */
  method KeyFor(a: Algebra, userKey: seq<Byte>) returns (key: AesKey)
    requires |userKey| == 16
    ensures fresh(key) && fresh(key.rdKey) && key.Ready() && key.Keys() == KeyExpansion(a, userKey, 4)
  {
    var k := Buffer(userKey, 16);
    key := new AesKey();
    var status := key.SetEncryptKey(a, k, 128);
    assert k[..16] == userKey;
  }

  /** The program on a key of 128 bits and one block. */
  method EncryptedBy(a: Algebra, userKey: seq<Byte>, block: seq<Byte>) returns (result: seq<Byte>)
    requires |userKey| == 16 && |block| == BLOCK_SIZE
    ensures result == EncryptBlock(a, KeyExpansion(a, userKey, 4), block)
  {
    var key := KeyFor(a, userKey);
    var buf := Buffer(block, BLOCK_SIZE);
    key.Encrypt(a, buf, 0, buf, 0);
    result := buf[0..0 + BLOCK_SIZE];
  }

  /** With the tables of the standard it gives the ciphertext of the example. */
  method ExampleEncrypted(userKey: seq<Byte>) returns (result: seq<Byte>)
    requires userKey == KEY_128
    ensures result == CIPHER
  {
    result := EncryptedBy(AES, userKey, PLAIN);
    AppendixB(AES, userKey);
  }

  /** A word of the schedule from the one `nk` before it and the one before it: section 5.2. */
  function NextWord(nk: nat, i: nat, before: Column, temp: Column): Column
    requires nk == 6 || nk == 8
  {
    if i % nk == 0 then Add(before, Add(AES.SubColumn(RotWord(temp)), Rcon(i / nk)))
    else if nk == 8 && i % nk == 4 then Add(before, AES.SubColumn(temp))
    else Add(before, temp)
  }

  // ---------------------------------------------------------------- the key of appendix A.2

  const KEY_192: seq<Byte> := [
    0x8e, 0x73, 0xb0, 0xf7, 0xda, 0x0e, 0x64, 0x52, 0xc8, 0x10, 0xf3, 0x2b, 0x80, 0x90, 0x79, 0xe5,
    0x62, 0xf8, 0xea, 0xd2, 0x52, 0x2c, 0x6b, 0x7b]

  /** The first words of its schedule. */
  function Word192(i: nat): Word {
    match i
    case 0 => 0x8e73b0f7
    case 1 => 0xda0e6452
    case 2 => 0xc810f32b
    case 3 => 0x809079e5
    case 4 => 0x62f8ead2
    case 5 => 0x522c6b7b
    case 6 => 0xfe0c91f7
    case 7 => 0x2402f5a5
    case 8 => 0xec12068e
    case 9 => 0x6c827f6b
    case 10 => 0x0e7a95b9
    case 11 => 0x5c56fec2
    case _ => 0x4db7b4bd
  }

  lemma Word192Sub6()
    ensures AES.SubColumn(Col(0x2c6b7b52)) == Col(0x717f2100)
  {
  }

  lemma Word192Sub12()
    ensures AES.SubColumn(Col(0x56fec25c)) == Col(0xb1bb254a)
  {
  }

  lemma Word192Next(i: nat)
    requires 6 <= i <= 12
    ensures NextWord(6, i, Col(Word192(i - 6)), Col(Word192(i - 1))) == Col(Word192(i))
  {
    match i
    case 6 => Word192Sub6();
    case 7 =>
    case 8 =>
    case 9 =>
    case 10 =>
    case 11 =>
    case 12 => Word192Sub12();
  }

  lemma Word192First(key: seq<Byte>, i: nat)
    requires key == KEY_192 && i < 6
    ensures KeyWordOf(key, i) == Col(Word192(i))
  {
    if i == 0 { return; }
    if i == 1 { return; }
    if i == 2 { return; }
    if i == 3 { return; }
    if i == 4 { return; }
  }

  /** Appendix A.2: the expansion of the 192-bit key begins with these words. */
  lemma {:induction false} Appendix192(a: Algebra, key: seq<Byte>, i: nat)
    requires a == AES && key == KEY_192 && i <= 12
    ensures ExpandedWord(a, key, 6, i) == Col(Word192(i))
  {
    if i < 6 {
      Word192First(key, i);
    } else {
      Appendix192(a, key, i - 1);
      Appendix192(a, key, i - 6);
      Word192Next(i);
    }
  }

  // ---------------------------------------------------------------- the key of appendix A.3

  const KEY_256: seq<Byte> := [
    0x60, 0x3d, 0xeb, 0x10, 0x15, 0xca, 0x71, 0xbe, 0x2b, 0x73, 0xae, 0xf0, 0x85, 0x7d, 0x77, 0x81,
    0x1f, 0x35, 0x2c, 0x07, 0x3b, 0x61, 0x08, 0xd7, 0x2d, 0x98, 0x10, 0xa3, 0x09, 0x14, 0xdf, 0xf4]

  /** The first words of its schedule. */
  function Word256(i: nat): Word {
    match i
    case 0 => 0x603deb10
    case 1 => 0x15ca71be
    case 2 => 0x2b73aef0
    case 3 => 0x857d7781
    case 4 => 0x1f352c07
    case 5 => 0x3b6108d7
    case 6 => 0x2d9810a3
    case 7 => 0x0914dff4
    case 8 => 0x9ba35411
    case 9 => 0x8e6925af
    case 10 => 0xa51a8b5f
    case 11 => 0x2067fcde
    case 12 => 0xa8b09c1a
    case 13 => 0x93d194cd
    case 14 => 0xbe49846e
    case 15 => 0xb75d5b9a
    case _ => 0xd59aecb8
  }

  lemma Word256Sub8()
    ensures AES.SubColumn(Col(0x14dff409)) == Col(0xfa9ebf01)
  {
  }

  lemma Word256Sub12()
    ensures AES.SubColumn(Col(0x2067fcde)) == Col(0xb785b01d)
  {
  }

  lemma Word256Sub16()
    ensures AES.SubColumn(Col(0x5d5b9ab7)) == Col(0x4c39b8a9)
  {
  }

  lemma Word256Next(i: nat)
    requires 8 <= i <= 16
    ensures NextWord(8, i, Col(Word256(i - 8)), Col(Word256(i - 1))) == Col(Word256(i))
  {
    match i
    case 8 => Word256Sub8();
    case 9 =>
    case 10 =>
    case 11 =>
    case 12 => Word256Sub12();
    case 13 =>
    case 14 =>
    case 15 =>
    case 16 => Word256Sub16();
  }

  lemma Word256First(key: seq<Byte>, i: nat)
    requires key == KEY_256 && i < 8
    ensures KeyWordOf(key, i) == Col(Word256(i))
  {
    if i == 0 { return; }
    if i == 1 { return; }
    if i == 2 { return; }
    if i == 3 { return; }
    if i == 4 { return; }
    if i == 5 { return; }
    if i == 6 { return; }
  }

  /** Appendix A.3: the expansion of the 256-bit key begins with these words. */
  lemma {:induction false} Appendix256(a: Algebra, key: seq<Byte>, i: nat)
    requires a == AES && key == KEY_256 && i <= 16
    ensures ExpandedWord(a, key, 8, i) == Col(Word256(i))
  {
    if i < 8 {
      Word256First(key, i);
    } else {
      Appendix256(a, key, i - 1);
      Appendix256(a, key, i - 8);
      Word256Next(i);
    }
  }
}
