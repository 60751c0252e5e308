/** AES as the program computes it: key schedules expanded and reversed in place, and blocks encrypted
    and decrypted with one table lookup per byte and two rounds per turn of the loop. */
module Aes {
  import opened AesField
  import opened AesCipher
  import opened AesWords
  import opened RoundCipher
  import opened Basics

  const MAX_ROUNDS := 14
  // ---------------------------------------------------------------- blocks

  function StateOf(b: seq<Byte>): State
    requires |b| == BLOCK_SIZE
  {
    State(Column(b[0], b[1], b[2], b[3]), Column(b[4], b[5], b[6], b[7]),
          Column(b[8], b[9], b[10], b[11]), Column(b[12], b[13], b[14], b[15]))
  }

  function BytesOf(s: State): (b: seq<Byte>)
    ensures |b| == BLOCK_SIZE
  {
    [s.c0.b0, s.c0.b1, s.c0.b2, s.c0.b3, s.c1.b0, s.c1.b1, s.c1.b2, s.c1.b3,
     s.c2.b0, s.c2.b1, s.c2.b2, s.c2.b3, s.c3.b0, s.c3.b1, s.c3.b2, s.c3.b3]
  }

  lemma BlockRoundTrip(b: seq<Byte>, s: State)
    requires |b| == BLOCK_SIZE
    ensures BytesOf(StateOf(b)) == b
    ensures StateOf(BytesOf(s)) == s
  {
  }

  /** The state held by four words. */
  function St(w0: Word, w1: Word, w2: Word, w3: Word): State {
    State(Col(w0), Col(w1), Col(w2), Col(w3))
  }

  function KeyState(w: seq<Word>, r: nat): State
    requires 4 * r + 4 <= |w|
  {
    St(w[4 * r], w[4 * r + 1], w[4 * r + 2], w[4 * r + 3])
  }

  function KeyStates(w: seq<Word>, rounds: nat): (keys: seq<State>)
    requires 4 * rounds + 4 <= |w|
    ensures |keys| == rounds + 1
  {
    seq(rounds + 1, r requires 0 <= r <= rounds => KeyState(w, r))
  }

  /** Encryption of one block, as a function of the key schedule. */
  function EncryptBlock(a: Algebra, keys: seq<State>, block: seq<Byte>): (r: seq<Byte>)
    requires |keys| >= 2 && |block| == BLOCK_SIZE
    ensures |r| == BLOCK_SIZE
  {
    BytesOf(AesRounds(a).Cipher(keys, StateOf(block)))
  }

  function DecryptBlock(a: Algebra, keys: seq<State>, block: seq<Byte>): (r: seq<Byte>)
    requires |keys| >= 2 && |block| == BLOCK_SIZE
    ensures |r| == BLOCK_SIZE
  {
    BytesOf(AesRounds(a).EquivalentInverse(keys, StateOf(block)))
  }

  /** Decrypting an encrypted block gives the block back. */
  lemma BlockDecrypts(a: Algebra, keys: seq<State>, block: seq<Byte>)
    requires a.Lawful() && |keys| >= 2 && |block| == BLOCK_SIZE
    ensures DecryptBlock(a, AesRounds(a).DecryptionKeys(keys), EncryptBlock(a, keys, block)) == block
  {
    AesRoundsAreLawful(a);
    AesRounds(a).DecryptUndoesEncrypt(keys, StateOf(block));
    BlockRoundTrip(block, AesRounds(a).Cipher(keys, StateOf(block)));
  }

  // ---------------------------------------------------------------- rounds on words

  method EncryptRound(a: Algebra, s0: Word, s1: Word, s2: Word, s3: Word, k0: Word, k1: Word, k2: Word, k3: Word)
    returns (t0: Word, t1: Word, t2: Word, t3: Word)
    ensures St(t0, t1, t2, t3) == AddState(MixColumns(a, SubShift(a, St(s0, s1, s2, s3))), St(k0, k1, k2, k3))
  {
    t0 := EncryptWord(a, s0, s1, s2, s3, k0);
    t1 := EncryptWord(a, s1, s2, s3, s0, k1);
    t2 := EncryptWord(a, s2, s3, s0, s1, k2);
    t3 := EncryptWord(a, s3, s0, s1, s2, k3);
  }

  method DecryptRound(a: Algebra, s0: Word, s1: Word, s2: Word, s3: Word, k0: Word, k1: Word, k2: Word, k3: Word)
    returns (t0: Word, t1: Word, t2: Word, t3: Word)
    ensures St(t0, t1, t2, t3) == AddState(InvMixColumns(a, InvSubShift(a, St(s0, s1, s2, s3))), St(k0, k1, k2, k3))
  {
    t0 := DecryptWord(a, s0, s3, s2, s1, k0);
    t1 := DecryptWord(a, s1, s0, s3, s2, k1);
    t2 := DecryptWord(a, s2, s1, s0, s3, k2);
    t3 := DecryptWord(a, s3, s2, s1, s0, k3);
  }

  method EncryptLastRound(a: Algebra, t0: Word, t1: Word, t2: Word, t3: Word, k0: Word, k1: Word, k2: Word, k3: Word)
    returns (s0: Word, s1: Word, s2: Word, s3: Word)
    ensures St(s0, s1, s2, s3) == AddState(SubShift(a, St(t0, t1, t2, t3)), St(k0, k1, k2, k3))
  {
    ghost var c := SubShift(a, St(t0, t1, t2, t3));
    s0 := LastWord(Te4(a, B0(t0)), Te4(a, B1(t1)), Te4(a, B2(t2)), Te4(a, B3(t3)), k0, c.c0);
    s1 := LastWord(Te4(a, B0(t1)), Te4(a, B1(t2)), Te4(a, B2(t3)), Te4(a, B3(t0)), k1, c.c1);
    s2 := LastWord(Te4(a, B0(t2)), Te4(a, B1(t3)), Te4(a, B2(t0)), Te4(a, B3(t1)), k2, c.c2);
    s3 := LastWord(Te4(a, B0(t3)), Te4(a, B1(t0)), Te4(a, B2(t1)), Te4(a, B3(t2)), k3, c.c3);
  }

  method DecryptLastRound(a: Algebra, t0: Word, t1: Word, t2: Word, t3: Word, k0: Word, k1: Word, k2: Word, k3: Word)
    returns (s0: Word, s1: Word, s2: Word, s3: Word)
    ensures St(s0, s1, s2, s3) == AddState(InvSubShift(a, St(t0, t1, t2, t3)), St(k0, k1, k2, k3))
  {
    ghost var c := InvSubShift(a, St(t0, t1, t2, t3));
    s0 := LastWord(Td4(a, B0(t0)), Td4(a, B1(t3)), Td4(a, B2(t2)), Td4(a, B3(t1)), k0, c.c0);
    s1 := LastWord(Td4(a, B0(t1)), Td4(a, B1(t0)), Td4(a, B2(t3)), Td4(a, B3(t2)), k1, c.c1);
    s2 := LastWord(Td4(a, B0(t2)), Td4(a, B1(t1)), Td4(a, B2(t0)), Td4(a, B3(t3)), k2, c.c2);
    s3 := LastWord(Td4(a, B0(t3)), Td4(a, B1(t2)), Td4(a, B2(t1)), Td4(a, B3(t0)), k3, c.c3);
  }

  /** A word from four bytes of an array. */
  method ReadWord(b: array<Byte>, i: nat) returns (w: Word)
    requires i + 4 <= b.Length
    ensures Col(w) == Column(b[i], b[i + 1], b[i + 2], b[i + 3])
  {
    GetU32Col(b[i], b[i + 1], b[i + 2], b[i + 3]);
    w := GetU32(b[i], b[i + 1], b[i + 2], b[i + 3]);
  }

  /** The state of a block in an array, plus the first round key. */
  method ReadBlock(b: array<Byte>, i: nat, k0: Word, k1: Word, k2: Word, k3: Word)
    returns (s0: Word, s1: Word, s2: Word, s3: Word)
    requires i + BLOCK_SIZE <= b.Length
    ensures St(s0, s1, s2, s3) == AddState(StateOf(b[i..i + BLOCK_SIZE]), St(k0, k1, k2, k3))
  {
    s0 := ReadWord(b, i);
    s0 := XorWord(s0, k0);
    s1 := ReadWord(b, i + 4);
    s1 := XorWord(s1, k1);
    s2 := ReadWord(b, i + 8);
    s2 := XorWord(s2, k2);
    s3 := ReadWord(b, i + 12);
    s3 := XorWord(s3, k3);
  }

  /** Only bytes `i` up to `j` of the array have changed since `before`. */
  ghost predicate OnlyChanged(before: seq<Byte>, after: seq<Byte>, i: nat, j: nat) {
    && |before| == |after|
    && forall n :: 0 <= n < |before| && !(i <= n < j) ==> after[n] == before[n]
  }

  /** PUTU32. */
  method WriteWord(b: array<Byte>, i: nat, w: Word)
    requires i + 4 <= b.Length
    modifies b
    ensures Column(b[i], b[i + 1], b[i + 2], b[i + 3]) == Col(w)
    ensures OnlyChanged(old(b[..]), b[..], i, i + 4)
  {
    b[i], b[i + 1], b[i + 2], b[i + 3] := B0(w), B1(w), B2(w), B3(w);
  }

  method WriteBlock(b: array<Byte>, i: nat, s0: Word, s1: Word, s2: Word, s3: Word)
    requires i + BLOCK_SIZE <= b.Length
    modifies b
    ensures b[i..i + BLOCK_SIZE] == BytesOf(St(s0, s1, s2, s3))
    ensures OnlyChanged(old(b[..]), b[..], i, i + BLOCK_SIZE)
  {
    ghost var v0 := b[..];
    WriteWord(b, i, s0);
    ghost var v1 := b[..];
    WriteWord(b, i + 4, s1);
    ghost var v2 := b[..];
    WriteWord(b, i + 8, s2);
    ghost var v3 := b[..];
    WriteWord(b, i + 12, s3);
    BlockFromWords(v1, v2, v3, b[..], i, St(s0, s1, s2, s3));
  }

  lemma BlockFromWords(v1: seq<Byte>, v2: seq<Byte>, v3: seq<Byte>, v4: seq<Byte>, i: nat, s: State)
    requires i + 16 <= |v1| && OnlyChanged(v1, v2, i + 4, i + 8)
    requires OnlyChanged(v2, v3, i + 8, i + 12) && OnlyChanged(v3, v4, i + 12, i + 16)
    requires Column(v1[i], v1[i + 1], v1[i + 2], v1[i + 3]) == s.c0
    requires Column(v2[i + 4], v2[i + 5], v2[i + 6], v2[i + 7]) == s.c1
    requires Column(v3[i + 8], v3[i + 9], v3[i + 10], v3[i + 11]) == s.c2
    requires Column(v4[i + 12], v4[i + 13], v4[i + 14], v4[i + 15]) == s.c3
    ensures v4[i..i + 16] == BytesOf(s)
  {
    assert StateOf(v4[i..i + 16]) == s;
    BlockRoundTrip(v4[i..i + 16], s);
  }

  // ---------------------------------------------------------------- states between rounds

  /** Names a round number, so that facts about single rounds are only used where they are asked for. */
  ghost predicate Round(r: nat) { true }

  /** f gives the state after each round of encryption. */
  ghost predicate IsEncryptTrace(a: Algebra, keys: seq<State>, block: State, f: nat -> State) {
    forall r: nat {:trigger Round(r)} :: Round(r) && r < |keys| ==> f(r) == AesRounds(a).After(keys, block, r)
  }

  lemma EncryptTrace(a: Algebra, keys: seq<State>, block: State) returns (f: nat -> State)
    ensures IsEncryptTrace(a, keys, block, f)
  {
    f := (r: nat) => if r < |keys| then AesRounds(a).After(keys, block, r) else block;
  }

  lemma EncryptTraceStarts(a: Algebra, keys: seq<State>, block: State, f: nat -> State, s: State)
    requires |keys| >= 2 && IsEncryptTrace(a, keys, block, f) && s == AddState(block, keys[0])
    ensures s == f(0)
  {
    assert Round(0);
  }

  lemma EncryptTraceSteps(a: Algebra, keys: seq<State>, block: State, f: nat -> State, r: nat, s: State, t: State)
    requires r + 1 < |keys| && IsEncryptTrace(a, keys, block, f)
    requires s == f(r) && t == AddState(MixColumns(a, SubShift(a, s)), keys[r + 1])
    ensures t == f(r + 1)
  {
    assert Round(r) && Round(r + 1);
  }

  lemma EncryptTraceEnds(a: Algebra, keys: seq<State>, block: State, f: nat -> State, t: State, s: State)
    requires |keys| >= 2 && IsEncryptTrace(a, keys, block, f)
    requires t == f(|keys| - 2) && s == AddState(SubShift(a, t), keys[|keys| - 1])
    ensures s == AesRounds(a).Cipher(keys, block)
  {
    assert Round(|keys| - 2);
  }

  /** f gives the state after each round of decryption. */
  ghost predicate IsDecryptTrace(a: Algebra, keys: seq<State>, block: State, f: nat -> State) {
    forall r: nat {:trigger Round(r)} :: Round(r) && r < |keys| ==> f(r) == AesRounds(a).AfterInverse(keys, block, r)
  }

  lemma DecryptTrace(a: Algebra, keys: seq<State>, block: State) returns (f: nat -> State)
    ensures IsDecryptTrace(a, keys, block, f)
  {
    f := (r: nat) => if r < |keys| then AesRounds(a).AfterInverse(keys, block, r) else block;
  }

  lemma DecryptTraceStarts(a: Algebra, keys: seq<State>, block: State, f: nat -> State, s: State)
    requires |keys| >= 2 && IsDecryptTrace(a, keys, block, f) && s == AddState(block, keys[0])
    ensures s == f(0)
  {
    assert Round(0);
  }

  lemma DecryptTraceSteps(a: Algebra, keys: seq<State>, block: State, f: nat -> State, r: nat, s: State, t: State)
    requires r + 1 < |keys| && IsDecryptTrace(a, keys, block, f)
    requires s == f(r) && t == AddState(InvMixColumns(a, InvSubShift(a, s)), keys[r + 1])
    ensures t == f(r + 1)
  {
    assert Round(r) && Round(r + 1);
  }

  lemma DecryptTraceEnds(a: Algebra, keys: seq<State>, block: State, f: nat -> State, t: State, s: State)
    requires |keys| >= 2 && IsDecryptTrace(a, keys, block, f)
    requires t == f(|keys| - 2) && s == AddState(InvSubShift(a, t), keys[|keys| - 1])
    ensures s == AesRounds(a).EquivalentInverse(keys, block)
  {
    assert Round(|keys| - 2);
  }

  // ---------------------------------------------------------------- keys

  /** The first n words are those of the key expansion of the standard. */
  ghost predicate Expanded(a: Algebra, w: seq<Word>, key: seq<Byte>, nk: nat, n: nat)
    requires nk >= 1 && |key| == 4 * nk
  {
    && n <= |w|
    && forall i :: 0 <= i < n ==> Col(w[i]) == ExpandedWord(a, key, nk, i)
  }

  lemma ExpandedKeys(a: Algebra, w: seq<Word>, key: seq<Byte>, nk: nat)
    requires nk >= 1 && |key| == 4 * nk && Expanded(a, w, key, nk, 4 * (nk + 7))
    ensures KeyStates(w, nk + 6) == KeyExpansion(a, key, nk)
  {
    forall r | 0 <= r < nk + 7
      ensures KeyStates(w, nk + 6)[r] == KeyExpansion(a, key, nk)[r]
    {
    }
  }

  /** The first p elements and the last p elements in reverse places, the others where they were. */
  function PartlyReversed<T>(s: seq<T>, p: nat): (r: seq<T>)
    ensures |r| == |s|
    ensures forall i :: 0 <= i < |s| ==> r[i] == if i < p || i > |s| - 1 - p then s[|s| - 1 - i] else s[i]
  {
    seq(|s|, i requires 0 <= i < |s| => if i < p || i > |s| - 1 - p then s[|s| - 1 - i] else s[i])
  }

  lemma SwapReversesMore<T>(s: seq<T>, p: nat, q: nat)
    requires p < q && p + q + 1 == |s|
    ensures var r := PartlyReversed(s, p); r[p := r[q]][q := r[p]] == PartlyReversed(s, p + 1)
  {
  }

  lemma FullyReversed<T>(s: seq<T>, p: nat)
    requires 2 * p + 1 >= |s|
    ensures PartlyReversed(s, p) == Reversed(s)
  {
  }

  /** The keys with numbers 1 to n - 1 inverse-mixed. */
  function InnerUnmixed(a: Algebra, keys: seq<State>, n: nat): (r: seq<State>)
    ensures |r| == |keys|
  {
    seq(|keys|, i requires 0 <= i < |keys| => if 1 <= i < n then InvMixColumns(a, keys[i]) else keys[i])
  }

  lemma UnmixedReversedKeys(a: Algebra, keys: seq<State>)
    requires |keys| >= 1
    ensures InnerUnmixed(a, Reversed(keys), |keys| - 1) == AesRounds(a).DecryptionKeys(keys)
  {
  }

  lemma KeyStatesUpdate(w: seq<Word>, v: seq<Word>, rounds: nat, r: nat)
    requires r <= rounds && |w| == |v| && 4 * rounds + 4 <= |w|
    requires forall n :: 0 <= n < |w| && !(4 * r <= n < 4 * r + 4) ==> v[n] == w[n]
    ensures KeyStates(v, rounds) == KeyStates(w, rounds)[r := KeyState(v, r)]
  {
    forall n | 0 <= n <= rounds && n != r
      ensures KeyState(v, n) == KeyState(w, n)
    {
      assert v[4 * n] == w[4 * n] && v[4 * n + 1] == w[4 * n + 1];
      assert v[4 * n + 2] == w[4 * n + 2] && v[4 * n + 3] == w[4 * n + 3];
    }
  }

  class AesKey {
    const rdKey: array<Word>
    var rounds: nat

    constructor ()
      ensures Shape() && fresh(rdKey)
    {
      rdKey := new Word[4 * (MAX_ROUNDS + 1)];
      rounds := 0;
    }

    ghost predicate Shape() {
      rdKey.Length == 4 * (MAX_ROUNDS + 1)
    }

    /** A schedule has been set up. */
    ghost predicate Ready()
      reads this
    {
      Shape() && rounds in {10, 12, 14}
    }

    ghost function Keys(): (keys: seq<State>)
      requires Ready()
      reads this, rdKey
      ensures |keys| == rounds + 1
    {
      KeyStates(rdKey[..], rounds)
    }

    method PutWord(ghost a: Algebra, ghost key: seq<Byte>, ghost nk: nat, n: nat, w: Word)
      requires Shape() && n < rdKey.Length
      requires nk >= 1 && |key| == 4 * nk && Expanded(a, rdKey[..], key, nk, n)
      requires Col(w) == ExpandedWord(a, key, nk, n)
      modifies rdKey
      ensures Expanded(a, rdKey[..], key, nk, n + 1)
    {
      rdKey[n] := w;
    }

    /** The words of the user key itself. */
    method LoadKey(ghost a: Algebra, userKey: array<Byte>, nk: nat)
      requires Shape() && 1 <= nk <= 8 && userKey.Length >= 4 * nk
      modifies rdKey
      ensures Expanded(a, rdKey[..], userKey[..4 * nk], nk, nk)
    {
      ghost var key := userKey[..4 * nk];
      for n := 0 to nk
        invariant userKey[..4 * nk] == key && Expanded(a, rdKey[..], key, nk, n)
      {
        var w := ReadWord(userKey, 4 * n);
        PutWord(a, key, nk, n, w);
      }
    }

    /** A word that is the sum of its predecessor and the word one key length back. */
    method PlainWord(ghost a: Algebra, ghost key: seq<Byte>, nk: nat, n: nat)
      requires Shape() && n < rdKey.Length && 1 <= nk <= n && n % nk != 0 && !(nk > 6 && n % nk == 4)
      requires |key| == 4 * nk && Expanded(a, rdKey[..], key, nk, n)
      modifies rdKey
      ensures Expanded(a, rdKey[..], key, nk, n + 1)
    {
      var w := XorWord(rdKey[n - nk], rdKey[n - 1]);
      PutWord(a, key, nk, n, w);
    }

    method RotatedWord(a: Algebra, ghost key: seq<Byte>, nk: nat, n: nat, i: nat)
      requires Shape() && n < rdKey.Length && 1 <= nk <= n && n % nk == 0 && n / nk == i + 1
      requires |key| == 4 * nk && Expanded(a, rdKey[..], key, nk, n)
      modifies rdKey
      ensures Expanded(a, rdKey[..], key, nk, n + 1)
    {
      var w := RotatedScheduleWord(a, rdKey[n - nk], rdKey[n - 1], i);
      PutWord(a, key, nk, n, w);
    }

    method SubstitutedWord(a: Algebra, ghost key: seq<Byte>, nk: nat, n: nat)
      requires Shape() && n < rdKey.Length && 6 < nk <= n && n % nk == 4
      requires |key| == 4 * nk && Expanded(a, rdKey[..], key, nk, n)
      modifies rdKey
      ensures Expanded(a, rdKey[..], key, nk, n + 1)
    {
      var w := SubstitutedScheduleWord(a, rdKey[n - nk], rdKey[n - 1]);
      PutWord(a, key, nk, n, w);
    }

    method Expand128(a: Algebra, ghost key: seq<Byte>)
      requires Shape() && |key| == 16 && Expanded(a, rdKey[..], key, 4, 4)
      modifies rdKey
      ensures Expanded(a, rdKey[..], key, 4, 44)
    {
      var rk, i := 0, 0;
      while true
        invariant 0 <= i < 10 && rk == 4 * i && Expanded(a, rdKey[..], key, 4, rk + 4)
        decreases 10 - i
      {
        RotatedWord(a, key, 4, rk + 4, i);
        PlainWord(a, key, 4, rk + 5);
        PlainWord(a, key, 4, rk + 6);
        PlainWord(a, key, 4, rk + 7);
        i := i + 1;
        if i == 10 {
          return;
        }
        rk := rk + 4;
      }
    }

    method Expand192(a: Algebra, ghost key: seq<Byte>)
      requires Shape() && |key| == 24 && Expanded(a, rdKey[..], key, 6, 6)
      modifies rdKey
      ensures Expanded(a, rdKey[..], key, 6, 52)
    {
      var rk, i := 0, 0;
      while true
        invariant 0 <= i < 8 && rk == 6 * i && Expanded(a, rdKey[..], key, 6, rk + 6)
        decreases 8 - i
      {
        RotatedWord(a, key, 6, rk + 6, i);
        PlainWord(a, key, 6, rk + 7);
        PlainWord(a, key, 6, rk + 8);
        PlainWord(a, key, 6, rk + 9);
        i := i + 1;
        if i == 8 {
          return;
        }
        PlainWord(a, key, 6, rk + 10);
        PlainWord(a, key, 6, rk + 11);
        rk := rk + 6;
      }
    }

    method Expand256(a: Algebra, ghost key: seq<Byte>)
      requires Shape() && |key| == 32 && Expanded(a, rdKey[..], key, 8, 8)
      modifies rdKey
      ensures Expanded(a, rdKey[..], key, 8, 60)
    {
      var rk, i := 0, 0;
      while true
        invariant 0 <= i < 7 && rk == 8 * i && Expanded(a, rdKey[..], key, 8, rk + 8)
        decreases 7 - i
      {
        RotatedWord(a, key, 8, rk + 8, i);
        PlainWord(a, key, 8, rk + 9);
        PlainWord(a, key, 8, rk + 10);
        PlainWord(a, key, 8, rk + 11);
        i := i + 1;
        if i == 7 {
          return;
        }
        SubstitutedWord(a, key, 8, rk + 12);
        PlainWord(a, key, 8, rk + 13);
        PlainWord(a, key, 8, rk + 14);
        PlainWord(a, key, 8, rk + 15);
        rk := rk + 8;
      }
    }

    /** The whole expansion of a key of `nk` words. */
    method Expand(a: Algebra, userKey: array<Byte>, nk: nat)
      requires Shape() && nk in {4, 6, 8} && userKey.Length >= 4 * nk
      modifies rdKey
      ensures Expanded(a, rdKey[..], userKey[..4 * nk], nk, 4 * (nk + 7))
    {
      LoadKey(a, userKey, nk);
      if nk == 4 {
        Expand128(a, userKey[..16]);
      } else if nk == 6 {
        Expand192(a, userKey[..24]);
      } else {
        Expand256(a, userKey[..32]);
      }
    }

    /** AES_set_encrypt_key: the schedule becomes the key expansion of the standard; a missing key or a
        wrong length is reported and changes nothing. */
    method SetEncryptKey(a: Algebra, userKey: array?<Byte>, bits: int) returns (status: int)
      requires Shape()
      requires userKey != null && bits in {128, 192, 256} ==> userKey.Length >= bits / 8
      modifies this, rdKey
      ensures status == if userKey == null then -1 else if bits in {128, 192, 256} then 0 else -2
      ensures status != 0 ==> rounds == old(rounds) && rdKey[..] == old(rdKey[..])
      ensures status == 0 ==> Ready() && rounds == bits / 32 + 6
                              && Keys() == KeyExpansion(a, userKey[..bits / 8], bits / 32)
    {
      if userKey == null {
        return -1;
      }
      if bits != 128 && bits != 192 && bits != 256 {
        return -2;
      }
      if bits == 128 {
        rounds := 10;
      } else if bits == 192 {
        rounds := 12;
      } else {
        rounds := 14;
      }
      var nk := bits / 32;
      Expand(a, userKey, nk);
      ExpandedKeys(a, rdKey[..], userKey[..4 * nk], nk);
      return 0;
    }

    /** Overwrites the four words of one round key. */
    method PutRoundKey(r: nat, w0: Word, w1: Word, w2: Word, w3: Word)
      requires Ready() && r <= rounds
      modifies rdKey
      ensures Keys() == old(Keys())[r := St(w0, w1, w2, w3)]
    {
      ghost var w := rdKey[..];
      rdKey[4 * r], rdKey[4 * r + 1], rdKey[4 * r + 2], rdKey[4 * r + 3] := w0, w1, w2, w3;
      KeyStatesUpdate(w, rdKey[..], rounds, r);
    }

    /** Exchanges the four words of two round keys. */
    method SwapRoundKeys(p: nat, q: nat)
      requires Ready() && p < q <= rounds
      modifies rdKey
      ensures Keys() == old(Keys())[p := old(Keys())[q]][q := old(Keys())[p]]
    {
      var i, j := 4 * p, 4 * q;
      var v0, v1, v2, v3 := rdKey[i], rdKey[i + 1], rdKey[i + 2], rdKey[i + 3];
      var w0, w1, w2, w3 := rdKey[j], rdKey[j + 1], rdKey[j + 2], rdKey[j + 3];
      assert Keys()[p] == St(v0, v1, v2, v3) && Keys()[q] == St(w0, w1, w2, w3);
      PutRoundKey(p, w0, w1, w2, w3);
      PutRoundKey(q, v0, v1, v2, v3);
    }

    /** Inverts the order of the round keys in place. */
    method ReverseRoundKeys()
      requires Ready()
      modifies rdKey
      ensures Keys() == Reversed(old(Keys()))
    {
      ghost var keys := Keys();
      var p, q := 0, rounds;
      assert Keys() == PartlyReversed(keys, p);
      while p < q
        invariant p + q == rounds && p <= q + 1
        invariant Keys() == PartlyReversed(keys, p)
      {
        SwapReversesMore(keys, p, q);
        SwapRoundKeys(p, q);
        p, q := p + 1, q - 1;
      }
      FullyReversed(keys, p);
    }

    /** Applies the inverse of MixColumns to one round key in place. */
    method InvMixRoundKey(a: Algebra, r: nat)
      requires a.Lawful() && Ready() && r <= rounds
      modifies rdKey
      ensures Keys() == old(Keys())[r := InvMixColumns(a, old(Keys())[r])]
    {
      var i := 4 * r;
      var w0 := InvMixWord(a, rdKey[i]);
      var w1 := InvMixWord(a, rdKey[i + 1]);
      var w2 := InvMixWord(a, rdKey[i + 2]);
      var w3 := InvMixWord(a, rdKey[i + 3]);
      assert St(w0, w1, w2, w3) == InvMixColumns(a, Keys()[r]);
      PutRoundKey(r, w0, w1, w2, w3);
    }

    /** The inverse of MixColumns on all round keys but the first and the last. */
    method InvMixRoundKeys(a: Algebra)
      requires a.Lawful() && Ready()
      modifies rdKey
      ensures Keys() == InnerUnmixed(a, old(Keys()), rounds)
    {
      ghost var keys := Keys();
      for i := 1 to rounds
        invariant Keys() == InnerUnmixed(a, keys, i)
      {
        InvMixRoundKey(a, i);
      }
    }

    /** AES_set_decrypt_key: the schedule becomes that of the equivalent inverse cipher. */
    method SetDecryptKey(a: Algebra, userKey: array?<Byte>, bits: int) returns (status: int)
      requires a.Lawful() && Shape()
      requires userKey != null && bits in {128, 192, 256} ==> userKey.Length >= bits / 8
      modifies this, rdKey
      ensures status == if userKey == null then -1 else if bits in {128, 192, 256} then 0 else -2
      ensures status != 0 ==> rounds == old(rounds) && rdKey[..] == old(rdKey[..])
      ensures status == 0 ==>
                && Ready() && rounds == bits / 32 + 6
                && Keys() == AesRounds(a).DecryptionKeys(KeyExpansion(a, userKey[..bits / 8], bits / 32))
    {
      status := SetEncryptKey(a, userKey, bits);
      if status < 0 {
        return;
      }
      ghost var keys := Keys();
      ReverseRoundKeys();
      InvMixRoundKeys(a);
      UnmixedReversedKeys(a, keys);
    }

    /** The block plus the first round key. */
    method EncryptStart(a: Algebra, ghost f: nat -> State, inp: array<Byte>, i: nat)
      returns (s0: Word, s1: Word, s2: Word, s3: Word)
      requires Ready() && i + BLOCK_SIZE <= inp.Length
      requires IsEncryptTrace(a, Keys(), StateOf(inp[i..i + BLOCK_SIZE]), f)
      ensures St(s0, s1, s2, s3) == f(0)
    {
      s0, s1, s2, s3 := ReadBlock(inp, i, rdKey[0], rdKey[1], rdKey[2], rdKey[3]);
      EncryptTraceStarts(a, Keys(), StateOf(inp[i..i + BLOCK_SIZE]), f, St(s0, s1, s2, s3));
    }

    /** Full round r + 1, with the key words from 4r + 4 on. */
    method EncryptStep(a: Algebra, ghost f: nat -> State, ghost block: State, r: nat, s0: Word, s1: Word, s2: Word,
                       s3: Word)
      returns (t0: Word, t1: Word, t2: Word, t3: Word)
      requires Ready() && r < rounds && IsEncryptTrace(a, Keys(), block, f) && St(s0, s1, s2, s3) == f(r)
      ensures St(t0, t1, t2, t3) == f(r + 1)
    {
      var rk := 4 * r + 4;
      t0, t1, t2, t3 := EncryptRound(a, s0, s1, s2, s3, rdKey[rk], rdKey[rk + 1], rdKey[rk + 2], rdKey[rk + 3]);
      EncryptTraceSteps(a, Keys(), block, f, r, St(s0, s1, s2, s3), St(t0, t1, t2, t3));
    }

    method EncryptFinish(a: Algebra, ghost f: nat -> State, ghost block: State, t0: Word, t1: Word, t2: Word, t3: Word)
      returns (s0: Word, s1: Word, s2: Word, s3: Word)
      requires Ready() && IsEncryptTrace(a, Keys(), block, f) && St(t0, t1, t2, t3) == f(rounds - 1)
      ensures St(s0, s1, s2, s3) == AesRounds(a).Cipher(Keys(), block)
    {
      var rk := 4 * rounds;
      s0, s1, s2, s3 := EncryptLastRound(a, t0, t1, t2, t3, rdKey[rk], rdKey[rk + 1], rdKey[rk + 2], rdKey[rk + 3]);
      EncryptTraceEnds(a, Keys(), block, f, St(t0, t1, t2, t3), St(s0, s1, s2, s3));
    }

    /** The rounds, two in each turn of the loop. */
    method EncryptWords(a: Algebra, inp: array<Byte>, i: nat) returns (s0: Word, s1: Word, s2: Word, s3: Word)
      requires Ready() && i + BLOCK_SIZE <= inp.Length
      ensures St(s0, s1, s2, s3) == AesRounds(a).Cipher(Keys(), StateOf(inp[i..i + BLOCK_SIZE]))
    {
      ghost var block := StateOf(inp[i..i + BLOCK_SIZE]);
      ghost var f := EncryptTrace(a, Keys(), block);
      s0, s1, s2, s3 := EncryptStart(a, f, inp, i);
      var t0, t1, t2, t3;
      var done, r := 0, rounds / 2;
      while true
        invariant 1 <= r <= rounds / 2 && done == 2 * (rounds / 2 - r)
        invariant St(s0, s1, s2, s3) == f(done)
        decreases r
      {
        t0, t1, t2, t3 := EncryptStep(a, f, block, done, s0, s1, s2, s3);
        r := r - 1;
        if r == 0 {
          break;
        }
        s0, s1, s2, s3 := EncryptStep(a, f, block, done + 1, t0, t1, t2, t3);
        done := done + 2;
      }
      s0, s1, s2, s3 := EncryptFinish(a, f, block, t0, t1, t2, t3);
    }

    /** AES_encrypt: the block at `out[o..]` becomes the encryption of the block at `inp[i..]`. The two
        arrays may be the same one and the blocks may overlap. */
    method Encrypt(a: Algebra, inp: array<Byte>, i: nat, out: array<Byte>, o: nat)
      requires Ready() && i + BLOCK_SIZE <= inp.Length && o + BLOCK_SIZE <= out.Length
      modifies out
      ensures out[o..o + BLOCK_SIZE] == EncryptBlock(a, Keys(), old(inp[i..i + BLOCK_SIZE]))
      ensures OnlyChanged(old(out[..]), out[..], o, o + BLOCK_SIZE)
    {
      var s0, s1, s2, s3 := EncryptWords(a, inp, i);
      WriteBlock(out, o, s0, s1, s2, s3);
    }

    /** The block plus the first round key. */
    method DecryptStart(a: Algebra, ghost f: nat -> State, inp: array<Byte>, i: nat)
      returns (s0: Word, s1: Word, s2: Word, s3: Word)
      requires Ready() && i + BLOCK_SIZE <= inp.Length
      requires IsDecryptTrace(a, Keys(), StateOf(inp[i..i + BLOCK_SIZE]), f)
      ensures St(s0, s1, s2, s3) == f(0)
    {
      s0, s1, s2, s3 := ReadBlock(inp, i, rdKey[0], rdKey[1], rdKey[2], rdKey[3]);
      DecryptTraceStarts(a, Keys(), StateOf(inp[i..i + BLOCK_SIZE]), f, St(s0, s1, s2, s3));
    }

    /** Full round r + 1, with the key words from 4r + 4 on. */
    method DecryptStep(a: Algebra, ghost f: nat -> State, ghost block: State, r: nat, s0: Word, s1: Word, s2: Word,
                       s3: Word)
      returns (t0: Word, t1: Word, t2: Word, t3: Word)
      requires Ready() && r < rounds && IsDecryptTrace(a, Keys(), block, f) && St(s0, s1, s2, s3) == f(r)
      ensures St(t0, t1, t2, t3) == f(r + 1)
    {
      var rk := 4 * r + 4;
      t0, t1, t2, t3 := DecryptRound(a, s0, s1, s2, s3, rdKey[rk], rdKey[rk + 1], rdKey[rk + 2], rdKey[rk + 3]);
      DecryptTraceSteps(a, Keys(), block, f, r, St(s0, s1, s2, s3), St(t0, t1, t2, t3));
    }

    method DecryptFinish(a: Algebra, ghost f: nat -> State, ghost block: State, t0: Word, t1: Word, t2: Word, t3: Word)
      returns (s0: Word, s1: Word, s2: Word, s3: Word)
      requires Ready() && IsDecryptTrace(a, Keys(), block, f) && St(t0, t1, t2, t3) == f(rounds - 1)
      ensures St(s0, s1, s2, s3) == AesRounds(a).EquivalentInverse(Keys(), block)
    {
      var rk := 4 * rounds;
      s0, s1, s2, s3 := DecryptLastRound(a, t0, t1, t2, t3, rdKey[rk], rdKey[rk + 1], rdKey[rk + 2], rdKey[rk + 3]);
      DecryptTraceEnds(a, Keys(), block, f, St(t0, t1, t2, t3), St(s0, s1, s2, s3));
    }

    /** The rounds, two in each turn of the loop. */
    method DecryptWords(a: Algebra, inp: array<Byte>, i: nat) returns (s0: Word, s1: Word, s2: Word, s3: Word)
      requires Ready() && i + BLOCK_SIZE <= inp.Length
      ensures St(s0, s1, s2, s3) == AesRounds(a).EquivalentInverse(Keys(), StateOf(inp[i..i + BLOCK_SIZE]))
    {
      ghost var block := StateOf(inp[i..i + BLOCK_SIZE]);
      ghost var f := DecryptTrace(a, Keys(), block);
      s0, s1, s2, s3 := DecryptStart(a, f, inp, i);
      var t0, t1, t2, t3;
      var done, r := 0, rounds / 2;
      while true
        invariant 1 <= r <= rounds / 2 && done == 2 * (rounds / 2 - r)
        invariant St(s0, s1, s2, s3) == f(done)
        decreases r
      {
        t0, t1, t2, t3 := DecryptStep(a, f, block, done, s0, s1, s2, s3);
        r := r - 1;
        if r == 0 {
          break;
        }
        s0, s1, s2, s3 := DecryptStep(a, f, block, done + 1, t0, t1, t2, t3);
        done := done + 2;
      }
      s0, s1, s2, s3 := DecryptFinish(a, f, block, t0, t1, t2, t3);
    }

    /** AES_decrypt: as AES_encrypt, with the equivalent inverse cipher. */
    method Decrypt(a: Algebra, inp: array<Byte>, i: nat, out: array<Byte>, o: nat)
      requires Ready() && i + BLOCK_SIZE <= inp.Length && o + BLOCK_SIZE <= out.Length
      modifies out
      ensures out[o..o + BLOCK_SIZE] == DecryptBlock(a, Keys(), old(inp[i..i + BLOCK_SIZE]))
      ensures OnlyChanged(old(out[..]), out[..], o, o + BLOCK_SIZE)
    {
      var s0, s1, s2, s3 := DecryptWords(a, inp, i);
      WriteBlock(out, o, s0, s1, s2, s3);
    }
  }
}
