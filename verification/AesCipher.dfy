/** AES on states of four columns: the steps of the cipher of section 5.1 of FIPS 197 and of its inverse,
    and the key expansion of section 5.2. */
module AesCipher {
  import opened AesField
  import opened RoundCipher
  import opened Basics

  datatype State = State(c0: Column, c1: Column, c2: Column, c3: Column)

  function AddState(s: State, k: State): State {
    State(Add(s.c0, k.c0), Add(s.c1, k.c1), Add(s.c2, k.c2), Add(s.c3, k.c3))
  }

  /** Row r moves r columns to the left. */
  function ShiftRows(s: State): State {
    State(Column(s.c0.b0, s.c1.b1, s.c2.b2, s.c3.b3),
          Column(s.c1.b0, s.c2.b1, s.c3.b2, s.c0.b3),
          Column(s.c2.b0, s.c3.b1, s.c0.b2, s.c1.b3),
          Column(s.c3.b0, s.c0.b1, s.c1.b2, s.c2.b3))
  }

  /** Row r moves r columns to the right. */
  function InvShiftRows(s: State): State {
    State(Column(s.c0.b0, s.c3.b1, s.c2.b2, s.c1.b3),
          Column(s.c1.b0, s.c0.b1, s.c3.b2, s.c2.b3),
          Column(s.c2.b0, s.c1.b1, s.c0.b2, s.c3.b3),
          Column(s.c3.b0, s.c2.b1, s.c1.b2, s.c0.b3))
  }

  function SubBytes(a: Algebra, s: State): State {
    State(a.SubColumn(s.c0), a.SubColumn(s.c1), a.SubColumn(s.c2), a.SubColumn(s.c3))
  }

  function InvSubBytes(a: Algebra, s: State): State {
    State(a.InvSubColumn(s.c0), a.InvSubColumn(s.c1), a.InvSubColumn(s.c2), a.InvSubColumn(s.c3))
  }

  function MixColumns(a: Algebra, s: State): State {
    State(a.MixColumn(s.c0), a.MixColumn(s.c1), a.MixColumn(s.c2), a.MixColumn(s.c3))
  }

  function InvMixColumns(a: Algebra, s: State): State {
    State(a.InvMixColumn(s.c0), a.InvMixColumn(s.c1), a.InvMixColumn(s.c2), a.InvMixColumn(s.c3))
  }

  function SubShift(a: Algebra, s: State): State { ShiftRows(SubBytes(a, s)) }

  function InvSubShift(a: Algebra, s: State): State { InvShiftRows(InvSubBytes(a, s)) }

  /** The rounds of AES. */
  function AesRounds(a: Algebra): Rounds<State> {
    Rounds((s, k) => AddState(s, k), s => SubShift(a, s), s => InvSubShift(a, s),
           s => MixColumns(a, s), s => InvMixColumns(a, s))
  }

  // ---------------------------------------------------------------- the laws of the rounds

  lemma AddStateCancels(s: State, k: State)
    ensures AddState(AddState(s, k), k) == s
  {
    AddCancels(s.c0, k.c0);
    AddCancels(s.c1, k.c1);
    AddCancels(s.c2, k.c2);
    AddCancels(s.c3, k.c3);
  }

  lemma InvSubShiftUndoes(a: Algebra, s: State)
    requires a.Lawful()
    ensures InvSubShift(a, SubShift(a, s)) == s
  {
    a.InvSubUndoesSub(s.c0);
    a.InvSubUndoesSub(s.c1);
    a.InvSubUndoesSub(s.c2);
    a.InvSubUndoesSub(s.c3);
  }

  lemma InvMixOfRoundColumn(a: Algebra, c: Column, k: Column)
    requires a.Lawful()
    ensures a.InvMixColumn(Add(a.MixColumn(c), k)) == Add(c, a.InvMixColumn(k))
  {
    a.InvMixColumnAdds(a.MixColumn(c), k);
    a.InvMixUndoesMix(c);
  }

  /** Inverse mixing of a mixed state plus a key is the state plus the inverse-mixed key. */
  lemma InvMixOfRound(a: Algebra, s: State, k: State)
    requires a.Lawful()
    ensures InvMixColumns(a, AddState(MixColumns(a, s), k)) == AddState(s, InvMixColumns(a, k))
  {
    InvMixOfRoundColumn(a, s.c0, k.c0);
    InvMixOfRoundColumn(a, s.c1, k.c1);
    InvMixOfRoundColumn(a, s.c2, k.c2);
    InvMixOfRoundColumn(a, s.c3, k.c3);
  }

  /** The rounds of AES obey the laws under which decryption undoes encryption. */
  lemma AesRoundsAreLawful(a: Algebra)
    requires a.Lawful()
    ensures AesRounds(a).Lawful()
  {
    forall s: State, k: State
      ensures AesRounds(a).add(AesRounds(a).add(s, k), k) == s
    {
      AddStateCancels(s, k);
    }
    forall s: State
      ensures AesRounds(a).unsub(AesRounds(a).sub(s)) == s
    {
      InvSubShiftUndoes(a, s);
    }
    forall s: State, k: State
      ensures AesRounds(a).unmix(AesRounds(a).add(AesRounds(a).mix(s), k)) == AesRounds(a).add(s, AesRounds(a).unmix(k))
    {
      InvMixOfRound(a, s, k);
    }
  }

  // ---------------------------------------------------------------- key expansion

  function RotWord(c: Column): Column { Column(c.b1, c.b2, c.b3, c.b0) }

  /** The first byte of round constant `i`, counted from 1: the powers of x. */
  function RconByte(i: nat): Byte {
    match i
    case 1 => 0x01 case 2 => 0x02 case 3 => 0x04 case 4 => 0x08 case 5 => 0x10
    case 6 => 0x20 case 7 => 0x40 case 8 => 0x80 case 9 => 0x1b case 10 => 0x36
    case _ => 0x00
  }

  function Rcon(i: nat): Column { Column(RconByte(i), 0, 0, 0) }

  function KeyWordOf(key: seq<Byte>, i: nat): Column
    requires 4 * i + 4 <= |key|
  {
    Column(key[4 * i], key[4 * i + 1], key[4 * i + 2], key[4 * i + 3])
  }

  /** Word `i` of the schedule of a key of `nk` words. */
  function ExpandedWord(a: Algebra, key: seq<Byte>, nk: nat, i: nat): Column
    requires nk >= 1 && |key| == 4 * nk
  {
    if i < nk then KeyWordOf(key, i)
    else
      var temp := ExpandedWord(a, key, nk, i - 1);
      var mixed :=
        if i % nk == 0 then Add(a.SubColumn(RotWord(temp)), Rcon(i / nk))
        else if nk > 6 && i % nk == 4 then a.SubColumn(temp)
        else temp;
      Add(ExpandedWord(a, key, nk, i - nk), mixed)
  }

  /** The round keys: four words each. */
  function RoundKey(a: Algebra, key: seq<Byte>, nk: nat, r: nat): State
    requires nk >= 1 && |key| == 4 * nk
  {
    State(ExpandedWord(a, key, nk, 4 * r), ExpandedWord(a, key, nk, 4 * r + 1),
          ExpandedWord(a, key, nk, 4 * r + 2), ExpandedWord(a, key, nk, 4 * r + 3))
  }

  function KeyExpansion(a: Algebra, key: seq<Byte>, nk: nat): (keys: seq<State>)
    requires nk >= 1 && |key| == 4 * nk
    ensures |keys| == nk + 7
  {
    seq(nk + 7, r requires 0 <= r => RoundKey(a, key, nk, r))
  }
}
