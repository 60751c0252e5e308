/** Encryption and decryption of the program together. */
module AesRoundTrip {
  import opened AesField
  import opened AesCipher
  import opened RoundCipher
  import opened Basics
  import opened Aes
  import opened AesCbc
  import AesStandard
  import Cbc

  /** A key set up for encryption and one set up for decryption from the same user key. */
  method SetUp(a: Algebra, userKey: array<Byte>, bits: int) returns (ek: AesKey, dk: AesKey)
    requires a.Lawful() && bits in {128, 192, 256} && userKey.Length >= bits / 8
    ensures fresh(ek) && fresh(ek.rdKey) && fresh(dk) && fresh(dk.rdKey)
    ensures ek.Ready() && dk.Ready() && dk.Keys() == AesRounds(a).DecryptionKeys(ek.Keys())
  {
    ek := new AesKey();
    var status := ek.SetEncryptKey(a, userKey, bits);
    dk := new AesKey();
    status := dk.SetDecryptKey(a, userKey, bits);
  }

  /** The mode of a pair of keys. */
  ghost method ModeOf(a: Algebra, ek: AesKey, dk: AesKey) returns (m: Cbc.Mode<Byte>)
    requires a.Lawful() && ek.Ready() && dk.Ready() && dk.Keys() == AesRounds(a).DecryptionKeys(ek.Keys())
    ensures m.Lawful() && KeyEncrypts(ek, m, a) && KeyDecrypts(dk, m, a)
  {
    m := AesMode(a, ek.Keys(), dk.Keys());
    AesModeRealised(a, ek.Keys(), dk.Keys());
    AesModeIsLawful(a, ek.Keys());
  }

  /** A buffer of at least the given bytes. */
  method Buffer(s: seq<Byte>, size: nat) returns (b: array<Byte>)
    requires |s| <= size
    ensures fresh(b) && b.Length == size && b[0..0 + |s|] == s
    ensures size == |s| ==> b[..] == s
  {
    b := new Byte[size](n requires 0 <= n => if n < |s| then s[n] else 0);
  }

  /** For every user key of 128, 192 or 256 bits and every block, decryption in place gives back what
      was encrypted in place. */
  method BlockThereAndBack(a: Algebra, userKey: array<Byte>, bits: int, block: seq<Byte>) returns (result: seq<Byte>)
    requires a.Lawful() && bits in {128, 192, 256} && userKey.Length >= bits / 8 && |block| == BLOCK_SIZE
    ensures result == block
  {
    var ek, dk := SetUp(a, userKey, bits);
    ghost var m := ModeOf(a, ek, dk);
    var buf := Buffer(block, BLOCK_SIZE);
    EncryptBy(a, ek, m, buf, 0, buf, 0);
    DecryptBy(a, dk, m, buf, 0, buf, 0);
    assert m.Undone(block);
    result := buf[0..0 + BLOCK_SIZE];
  }

  /** The same with the functions of the standard. */
  method StandardBlockThereAndBack(userKey: array<Byte>, bits: int, block: seq<Byte>) returns (result: seq<Byte>)
    requires bits in {128, 192, 256} && userKey.Length >= bits / 8 && |block| == BLOCK_SIZE
    ensures result == block
  {
    AesStandard.StandardIsLawful();
    result := BlockThereAndBack(AesStandard.AES, userKey, bits, block);
  }

  /** For every user key, every initialization vector and data of every length, chained decryption in
      place gives back what chained encryption in place was given. */
  method ChainThereAndBack(a: Algebra, userKey: array<Byte>, bits: int, iv: seq<Byte>, data: seq<Byte>)
    returns (result: seq<Byte>)
    requires a.Lawful() && bits in {128, 192, 256} && userKey.Length >= bits / 8 && |iv| == BLOCK_SIZE
    ensures result == data
  {
    var ek, dk := SetUp(a, userKey, bits);
    ghost var m := ModeOf(a, ek, dk);
    var cipher := EncryptInPlace(a, ek, m, iv, data);
    result := DecryptInPlace(a, dk, m, iv, cipher, |data|);
    m.DecryptUndoesEncrypt(iv, data);
  }

  /** The same for the S-boxes and the field of the standard. */
  method StandardChainThereAndBack(userKey: array<Byte>, bits: int, iv: seq<Byte>, data: seq<Byte>)
    returns (result: seq<Byte>)
    requires bits in {128, 192, 256} && userKey.Length >= bits / 8 && |iv| == BLOCK_SIZE
    ensures result == data
  {
    AesStandard.StandardIsLawful();
    result := ChainThereAndBack(AesStandard.AES, userKey, bits, iv, data);
  }

  method EncryptInPlace(a: Algebra, key: AesKey, ghost m: Cbc.Mode<Byte>, iv: seq<Byte>, data: seq<Byte>)
    returns (cipher: seq<Byte>)
    requires KeyEncrypts(key, m, a) && |iv| == BLOCK_SIZE
    ensures cipher == m.Encrypt(iv, data)
  {
    Cbc.PaddedRoundsUp(|data|);
    var buf := Buffer(data, Cbc.Padded(|data|));
    var ivec := Buffer(iv, BLOCK_SIZE);
    CbcEncrypt(a, key, m, buf, 0, buf, 0, |data|, ivec);
    cipher := buf[0..0 + Cbc.Padded(|data|)];
  }

  method DecryptInPlace(a: Algebra, key: AesKey, ghost m: Cbc.Mode<Byte>, iv: seq<Byte>, cipher: seq<Byte>, length: nat)
    returns (data: seq<Byte>)
    requires KeyDecrypts(key, m, a) && |iv| == BLOCK_SIZE && |cipher| == Cbc.Padded(length)
    ensures data == m.Decrypt(iv, cipher, length)
  {
    Cbc.PaddedRoundsUp(length);
    var buf := Buffer(cipher, |cipher|);
    var ivec := Buffer(iv, BLOCK_SIZE);
    CbcDecrypt(a, key, m, buf, 0, buf, 0, length, ivec);
    data := buf[0..0 + length];
  }
}
