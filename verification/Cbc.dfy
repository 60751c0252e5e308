/** Cipher block chaining, section 6.2 of NIST SP 800-38A, over any block cipher, with the treatment of
    a partial last block that the program uses. */
module Cbc {
  import opened Basics

  /** A length rounded up to whole blocks. */
  function Padded(length: nat): nat {
    if length == 0 then 0
    else if length <= BLOCK_SIZE then BLOCK_SIZE
    else BLOCK_SIZE + Padded(length - BLOCK_SIZE)
  }

  /** The same in arithmetic. */
  lemma {:induction false} PaddedRoundsUp(length: nat)
    ensures length <= Padded(length) < length + BLOCK_SIZE && Padded(length) % BLOCK_SIZE == 0
  {
    if length > BLOCK_SIZE {
      PaddedRoundsUp(length - BLOCK_SIZE);
    }
  }

  /** A block cipher `e` with inverse `d`, and the masking of up to a block of data with a block. */
  datatype Mode<!B(!new)> = Mode(e: seq<B> -> seq<B>, d: seq<B> -> seq<B>, mask: (seq<B>, seq<B>) -> seq<B>) {

    /** Blocks stay blocks, and masked data is a block. */
    ghost predicate KeepsSize() {
      && (forall b :: |b| == BLOCK_SIZE ==> |e(b)| == BLOCK_SIZE)
      && (forall b :: |b| == BLOCK_SIZE ==> |d(b)| == BLOCK_SIZE)
      && (forall x, v :: |x| <= BLOCK_SIZE == |v| ==> |mask(x, v)| == BLOCK_SIZE)
    }

    ghost predicate Undone(b: seq<B>) { |b| == BLOCK_SIZE ==> d(e(b)) == b }

    ghost predicate MasksTwice(x: seq<B>, v: seq<B>) {
      |x| <= BLOCK_SIZE == |v| ==> x <= mask(mask(x, v), v)
    }

    /** Decryption of a block undoes its encryption, and masking twice gives the data back. */
    ghost predicate Lawful() {
      && KeepsSize()
      && (forall b :: Undone(b))
      && (forall x, v :: MasksTwice(x, v))
    }

    /** The ciphertext: one block for each block of data, and one for a partial last block. */
    ghost function Encrypt(iv: seq<B>, data: seq<B>): (r: seq<B>)
      requires KeepsSize() && |iv| == BLOCK_SIZE
      ensures |r| == Padded(|data|)
      decreases |data|
    {
      if |data| >= BLOCK_SIZE then
        var c := e(mask(data[..BLOCK_SIZE], iv));
        c + Encrypt(c, data[BLOCK_SIZE..])
      else if |data| > 0 then e(mask(data, iv))
      else []
    }

    /** The plaintext of the given length. */
    ghost function Decrypt(iv: seq<B>, cipher: seq<B>, length: nat): (r: seq<B>)
      requires KeepsSize() && |iv| == BLOCK_SIZE && |cipher| == Padded(length)
      ensures |r| == length
      decreases length
    {
      if length >= BLOCK_SIZE then
        var c := cipher[..BLOCK_SIZE];
        mask(d(c), iv) + Decrypt(c, cipher[BLOCK_SIZE..], length - BLOCK_SIZE)
      else if length > 0 then mask(d(cipher), iv)[..length]
      else []
    }

    /** The initialization vector for what follows `cipher`: its last block. */
    function NextIv(iv: seq<B>, cipher: seq<B>): seq<B> {
      if |cipher| >= BLOCK_SIZE then cipher[|cipher| - BLOCK_SIZE..] else iv
    }

    /** Section 6.2: a block of ciphertext is the encryption of the block of data, masked with the block of
        ciphertext before it, or with the vector if it is the first. */
    lemma {:induction false} ChainedBlock(iv: seq<B>, data: seq<B>, i: nat)
      requires KeepsSize() && |iv| == BLOCK_SIZE && i < |data| && i % BLOCK_SIZE == 0
      ensures i + BLOCK_SIZE <= |Encrypt(iv, data)|
      ensures var c := Encrypt(iv, data);
              var x := if i + BLOCK_SIZE <= |data| then data[i..i + BLOCK_SIZE] else data[i..];
              c[i..i + BLOCK_SIZE] == e(mask(x, if i == 0 then iv else c[i - BLOCK_SIZE..i]))
      decreases |data|
    {
      PaddedRoundsUp(|data|);
      if i > 0 {
        var first, rest := data[..BLOCK_SIZE], data[BLOCK_SIZE..];
        var c := e(mask(first, iv));
        ChainedBlock(c, rest, i - BLOCK_SIZE);
        LaterBlock(c, Encrypt(c, rest), i);
        assert i + BLOCK_SIZE <= |data| ==> data[i..i + BLOCK_SIZE] == rest[i - BLOCK_SIZE..i];
        assert data[i..] == rest[i - BLOCK_SIZE..];
      }
    }

    lemma LaterBlock(c: seq<B>, rest: seq<B>, i: nat)
      requires |c| == BLOCK_SIZE <= i && i <= |rest| && i % BLOCK_SIZE == 0
      ensures (c + rest)[i..i + BLOCK_SIZE] == rest[i - BLOCK_SIZE..i]
      ensures (c + rest)[i - BLOCK_SIZE..i] == if i == BLOCK_SIZE then c else rest[i - 2 * BLOCK_SIZE..i - BLOCK_SIZE]
    {
      var all := c + rest;
      assert forall k :: i <= k < i + BLOCK_SIZE ==> all[k] == rest[k - BLOCK_SIZE];
      assert i > BLOCK_SIZE ==> forall k :: i - BLOCK_SIZE <= k < i ==> all[k] == rest[k - BLOCK_SIZE];
    }

    lemma ConcatAssociates(x: seq<B>, y: seq<B>, z: seq<B>)
      ensures (x + y) + z == x + (y + z)
    {
    }

    lemma EncryptFirst(iv: seq<B>, x: seq<B>, data: seq<B>)
      requires KeepsSize() && |iv| == |x| == BLOCK_SIZE
      ensures Encrypt(iv, x + data) == e(mask(x, iv)) + Encrypt(e(mask(x, iv)), data)
    {
      assert (x + data)[..BLOCK_SIZE] == x && (x + data)[BLOCK_SIZE..] == data;
    }

    lemma DecryptFirst(iv: seq<B>, c: seq<B>, cipher: seq<B>, length: nat)
      requires KeepsSize() && |iv| == |c| == BLOCK_SIZE && |cipher| == Padded(length)
      ensures Decrypt(iv, c + cipher, length + BLOCK_SIZE) == mask(d(c), iv) + Decrypt(c, cipher, length)
    {
      assert (c + cipher)[..BLOCK_SIZE] == c && (c + cipher)[BLOCK_SIZE..] == cipher;
    }

    lemma Unmasks(iv: seq<B>, x: seq<B>)
      requires Lawful() && |x| <= BLOCK_SIZE == |iv|
      ensures var p := mask(d(e(mask(x, iv))), iv); |p| == BLOCK_SIZE && p[..|x|] == x
    {
      assert Undone(mask(x, iv)) && MasksTwice(x, iv);
    }

    /** Decryption undoes encryption for every length, also when the last block is partial. */
    lemma {:induction false} DecryptUndoesEncrypt(iv: seq<B>, data: seq<B>)
      requires Lawful() && |iv| == BLOCK_SIZE
      ensures Decrypt(iv, Encrypt(iv, data), |data|) == data
      decreases |data|
    {
      if |data| >= BLOCK_SIZE {
        var x, rest := data[..BLOCK_SIZE], data[BLOCK_SIZE..];
        assert data == x + rest;
        var c := e(mask(x, iv));
        EncryptFirst(iv, x, rest);
        DecryptFirst(iv, c, Encrypt(c, rest), |rest|);
        DecryptUndoesEncrypt(c, rest);
        Unmasks(iv, x);
      } else if |data| > 0 {
        Unmasks(iv, data);
      }
    }

    lemma NextIvFirst(iv: seq<B>, c: seq<B>, cipher: seq<B>)
      requires |c| == BLOCK_SIZE && (|cipher| == 0 || |cipher| >= BLOCK_SIZE)
      ensures NextIv(iv, c + cipher) == NextIv(c, cipher)
    {
    }

    /** Encrypting in one call or in two calls that carry the vector over gives the same ciphertext,
        when the first part is made of whole blocks. */
    lemma {:induction false} EncryptInParts(iv: seq<B>, x: seq<B>, y: seq<B>)
      requires KeepsSize() && |iv| == BLOCK_SIZE && Padded(|x|) == |x|
      ensures Encrypt(iv, x + y) == Encrypt(iv, x) + Encrypt(NextIv(iv, Encrypt(iv, x)), y)
      decreases |x|
    {
      if |x| == 0 {
        assert x + y == y;
      } else {
        var first, rest := x[..BLOCK_SIZE], x[BLOCK_SIZE..];
        assert x == first + rest && x + y == first + (rest + y);
        var c := e(mask(first, iv));
        EncryptFirst(iv, first, rest);
        EncryptFirst(iv, first, rest + y);
        EncryptInParts(c, rest, y);
        var head := Encrypt(c, rest);
        NextIvFirst(iv, c, head);
        ConcatAssociates(c, head, Encrypt(NextIv(c, head), y));
      }
    }

    /** The same for decryption. */
    lemma {:induction false} DecryptInParts(iv: seq<B>, x: seq<B>, y: seq<B>, length: nat)
      requires KeepsSize() && |iv| == BLOCK_SIZE && Padded(|x|) == |x| && |y| == Padded(length)
      ensures |x + y| == Padded(|x| + length) && |NextIv(iv, x)| == BLOCK_SIZE
      ensures Decrypt(iv, x + y, |x| + length) == Decrypt(iv, x, |x|) + Decrypt(NextIv(iv, x), y, length)
      decreases |x|
    {
      if |x| == 0 {
        assert x + y == y;
      } else {
        var first, rest := x[..BLOCK_SIZE], x[BLOCK_SIZE..];
        assert x == first + rest && x + y == first + (rest + y);
        DecryptInParts(first, rest, y, length);
        DecryptFirst(iv, first, rest, |rest|);
        DecryptFirst(iv, first, rest + y, |rest| + length);
        NextIvFirst(iv, first, rest);
        ConcatAssociates(mask(d(first), iv), Decrypt(first, rest, |rest|), Decrypt(NextIv(first, rest), y, length));
      }
    }
  }
}
