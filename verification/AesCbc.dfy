/** AES_cbc_encrypt: cipher block chaining with AES, in place or between two arrays. */
module AesCbc {
  import opened AesField
  import opened AesCipher
  import opened RoundCipher
  import opened Basics
  import opened Aes
  import Cbc

  /** Byte n is x[n] plus v[n]; bytes that x does not have count as zero. */
  function Mask(x: seq<Byte>, v: seq<Byte>): (r: seq<Byte>)
    ensures |r| == |v|
  {
    seq(|v|, n requires 0 <= n < |v| => if n < |x| then Xor(x[n], v[n]) else v[n])
  }

  /** Masking is exclusive or with the vector, byte by byte, and a byte that is not there counts as zero. */
  lemma MaskIsXor(x: seq<Byte>, v: seq<Byte>, n: nat)
    requires |x| <= |v| && n < |v|
    ensures Mask(x, v)[n] == (if n < |x| then x[n] else 0) ^ v[n]
  {
  }

  /** AES as a block cipher for chaining, with one schedule to encrypt and one to decrypt. */
  function AesMode(a: Algebra, ek: seq<State>, dk: seq<State>): (m: Cbc.Mode<Byte>)
    requires |ek| >= 2 && |dk| >= 2
  {
    Cbc.Mode(b => if |b| == BLOCK_SIZE then EncryptBlock(a, ek, b) else b,
             b => if |b| == BLOCK_SIZE then DecryptBlock(a, dk, b) else b,
             (x, v) => Mask(x, v))
  }

  lemma MaskTwice(x: seq<Byte>, v: seq<Byte>)
    requires |x| <= |v|
    ensures x <= Mask(Mask(x, v), v)
  {
    forall n | 0 <= n < |x|
      ensures Xor(Xor(x[n], v[n]), v[n]) == x[n]
    {
      XorCancels(x[n], v[n]);
    }
  }

  /** With a schedule and the decryption schedule that belongs to it, AES can be chained. */
  lemma AesModeIsLawful(a: Algebra, keys: seq<State>)
    requires a.Lawful() && |keys| >= 2
    ensures AesMode(a, keys, AesRounds(a).DecryptionKeys(keys)).Lawful()
  {
    var m := AesMode(a, keys, AesRounds(a).DecryptionKeys(keys));
    forall b: seq<Byte>
      ensures m.Undone(b)
    {
      if |b| == BLOCK_SIZE {
        BlockDecrypts(a, keys, b);
      }
    }
    forall x, v
      ensures m.MasksTwice(x, v)
    {
      if |x| <= |v| {
        MaskTwice(x, v);
      }
    }
  }

  /** memcpy between arrays, or forth and back inside one. */
  method Copy(dst: array<Byte>, d: nat, src: array<Byte>, s: nat, n: nat)
    requires d + n <= dst.Length && s + n <= src.Length && (dst == src ==> d == s)
    modifies dst
    ensures dst[d..d + n] == old(src[s..s + n])
    ensures OnlyChanged(old(dst[..]), dst[..], d, d + n)
  {
    for k := 0 to n
      invariant dst[d..d + k] == old(src[s..s + k])
      invariant forall j :: 0 <= j < dst.Length && !(d <= j < d + k) ==> dst[j] == old(dst[j])
    {
      dst[d + k] := src[s + k];
    }
  }

  /** The first `n` bytes plus the vector, and then the rest of the vector. */
  method MaskInto(tmp: array<Byte>, inp: array<Byte>, i: nat, n: nat, ivec: array<Byte>)
    requires n <= BLOCK_SIZE == tmp.Length == ivec.Length && i + n <= inp.Length
    requires tmp != inp && tmp != ivec
    modifies tmp
    ensures tmp[..] == Mask(inp[i..i + n], ivec[..])
  {
    for k := 0 to n
      invariant forall j :: 0 <= j < k ==> tmp[j] == Xor(inp[i + j], ivec[j])
    {
      tmp[k] := Xor(inp[i + k], ivec[k]);
    }
    for k := n to BLOCK_SIZE
      invariant forall j :: 0 <= j < n ==> tmp[j] == Xor(inp[i + j], ivec[j])
      invariant forall j :: n <= j < k ==> tmp[j] == ivec[j]
    {
      tmp[k] := ivec[k];
    }
  }

  // ---------------------------------------------------------------- the mode that a key realises

  /** Names a block or a masking, so that what a mode does to it is only looked up where it is needed. */
  ghost predicate Looked<T>(x: T) { true }

  /** The mode masks with bytewise addition and encrypts with AES under these keys. */
  ghost predicate Encrypts(m: Cbc.Mode<Byte>, a: Algebra, keys: seq<State>)
    requires |keys| >= 2
  {
    && m.KeepsSize()
    && (forall b {:trigger Looked(b)} :: Looked(b) && |b| == BLOCK_SIZE ==> m.e(b) == EncryptBlock(a, keys, b))
    && (forall x, v {:trigger Looked((x, v))} :: Looked((x, v)) ==> m.mask(x, v) == Mask(x, v))
  }

  /** The mode masks with bytewise addition and decrypts with AES under these keys. */
  ghost predicate Decrypts(m: Cbc.Mode<Byte>, a: Algebra, keys: seq<State>)
    requires |keys| >= 2
  {
    && m.KeepsSize()
    && (forall b {:trigger Looked(b)} :: Looked(b) && |b| == BLOCK_SIZE ==> m.d(b) == DecryptBlock(a, keys, b))
    && (forall x, v {:trigger Looked((x, v))} :: Looked((x, v)) ==> m.mask(x, v) == Mask(x, v))
  }

  ghost predicate KeyEncrypts(key: AesKey, m: Cbc.Mode<Byte>, a: Algebra)
    reads key, key.rdKey
  {
    key.Ready() && Encrypts(m, a, key.Keys())
  }

  ghost predicate KeyDecrypts(key: AesKey, m: Cbc.Mode<Byte>, a: Algebra)
    reads key, key.rdKey
  {
    key.Ready() && Decrypts(m, a, key.Keys())
  }

  lemma AesModeRealised(a: Algebra, ek: seq<State>, dk: seq<State>)
    requires |ek| >= 2 && |dk| >= 2
    ensures Encrypts(AesMode(a, ek, dk), a, ek) && Decrypts(AesMode(a, ek, dk), a, dk)
  {
  }

  method EncryptBy(a: Algebra, key: AesKey, ghost m: Cbc.Mode<Byte>, inp: array<Byte>, i: nat, out: array<Byte>, o: nat)
    requires i + BLOCK_SIZE <= inp.Length && o + BLOCK_SIZE <= out.Length
    requires KeyEncrypts(key, m, a)
    modifies out
    ensures out[o..o + BLOCK_SIZE] == m.e(old(inp[i..i + BLOCK_SIZE]))
    ensures OnlyChanged(old(out[..]), out[..], o, o + BLOCK_SIZE)
  {
    assert Looked(inp[i..i + BLOCK_SIZE]);
    key.Encrypt(a, inp, i, out, o);
  }

  method MaskBy(a: Algebra, ghost keys: seq<State>, ghost m: Cbc.Mode<Byte>, tmp: array<Byte>, inp: array<Byte>, i: nat,
                n: nat, ivec: array<Byte>)
    requires n <= BLOCK_SIZE == tmp.Length == ivec.Length && i + n <= inp.Length
    requires tmp != inp && tmp != ivec
    requires |keys| >= 2 && (Encrypts(m, a, keys) || Decrypts(m, a, keys))
    modifies tmp
    ensures tmp[..] == tmp[0..BLOCK_SIZE] == m.mask(inp[i..i + n], ivec[..])
  {
    assert Looked((inp[i..i + n], ivec[..]));
    MaskInto(tmp, inp, i, n, ivec);
  }

  /** One turn of the encryption loop: a whole block, written and kept as the next vector. */
  method EncryptWhole(a: Algebra, key: AesKey, ghost m: Cbc.Mode<Byte>, inp: array<Byte>, i: nat, out: array<Byte>,
                      o: nat, ivec: array<Byte>)
    requires i + BLOCK_SIZE <= inp.Length && o + BLOCK_SIZE <= out.Length
    requires ivec.Length == BLOCK_SIZE && ivec != inp && ivec != out
    requires KeyEncrypts(key, m, a)
    modifies out, ivec
    ensures ivec[..] == m.e(m.mask(old(inp[i..i + BLOCK_SIZE]), old(ivec[..])))
    ensures out[o..o + BLOCK_SIZE] == ivec[..]
    ensures OnlyChanged(old(out[..]), out[..], o, o + BLOCK_SIZE)
  {
    var tmp := new Byte[BLOCK_SIZE];
    MaskBy(a, key.Keys(), m, tmp, inp, i, BLOCK_SIZE, ivec);
    EncryptBy(a, key, m, tmp, 0, out, o);
    Copy(ivec, 0, out, o, BLOCK_SIZE);
    assert ivec[0..BLOCK_SIZE] == ivec[..];
  }

  /** The partial last block: encrypted in the temporary block, then copied out. */
  method EncryptPartial(a: Algebra, key: AesKey, ghost m: Cbc.Mode<Byte>, inp: array<Byte>, i: nat, n: nat,
                        out: array<Byte>, o: nat, ivec: array<Byte>)
    requires n <= BLOCK_SIZE && i + n <= inp.Length && o + BLOCK_SIZE <= out.Length
    requires ivec.Length == BLOCK_SIZE && ivec != inp && ivec != out
    requires KeyEncrypts(key, m, a)
    modifies out, ivec
    ensures ivec[..] == m.e(m.mask(old(inp[i..i + n]), old(ivec[..])))
    ensures out[o..o + BLOCK_SIZE] == ivec[..]
    ensures OnlyChanged(old(out[..]), out[..], o, o + BLOCK_SIZE)
  {
    var tmp := new Byte[BLOCK_SIZE];
    MaskBy(a, key.Keys(), m, tmp, inp, i, n, ivec);
    EncryptBy(a, key, m, tmp, 0, tmp, 0);
    Copy(out, o, tmp, 0, BLOCK_SIZE);
    Copy(ivec, 0, tmp, 0, BLOCK_SIZE);
    assert ivec[0..BLOCK_SIZE] == ivec[..];
  }

  /** What the encryption loop keeps: the ciphertext so far and the ciphertext of the rest, under the
      current vector, make up the whole ciphertext. */
  ghost predicate Encrypting(m: Cbc.Mode<Byte>, iv0: seq<Byte>, total: seq<Byte>, length: nat, o: nat,
                             before: seq<Byte>, now: seq<Byte>, done: nat, iv: seq<Byte>, rest: seq<Byte>)
  {
    && m.KeepsSize() && |iv0| == |iv| == BLOCK_SIZE
    && done + |rest| == length && o + done <= |now|
    && OnlyChanged(before, now, o, o + done)
    && (forall all {:trigger Opened(all)} :: Opened(all) && all == total ==>
          && Cbc.Padded(length) == done + Cbc.Padded(|rest|)
          && o + Cbc.Padded(length) <= |now|
          && all == now[o..o + done] + m.Encrypt(iv, rest)
          && iv == m.NextIv(iv0, now[o..o + done]))
  }

  /** Names a whole result, so that how it is made up is only looked up where it is needed. */
  ghost predicate Opened(all: seq<Byte>) { true }

  lemma EncryptingStarts(m: Cbc.Mode<Byte>, iv0: seq<Byte>, total: seq<Byte>, length: nat, o: nat, now: seq<Byte>,
                         data: seq<Byte>)
    requires m.KeepsSize() && |iv0| == BLOCK_SIZE && o + Cbc.Padded(length) <= |now|
    requires length == |data| && total == m.Encrypt(iv0, data)
    ensures Encrypting(m, iv0, total, length, o, now, now, 0, iv0, data)
  {
    assert now[o..o + 0] + total == total;
  }

  lemma EncryptingWhole(m: Cbc.Mode<Byte>, iv0: seq<Byte>, total: seq<Byte>, length: nat, o: nat, before: seq<Byte>,
                        now: seq<Byte>, done: nat, iv: seq<Byte>, rest: seq<Byte>, now': seq<Byte>, c: seq<Byte>)
    requires Encrypting(m, iv0, total, length, o, before, now, done, iv, rest)
    requires |rest| >= BLOCK_SIZE && c == m.e(m.mask(rest[..BLOCK_SIZE], iv))
    requires |now'| == |now| && o + done + BLOCK_SIZE <= |now| && now'[o + done..o + done + BLOCK_SIZE] == c
    requires OnlyChanged(now, now', o + done, o + done + BLOCK_SIZE)
    ensures Encrypting(m, iv0, total, length, o, before, now', done + BLOCK_SIZE, c, rest[BLOCK_SIZE..])
  {
    assert Opened(total);
    var x, later, sofar := rest[..BLOCK_SIZE], rest[BLOCK_SIZE..], now[o..o + done];
    assert rest == x + later;
    m.EncryptFirst(iv, x, later);
    m.ConcatAssociates(sofar, c, m.Encrypt(c, later));
    assert now'[o..o + done + BLOCK_SIZE] == sofar + c;
    assert (sofar + c)[|sofar + c| - BLOCK_SIZE..] == c;
  }

  lemma EncryptingLast(m: Cbc.Mode<Byte>, iv0: seq<Byte>, total: seq<Byte>, length: nat, o: nat, before: seq<Byte>,
                       now: seq<Byte>, done: nat, iv: seq<Byte>, rest: seq<Byte>, now': seq<Byte>, c: seq<Byte>)
    requires Encrypting(m, iv0, total, length, o, before, now, done, iv, rest)
    requires 0 < |rest| < BLOCK_SIZE && c == m.e(m.mask(rest, iv))
    requires |now'| == |now| && o + done + BLOCK_SIZE <= |now| && now'[o + done..o + done + BLOCK_SIZE] == c
    requires OnlyChanged(now, now', o + done, o + done + BLOCK_SIZE)
    ensures Cbc.Padded(length) == done + BLOCK_SIZE
    ensures total == now'[o..o + done + BLOCK_SIZE]
    ensures OnlyChanged(before, now', o, o + done + BLOCK_SIZE)
    ensures c == m.NextIv(iv0, now'[o..o + done + BLOCK_SIZE])
  {
    assert Opened(total);
    var sofar := now[o..o + done];
    assert now'[o..o + done + BLOCK_SIZE] == sofar + c;
    assert (sofar + c)[|sofar + c| - BLOCK_SIZE..] == c;
  }

  /** A block of data that is left has room for its ciphertext. */
  lemma EncryptingRoom(m: Cbc.Mode<Byte>, iv0: seq<Byte>, total: seq<Byte>, length: nat, o: nat, before: seq<Byte>,
                       now: seq<Byte>, done: nat, iv: seq<Byte>, rest: seq<Byte>)
    requires Encrypting(m, iv0, total, length, o, before, now, done, iv, rest)
    ensures |rest| > 0 ==> o + done + BLOCK_SIZE <= |now|
    ensures o + Cbc.Padded(length) <= |now|
  {
    assert Opened(total);
  }

  lemma EncryptingDone(m: Cbc.Mode<Byte>, iv0: seq<Byte>, total: seq<Byte>, length: nat, o: nat, before: seq<Byte>,
                       now: seq<Byte>, done: nat, iv: seq<Byte>, rest: seq<Byte>)
    requires Encrypting(m, iv0, total, length, o, before, now, done, iv, rest) && rest == []
    ensures Cbc.Padded(length) == done
    ensures total == now[o..o + done] && iv == m.NextIv(iv0, now[o..o + done])
  {
    assert Opened(total);
  }

  method EncryptNext(a: Algebra, key: AesKey, ghost m: Cbc.Mode<Byte>, inp: array<Byte>, i: nat, out: array<Byte>,
                     o: nat, length: nat, ivec: array<Byte>, done: nat, ghost iv0: seq<Byte>, ghost total: seq<Byte>,
                     ghost before: seq<Byte>)
    requires i + length <= inp.Length && length - done >= BLOCK_SIZE
    requires ivec.Length == BLOCK_SIZE && ivec != inp && ivec != out && (inp == out ==> i == o)
    requires KeyEncrypts(key, m, a)
    requires Encrypting(m, iv0, total, length, o, before, out[..], done, ivec[..], inp[i + done..i + length])
    modifies out, ivec
    ensures Encrypting(m, iv0, total, length, o, before, out[..], done + BLOCK_SIZE, ivec[..],
                       inp[i + (done + BLOCK_SIZE)..i + length])
    ensures KeyEncrypts(key, m, a)
  {
    ghost var iv, now, rest := ivec[..], out[..], inp[i + done..i + length];
    assert rest[..BLOCK_SIZE] == inp[i + done..i + done + BLOCK_SIZE];
    EncryptingRoom(m, iv0, total, length, o, before, now, done, iv, rest);
    EncryptWhole(a, key, m, inp, i + done, out, o + done, ivec);
    assert inp[i + done + BLOCK_SIZE..i + length] == rest[BLOCK_SIZE..];
    EncryptingWhole(m, iv0, total, length, o, before, now, done, iv, rest, out[..], ivec[..]);
  }

  method EncryptEnd(a: Algebra, key: AesKey, ghost m: Cbc.Mode<Byte>, inp: array<Byte>, i: nat, out: array<Byte>,
                    o: nat, length: nat, ivec: array<Byte>, done: nat, ghost iv0: seq<Byte>, ghost total: seq<Byte>,
                    ghost before: seq<Byte>)
    requires i + length <= inp.Length && 0 <= length - done < BLOCK_SIZE
    requires ivec.Length == BLOCK_SIZE && ivec != inp && ivec != out
    requires KeyEncrypts(key, m, a)
    requires Encrypting(m, iv0, total, length, o, before, out[..], done, ivec[..], inp[i + done..i + length])
    modifies out, ivec
    ensures o + Cbc.Padded(length) <= out.Length && out[..][o..o + Cbc.Padded(length)] == total
    ensures OnlyChanged(before, out[..], o, o + Cbc.Padded(length))
    ensures ivec[..] == m.NextIv(iv0, out[..][o..o + Cbc.Padded(length)])
  {
    ghost var iv, now, rest := ivec[..], out[..], inp[i + done..i + length];
    EncryptingRoom(m, iv0, total, length, o, before, now, done, iv, rest);
    if length - done > 0 {
      EncryptPartial(a, key, m, inp, i + done, length - done, out, o + done, ivec);
      assert out[o + done..o + done + BLOCK_SIZE] == out[..][o + done..o + done + BLOCK_SIZE];
      EncryptingLast(m, iv0, total, length, o, before, now, done, iv, rest, out[..], ivec[..]);
    } else {
      EncryptingDone(m, iv0, total, length, o, before, now, done, iv, rest);
    }
  }

  /** Encryption: `out` gets the chained ciphertext of the `length` bytes of `inp`, padded to a whole
      block, and the vector is left at its last block. In place when the arrays are the same. */
  method CbcEncrypt(a: Algebra, key: AesKey, ghost m: Cbc.Mode<Byte>, inp: array<Byte>, i: nat, out: array<Byte>,
                    o: nat, length: nat, ivec: array<Byte>)
    requires i + length <= inp.Length && o + Cbc.Padded(length) <= out.Length
    requires ivec.Length == BLOCK_SIZE && ivec != inp && ivec != out && (inp == out ==> i == o)
    requires KeyEncrypts(key, m, a)
    modifies out, ivec
    ensures out[o..o + Cbc.Padded(length)] == m.Encrypt(old(ivec[..]), old(inp[i..i + length]))
    ensures OnlyChanged(old(out[..]), out[..], o, o + Cbc.Padded(length))
    ensures ivec[..] == m.NextIv(old(ivec[..]), out[o..o + Cbc.Padded(length)])
  {
    ghost var iv0, data, before := ivec[..], inp[i..i + length], out[..];
    ghost var total := m.Encrypt(iv0, data);
    EncryptingStarts(m, iv0, total, length, o, before, data);
    EncryptAll(a, key, m, inp, i, out, o, length, ivec, iv0, total, before);
    assert out[o..o + Cbc.Padded(length)] == out[..][o..o + Cbc.Padded(length)];
  }

  method EncryptAll(a: Algebra, key: AesKey, ghost m: Cbc.Mode<Byte>, inp: array<Byte>, i: nat, out: array<Byte>,
                    o: nat, length: nat, ivec: array<Byte>, ghost iv0: seq<Byte>, ghost total: seq<Byte>,
                    ghost before: seq<Byte>)
    requires i + length <= inp.Length
    requires ivec.Length == BLOCK_SIZE && ivec != inp && ivec != out && (inp == out ==> i == o)
    requires KeyEncrypts(key, m, a)
    requires Encrypting(m, iv0, total, length, o, before, out[..], 0, ivec[..], inp[i..i + length])
    modifies out, ivec
    ensures o + Cbc.Padded(length) <= out.Length && out[..][o..o + Cbc.Padded(length)] == total
    ensures OnlyChanged(before, out[..], o, o + Cbc.Padded(length))
    ensures ivec[..] == m.NextIv(iv0, out[..][o..o + Cbc.Padded(length)])
  {
    var done := 0;
    while length - done >= BLOCK_SIZE
      invariant done <= length && KeyEncrypts(key, m, a)
      invariant Encrypting(m, iv0, total, length, o, before, out[..], done, ivec[..], inp[i + done..i + length])
    {
      EncryptNext(a, key, m, inp, i, out, o, length, ivec, done, iv0, total, before);
      done := done + BLOCK_SIZE;
    }
    EncryptEnd(a, key, m, inp, i, out, o, length, ivec, done, iv0, total, before);
  }

  // ---------------------------------------------------------------- decryption

  method DecryptBy(a: Algebra, key: AesKey, ghost m: Cbc.Mode<Byte>, inp: array<Byte>, i: nat, out: array<Byte>, o: nat)
    requires i + BLOCK_SIZE <= inp.Length && o + BLOCK_SIZE <= out.Length
    requires KeyDecrypts(key, m, a)
    modifies out
    ensures out[o..o + BLOCK_SIZE] == m.d(old(inp[i..i + BLOCK_SIZE]))
    ensures OnlyChanged(old(out[..]), out[..], o, o + BLOCK_SIZE)
  {
    assert Looked(inp[i..i + BLOCK_SIZE]);
    key.Decrypt(a, inp, i, out, o);
  }

  /** The first `n` bytes of a decrypted block plus the vector; the block may be the output itself. */
  method UnmaskInto(a: Algebra, ghost keys: seq<State>, ghost m: Cbc.Mode<Byte>, out: array<Byte>, o: nat,
                    block: array<Byte>, b: nat, n: nat, ivec: array<Byte>)
    requires n <= BLOCK_SIZE == ivec.Length && o + n <= out.Length && b + BLOCK_SIZE <= block.Length
    requires out != ivec && (out == block ==> o == b)
    requires |keys| >= 2 && Decrypts(m, a, keys)
    modifies out
    ensures |m.mask(old(block[b..b + BLOCK_SIZE]), ivec[..])| == BLOCK_SIZE
    ensures out[o..o + n] == m.mask(old(block[b..b + BLOCK_SIZE]), ivec[..])[..n]
    ensures OnlyChanged(old(out[..]), out[..], o, o + n)
  {
    ghost var x := block[b..b + BLOCK_SIZE];
    assert Looked((x, ivec[..]));
    for k := 0 to n
      invariant forall j :: 0 <= j < block.Length && !(out == block && o <= j < o + k) ==> block[j] == old(block[j])
      invariant out[o..o + k] == Mask(x, ivec[..])[..k]
      invariant OnlyChanged(old(out[..]), out[..], o, o + k)
    {
      assert block[b + k] == x[k];
      out[o + k] := Xor(block[b + k], ivec[k]);
    }
  }

  /** One turn of the decryption loop; the ciphertext block is saved first, since decryption may be in
      place, and becomes the next vector. */
  method DecryptWhole(a: Algebra, key: AesKey, ghost m: Cbc.Mode<Byte>, inp: array<Byte>, i: nat, out: array<Byte>,
                      o: nat, ivec: array<Byte>)
    requires i + BLOCK_SIZE <= inp.Length && o + BLOCK_SIZE <= out.Length
    requires ivec.Length == BLOCK_SIZE && ivec != inp && ivec != out
    requires KeyDecrypts(key, m, a)
    modifies out, ivec
    ensures ivec[..] == old(inp[i..i + BLOCK_SIZE])
    ensures out[o..o + BLOCK_SIZE] == m.mask(m.d(old(inp[i..i + BLOCK_SIZE])), old(ivec[..]))
    ensures OnlyChanged(old(out[..]), out[..], o, o + BLOCK_SIZE)
  {
    ghost var c := inp[i..i + BLOCK_SIZE];
    var tmp := new Byte[BLOCK_SIZE];
    Copy(tmp, 0, inp, i, BLOCK_SIZE);
    DecryptBy(a, key, m, inp, i, out, o);
    UnmaskInto(a, key.Keys(), m, out, o, out, o, BLOCK_SIZE, ivec);
    Copy(ivec, 0, tmp, 0, BLOCK_SIZE);
    assert ivec[0..BLOCK_SIZE] == ivec[..];
  }

  /** The partial last block: only `n` bytes are written, and the vector is left at the decrypted block
      rather than at the ciphertext block. */
  method DecryptPartial(a: Algebra, key: AesKey, ghost m: Cbc.Mode<Byte>, inp: array<Byte>, i: nat, n: nat,
                        out: array<Byte>, o: nat, ivec: array<Byte>)
    requires n <= BLOCK_SIZE && i + BLOCK_SIZE <= inp.Length && o + n <= out.Length
    requires ivec.Length == BLOCK_SIZE && ivec != inp && ivec != out
    requires KeyDecrypts(key, m, a)
    modifies out, ivec
    ensures ivec[..] == m.d(old(inp[i..i + BLOCK_SIZE]))
    ensures |m.mask(ivec[..], old(ivec[..]))| == BLOCK_SIZE
    ensures out[o..o + n] == m.mask(ivec[..], old(ivec[..]))[..n]
    ensures OnlyChanged(old(out[..]), out[..], o, o + n)
  {
    var tmp := new Byte[BLOCK_SIZE];
    Copy(tmp, 0, inp, i, BLOCK_SIZE);
    DecryptBy(a, key, m, tmp, 0, tmp, 0);
    UnmaskInto(a, key.Keys(), m, out, o, tmp, 0, n, ivec);
    Copy(ivec, 0, tmp, 0, BLOCK_SIZE);
    assert ivec[0..BLOCK_SIZE] == ivec[..];
  }

  /** What the decryption loop keeps. */
  ghost predicate Decrypting(m: Cbc.Mode<Byte>, iv0: seq<Byte>, total: seq<Byte>, cipher: seq<Byte>, length: nat,
                             o: nat, before: seq<Byte>, now: seq<Byte>, done: nat, iv: seq<Byte>, rest: seq<Byte>)
  {
    && m.KeepsSize() && |iv0| == |iv| == BLOCK_SIZE
    && done <= length && o + length <= |now|
    && |cipher| == done + |rest|
    && OnlyChanged(before, now, o, o + done)
    && (forall all {:trigger Opened(all)} :: Opened(all) && all == total ==>
          && |cipher| == Cbc.Padded(length) && |rest| == Cbc.Padded(length - done)
          && all == now[o..o + done] + m.Decrypt(iv, rest, length - done)
          && rest == cipher[done..]
          && iv == m.NextIv(iv0, cipher[..done]))
  }

  lemma DecryptingStarts(m: Cbc.Mode<Byte>, iv0: seq<Byte>, total: seq<Byte>, cipher: seq<Byte>, length: nat, o: nat,
                         now: seq<Byte>)
    requires m.KeepsSize() && |iv0| == BLOCK_SIZE && |cipher| == Cbc.Padded(length) && o + length <= |now|
    requires total == m.Decrypt(iv0, cipher, length)
    ensures Decrypting(m, iv0, total, cipher, length, o, now, now, 0, iv0, cipher)
  {
    assert now[o..o + 0] + total == total && cipher[0..] == cipher;
  }

  lemma DecryptingWhole(m: Cbc.Mode<Byte>, iv0: seq<Byte>, total: seq<Byte>, cipher: seq<Byte>, length: nat, o: nat,
                        before: seq<Byte>, now: seq<Byte>, done: nat, iv: seq<Byte>, rest: seq<Byte>, now': seq<Byte>,
                        c: seq<Byte>, later: seq<Byte>)
    requires Decrypting(m, iv0, total, cipher, length, o, before, now, done, iv, rest)
    requires length - done >= BLOCK_SIZE && rest == c + later && |c| == BLOCK_SIZE
    requires |now'| == |now| && now'[o + done..o + done + BLOCK_SIZE] == m.mask(m.d(c), iv)
    requires OnlyChanged(now, now', o + done, o + done + BLOCK_SIZE)
    ensures Decrypting(m, iv0, total, cipher, length, o, before, now', done + BLOCK_SIZE, c, later)
  {
    assert Opened(total);
    var sofar := now[o..o + done];
    m.DecryptFirst(iv, c, later, length - done - BLOCK_SIZE);
    var p := m.mask(m.d(c), iv);
    m.ConcatAssociates(sofar, p, m.Decrypt(c, later, length - done - BLOCK_SIZE));
    assert now'[o..o + done + BLOCK_SIZE] == sofar + p;
    assert cipher[..done + BLOCK_SIZE][done..] == c;
  }

  lemma DecryptingLast(m: Cbc.Mode<Byte>, iv0: seq<Byte>, total: seq<Byte>, cipher: seq<Byte>, length: nat, o: nat,
                       before: seq<Byte>, now: seq<Byte>, done: nat, iv: seq<Byte>, rest: seq<Byte>, now': seq<Byte>)
    requires Decrypting(m, iv0, total, cipher, length, o, before, now, done, iv, rest)
    requires 0 < length - done < BLOCK_SIZE && |rest| == BLOCK_SIZE
    requires |now'| == |now| && now'[o + done..o + length] == m.mask(m.d(rest), iv)[..length - done]
    requires OnlyChanged(now, now', o + done, o + length)
    ensures now'[o..o + length] == total
    ensures OnlyChanged(before, now', o, o + length)
    ensures rest == cipher[|cipher| - BLOCK_SIZE..]
  {
    assert Opened(total);
    assert now'[o..o + length] == now[o..o + done] + now'[o + done..o + length];
  }

  /** What is left of the ciphertext has a block for what is left of the data. */
  lemma DecryptingRoom(m: Cbc.Mode<Byte>, iv0: seq<Byte>, total: seq<Byte>, cipher: seq<Byte>, length: nat, o: nat,
                       before: seq<Byte>, now: seq<Byte>, done: nat, iv: seq<Byte>, rest: seq<Byte>)
    requires Decrypting(m, iv0, total, cipher, length, o, before, now, done, iv, rest)
    ensures |cipher| == Cbc.Padded(length)
    ensures length - done > 0 ==> |rest| >= BLOCK_SIZE
    ensures 0 < length - done < BLOCK_SIZE ==> |rest| == BLOCK_SIZE && |cipher| != length
    ensures length == done ==> |cipher| == length
  {
    assert Opened(total);
    PaddedBy(done, length - done, length);
  }

  lemma PaddedBy(done: nat, left: nat, length: nat)
    requires length == done + left
    ensures left > 0 ==> Cbc.Padded(left) >= BLOCK_SIZE
    ensures 0 < left < BLOCK_SIZE ==> Cbc.Padded(left) == BLOCK_SIZE
    ensures left == 0 ==> Cbc.Padded(left) == 0
  {
  }

  lemma DecryptingDone(m: Cbc.Mode<Byte>, iv0: seq<Byte>, total: seq<Byte>, cipher: seq<Byte>, length: nat, o: nat,
                       before: seq<Byte>, now: seq<Byte>, done: nat, iv: seq<Byte>, rest: seq<Byte>)
    requires Decrypting(m, iv0, total, cipher, length, o, before, now, done, iv, rest) && length == done
    ensures now[o..o + length] == total && iv == m.NextIv(iv0, cipher)
  {
    assert Opened(total);
    assert cipher[..done] == cipher;
  }

  method DecryptNext(a: Algebra, key: AesKey, ghost m: Cbc.Mode<Byte>, inp: array<Byte>, i: nat, out: array<Byte>,
                     o: nat, length: nat, ivec: array<Byte>, done: nat, padded: nat, ghost iv0: seq<Byte>,
                     ghost total: seq<Byte>, ghost cipher: seq<Byte>, ghost before: seq<Byte>)
    requires i + padded <= inp.Length && length - done >= BLOCK_SIZE
    requires ivec.Length == BLOCK_SIZE && ivec != inp && ivec != out && (inp == out ==> i == o)
    requires KeyDecrypts(key, m, a) && done <= padded
    requires Decrypting(m, iv0, total, cipher, length, o, before, out[..], done, ivec[..], inp[i + done..i + padded])
    modifies out, ivec
    ensures done + BLOCK_SIZE <= padded
    ensures Decrypting(m, iv0, total, cipher, length, o, before, out[..], done + BLOCK_SIZE, ivec[..],
                       inp[i + (done + BLOCK_SIZE)..i + padded])
    ensures KeyDecrypts(key, m, a)
  {
    ghost var iv, now, rest := ivec[..], out[..], inp[i + done..i + padded];
    DecryptingRoom(m, iv0, total, cipher, length, o, before, now, done, iv, rest);
    ghost var c, later := inp[i + done..i + done + BLOCK_SIZE], inp[i + (done + BLOCK_SIZE)..i + padded];
    assert rest == c + later;
    DecryptWhole(a, key, m, inp, i + done, out, o + done, ivec);
    assert inp[i + (done + BLOCK_SIZE)..i + padded] == later;
    DecryptingWhole(m, iv0, total, cipher, length, o, before, now, done, iv, rest, out[..], c, later);
  }

  method DecryptEnd(a: Algebra, key: AesKey, ghost m: Cbc.Mode<Byte>, inp: array<Byte>, i: nat, out: array<Byte>,
                    o: nat, length: nat, ivec: array<Byte>, done: nat, padded: nat, ghost iv0: seq<Byte>,
                    ghost total: seq<Byte>, ghost cipher: seq<Byte>, ghost before: seq<Byte>)
    requires padded == |cipher| && i + padded <= inp.Length && 0 <= length - done < BLOCK_SIZE
    requires ivec.Length == BLOCK_SIZE && ivec != inp && ivec != out
    requires KeyDecrypts(key, m, a) && done <= padded
    requires Decrypting(m, iv0, total, cipher, length, o, before, out[..], done, ivec[..], inp[i + done..i + padded])
    modifies out, ivec
    ensures out[..][o..o + length] == total
    ensures OnlyChanged(before, out[..], o, o + length)
    ensures length == padded ==> ivec[..] == m.NextIv(iv0, cipher)
    ensures length != padded ==> |cipher| >= BLOCK_SIZE && ivec[..] == m.d(cipher[|cipher| - BLOCK_SIZE..])
  {
    ghost var iv, now, rest := ivec[..], out[..], inp[i + done..i + padded];
    DecryptingRoom(m, iv0, total, cipher, length, o, before, now, done, iv, rest);
    if length - done > 0 {
      DecryptPartial(a, key, m, inp, i + done, length - done, out, o + done, ivec);
      assert rest == old(inp[i + done..i + done + BLOCK_SIZE]);
      assert out[o + done..o + length] == out[..][o + done..o + length];
      DecryptingLast(m, iv0, total, cipher, length, o, before, now, done, iv, rest, out[..]);
    } else {
      DecryptingDone(m, iv0, total, cipher, length, o, before, now, done, iv, rest);
    }
  }

  /** Decryption: `out` gets the `length` bytes of plaintext, and no byte after them is written. In
      place when the arrays are the same. The vector is left at the last ciphertext block, or, after a
      partial block, at the decryption of that block. */
  method CbcDecrypt(a: Algebra, key: AesKey, ghost m: Cbc.Mode<Byte>, inp: array<Byte>, i: nat, out: array<Byte>,
                    o: nat, length: nat, ivec: array<Byte>)
    requires i + Cbc.Padded(length) <= inp.Length && o + length <= out.Length
    requires ivec.Length == BLOCK_SIZE && ivec != inp && ivec != out && (inp == out ==> i == o)
    requires KeyDecrypts(key, m, a)
    modifies out, ivec
    ensures out[o..o + length] == m.Decrypt(old(ivec[..]), old(inp[i..i + Cbc.Padded(length)]), length)
    ensures OnlyChanged(old(out[..]), out[..], o, o + length)
    ensures length == Cbc.Padded(length) ==> ivec[..] == m.NextIv(old(ivec[..]), old(inp[i..i + Cbc.Padded(length)]))
    ensures length != Cbc.Padded(length) ==>
              && Cbc.Padded(length) >= BLOCK_SIZE
              && ivec[..] == m.d(old(inp[i + Cbc.Padded(length) - BLOCK_SIZE..i + Cbc.Padded(length)]))
  {
    var padded := Cbc.Padded(length);
    ghost var iv0, cipher, before := ivec[..], inp[i..i + padded], out[..];
    ghost var total := m.Decrypt(iv0, cipher, length);
    DecryptingStarts(m, iv0, total, cipher, length, o, before);
    DecryptAll(a, key, m, inp, i, out, o, length, ivec, padded, iv0, total, cipher, before);
    LastBlock(old(inp[..]), i, padded);
  }

  lemma LastBlock(s: seq<Byte>, i: nat, n: nat)
    requires i + n <= |s|
    ensures n >= BLOCK_SIZE ==> s[i..i + n][n - BLOCK_SIZE..] == s[i + n - BLOCK_SIZE..i + n]
  {
  }

  method DecryptAll(a: Algebra, key: AesKey, ghost m: Cbc.Mode<Byte>, inp: array<Byte>, i: nat, out: array<Byte>,
                    o: nat, length: nat, ivec: array<Byte>, padded: nat, ghost iv0: seq<Byte>, ghost total: seq<Byte>,
                    ghost cipher: seq<Byte>, ghost before: seq<Byte>)
    requires padded == |cipher| && i + padded <= inp.Length
    requires ivec.Length == BLOCK_SIZE && ivec != inp && ivec != out && (inp == out ==> i == o)
    requires KeyDecrypts(key, m, a)
    requires Decrypting(m, iv0, total, cipher, length, o, before, out[..], 0, ivec[..], inp[i..i + padded])
    modifies out, ivec
    ensures o + length <= out.Length && out[..][o..o + length] == total
    ensures OnlyChanged(before, out[..], o, o + length)
    ensures length == padded ==> ivec[..] == m.NextIv(iv0, cipher)
    ensures length != padded ==> |cipher| >= BLOCK_SIZE && ivec[..] == m.d(cipher[|cipher| - BLOCK_SIZE..])
  {
    var done := 0;
    while length - done >= BLOCK_SIZE
      invariant done <= length && done <= padded && KeyDecrypts(key, m, a)
      invariant Decrypting(m, iv0, total, cipher, length, o, before, out[..], done, ivec[..], inp[i + done..i + padded])
    {
      DecryptNext(a, key, m, inp, i, out, o, length, ivec, done, padded, iv0, total, cipher, before);
      done := done + BLOCK_SIZE;
    }
    DecryptEnd(a, key, m, inp, i, out, o, length, ivec, done, padded, iv0, total, cipher, before);
  }
}
