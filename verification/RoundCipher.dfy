/** Ciphers made of rounds that substitute, mix and add a key, with a last round that does not mix, and
    the equivalent inverse cipher of such a cipher: section 5.3.5 of FIPS 197 without the details of AES. */
module RoundCipher {

  datatype Rounds<!S(!new)> = Rounds(add: (S, S) -> S, sub: S -> S, unsub: S -> S, mix: S -> S, unmix: S -> S)
  {
    /** Adding a key twice cancels, `unsub` undoes `sub`, and `unmix` undoes `mix` under an added key. */
    ghost predicate Lawful() {
      && (forall s, k :: add(add(s, k), k) == s)
      && (forall s :: unsub(sub(s)) == s)
      && (forall s, k :: unmix(add(mix(s), k)) == add(s, unmix(k)))
    }

    /** The state after the initial key and `r` full rounds. */
    function After(keys: seq<S>, input: S, r: nat): S
      requires r < |keys|
    {
      if r == 0 then add(input, keys[0])
      else add(mix(sub(After(keys, input, r - 1))), keys[r])
    }

    /** All rounds but the last are full ones. */
    function Cipher(keys: seq<S>, input: S): S
      requires |keys| >= 2
    {
      var rounds := |keys| - 1;
      add(sub(After(keys, input, rounds - 1)), keys[rounds])
    }

    function AfterInverse(keys: seq<S>, input: S, r: nat): S
      requires r < |keys|
    {
      if r == 0 then add(input, keys[0])
      else add(unmix(unsub(AfterInverse(keys, input, r - 1))), keys[r])
    }

    /** The same order of steps as the cipher, with keys of its own. */
    function EquivalentInverse(keys: seq<S>, input: S): S
      requires |keys| >= 2
    {
      var rounds := |keys| - 1;
      add(unsub(AfterInverse(keys, input, rounds - 1)), keys[rounds])
    }

    /** The keys that decrypt: the round keys in reverse order, unmixed except for the first and the
        last. */
    function DecryptionKeys(keys: seq<S>): (dk: seq<S>)
      ensures |dk| == |keys|
    {
      var last := |keys| - 1;
      seq(|keys|, r requires 0 <= r < |keys| => if 0 < r < last then unmix(keys[last - r]) else keys[last - r])
    }

    /** After r rounds of decryption the state is the one that the cipher had inside its round
        rounds - r, before mixing. */
    lemma {:induction false} DecryptionFollowsBack(keys: seq<S>, input: S, r: nat)
      requires Lawful() && |keys| >= 2 && r < |keys| - 1
      ensures AfterInverse(DecryptionKeys(keys), Cipher(keys, input), r) == sub(After(keys, input, |keys| - 2 - r))
    {
      var last := |keys| - 1;
      if r > 0 {
        DecryptionFollowsBack(keys, input, r - 1);
        var s, k := sub(After(keys, input, last - 1 - r)), keys[last - r];
        assert unmix(add(mix(s), k)) == add(s, unmix(k));
      }
    }

    /** Decryption undoes encryption, for every key schedule and every block. */
    lemma DecryptUndoesEncrypt(keys: seq<S>, input: S)
      requires Lawful() && |keys| >= 2
      ensures EquivalentInverse(DecryptionKeys(keys), Cipher(keys, input)) == input
    {
      DecryptionFollowsBack(keys, input, |keys| - 2);
    }
  }
}
