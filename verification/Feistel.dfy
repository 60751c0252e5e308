/** Feistel networks: the enciphering of FIPS 46-3 without the details of DES. */
module Feistel {
  import opened Basics

  /** The two halves of a block. */
  datatype Halves<+H> = Halves(left: H, right: H)

  function Exchanged<H>(s: Halves<H>): Halves<H> { Halves(s.right, s.left) }

  /** A round function of a half and a key, and the addition of halves. */
  datatype Network<!H(!new), !K(!new)> = Network(f: (H, K) -> H, add: (H, H) -> H) {


    /** Adding the same half twice cancels. */
    ghost predicate Lawful() {
      forall x, y :: add(add(x, y), y) == x
    }

    /** One round: the halves change places and one of them is added to. */
    function Round(s: Halves<H>, k: K): Halves<H> {
      Halves(s.right, add(s.left, f(s.right, k)))
    }

    function Run(keys: seq<K>, s: Halves<H>): Halves<H> {
      if keys == [] then s else Run(keys[1..], Round(s, keys[0]))
    }

    lemma {:induction false} RunLast(keys: seq<K>, k: K, s: Halves<H>)
      ensures Run(keys + [k], s) == Round(Run(keys, s), k)
    {
      if keys == [] {
        assert [k][1..] == [];
        assert keys + [k] == [k];
        assert Run([], Round(s, k)) == Round(s, k);
      } else {
        assert (keys + [k])[1..] == keys[1..] + [k];
        RunLast(keys[1..], k, Round(s, keys[0]));
      }
    }

    /** The same rounds with the keys in reverse order, on exchanged halves, undo the run. */
    lemma {:induction false} ReverseUndoes(keys: seq<K>, s: Halves<H>)
      requires Lawful()
      ensures Run(Reversed(keys), Exchanged(Run(keys, s))) == Exchanged(s)
    {
      if keys != [] {
        var k, rest := keys[0], keys[1..];
        var t := Round(s, k);
        assert Reversed(keys) == Reversed(rest) + [k];
        RunLast(Reversed(rest), k, Exchanged(Run(rest, t)));
        ReverseUndoes(rest, t);
      }
    }
  }
}
