/** The initial and final permutations of DES as the program computes them: exchanges of bits between
    the two halves of a block, and rotations. */
module DesBits {
  import opened Feistel

  type Half = bv32

  // Each of these exchanges the bits of the left half under a shifted mask with the bits of the right half
  // under the mask.

  function X4(s: Halves<Half>): Halves<Half> {
    var work := ((s.left >> 4) ^ s.right) & 0x0f0f0f0f;
    Halves(s.left ^ (work << 4), s.right ^ work)
  }

  function X16(s: Halves<Half>): Halves<Half> {
    var work := ((s.left >> 16) ^ s.right) & 0x0000ffff;
    Halves(s.left ^ (work << 16), s.right ^ work)
  }

  function X2(s: Halves<Half>): Halves<Half> {
    var work := ((s.left >> 2) ^ s.right) & 0x33333333;
    Halves(s.left ^ (work << 2), s.right ^ work)
  }

  function X8(s: Halves<Half>): Halves<Half> {
    var work := ((s.left >> 8) ^ s.right) & 0x00ff00ff;
    Halves(s.left ^ (work << 8), s.right ^ work)
  }

  function X0(s: Halves<Half>): Halves<Half> {
    var work := (s.left ^ s.right) & 0xaaaaaaaa;
    Halves(s.left ^ work, s.right ^ work)
  }

  function Rol(x: Half): Half { (x << 1) | (x >> 31) }
  function Ror(x: Half): Half { (x << 31) | (x >> 1) }

  function RolRight(s: Halves<Half>): Halves<Half> { Halves(s.left, Rol(s.right)) }
  function RolLeft(s: Halves<Half>): Halves<Half> { Halves(Rol(s.left), s.right) }
  function RorRight(s: Halves<Half>): Halves<Half> { Halves(s.left, Ror(s.right)) }
  function RorLeft(s: Halves<Half>): Halves<Half> { Halves(Ror(s.left), s.right) }

  lemma X4Twice(s: Halves<Half>) ensures X4(X4(s)) == s {}
  lemma X16Twice(s: Halves<Half>) ensures X16(X16(s)) == s {}
  lemma X2Twice(s: Halves<Half>) ensures X2(X2(s)) == s {}
  lemma X8Twice(s: Halves<Half>) ensures X8(X8(s)) == s {}
  lemma X0Twice(s: Halves<Half>) ensures X0(X0(s)) == s {}
  lemma X0Symmetric(s: Halves<Half>) ensures X0(Exchanged(s)) == Exchanged(X0(s)) {}
  lemma RotateLeftBack(s: Halves<Half>) ensures RorLeft(RolLeft(s)) == s == RolLeft(RorLeft(s)) {}
  lemma RotateRightBack(s: Halves<Half>) ensures RorRight(RolRight(s)) == s == RolRight(RorRight(s)) {}

  /** The initial permutation. */
  function Initial(s: Halves<Half>): Halves<Half> {
    RolLeft(X0(RolRight(Exchanged(X8(X2(Exchanged(X16(X4(s)))))))))
  }

  /** The final permutation, with the halves exchanged on output. */
  function Final(s: Halves<Half>): Halves<Half> {
    X4(X16(Exchanged(X2(X8(RorLeft(X0(RorRight(s))))))))
  }

  lemma RotationsExchange(s: Halves<Half>)
    ensures RolRight(Exchanged(s)) == Exchanged(RolLeft(s))
    ensures RolLeft(Exchanged(s)) == Exchanged(RolRight(s))
    ensures RorRight(Exchanged(s)) == Exchanged(RorLeft(s))
    ensures RorLeft(Exchanged(s)) == Exchanged(RorRight(s))
  {
  }

  /** The initial permutation undoes the final one, up to the exchange of the halves. */
  lemma InitialUndoesFinal(s: Halves<Half>)
    ensures Initial(Final(s)) == Exchanged(s)
  {
    var u := RorRight(s);
    var v := X0(u);
    var t := RorLeft(v);
    var y := X8(t);
    var x := Exchanged(X2(y));
    X4Twice(X16(x));
    X16Twice(x);
    X2Twice(y);
    X8Twice(t);
    RotationsExchange(t);
    RotateLeftBack(v);
    X0Symmetric(v);
    X0Twice(u);
    RotationsExchange(u);
    RotateRightBack(s);
  }

  /** And the final permutation undoes the initial one. */
  lemma FinalUndoesInitial(s: Halves<Half>)
    ensures Final(Exchanged(Initial(s))) == s
  {
    var x := X4(s);
    var y := Exchanged(X16(x));
    var z := X2(y);
    var t := Exchanged(X8(z));
    var u := RolRight(t);
    var v := X0(u);
    RotationsExchange(RolLeft(v));
    RotateLeftBack(v);
    X0Symmetric(v);
    X0Twice(u);
    RotationsExchange(u);
    RotateRightBack(t);
    X8Twice(z);
    X2Twice(y);
    X16Twice(x);
    X4Twice(s);
  }
}
