/** The parts AES is made of: bytes, columns of four bytes, the two S-boxes, and the columns by which
    one byte enters the mixing of sections 5.1.3 and 5.3.3 of FIPS 197. */
module AesField {
  import opened Basics

  /** A column of the state, or a word of the key schedule, most significant byte first. */
  datatype Column = Column(b0: Byte, b1: Byte, b2: Byte, b3: Byte)

  function Xor(x: Byte, y: Byte): Byte { x ^ y }

  function Add(c: Column, d: Column): Column {
    Column(Xor(c.b0, d.b0), Xor(c.b1, d.b1), Xor(c.b2, d.b2), Xor(c.b3, d.b3))
  }

  lemma XorCommutes(x: Byte, y: Byte)
    ensures Xor(x, y) == Xor(y, x)
  {
  }

  lemma XorAssociates(x: Byte, y: Byte, z: Byte)
    ensures Xor(Xor(x, y), z) == Xor(x, Xor(y, z))
  {
  }

  lemma XorCancels(x: Byte, y: Byte)
    ensures Xor(Xor(x, y), y) == x
  {
  }

  lemma XorInterchanges(a: Byte, b: Byte, c: Byte, d: Byte)
    ensures Xor(Xor(a, b), Xor(c, d)) == Xor(Xor(a, c), Xor(b, d))
  {
    calc {
      Xor(Xor(a, b), Xor(c, d));
      { XorAssociates(a, b, Xor(c, d)); }
      Xor(a, Xor(b, Xor(c, d)));
      { XorAssociates(b, c, d); XorCommutes(b, c); }
      Xor(a, Xor(Xor(c, b), d));
      { XorAssociates(c, b, d); }
      Xor(a, Xor(c, Xor(b, d)));
      { XorAssociates(a, c, Xor(b, d)); }
      Xor(Xor(a, c), Xor(b, d));
    }
  }

  lemma AddInterchanges(a: Column, b: Column, c: Column, d: Column)
    ensures Add(Add(a, b), Add(c, d)) == Add(Add(a, c), Add(b, d))
  {
    XorInterchanges(a.b0, b.b0, c.b0, d.b0);
    XorInterchanges(a.b1, b.b1, c.b1, d.b1);
    XorInterchanges(a.b2, b.b2, c.b2, d.b2);
    XorInterchanges(a.b3, b.b3, c.b3, d.b3);
  }

  lemma AddCommutes(a: Column, b: Column)
    ensures Add(a, b) == Add(b, a)
  {
    XorCommutes(a.b0, b.b0);
    XorCommutes(a.b1, b.b1);
    XorCommutes(a.b2, b.b2);
    XorCommutes(a.b3, b.b3);
  }

  lemma AddAssociates(a: Column, b: Column, c: Column)
    ensures Add(Add(a, b), c) == Add(a, Add(b, c))
  {
    XorAssociates(a.b0, b.b0, c.b0);
    XorAssociates(a.b1, b.b1, c.b1);
    XorAssociates(a.b2, b.b2, c.b2);
    XorAssociates(a.b3, b.b3, c.b3);
  }

  lemma AddCancels(c: Column, d: Column)
    ensures Add(Add(c, d), d) == c
  {
    XorCancels(c.b0, d.b0);
    XorCancels(c.b1, d.b1);
    XorCancels(c.b2, d.b2);
    XorCancels(c.b3, d.b3);
  }

  /** The functions on bytes that AES is made of: the two S-boxes, the columns `p0` to `p3` by which a
      byte of each row contributes to MixColumns, and the columns `q0` to `q3` by which it contributes
      to InvMixColumns. The cipher is proved for every choice of them that obeys the laws below;
      module AesStandard has the choice made by the standard. */
  datatype Algebra = Algebra(
    s: Byte -> Byte, si: Byte -> Byte,
    p0: Byte -> Column, p1: Byte -> Column, p2: Byte -> Column, p3: Byte -> Column,
    q0: Byte -> Column, q1: Byte -> Column, q2: Byte -> Column, q3: Byte -> Column)
  {
    function SubColumn(c: Column): Column {
      Column(s(c.b0), s(c.b1), s(c.b2), s(c.b3))
    }

    function InvSubColumn(c: Column): Column {
      Column(si(c.b0), si(c.b1), si(c.b2), si(c.b3))
    }

    function MixColumn(c: Column): Column {
      Add(Add(p0(c.b0), p1(c.b1)), Add(p2(c.b2), p3(c.b3)))
    }

    function InvMixColumn(c: Column): Column {
      Add(Add(q0(c.b0), q1(c.b1)), Add(q2(c.b2), q3(c.b3)))
    }

    /** The S-boxes are inverse to each other. */
    predicate SubUndone(x: Byte) {
      si(s(x)) == x
    }

    /** Contributions to InvMixColumns are additive. */
    predicate Additive(x: Byte, y: Byte) {
      && q0(Xor(x, y)) == Add(q0(x), q0(y))
      && q1(Xor(x, y)) == Add(q1(x), q1(y))
      && q2(Xor(x, y)) == Add(q2(x), q2(y))
      && q3(Xor(x, y)) == Add(q3(x), q3(y))
    }

    /** The product of the two mixing matrices is the identity, column by column. */
    predicate MatrixProduct(x: Byte) {
      && InvMixColumn(p0(x)) == Column(x, 0, 0, 0)
      && InvMixColumn(p1(x)) == Column(0, x, 0, 0)
      && InvMixColumn(p2(x)) == Column(0, 0, x, 0)
      && InvMixColumn(p3(x)) == Column(0, 0, 0, x)
    }

    ghost predicate Lawful() {
      && (forall x :: SubUndone(x))
      && (forall x, y :: Additive(x, y))
      && (forall x :: MatrixProduct(x))
    }

    /** Inverse mixing distributes over the addition of columns. */
    lemma InvMixColumnAdds(c: Column, d: Column)
      requires Lawful()
      ensures InvMixColumn(Add(c, d)) == Add(InvMixColumn(c), InvMixColumn(d))
    {
      assert Additive(c.b0, d.b0) && Additive(c.b1, d.b1) && Additive(c.b2, d.b2) && Additive(c.b3, d.b3);
      var l0, r0 := q0(c.b0), q0(d.b0);
      var l1, r1 := q1(c.b1), q1(d.b1);
      var l2, r2 := q2(c.b2), q2(d.b2);
      var l3, r3 := q3(c.b3), q3(d.b3);
      AddInterchanges(l0, r0, l1, r1);
      AddInterchanges(l2, r2, l3, r3);
      AddInterchanges(Add(l0, l1), Add(r0, r1), Add(l2, l3), Add(r2, r3));
    }

    /** Inverse mixing undoes mixing. */
    lemma InvMixUndoesMix(c: Column)
      requires Lawful()
      ensures InvMixColumn(MixColumn(c)) == c
    {
      var u, v, w, x := p0(c.b0), p1(c.b1), p2(c.b2), p3(c.b3);
      InvMixColumnAdds(Add(u, v), Add(w, x));
      InvMixColumnAdds(u, v);
      InvMixColumnAdds(w, x);
      assert MatrixProduct(c.b0) && MatrixProduct(c.b1) && MatrixProduct(c.b2) && MatrixProduct(c.b3);
    }

    lemma InvSubUndoesSub(c: Column)
      requires Lawful()
      ensures InvSubColumn(SubColumn(c)) == c
    {
      assert SubUndone(c.b0) && SubUndone(c.b1) && SubUndone(c.b2) && SubUndone(c.b3);
    }
  }
}
