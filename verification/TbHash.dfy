/** The hash functions of the block caches. */
module TbHash {
  import opened Bits
  import opened TbChains

  const TB_JMP_PAGE_BITS: nat := 6
  const TB_JMP_ADDR_MASK: nat := TB_JMP_PAGE_SIZE - 1
  const TB_JMP_PAGE_MASK: nat := TB_JMP_CACHE_SIZE - TB_JMP_PAGE_SIZE

  function Folded(pageBits: nat, pc: nat): nat
    requires pageBits >= TB_JMP_PAGE_BITS
  {
    Xor(pc, Shr(pc, pageBits - TB_JMP_PAGE_BITS))
  }

  /** tb_jmp_cache_hash_page */
  function HashPage(pageBits: nat, pc: nat): nat
    requires pageBits >= TB_JMP_PAGE_BITS
  {
    And(Shr(Folded(pageBits, pc), pageBits - TB_JMP_PAGE_BITS), TB_JMP_PAGE_MASK)
  }

  /** tb_jmp_cache_hash_func */
  function HashFunc(pageBits: nat, pc: nat): nat
    requires pageBits >= TB_JMP_PAGE_BITS
  {
    Or(And(Shr(Folded(pageBits, pc), pageBits - TB_JMP_PAGE_BITS), TB_JMP_PAGE_MASK),
       And(Folded(pageBits, pc), TB_JMP_ADDR_MASK))
  }

  /** tb_phys_hash_func */
  function PhysHashFunc(pc: nat): nat { And(pc, CODE_GEN_PHYS_HASH_SIZE - 1) }

  /** The address with the bits within the page cleared. */
  function Page(pageBits: nat, pc: nat): nat { Shr(pc, pageBits) * Pow2(pageBits) }

  /** The group of an address is a matter of its page number alone. */
  lemma HashPageOfNumber(pageBits: nat, pc: nat)
    requires pageBits >= TB_JMP_PAGE_BITS
    ensures var n := Shr(pc, pageBits);
            HashPage(pageBits, pc) == And(Xor(n, Shr(n, pageBits - TB_JMP_PAGE_BITS)), 63) * 64
  {
    var s := pageBits - TB_JMP_PAGE_BITS;
    var tmp := Folded(pageBits, pc);
    assert Pow2(6) == 64 && TB_JMP_PAGE_MASK == 63 * 64;
    AndShiftedMask(Shr(tmp, s), 63, 6);
    ShrTwice(tmp, s, 6);
    ShrXor(pc, Shr(pc, s), pageBits);
    ShrTwice(pc, s, pageBits);
    ShrTwice(pc, pageBits, s);
  }

  /** All addresses of a page fall into the aligned group of 64 slots that the page hash gives. */
  lemma PageFallsIntoGroup(pageBits: nat, pc: nat)
    requires pageBits >= TB_JMP_PAGE_BITS
    ensures HashPage(pageBits, pc) == HashPage(pageBits, Page(pageBits, pc))
    ensures HashPage(pageBits, pc) % TB_JMP_PAGE_SIZE == 0
    ensures HashPage(pageBits, pc) <= HashFunc(pageBits, pc) < HashPage(pageBits, pc)
              + TB_JMP_PAGE_SIZE <= TB_JMP_CACHE_SIZE
  {
    HashPageOfNumber(pageBits, pc);
    HashPageOfNumber(pageBits, Page(pageBits, pc));
    ShrOfTimesPow2(Shr(pc, pageBits), pageBits);
    var n := Shr(pc, pageBits);
    Joined(And(Xor(n, Shr(n, pageBits - TB_JMP_PAGE_BITS)), 63), And(Folded(pageBits, pc), TB_JMP_ADDR_MASK));
  }

  lemma Joined(a: nat, b: nat)
    requires a < 64 && b < 64
    ensures a * 64 <= Or(a * 64, b) < a * 64 + 64 <= 4096 && a * 64 % 64 == 0
  {
    assert Pow2(6) == 64;
    OrAdds(a, b, 6);
  }

  /** The geometry of a target with `addressBits` bits of address, pages of `pageBits` bits. */
  function Target(pageBits: nat, addressBits: nat): Geometry
    requires TB_JMP_PAGE_BITS <= pageBits <= addressBits
  {
    Pow2Monotone(pageBits, addressBits);
    var size, space := Pow2(pageBits), Pow2(addressBits);
    Geometry(space, size,
             pc => Page(pageBits, pc),
             page => if page + size < space then page + size else page + size - space,
             page => if page >= size then page - size else page + (space - size),
             pc => HashFunc(pageBits, pc),
             pc => HashPage(pageBits, pc),
             pc => PhysHashFunc(pc))
  }

  lemma PageBounds(pageBits: nat, pc: nat)
    ensures Page(pageBits, pc) <= pc < Page(pageBits, pc) + Pow2(pageBits)
    ensures Page(pageBits, pc) % Pow2(pageBits) == 0
  {
    HighAndLow(pc, pageBits);
    Multiple(Shr(pc, pageBits), Pow2(pageBits));
  }

  lemma Multiple(q: nat, size: nat)
    requires size > 0
    ensures q * size % size == 0
  {
    var pc := q * size;
    var n := pc / size;
    assert pc == n * size + pc % size;
    PageNumber(size, pc, q, n);
  }

  /** The number of the page is the only one that fits. */
  lemma PageNumber(size: nat, pc: nat, q: nat, n: nat)
    requires q * size <= pc < q * size + size && n * size <= pc < n * size + size
    ensures q == n
  {
    if q < n {
      Scaled(size, q + 1, n);
    } else if n < q {
      Scaled(size, n + 1, q);
    }
  }

  lemma Scaled(size: nat, m: nat, n: nat)
    requires m <= n
    ensures m * size <= n * size
  {
  }

  /** The next address is in the same page or in the next one. */
  lemma NextPage(pageBits: nat, pc: nat)
    ensures Page(pageBits, pc + 1) == Page(pageBits, pc)
         || Page(pageBits, pc + 1) == Page(pageBits, pc) + Pow2(pageBits) == pc + 1
  {
    var size, q, n := Pow2(pageBits), Shr(pc, pageBits), Shr(pc + 1, pageBits);
    PageBounds(pageBits, pc);
    PageBounds(pageBits, pc + 1);
    if pc + 1 < q * size + size {
      PageNumber(size, pc + 1, n, q);
    } else {
      assert (q + 1) * size == q * size + size;
      PageNumber(size, pc + 1, n, q + 1);
    }
  }

  lemma {:induction false} Pow2Sum(m: nat, n: nat)
    ensures Pow2(m + n) == Pow2(m) * Pow2(n)
    decreases m
  {
    if m > 0 {
      Pow2Sum(m - 1, n);
    }
  }

  /** The last page ends where the addresses end. */
  lemma LastPage(pageBits: nat, addressBits: nat)
    requires pageBits <= addressBits
    ensures Page(pageBits, Pow2(addressBits) - 1) + Pow2(pageBits) == Pow2(addressBits)
  {
    Pow2Sum(addressBits - pageBits, pageBits);
    PageBounds(pageBits, Pow2(addressBits) - 1);
    LastNumber(Pow2(pageBits), Pow2(addressBits - pageBits), Pow2(addressBits) - 1,
               Shr(Pow2(addressBits) - 1, pageBits));
  }

  lemma LastNumber(size: nat, pages: nat, pc: nat, q: nat)
    requires pages > 0 && pc + 1 == pages * size && q * size <= pc < q * size + size
    ensures q * size + size == pc + 1
  {
    assert (pages - 1) * size == pages * size - size;
    PageNumber(size, pc, q, pages - 1);
  }

  lemma FirstPage(pageBits: nat)
    ensures Page(pageBits, 0) == 0
  {
    PageBounds(pageBits, 0);
  }

  lemma TargetIsAdjacent(pageBits: nat, addressBits: nat, pc: nat)
    requires TB_JMP_PAGE_BITS <= pageBits <= addressBits && pc < Pow2(addressBits)
    ensures Target(pageBits, addressBits).Adjacent(pc)
  {
    PageBounds(pageBits, pc);
    NextPage(pageBits, pc);
    LastPage(pageBits, addressBits);
    FirstPage(pageBits);
  }

  /** Every target's geometry is what the caches rely on. */
  lemma TargetIsLawful(pageBits: nat, addressBits: nat)
    requires TB_JMP_PAGE_BITS <= pageBits <= addressBits
    ensures Target(pageBits, addressBits).Lawful()
    ensures Target(pageBits, addressBits).size == Pow2(pageBits)
    ensures Target(pageBits, addressBits).space == Pow2(addressBits)
  {
    var g := Target(pageBits, addressBits);
    Pow2Monotone(pageBits, addressBits);
    forall pc: nat
      ensures g.Grouped(pc)
    {
      PageFallsIntoGroup(pageBits, pc);
      ShrTimesPow2(pc, pageBits);
    }
    forall pc: nat | pc < g.space
      ensures g.Paged(pc) && g.Adjacent(pc)
    {
      ShrTimesPow2(pc, pageBits);
      ShrOfTimesPow2(Shr(pc, pageBits), pageBits);
      TargetIsAdjacent(pageBits, addressBits, pc);
    }
  }
}
