/** The index by major opcode into the table of the Alpha disassembler. */
module AlphaIndex {
  import opened Bits
  import opened Basics

  const AXP_NOPS: nat := 0x40

  /** `invalid` stands for the extraction functions of the operands, which may reject an instruction. */
  datatype Opcode = Opcode(code: nat, mask: nat, flags: nat, invalid: nat -> bool)

  /** AXP_OP: the major opcode, bits 26 to 31. */
  function Major(word: nat): (r: nat)
    ensures r < AXP_NOPS
  {
    And(Shr(word, 26), 0x3f)
  }

  predicate Matches(o: Opcode, insn: nat, isa: nat) {
    And(Xor(insn, o.code), o.mask) == 0 && And(o.flags, isa) != 0 && !o.invalid(insn)
  }

  /** The instruction has the opcode's bits wherever the mask says that they count, the opcode is for the
      processor, and no operand rejects the instruction. */
  ghost predicate Agrees(o: Opcode, insn: nat, isa: nat) {
    && (forall k: nat :: Bit(o.mask, k) ==> (Bit(insn, k) <==> Bit(o.code, k)))
    && (exists k: nat :: Bit(o.flags, k) && Bit(isa, k))
    && !o.invalid(insn)
  }

  lemma MatchesIffAgrees(o: Opcode, insn: nat, isa: nat)
    ensures Matches(o, insn, isa) <==> Agrees(o, insn, isa)
  {
    var x := Xor(insn, o.code);
    forall k: nat
      ensures Bit(x, k) <==> Bit(insn, k) != Bit(o.code, k)
    {
      XorBit(insn, o.code, k);
    }
    AndIsZero(x, o.mask);
    AndIsZero(o.flags, isa);
  }

  /** What the search is to find: the first match in the whole table, from `k` on. */
  function FirstMatch(table: seq<Opcode>, k: nat, insn: nat, isa: nat): Option<nat>
    requires k <= |table|
    decreases |table| - k
  {
    if k == |table| then None
    else if Matches(table[k], insn, isa) then Some(k)
    else FirstMatch(table, k + 1, insn, isa)
  }

  /** The first opcode that agrees, if any does. */
  ghost predicate IsFirst(table: seq<Opcode>, from: nat, insn: nat, isa: nat, r: Option<nat>) {
    && (r.None? ==> forall k :: from <= k < |table| ==> !Agrees(table[k], insn, isa))
    && (r.Some? ==> && from <= r.value < |table| && Agrees(table[r.value], insn, isa)
                    && forall k :: from <= k < r.value ==> !Agrees(table[k], insn, isa))
  }

  lemma {:induction false} FirstMatchIsFirst(table: seq<Opcode>, from: nat, insn: nat, isa: nat)
    requires from <= |table|
    ensures IsFirst(table, from, insn, isa, FirstMatch(table, from, insn, isa))
    decreases |table| - from
  {
    if from < |table| {
      MatchesIffAgrees(table[from], insn, isa);
      FirstMatchIsFirst(table, from + 1, insn, isa);
    }
  }

  /** The major opcodes of a table. */
  ghost function Majors(table: seq<Opcode>): (r: seq<nat>)
    ensures |r| == |table| && forall k :: 0 <= k < |r| ==> r[k] == Major(table[k].code) && r[k] < AXP_NOPS
  {
    seq(|table|, k requires 0 <= k < |table| => Major(table[k].code))
  }

  ghost predicate Sorted(majors: seq<nat>) {
    forall i, j :: 0 <= i < j < |majors| ==> majors[i] <= majors[j]
  }

  /** The masks look at the whole major opcode. */
  ghost predicate MajorMasked(table: seq<Opcode>) {
    forall k :: 0 <= k < |table| ==> And(Shr(table[k].mask, 26), 0x3f) == 0x3f
  }

  // ---------------------------------------------------------------- matches have the major opcode

  lemma {:induction false} ShrAnd(a: nat, b: nat, n: nat)
    ensures Shr(And(a, b), n) == And(Shr(a, n), Shr(b, n))
    decreases n
  {
    if n > 0 {
      AndHalf(a, b);
      ShrAnd(a / 2, b / 2, n - 1);
    }
  }

  /** Words that agree under a mask agree under every part of it. */
  lemma {:induction false} AgreeUnderPart(a: nat, b: nat, mask: nat, part: nat)
    requires And(Xor(a, b), mask) == 0 && And(mask, part) == part
    ensures And(a, part) == And(b, part)
    decreases part
  {
    if part > 0 {
      AndHalf(Xor(a, b), mask);
      XorHalf(a, b);
      AndHalf(mask, part);
      AndHalf(a, part);
      AndHalf(b, part);
      AgreeUnderPart(a / 2, b / 2, mask / 2, part / 2);
    }
  }

  lemma {:induction false} ShrZero(n: nat)
    ensures Shr(0, n) == 0
  {
    if n > 0 {
      ShrZero(n - 1);
    }
  }

  lemma MatchHasMajor(table: seq<Opcode>, k: nat, insn: nat, isa: nat)
    requires MajorMasked(table) && k < |table| && Matches(table[k], insn, isa)
    ensures Major(table[k].code) == Major(insn)
  {
    var o := table[k];
    ShrAnd(Xor(insn, o.code), o.mask, 26);
    ShrXor(insn, o.code, 26);
    ShrZero(26);
    AgreeUnderPart(Shr(insn, 26), Shr(o.code, 26), Shr(o.mask, 26), 0x3f);
  }

  // ---------------------------------------------------------------- the index

  /** Entry `op` of the index is where the opcodes with that major opcode begin, and they end where the next
      entry begins. */
  ghost predicate Slice(majors: seq<nat>, index: seq<nat>, op: nat)
    requires op + 1 < |index|
  {
    EndsAt(majors, index[op], index[op + 1], op)
  }

  ghost predicate EndsAt(majors: seq<nat>, from: nat, end: nat, op: nat) {
    && from <= end <= |majors|
    && (forall k :: from <= k < end ==> majors[k] == op)
    && (end < |majors| ==> majors[end] != op)
  }

  /** The index as the loops build it. */
  ghost predicate Built(majors: seq<nat>, index: seq<nat>) {
    && |index| == AXP_NOPS + 1 && index[0] == 0
    && forall op: nat :: op < AXP_NOPS ==> Slice(majors, index, op)
  }

  /** Every opcode can be found under its major opcode. */
  ghost predicate Complete(majors: seq<nat>, index: seq<nat>)
    requires |index| == AXP_NOPS + 1 && forall k :: 0 <= k < |majors| ==> majors[k] < AXP_NOPS
  {
    forall k :: 0 <= k < |majors| ==> index[majors[k]] <= k < index[majors[k] + 1]
  }

  lemma {:induction false} Ascending(majors: seq<nat>, index: seq<nat>, p: nat, q: nat)
    requires Built(majors, index) && p <= q <= AXP_NOPS
    ensures index[p] <= index[q]
    decreases q
  {
    if p < q {
      Ascending(majors, index, p, q - 1);
      assert Slice(majors, index, q - 1);
    }
  }

  /** What lies before entry `op` has a smaller major opcode. */
  lemma {:induction false} Smaller(majors: seq<nat>, index: seq<nat>, op: nat, k: nat)
    requires Built(majors, index) && op <= AXP_NOPS && k < index[op]
    ensures k < |majors| && majors[k] < op
    decreases op
  {
    assert op > 0 ==> Slice(majors, index, op - 1);
    if op > 0 && k < index[op - 1] {
      Smaller(majors, index, op - 1, k);
    }
  }

  /** In a sorted table, what lies behind entry `op` has no smaller major opcode. */
  lemma {:induction false} NotSmaller(majors: seq<nat>, index: seq<nat>, op: nat, k: nat)
    requires Built(majors, index) && Sorted(majors) && op <= AXP_NOPS && index[op] <= k < |majors|
    ensures majors[k] >= op
    decreases op
  {
    if op > 0 {
      assert Slice(majors, index, op - 1);
      NotSmaller(majors, index, op - 1, index[op]);
    }
  }

  /** The index finds every opcode exactly if the table is sorted by major opcode. */
  lemma CompleteIffSorted(majors: seq<nat>, index: seq<nat>)
    requires Built(majors, index) && forall k :: 0 <= k < |majors| ==> majors[k] < AXP_NOPS
    ensures Complete(majors, index) <==> Sorted(majors)
  {
    if Sorted(majors) {
      forall k | 0 <= k < |majors|
        ensures index[majors[k]] <= k < index[majors[k] + 1]
      {
        var op := majors[k];
        if k < index[op] {
          Smaller(majors, index, op, k);
        } else if index[op + 1] <= k {
          NotSmaller(majors, index, op + 1, k);
        }
      }
    }
    if Complete(majors, index) {
      forall i, j | 0 <= i < j < |majors|
        ensures majors[i] <= majors[j]
      {
        if majors[j] < majors[i] {
          Ascending(majors, index, majors[j] + 1, majors[i]);
        }
      }
    }
  }

  /** What comes before `k` or after `end` does not match, so the slice decides. */
  lemma {:induction false} FirstMatchFrom(table: seq<Opcode>, from: nat, k: nat, insn: nat, isa: nat)
    requires from <= k <= |table| && forall i :: from <= i < k ==> !Matches(table[i], insn, isa)
    ensures FirstMatch(table, from, insn, isa) == FirstMatch(table, k, insn, isa)
    decreases k - from
  {
    if from < k {
      FirstMatchFrom(table, from + 1, k, insn, isa);
    }
  }

  /** In a slice that has everything with the instruction's major opcode, the first match is the first of
      the table. */
  lemma NoMatchOutside(table: seq<Opcode>, index: seq<nat>, insn: nat, isa: nat, k: nat)
    requires MajorMasked(table) && Built(Majors(table), index) && Sorted(Majors(table)) && k < |table|
    requires !(index[Major(insn)] <= k < index[Major(insn) + 1])
    ensures !Matches(table[k], insn, isa)
  {
    if Matches(table[k], insn, isa) {
      MatchHasMajor(table, k, insn, isa);
      CompleteIffSorted(Majors(table), index);
    }
  }

  lemma SliceDecides(table: seq<Opcode>, index: seq<nat>, insn: nat, isa: nat)
    requires MajorMasked(table) && Built(Majors(table), index) && Sorted(Majors(table))
    ensures index[Major(insn)] <= index[Major(insn) + 1] <= |table|
    ensures FirstMatch(table, 0, insn, isa) == FirstMatch(table, index[Major(insn)], insn, isa)
    ensures FirstMatch(table, index[Major(insn) + 1], insn, isa) == None
  {
    var op := Major(insn);
    assert Slice(Majors(table), index, op);
    forall k: nat | k < |table| && !(index[op] <= k < index[op + 1])
      ensures !Matches(table[k], insn, isa)
    {
      NoMatchOutside(table, index, insn, isa, k);
    }
    FirstMatchFrom(table, 0, index[op], insn, isa);
    FirstMatchFrom(table, index[op + 1], |table|, insn, isa);
  }

  class Disassembler {
    const table: seq<Opcode>
    const index: array<nat>
    /** Whether the index has been built. */
    var built: bool

    ghost predicate Valid()
      reads this, index
    {
      index.Length == AXP_NOPS + 1 && (built ==> Built(Majors(table), index[..]))
    }

    constructor (table: seq<Opcode>)
      ensures Valid() && this.table == table && fresh(index)
    {
      this.table, built := table, false;
      index := new nat[AXP_NOPS + 1](i => 0);
    }

    /** The loops that fill the index the first time through. */
    method BuildIndex()
      requires Valid()
      modifies this`built, index
      ensures Valid() && built
    {
      ghost var majors := Majors(table);
      var opcode: nat := 0;
      for op := 0 to AXP_NOPS
        invariant opcode <= |table| && (op == 0 ==> opcode == 0)
        invariant op > 0 ==> index[0] == 0
        invariant forall p: nat :: p + 1 < op ==> Slice(majors, index[..], p)
        invariant op > 0 ==> EndsAt(majors, index[op - 1], opcode, op - 1)
      {
        ghost var was := index[..];
        index[op] := opcode;
        forall p: nat | p < op
          ensures Slice(majors, index[..], p)
        {
          assert p + 1 < op ==> Slice(majors, was, p);
          assert index[..][p] == was[p] && index[..][p + 1] == if p + 1 == op then opcode else was[p + 1];
        }
        opcode := Skip(op, opcode);
      }
      ghost var was := index[..];
      index[AXP_NOPS] := opcode;
      forall p: nat | p < AXP_NOPS
        ensures Slice(majors, index[..], p)
      {
        assert p + 1 < AXP_NOPS ==> Slice(majors, was, p);
        assert index[..][p] == was[p] && index[..][p + 1] == if p + 1 == AXP_NOPS then opcode else was[p + 1];
      }
      built := true;
    }

    /** The inner loop. */
    method Skip(op: nat, from: nat) returns (opcode: nat)
      requires from <= |table|
      ensures EndsAt(Majors(table), from, opcode, op)
    {
      opcode := from;
      while opcode < |table| && op == Major(table[opcode].code)
        invariant from <= opcode <= |table|
        invariant forall k :: from <= k < opcode ==> Majors(table)[k] == op
      {
        opcode := opcode + 1;
      }
    }

    /** The search of print_insn_alpha: in a table that is sorted by major opcode, the slice gives what a
        search through the whole table would, the first opcode that agrees with the instruction. */
    method Find(insn: nat, isa: nat) returns (r: Option<nat>)
      requires Valid() && Sorted(Majors(table)) && MajorMasked(table)
      modifies this`built, index
      ensures Valid() && built
      ensures r == FirstMatch(table, 0, insn, isa) && IsFirst(table, 0, insn, isa, r)
    {
      r := FindIn(insn, isa);
      FirstMatchIsFirst(table, 0, insn, isa);
    }

    /** The slice of the index, built if it is not there. */
    method FindIn(insn: nat, isa: nat) returns (r: Option<nat>)
      requires Valid() && Sorted(Majors(table)) && MajorMasked(table)
      modifies this`built, index
      ensures Valid() && built
      ensures r == FirstMatch(table, 0, insn, isa)
    {
      if !built {
        BuildIndex();
      }
      var op := Major(insn);
      SliceDecides(table, index[..], insn, isa);
      r := Search(index[op], index[op + 1], insn, isa);
    }

    /** The loop over the slice. */
    method Search(from: nat, end: nat, insn: nat, isa: nat) returns (r: Option<nat>)
      requires from <= end <= |table| && FirstMatch(table, end, insn, isa) == None
      ensures r == FirstMatch(table, from, insn, isa)
    {
      var opcode := from;
      while opcode < end
        invariant from <= opcode <= end
        invariant FirstMatch(table, from, insn, isa) == FirstMatch(table, opcode, insn, isa)
      {
        if Matches(table[opcode], insn, isa) {
          return Some(opcode);
        }
        opcode := opcode + 1;
      }
      return None;
    }
  }
}
