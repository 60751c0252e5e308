/** What the constraint letters and the bits of a template ask of an instruction word, told letter by letter
    and bit by bit, and rows of the opcode table with the words they are for. */
module CrisConstraints {
  import opened Basics
  import opened Bits
  import opened CrisOpcodes

  // ---------------------------------------------------------------- the fields of a word

  lemma HighRegIs(insn: Insn)
    ensures HighReg(insn) == And(Shr(insn, 12), 15)
  {
    assert Pow2(4) == 16;
    HighFour(insn);
    HighAndLow(insn / 0x1000, 4);
  }

  lemma HighFour(insn: Insn)
    ensures Shr(insn, 12) == insn / 0x1000
  {
    assert Pow2(12) == 0x1000;
    HighAndLow(insn, 12);
  }

  lemma HighRegMasked(insn: Insn)
    ensures And(insn, 0xf000) == HighReg(insn) * 0x1000
  {
    assert Pow2(12) == 0x1000;
    HighRegIs(insn);
    AndShiftedMask(insn, 15, 12);
  }

  lemma LowRegIs(insn: Insn)
    ensures LowReg(insn) == And(insn, 15)
  {
    assert Pow2(4) == 16;
    HighAndLow(insn, 4);
  }

  lemma SizeFieldIs(insn: Insn)
    ensures And(insn, 0x30) == SizeField(insn) * 0x10
  {
    assert Pow2(2) == 4 && Pow2(4) == 0x10;
    HighAndLow(insn, 4);
    HighAndLow(Shr(insn, 4), 2);
    AndShiftedMask(insn, 3, 4);
  }

  lemma PostIncrementIs(insn: Insn)
    ensures PostIncrement(insn) <==> And(insn, 0x400) != 0
  {
    assert Pow2(1) == 2 && Pow2(10) == 0x400;
    HighAndLow(insn, 10);
    HighAndLow(Shr(insn, 10), 1);
    AndShiftedMask(insn, 1, 10);
  }

  lemma LowByteIs(word: Insn)
    ensures And(word, 255) == word % 256
  {
    assert Pow2(8) == 256;
    HighAndLow(word, 8);
  }

  // ---------------------------------------------------------------- the letters

  /** The register field has a special register that the family knows. */
  ghost predicate HasSpecReg(regs: seq<SpecReg>, insn: Insn, family: Family) {
    exists k :: 0 <= k < |regs| && Describes(regs[k], And(Shr(insn, 12), 15), family)
  }

  /** The first such register is `size` bytes wide. */
  ghost predicate SpecRegOfSize(regs: seq<SpecReg>, insn: Insn, family: Family, size: nat) {
    exists k :: 0 <= k < |regs| && Describes(regs[k], And(Shr(insn, 12), 15), family) && regs[k].size == size
      && forall j :: 0 <= j < k ==> !Describes(regs[j], And(Shr(insn, 12), 15), family)
  }

  /** Minus a signed byte, as an unsigned number of 32 bits. */
  function Pushed(byte: nat): nat
    requires byte < 256
  {
    if byte == 0 then 0 else if byte <= 127 then 0x1_0000_0000 - byte else 256 - byte
  }

  /** What the letter at position `i` asks of the word and its prefix. */
  ghost predicate Accepts(regs: seq<SpecReg>, args: string, i: nat, insn: Insn, p: Prefix, family: Family)
    requires i < |args|
  {
    match args[i]
    case '!' => p.NoPrefix? && family == V0V10
    case 'U' => false
    case 'M' => And(insn, 0xf000) == 0 || And(insn, 0xf000) == 0x4000 || And(insn, 0xf000) == 0x8000
    case 'm' => And(insn, 0x30) != 0x30
    case 'S' => p.Prefixed? && And(insn, 0x400) == 0
    case 's' => p.Prefixed? && p.match_ == 0x0970 ==> And(insn, 0x400) == 0
    case 'y' => p.Prefixed? && p.match_ == 0x0970 ==> And(insn, 0x400) == 0
    case 'Y' => p.Prefixed? && p.match_ == 0x0970 ==> And(insn, 0x400) == 0
    case 'B' =>
      && p.Prefixed? && p.match_ == 0x0100 && i + 1 < |args|
      && if args[i + 1] == 'P' then SpecRegOfSize(regs, insn, family, Pushed(And(p.word, 255)))
         else args[i + 1] == 'R' && And(insn, 0x30) == 0x20 && And(p.word, 255) == 0xfc
    case 'D' => And(Shr(insn, 12), 15) == And(insn, 15)
    case 'P' => HasSpecReg(regs, insn, family)
    case _ => true
  }

  ghost predicate AllAccept(regs: seq<SpecReg>, args: string, i: nat, insn: Insn, p: Prefix, family: Family) {
    forall k: nat {:trigger Accepts(regs, args, k, insn, p, family)} :: i <= k < |args| ==>
      Accepts(regs, args, k, insn, p, family)
  }

  /** The letters that a prefix is for. */
  predicate Takes(c: char) { c == 'S' || c == 's' || c == 'y' || c == 'Y' || c == 'B' }

  /** Some letter from `i` on takes a prefix. */
  ghost predicate TakesPrefix(args: string, i: nat) {
    exists k :: i <= k < |args| && Takes(args[k])
  }

  /** How often a letter is there. */
  function Count(args: string, c: char): nat {
    if args == [] then 0 else (if args[0] == c then 1 else 0) + Count(args[1..], c)
  }

  /** The letters that accept say what they ask for, however they are computed. */
  lemma LetterAccepts(regs: seq<SpecReg>, args: string, i: nat, insn: Insn, p: Prefix, family: Family,
                      confidence: nat, prefixOk: bool)
    requires i < |args|
    ensures Letter(regs, args[i], NextChar(args, i), insn, p, family, confidence, prefixOk).Keep?
       <==> Accepts(regs, args, i, insn, p, family)
  {
    match args[i]
    case 'M' => HighRegMasked(insn);
    case 'm' => SizeFieldIs(insn);
    case 'D' => HighRegIs(insn); LowRegIs(insn);
    case 'P' => HighRegIs(insn);
    case 'B' =>
      if p.Prefixed? && p.match_ == 0x0100 && i + 1 < |args| {
        PushAccepts(regs, args[i + 1], insn, p, family);
      }
    case _ => PostIncrementIs(insn);
  }

  lemma PushAccepts(regs: seq<SpecReg>, next: char, insn: Insn, p: Prefix, family: Family)
    requires p.Prefixed? && p.match_ == 0x0100
    ensures IsPush(regs, next, insn, p, family)
       <==> if next == 'P' then SpecRegOfSize(regs, insn, family, Pushed(And(p.word, 255)))
            else next == 'R' && And(insn, 0x30) == 0x20 && And(p.word, 255) == 0xfc
  {
    HighRegIs(insn);
    SizeFieldIs(insn);
    LowByteIs(p.word);
    assert Pushed(p.word % 256) == AsUnsigned(-SignedLowByte(p.word));
    var reg := SpecRegInfo(regs, HighReg(insn), family);
  }

  lemma AcceptsOneMore(regs: seq<SpecReg>, args: string, i: nat, insn: Insn, p: Prefix, family: Family)
    requires i < |args|
    ensures AllAccept(regs, args, i, insn, p, family)
       <==> Accepts(regs, args, i, insn, p, family) && AllAccept(regs, args, i + 1, insn, p, family)
  {
  }

  /** From position `i` on, with the confidence and the prefix flag so far. */
  lemma {:induction false} AcceptedFrom(regs: seq<SpecReg>, args: string, i: nat, insn: Insn, p: Prefix,
                                        family: Family, confidence: nat, prefixOk: bool)
    requires i <= |args|
    ensures Constraint(regs, args, i, insn, p, family, confidence, prefixOk) >= 0
       <==> AllAccept(regs, args, i, insn, p, family) && (p.NoPrefix? || prefixOk || TakesPrefix(args, i))
    decreases |args| - i
  {
    if i < |args| {
      LetterAccepts(regs, args, i, insn, p, family, confidence, prefixOk);
      var v := Letter(regs, args[i], NextChar(args, i), insn, p, family, confidence, prefixOk);
      if v.Keep? {
        AcceptedFrom(regs, args, i + 1, insn, p, family, v.confidence, v.prefixOk);
        assert p.Prefixed? ==> v.prefixOk == (prefixOk || Takes(args[i]));
        assert TakesPrefix(args, i) <==> Takes(args[i]) || TakesPrefix(args, i + 1);
        AcceptsOneMore(regs, args, i, insn, p, family);
      } else {
        assert !Accepts(regs, args, i, insn, p, family);
      }
    }
  }

  /** The letters accept exactly if each of them does, and a prefix is taken by one of them. */
  lemma ConstraintAccepts(regs: seq<SpecReg>, args: string, insn: Insn, p: Prefix, family: Family)
    ensures Constraint(regs, args, 0, insn, p, family, 0, false) >= 0
       <==> AllAccept(regs, args, 0, insn, p, family) && (p.NoPrefix? || TakesPrefix(args, 0))
  {
    AcceptedFrom(regs, args, 0, insn, p, family, 0, false);
  }

  /** Without a 'D' to come, each 'P' adds 3. */
  lemma {:induction false} ConfidenceWithoutD(regs: seq<SpecReg>, args: string, i: nat, insn: Insn, p: Prefix,
                                              family: Family, confidence: nat, prefixOk: bool)
    requires i <= |args| && 'D' !in args[i..]
    requires Constraint(regs, args, i, insn, p, family, confidence, prefixOk) >= 0
    ensures Constraint(regs, args, i, insn, p, family, confidence, prefixOk)
         == confidence + 3 * Count(args[i..], 'P')
    decreases |args| - i
  {
    if i < |args| {
      var v := Letter(regs, args[i], NextChar(args, i), insn, p, family, confidence, prefixOk);
      assert args[i..][0] == args[i] && args[i..][1..] == args[i + 1..];
      assert 'D' !in args[i..][1..];
      ConfidenceWithoutD(regs, args, i + 1, insn, p, family, v.confidence, v.prefixOk);
    }
  }

  /** Up to the last 'D' nothing is kept of the confidence. */
  lemma {:induction false} ConfidenceWithD(regs: seq<SpecReg>, args: string, i: nat, d: nat, insn: Insn, p: Prefix,
                                           family: Family, confidence: nat, prefixOk: bool)
    requires i <= d < |args| && args[d] == 'D' && 'D' !in args[d + 1..]
    requires Constraint(regs, args, i, insn, p, family, confidence, prefixOk) >= 0
    ensures Constraint(regs, args, i, insn, p, family, confidence, prefixOk) == 5 + 3 * Count(args[d + 1..], 'P')
    decreases |args| - i
  {
    var v := Letter(regs, args[i], NextChar(args, i), insn, p, family, confidence, prefixOk);
    if i == d {
      ConfidenceWithoutD(regs, args, i + 1, insn, p, family, v.confidence, v.prefixOk);
    } else {
      ConfidenceWithD(regs, args, i + 1, d, insn, p, family, v.confidence, v.prefixOk);
    }
  }

  /** The confidence of letters that accept: 5 from the last 'D', and 3 for each 'P' behind it. */
  lemma ConstraintConfidence(regs: seq<SpecReg>, args: string, insn: Insn, p: Prefix, family: Family)
    requires Constraint(regs, args, 0, insn, p, family, 0, false) >= 0
    ensures 'D' !in args ==> Constraint(regs, args, 0, insn, p, family, 0, false) == 3 * Count(args, 'P')
    ensures forall d :: 0 <= d < |args| && args[d] == 'D' && 'D' !in args[d + 1..] ==>
              Constraint(regs, args, 0, insn, p, family, 0, false) == 5 + 3 * Count(args[d + 1..], 'P')
  {
    if 'D' !in args {
      assert args[0..] == args;
      ConfidenceWithoutD(regs, args, 0, insn, p, family, 0, false);
    }
    forall d | 0 <= d < |args| && args[d] == 'D' && 'D' !in args[d + 1..]
      ensures Constraint(regs, args, 0, insn, p, family, 0, false) == 5 + 3 * Count(args[d + 1..], 'P')
    {
      ConfidenceWithD(regs, args, 0, d, insn, p, family, 0, false);
    }
  }

  // ---------------------------------------------------------------- versions

  /** Whether a CPU of version `v` has what is marked with `version`. */
  predicate Implements(v: nat, version: Version) {
    match version
    case VersionAll => true
    case Warning => false
    case V0To3 => v <= 3
    case V3Plus => 3 <= v
    case V8 => v == 8
    case V8Plus => 8 <= v
    case SimV0To10 => v <= 10
    case V0To10 => v <= 10
    case V3To10 => 3 <= v <= 10
    case V8To10 => 8 <= v <= 10
    case V10 => v == 10
    case V10Plus => 10 <= v
    case V32Plus => 32 <= v
  }

  /** A family takes what one of its CPUs has: V32 what version 32 has, the others what some version up to 10
      has or what is for disassembly only. */
  ghost predicate ForFamily(version: Version, family: Family) {
    if family.V32? then Implements(32, version)
    else version.Warning? || exists v: nat :: v <= 10 && Implements(v, version)
  }

  lemma ConsideredIffForFamily(version: Version, family: Family)
    ensures Considered(version, family) <==> ForFamily(version, family)
  {
    assert Implements(10, version) || Implements(8, version) || Implements(3, version) || version.Warning?
      || version.V32Plus?;
  }

  /** A register row is for disassembly only or for a CPU of the family; V32 takes no row with a warning. */
  lemma DescribesIffForFamily(r: SpecReg, sreg: int, family: Family)
    ensures Describes(r, sreg, family)
       <==> r.number == sreg && (r.version.Warning? || ForFamily(r.version, family)) && (family.V32? ==> !r.warned)
  {
    ConsideredIffForFamily(r.version, family);
  }

  // ---------------------------------------------------------------- the level of a template

  /** The bits of the word are those that the template asks for. */
  ghost predicate BitsFit(o: Opcode, insn: Insn) {
    && (forall k: nat :: Bit(o.match_, k) ==> Bit(insn, k))
    && (forall k: nat :: Bit(o.lose, k) ==> !Bit(insn, k))
  }

  /** A template is a candidate exactly if it is for the family, its bits fit, every letter accepts, and a
      prefix is taken. */
  lemma CandidateIff(regs: seq<SpecReg>, o: Opcode, insn: Insn, p: Prefix, family: Family)
    ensures Level(regs, o, insn, p, family) >= 0
       <==> && ForFamily(o.version, family) && BitsFit(o, insn) && AllAccept(regs, o.args, 0, insn, p, family)
            && (p.NoPrefix? || TakesPrefix(o.args, 0))
  {
    ConsideredIffForFamily(o.version, family);
    AndIsFirst(o.match_, insn);
    AndIsZero(o.lose, insn);
    ConstraintAccepts(regs, o.args, insn, p, family);
  }

  /** Disjoint words have their ones side by side. */
  lemma {:induction false} OnesOfOr(a: nat, b: nat)
    requires And(a, b) == 0
    ensures Ones(Or(a, b)) == Ones(a) + Ones(b)
    decreases a + b
  {
    if a != 0 || b != 0 {
      AndHalf(a, b);
      OrHalf(a, b);
      OnesOfOr(a / 2, b / 2);
    }
  }

  /** Its level is the confidence of the letters, and two for each bit that the template fixes. */
  lemma CandidateLevel(regs: seq<SpecReg>, o: Opcode, insn: Insn, p: Prefix, family: Family)
    requires Level(regs, o, insn, p, family) >= 0
    ensures Level(regs, o, insn, p, family)
         == Constraint(regs, o.args, 0, insn, p, family, 0, false) + 2 * Ones(o.match_) + 2 * Ones(o.lose)
  {
    AndIsFirst(o.match_, insn);
    AndIsZero(o.lose, insn);
    AndIsZero(o.match_, o.lose);
    OnesOfOr(o.match_, o.lose);
  }
}
