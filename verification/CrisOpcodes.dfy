/** Opcode recognition of the CRIS disassembler, without any caching: which template of the
    opcode table is the best match for an instruction word, given the prefix word before it. */
module CrisOpcodes {
  import opened Bits
  import opened Basics

  /** CPU versions an opcode or a special register applies to. */
  datatype Version =
    | VersionAll | Warning | V0To3 | V3Plus | V8 | V8Plus | SimV0To10
    | V0To10 | V3To10 | V8To10 | V10 | V10Plus | V32Plus

  /** What is being disassembled. */
  datatype Family = V0V10 | CommonV10V32 | V32

  datatype SpecReg = SpecReg(name: string, number: nat, size: nat, version: Version, warned: bool)

  datatype Opcode = Opcode(name: string, match_: nat, lose: nat, args: string, version: Version)

  datatype Tables = Tables(opcodes: seq<Opcode>, regs: seq<SpecReg>)

  /** Instruction words are 16 bits wide; the word 0 doubles as "no prefix". */
  type Insn = n: int | 0 <= n < 0x1_0000

  const NO_CRIS_PREFIX: Insn := 0
  const BDAP_QUICK_OPCODE: nat := 0x0100
  const DIP_OPCODE: nat := 0x0970

  /** The operand register field, bits 12..15. */
  function HighReg(insn: Insn): int { insn / 0x1000 % 16 }

  /** The source register field, bits 0..3. */
  function LowReg(insn: Insn): int { insn % 16 }

  /** The size field, bits 4..5. */
  function SizeField(insn: Insn): int { insn / 0x10 % 4 }

  /** Bit 10: postincrement, or assignment as a side effect. */
  predicate PostIncrement(insn: Insn) { insn / 0x400 % 2 == 1 }

  /** The low byte of a prefix word, read as a signed number. */
  function SignedLowByte(insn: Insn): (r: int)
    ensures -128 <= r <= 127 && (insn - r) % 256 == 0
  {
    var b := insn % 256;
    if b > 127 then b - 256 else b
  }

  /** Conversion of an int to a 32-bit unsigned int. */
  function AsUnsigned(n: int): (r: nat)
    requires -0x8000_0000 <= n < 0x8000_0000
    ensures r < 0x1_0000_0000 && (n - r) % 0x1_0000_0000 == 0
  {
    if n < 0 then n + 0x1_0000_0000 else n
  }

  // ---------------------------------------------------------------- number of bits

  /** The number of one bits in a word. */
  function Ones(v: nat): nat {
    if v == 0 then 0 else v % 2 + Ones(v / 2)
  }

  lemma {:induction false} AndSelf(v: nat)
    ensures And(v, v) == v
  {
    if v != 0 {
      AndSelf(v / 2);
    }
  }

  /** Clearing the lowest one bit removes exactly one of them. */
  lemma {:induction false} ClearLowestOne(v: nat)
    requires v != 0
    ensures Ones(v) == Ones(And(v, v - 1)) + 1
  {
    if v % 2 == 1 {
      AndSelf(v / 2);
      assert (v - 1) / 2 == v / 2;
    } else {
      ClearLowestOne(v / 2);
      assert (v - 1) / 2 == v / 2 - 1;
    }
    var w := And(v / 2, (v - 1) / 2);
    assert And(v, v - 1) == 2 * w;
    assert Ones(2 * w) == Ones(w);
  }

  method NumberOfBits(val: nat) returns (bits: nat)
    ensures bits == Ones(val)
  {
    bits := 0;
    var v := val;
    while v != 0
      invariant bits + Ones(v) == Ones(val)
      decreases v
    {
      ClearLowestOne(v);
      bits, v := bits + 1, And(v, v - 1);
    }
  }

  // ---------------------------------------------------------------- special registers

  /** Whether a table row describes special register `sreg` for this family. */
  predicate Describes(r: SpecReg, sreg: int, family: Family) {
    && r.number == sreg
    && if family.V32?
       then r.version in {Warning, VersionAll, V3Plus, V8Plus, V10Plus, V32Plus} && !r.warned
       else r.version != V32Plus
  }

  /** The first row of the table that describes the register. */
  function SpecRegInfo(regs: seq<SpecReg>, sreg: int, family: Family): (r: Option<SpecReg>)
    ensures r.None? <==> forall i :: 0 <= i < |regs| ==> !Describes(regs[i], sreg, family)
    ensures r.Some? ==> exists i :: 0 <= i < |regs| && regs[i] == r.value && Describes(regs[i], sreg, family)
                                    && forall j :: 0 <= j < i ==> !Describes(regs[j], sreg, family)
  {
    if regs == [] then None
    else if Describes(regs[0], sreg, family) then Some(regs[0])
    else
      var rest := SpecRegInfo(regs[1..], sreg, family);
      assert forall j :: 1 <= j < |regs| ==> regs[j] == regs[1..][j - 1];
      assert rest.Some? ==> exists i :: 1 <= i < |regs| && regs[i] == rest.value && Describes(regs[i], sreg, family)
                                        && forall j :: 0 <= j < i ==> !Describes(regs[j], sreg, family) by {
        if rest.Some? {
          var i :| 0 <= i < |regs[1..]| && regs[1..][i] == rest.value && Describes(regs[1..][i], sreg, family)
                   && forall j :: 0 <= j < i ==> !Describes(regs[1..][j], sreg, family);
          assert regs[i + 1] == rest.value;
        }
      }
      rest
  }

  /** Minus some offset of eight bits, as an unsigned number. */
  predicate IsMinusOffset(size: nat) { size <= 128 || 0x1_0000_0000 - 127 <= size < 0x1_0000_0000 }

  /** Sizes that have a class of their own, and sizes that no offset can ask for. */
  predicate SafeSize(size: nat) { size == 1 || size == 2 || size == 4 || !IsMinusOffset(size) }

  predicate RegSizesOk(regs: seq<SpecReg>) {
    forall i :: 0 <= i < |regs| ==> SafeSize(regs[i].size)
  }

  /** The special registers of the CRIS processors, by register number. */
  const SPEC_REGS_0: seq<SpecReg> := [
    SpecReg("bz", 0, 1, V32Plus, false),
    SpecReg("p0", 0, 1, VersionAll, false),
    SpecReg("vr", 1, 1, VersionAll, false),
    SpecReg("p1", 1, 1, VersionAll, false),
    SpecReg("pid", 2, 1, V32Plus, false),
    SpecReg("p2", 2, 1, V32Plus, false),
    SpecReg("p2", 2, 1, Warning, false),
    SpecReg("srs", 3, 1, V32Plus, false),
    SpecReg("p3", 3, 1, V32Plus, false),
    SpecReg("p3", 3, 1, Warning, false),
    SpecReg("wz", 4, 2, V32Plus, false),
    SpecReg("p4", 4, 2, VersionAll, false)
  ]
  const SPEC_REGS_1: seq<SpecReg> := [
    SpecReg("ccr", 5, 2, V0To10, false),
    SpecReg("exs", 5, 4, V32Plus, false),
    SpecReg("p5", 5, 2, V0To10, false),
    SpecReg("p5", 5, 4, V32Plus, false),
    SpecReg("dcr0", 6, 2, V0To3, false),
    SpecReg("eda", 6, 4, V32Plus, false),
    SpecReg("p6", 6, 2, V0To3, false),
    SpecReg("p6", 6, 4, V32Plus, false),
    SpecReg("dcr1/mof", 7, 4, V10Plus, true),
    SpecReg("dcr1/mof", 7, 2, V0To3, true),
    SpecReg("mof", 7, 4, V10Plus, false),
    SpecReg("dcr1", 7, 2, V0To3, false),
    SpecReg("p7", 7, 4, V10Plus, false),
    SpecReg("p7", 7, 2, V0To3, false)
  ]
  const SPEC_REGS_2: seq<SpecReg> := [
    SpecReg("dz", 8, 4, V32Plus, false),
    SpecReg("p8", 8, 4, VersionAll, false),
    SpecReg("ibr", 9, 4, V0To10, false),
    SpecReg("ebp", 9, 4, V32Plus, false),
    SpecReg("p9", 9, 4, VersionAll, false),
    SpecReg("irp", 10, 4, V0To10, false),
    SpecReg("erp", 10, 4, V32Plus, false),
    SpecReg("p10", 10, 4, VersionAll, false),
    SpecReg("srp", 11, 4, VersionAll, false),
    SpecReg("p11", 11, 4, VersionAll, false)
  ]
  const SPEC_REGS_3: seq<SpecReg> := [
    SpecReg("bar/dtp0", 12, 4, Warning, true),
    SpecReg("nrp", 12, 4, V32Plus, false),
    SpecReg("bar", 12, 4, V8To10, false),
    SpecReg("dtp0", 12, 4, V0To3, false),
    SpecReg("p12", 12, 4, VersionAll, false),
    SpecReg("dccr/dtp1", 13, 4, Warning, true),
    SpecReg("ccs", 13, 4, V32Plus, false),
    SpecReg("dccr", 13, 4, V8To10, false),
    SpecReg("dtp1", 13, 4, V0To3, false),
    SpecReg("p13", 13, 4, VersionAll, false),
    SpecReg("brp", 14, 4, V3To10, false),
    SpecReg("usp", 14, 4, V32Plus, false),
    SpecReg("p14", 14, 4, V3Plus, false),
    SpecReg("usp", 15, 4, V10, false),
    SpecReg("spc", 15, 4, V32Plus, false),
    SpecReg("p15", 15, 4, V10Plus, false)
  ]
  const SPEC_REGS := SPEC_REGS_0 + SPEC_REGS_1 + SPEC_REGS_2 + SPEC_REGS_3

  lemma SpecRegSizesByPart()
    ensures RegSizesOk(SPEC_REGS_0) && RegSizesOk(SPEC_REGS_1)
    ensures RegSizesOk(SPEC_REGS_2) && RegSizesOk(SPEC_REGS_3)
  {
  }

  /** The real register table meets the condition on sizes. */
  lemma SpecRegSizes()
    ensures RegSizesOk(SPEC_REGS)
  {
    SpecRegSizesByPart();
  }

  // ---------------------------------------------------------------- constraints

  /** What recognition sees of the word before an instruction: nothing, or the prefix word
      together with the `match` bits of the template that the prefix word itself matches. */
  datatype Prefix = NoPrefix | Prefixed(word: Insn, match_: nat)

  /** The five kinds of prefix that get a table each, and the table for no prefix. */
  datatype Class = Plain | Dip | BdapqM1 | BdapqM2 | BdapqM4 | Rest

  function ClassOf(p: Prefix): Class {
    match p
    case NoPrefix => Plain
    case Prefixed(word, m) =>
      if m == BDAP_QUICK_OPCODE then
        var offset := SignedLowByte(word);
        if offset == -4 then BdapqM4
        else if offset == -2 then BdapqM2
        else if offset == -1 then BdapqM1
        else Rest
      else if m == DIP_OPCODE then Dip
      else Rest
  }

  /** Outcome of one constraint letter: rejected, or the confidence and prefix flag so far. */
  datatype Verdict = Reject | Keep(confidence: nat, prefixOk: bool)

  /** The effect of the constraint letter `c`, followed by `next`. */
  function Letter(regs: seq<SpecReg>, c: char, next: char, insn: Insn, p: Prefix, family: Family,
                  confidence: nat, prefixOk: bool): Verdict
  {
    match c
    case '!' => if p.Prefixed? || !family.V0V10? then Reject else Keep(confidence, prefixOk)
    case 'U' => Reject
    case 'M' => if HighReg(insn) in {0, 4, 8} then Keep(confidence, prefixOk) else Reject
    case 'm' => if SizeField(insn) == 3 then Reject else Keep(confidence, prefixOk)
    case 'S' => if p.Prefixed? && !PostIncrement(insn) then Keep(confidence, true) else Reject
    case 's' => PostIncrementLetter(insn, p, confidence, prefixOk)
    case 'y' => PostIncrementLetter(insn, p, confidence, prefixOk)
    case 'Y' => PostIncrementLetter(insn, p, confidence, prefixOk)
    case 'B' => if IsPush(regs, next, insn, p, family) then Keep(confidence, true) else Reject
    case 'D' => if HighReg(insn) == LowReg(insn) then Keep(5, prefixOk) else Reject
    case 'P' => if SpecRegInfo(regs, HighReg(insn), family).Some? then Keep(confidence + 3, prefixOk) else Reject
    case _ => Keep(confidence, prefixOk)
  }

  /** A prefixed instruction with a side effect must not have a DIP prefix. */
  function PostIncrementLetter(insn: Insn, p: Prefix, confidence: nat, prefixOk: bool): Verdict {
    if p.NoPrefix? then Keep(confidence, prefixOk)
    else if PostIncrement(insn) && p.match_ == DIP_OPCODE then Reject
    else Keep(confidence, true)
  }

  /** A "push" prefix: a quick offset that is minus the size of what is pushed. */
  predicate IsPush(regs: seq<SpecReg>, next: char, insn: Insn, p: Prefix, family: Family) {
    && p.Prefixed?
    && p.match_ == BDAP_QUICK_OPCODE
    && var pushSize := SignedLowByte(p.word);
       if next == 'P' then
         var reg := SpecRegInfo(regs, HighReg(insn), family);
         reg.Some? && reg.value.size == AsUnsigned(-pushSize)
       else
         next == 'R' && SizeField(insn) == 2 && pushSize == -4
  }

  /** Confidence of a match by the letters `args[i..]`, or -1 when they reject it. */
  function Constraint(regs: seq<SpecReg>, args: string, i: nat, insn: Insn, p: Prefix, family: Family,
                      confidence: nat, prefixOk: bool): (level: int)
    requires i <= |args|
    ensures level >= -1
    decreases |args| - i
  {
    if i == |args| then
      if p.Prefixed? && !prefixOk then -1 else confidence
    else
      match Letter(regs, args[i], NextChar(args, i), insn, p, family, confidence, prefixOk)
      case Reject => -1
      case Keep(c, ok) => Constraint(regs, args, i + 1, insn, p, family, c, ok)
  }

  /** The letter after position `i`, or the terminating NUL. */
  function NextChar(args: string, i: nat): char
    requires i < |args|
  {
    if i + 1 < |args| then args[i + 1] else '\0'
  }

  // ---------------------------------------------------------------- the best template

  /** Versions on which the scan stops the program. */
  predicate Aborts(version: Version, family: Family) {
    if family.V32? then version.V8? else version.V8? || version.V3To10?
  }

  /** Versions of templates that are considered at all. */
  predicate Considered(version: Version, family: Family) {
    if family.V32? then version in {VersionAll, V3Plus, V8Plus, V10Plus, V32Plus}
    else !version.V32Plus?
  }

  /** Tables the scan can run over to its end. */
  predicate TablesOk(t: Tables, family: Family) {
    && (forall i :: 0 <= i < |t.opcodes| ==> !Aborts(t.opcodes[i].version, family))
    && RegSizesOk(t.regs)
  }

  /** A template fits when its one bits are set, its zero bits are clear and no constraint rejects. */
  function Level(regs: seq<SpecReg>, o: Opcode, insn: Insn, p: Prefix, family: Family): (level: int)
    ensures level >= -1
  {
    if !Considered(o.version, family) then -1
    else if And(o.match_, insn) != o.match_ then -1
    else if And(o.lose, insn) != 0 then -1
    else
      var c := Constraint(regs, o.args, 0, insn, p, family, 0, false);
      if c < 0 then -1 else c + 2 * Ones(Or(o.match_, o.lose))
  }

  /** The level of every template, in table order. */
  function Levels(t: Tables, insn: Insn, p: Prefix, family: Family): (levels: seq<int>)
    ensures |levels| == |t.opcodes|
  {
    seq(|t.opcodes|, k requires 0 <= k < |t.opcodes| => Level(t.regs, t.opcodes[k], insn, p, family))
  }

  /** At this level nothing can match better. */
  const FULL_MATCH := 32

  /** What "best match" means: the first full match if there is one, otherwise the first template of
      the highest level; nothing when every template is rejected. */
  ghost predicate IsBest(levels: seq<int>, r: Option<nat>) {
    match r
    case None => forall k :: 0 <= k < |levels| ==> levels[k] < 0
    case Some(b) =>
      && b < |levels|
      && levels[b] >= 0
      && (forall k :: 0 <= k < b ==> levels[k] < 2 * 16 && levels[k] < levels[b])
      && (levels[b] < 2 * 16 ==> forall k :: b < k < |levels| ==> levels[k] <= levels[b])
  }

  /** The best match, searched from the end of the table. */
  function BestOf(levels: seq<int>): (r: Option<nat>)
    ensures r.Some? ==> r.value < |levels|
  {
    if levels == [] then None
    else if levels[0] >= FULL_MATCH then Some(0)
    else
      var later := BestOf(levels[1..]);
      if levels[0] >= 0 && (later.None? || levels[later.value + 1] <= levels[0]) then Some(0)
      else if later.None? then None
      else Some(later.value + 1)
  }

  lemma {:induction false} BestOfIsBest(levels: seq<int>)
    ensures IsBest(levels, BestOf(levels))
  {
    if levels != [] {
      var rest := levels[1..];
      BestOfIsBest(rest);
      assert forall k :: 1 <= k < |levels| ==> levels[k] == rest[k - 1];
    }
  }

  /** The search finds exactly the best match. */
  lemma BestIsBest(levels: seq<int>, r: Option<nat>)
    ensures r == BestOf(levels) <==> IsBest(levels, r)
  {
    BestOfIsBest(levels);
  }

  function Best(t: Tables, insn: Insn, p: Prefix, family: Family): (r: Option<nat>)
    ensures r.Some? ==> r.value < |t.opcodes|
  {
    BestOf(Levels(t, insn, p, family))
  }

  /** Recognition with a prefix word: the prefix is looked up by itself first, and when it matches
      nothing the instruction is not recognised either. */
  function Lookup(t: Tables, insn: Insn, prefix: Insn, family: Family): (r: Option<nat>)
    ensures r.Some? ==> r.value < |t.opcodes|
  {
    if prefix == NO_CRIS_PREFIX then Best(t, insn, NoPrefix, family)
    else
      var po := Best(t, prefix, NoPrefix, family);
      if po.None? then None else Best(t, insn, Prefixed(prefix, t.opcodes[po.value].match_), family)
  }

  /** The prefix a non-zero prefix word stands for, when it is recognised. */
  function PrefixOf(t: Tables, prefix: Insn, family: Family): Prefix
    requires prefix != NO_CRIS_PREFIX ==> Best(t, prefix, NoPrefix, family).Some?
  {
    if prefix == NO_CRIS_PREFIX then NoPrefix
    else Prefixed(prefix, t.opcodes[Best(t, prefix, NoPrefix, family).value].match_)
  }

  // ---------------------------------------------------------------- prefixes of one class

  lemma PushDependsOnClass(regs: seq<SpecReg>, next: char, insn: Insn, p: Prefix, q: Prefix, family: Family)
    requires RegSizesOk(regs)
    requires ClassOf(p) == ClassOf(q)
    ensures IsPush(regs, next, insn, p, family) == IsPush(regs, next, insn, q, family)
  {
    var reg := SpecRegInfo(regs, HighReg(insn), family);
    if reg.Some? {
      assert SafeSize(reg.value.size);
    }
  }

  /** The class of a prefix is all that recognition sees of it: two prefixes of one class give every
      template the same confidence on every instruction word. */
  lemma {:induction false} ConstraintDependsOnClass(regs: seq<SpecReg>, args: string, i: nat, insn: Insn,
                                                    p: Prefix, q: Prefix, family: Family,
                                                    confidence: nat, prefixOk: bool)
    requires RegSizesOk(regs)
    requires ClassOf(p) == ClassOf(q)
    requires i <= |args|
    ensures Constraint(regs, args, i, insn, p, family, confidence, prefixOk)
         == Constraint(regs, args, i, insn, q, family, confidence, prefixOk)
    decreases |args| - i
  {
    if i < |args| {
      PushDependsOnClass(regs, NextChar(args, i), insn, p, q, family);
      var v := Letter(regs, args[i], NextChar(args, i), insn, p, family, confidence, prefixOk);
      assert v == Letter(regs, args[i], NextChar(args, i), insn, q, family, confidence, prefixOk);
      if v.Keep? {
        ConstraintDependsOnClass(regs, args, i + 1, insn, p, q, family, v.confidence, v.prefixOk);
      }
    }
  }

  /** So two prefixes of one class have the same best match on every instruction word. */
  lemma BestDependsOnClass(t: Tables, insn: Insn, p: Prefix, q: Prefix, family: Family)
    requires RegSizesOk(t.regs)
    requires ClassOf(p) == ClassOf(q)
    ensures Best(t, insn, p, family) == Best(t, insn, q, family)
  {
    forall k | 0 <= k < |t.opcodes|
      ensures Levels(t, insn, p, family)[k] == Levels(t, insn, q, family)[k]
    {
      ConstraintDependsOnClass(t.regs, t.opcodes[k].args, 0, insn, p, q, family, 0, false);
    }
    assert Levels(t, insn, p, family) == Levels(t, insn, q, family);
  }

  /** The prefix word asks for a push of this size. */
  predicate AsksFor(p: Prefix, size: nat) {
    p.Prefixed? && p.match_ == BDAP_QUICK_OPCODE && size == AsUnsigned(-SignedLowByte(p.word))
  }

  /** A prefix that asks for a size, and one of the same class that does not. */
  lemma TellApart(size: nat) returns (p: Prefix, q: Prefix)
    requires !SafeSize(size)
    ensures ClassOf(p) == ClassOf(q) == Rest && AsksFor(p, size) && !AsksFor(q, size) && q.Prefixed?
    ensures q.match_ == BDAP_QUICK_OPCODE
  {
    var word: Insn := if size == 0 then 0x0100 else if size <= 128 then 0x0200 - size
          else 0x0100 + (0x1_0000_0000 - size);
    assert SignedLowByte(word) == if size <= 128 then -(size as int) else 0x1_0000_0000 - size as int;
    p := Prefixed(word, BDAP_QUICK_OPCODE);
    var other: Insn := if size == 0x1_0000_0000 - 5 then 0x0106 else 0x0105;
    q := Prefixed(other, BDAP_QUICK_OPCODE);
    assert SignedLowByte(other) == if other == 0x0106 then 6 else 5;
  }

  /** The safe sizes are exactly those for which the class of a prefix decides whether it asks for them. */
  lemma SafeSizesExactly(size: nat)
    ensures SafeSize(size)
       <==> (forall p: Prefix, q: Prefix :: ClassOf(p) == ClassOf(q) ==> AsksFor(p, size) == AsksFor(q, size))
  {
    if !SafeSize(size) {
      var p, q := TellApart(size);
      assert ClassOf(p) == ClassOf(q);
    }
  }

  /** The reliance on register sizes is real: with a special register of any other size, two prefixes that
      share the table for other prefixes are told apart by a "push" template. */
  lemma UnsafeSizeBreaksClasses(size: nat)
    requires !SafeSize(size)
    ensures exists regs: seq<SpecReg>, p: Prefix, q: Prefix, insn: Insn ::
              && ClassOf(p) == ClassOf(q) == Rest
              && Constraint(regs, "BP", 0, insn, p, V0V10, 0, false)
              != Constraint(regs, "BP", 0, insn, q, V0V10, 0, false)
  {
    var regs := [SpecReg("x", 0, size, VersionAll, false)];
    var p, q := TellApart(size);
    assert Describes(regs[0], 0, V0V10);
    assert IsPush(regs, 'P', 0, p, V0V10) && !IsPush(regs, 'P', 0, q, V0V10);
    assert Constraint(regs, "BP", 2, 0, p, V0V10, 3, true) == 3;
    assert Constraint(regs, "BP", 1, 0, p, V0V10, 0, true) == 3;
    assert Constraint(regs, "BP", 0, 0, p, V0V10, 0, false) == 3;
    assert Constraint(regs, "BP", 0, 0, q, V0V10, 0, false) == -1;
  }
}
