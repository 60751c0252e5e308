/** Rows of the opcode table of the CRIS disassembler: what their letters make of some words, and one word that is
    recognised by its row. */
module CrisRows {
  import opened Basics
  import opened Bits
  import opened CrisOpcodes

  const ADD_REGISTERS := Opcode("add", 0x0600, 0x09c0, "m r,R", VersionAll)
  const ADD_PREFIXED := Opcode("add", 0x0a00, 0x01c0, "m S,D", V0To10)
  const PUSH := Opcode("push", 0x0fee, 0x0011, "BR", V0To10)
  const POP := Opcode("pop", 0x0e6e, 0x0191, "!R", V0To10)
  const CLEAR := Opcode("clear", 0x0670, 0x3980, "M r", VersionAll)
  const MOVE_TO_SPECIAL := Opcode("move", 0x0630, 0x09c0, "r,P", VersionAll)

  // ---------------------------------------------------------------- letters

  /** What the letters of a row make of a word without a prefix. */
  function Plainly(regs: seq<SpecReg>, o: Opcode, insn: Insn, family: Family): int {
    Constraint(regs, o.args, 0, insn, NoPrefix, family, 0, false)
  }

  /** And with the prefix word `word`, which matches a template with the bits `match_`. */
  function After(regs: seq<SpecReg>, o: Opcode, insn: Insn, word: Insn, match_: nat): int {
    Constraint(regs, o.args, 0, insn, Prefixed(word, match_), V0V10, 0, false)
  }

  /** "add" of registers: not of size 3, and never with a prefix. */
  lemma AddLetters(regs: seq<SpecReg>)
    ensures Plainly(regs, ADD_REGISTERS, 0x2621, V32) == 0
    ensures Plainly(regs, ADD_REGISTERS, 0x2631, V32) == -1
    ensures After(regs, ADD_REGISTERS, 0x2621, 0x2543, 0x0540) == -1
  {
  }

  /** "add" with a prefix: into the register that is the operand, and without a side effect. */
  lemma AddPrefixedLetters(regs: seq<SpecReg>)
    ensures After(regs, ADD_PREFIXED, 0x2a22, 0x2543, 0x0540) == 5
    ensures After(regs, ADD_PREFIXED, 0x2a23, 0x2543, 0x0540) == -1
    ensures After(regs, ADD_PREFIXED, 0x2e22, 0x2543, 0x0540) == -1
    ensures Plainly(regs, ADD_PREFIXED, 0x2a22, V0V10) == -1
  {
  }

  /** "push" of a general register: after an offset of -4 and no other, and never without a prefix. */
  lemma PushLetters(regs: seq<SpecReg>)
    ensures After(regs, PUSH, 0x3fee, 0xe1fc, 0x0100) == 0
    ensures After(regs, PUSH, 0x3fee, 0xe1fe, 0x0100) == -1
    ensures Plainly(regs, PUSH, 0x3fee, V0V10) == -1
  {
  }

  /** "pop": without a prefix, and not if the code may be for CRISv32. */
  lemma PopLetters(regs: seq<SpecReg>)
    ensures Plainly(regs, POP, 0x3e6e, V0V10) == 0
    ensures Plainly(regs, POP, 0x3e6e, CommonV10V32) == -1
    ensures After(regs, POP, 0x3e6e, 0xe1fc, 0x0100) == -1
  {
  }

  /** "clear": special registers 0, 4 and 8 stand for sizes, and 12 does not. */
  lemma ClearLetters(regs: seq<SpecReg>)
    ensures Plainly(regs, CLEAR, 0x0675, V32) == Plainly(regs, CLEAR, 0x4675, V32) == 0
    ensures Plainly(regs, CLEAR, 0x8675, V32) == 0 && Plainly(regs, CLEAR, 0xc675, V32) == -1
  {
  }

  /** "move" to a special register: only to one that there is. */
  lemma MoveLetters(regs: seq<SpecReg>)
    ensures Plainly(regs, MOVE_TO_SPECIAL, 0xb63a, V0V10) == if SpecRegInfo(regs, 11, V0V10).Some? then 3 else -1
  {
  }

  // ---------------------------------------------------------------- the bits

  predicate Fits(o: Opcode, insn: Insn, n: nat) {
    And(o.match_, insn) == o.match_ && And(o.lose, insn) == 0 && Ones(Or(o.match_, o.lose)) == n
  }

  /** A template whose bits fit has the level of its letters, and two for each bit that it fixes. */
  lemma LevelIf(regs: seq<SpecReg>, o: Opcode, insn: Insn, p: Prefix, family: Family, c: nat, n: nat)
    requires Fits(o, insn, n) && Considered(o.version, family)
    requires Constraint(regs, o.args, 0, insn, p, family, 0, false) == c
    ensures Level(regs, o, insn, p, family) == c + 2 * n
  {
  }

  lemma AddRegistersJoined()
    ensures Or(0x0600, 0x09c0) == 0x0fc0
  {
    assert Or(0x1, 0x2) == 0x3;
    assert Or(0x6, 0x9) == 0xf;
    assert Or(0x18, 0x27) == 0x3f;
    assert Or(0x60, 0x9c) == 0xfc;
    assert Or(0x180, 0x270) == 0x3f0;
    assert Or(0x600, 0x9c0) == 0xfc0;
  }

  lemma AddRegistersOnes()
    ensures Ones(0x0fc0) == 6
  {
    assert Ones(0x1) == 1;
    assert Ones(0x3) == 2;
    assert Ones(0x7) == 3;
    assert Ones(0xf) == 4;
    assert Ones(0x1f) == 5;
    assert Ones(0x3f) == 6;
    assert Ones(0x7e) == 6;
    assert Ones(0xfc) == 6;
    assert Ones(0x1f8) == 6;
    assert Ones(0x3f0) == 6;
    assert Ones(0x7e0) == 6;
    assert Ones(0xfc0) == 6;
  }

  lemma AddRegistersBits()
    ensures And(0x0600, 0x2621) == 0x0600 && And(0x09c0, 0x2621) == 0
  {
    assert And(0x1, 0x9) == 0x1;
    assert And(0x6, 0x26) == 0x6;
    assert And(0x18, 0x98) == 0x18;
    assert And(0x60, 0x262) == 0x60;
    assert And(0x180, 0x988) == 0x180;
    assert And(0x600, 0x2621) == 0x600;
    assert And(0x2, 0x9) == 0x0;
    assert And(0x9, 0x26) == 0x0;
    assert And(0x27, 0x98) == 0x0;
    assert And(0x9c, 0x262) == 0x0;
    assert And(0x270, 0x988) == 0x0;
    assert And(0x9c0, 0x2621) == 0x0;
  }

  lemma AddRegistersFits()
    ensures Fits(ADD_REGISTERS, 0x2621, 6)
  {
    AddRegistersJoined();
    AddRegistersOnes();
    AddRegistersBits();
  }

  // ---------------------------------------------------------------- words and rows

  /** add.d r1,r2 is a word of its row. */
  lemma AddRegisters(regs: seq<SpecReg>)
    ensures Level(regs, ADD_REGISTERS, 0x2621, NoPrefix, V32) == 12
  {
    AddRegistersFits();
    AddLetters(regs);
    LevelIf(regs, ADD_REGISTERS, 0x2621, NoPrefix, V32, 0, 6);
  }

  lemma OnlySecond(levels: seq<int>)
    requires |levels| == 3 && levels[0] < 0 <= levels[1] && levels[2] < 0
    ensures BestOf(levels) == Some(1)
  {
    BestIsBest(levels, Some(1));
  }

  /** So the word is recognised by its row. */
  lemma AddRecognised(t: Tables)
    requires t.opcodes == [PUSH, ADD_REGISTERS, ADD_PREFIXED]
    ensures Lookup(t, 0x2621, NO_CRIS_PREFIX, V32) == Some(1)
  {
    AddRegisters(t.regs);
    OnlySecond(Levels(t, 0x2621, NoPrefix, V32));
  }
}
