/** The memoised opcode lookup of the CRIS disassembler. Answers are kept in six tables of 65536
    entries: one for instructions without a prefix and one for each class of prefix. */
module CrisDisassembler {
  import opened Basics
  import opened Bits
  import opened CrisOpcodes

  /** The row of a class in the two-dimensional table below. */
  function Row(c: Class): (r: nat)
    ensures r < 6
  {
    match c
    case Plain => 0
    case Dip => 1
    case BdapqM1 => 2
    case BdapqM2 => 3
    case BdapqM4 => 4
    case Rest => 5
  }

  /** One prefix of each class. */
  function Representative(c: Class): (p: Prefix)
    ensures ClassOf(p) == c
  {
    match c
    case Plain => NoPrefix
    case Dip => Prefixed(DIP_OPCODE, DIP_OPCODE)
    case BdapqM1 => Prefixed(0x01ff, BDAP_QUICK_OPCODE)
    case BdapqM2 => Prefixed(0x01fe, BDAP_QUICK_OPCODE)
    case BdapqM4 => Prefixed(0x01fc, BDAP_QUICK_OPCODE)
    case Rest => Prefixed(0x0540, 0x0540)
  }

  lemma SpecRegStep(regs: seq<SpecReg>, i: nat, sreg: int, family: Family)
    requires i < |regs|
    ensures SpecRegInfo(regs[i..], sreg, family)
         == if Describes(regs[i], sreg, family) then Some(regs[i]) else SpecRegInfo(regs[i + 1..], sreg, family)
  {
    assert regs[i..][1..] == regs[i + 1..];
  }

  /** Two families make the same of an instruction and of the prefix before it. */
  ghost predicate ReadAlike(t: Tables, insn: Insn, prefix: Insn, f: Family, g: Family) {
    && Lookup(t, insn, prefix, f) == Lookup(t, insn, prefix, g)
    && (prefix != NO_CRIS_PREFIX ==> Best(t, prefix, NoPrefix, f) == Best(t, prefix, NoPrefix, g))
  }

  lemma AlikeByClass(t: Tables, insn: Insn, prefix: Insn, f: Family, g: Family, p: Prefix)
    requires RegSizesOk(t.regs) && ReadAlike(t, insn, prefix, f, g)
    requires prefix != NO_CRIS_PREFIX ==> Best(t, prefix, NoPrefix, f).Some?
    requires p == PrefixOf(t, prefix, f)
    ensures Lookup(t, insn, prefix, f) == Best(t, insn, Representative(ClassOf(p)), g)
  {
    BestDependsOnClass(t, insn, p, Representative(ClassOf(p)), g);
  }

  /** Among the first `k` levels none is a full match, and `best` is the first of the highest one. */
  ghost predicate BestSoFar(levels: seq<int>, k: nat, best: Option<nat>, maxLevel: int) {
    && k <= |levels| && maxLevel < FULL_MATCH
    && (best.None? ==> maxLevel == -1)
    && (best.Some? ==> best.value < k && 0 <= maxLevel == levels[best.value])
    && (forall j :: 0 <= j < k ==> levels[j] <= maxLevel)
    && (best.Some? ==> forall j :: 0 <= j < best.value ==> levels[j] < maxLevel)
  }

  lemma NextLevel(levels: seq<int>, k: nat, best: Option<nat>, maxLevel: int, level: int)
    requires BestSoFar(levels, k, best, maxLevel) && k < |levels| && level == levels[k] >= -1
    ensures level <= maxLevel ==> BestSoFar(levels, k + 1, best, maxLevel)
    ensures maxLevel < level < FULL_MATCH ==> BestSoFar(levels, k + 1, Some(k), level)
    ensures maxLevel < level && level >= FULL_MATCH ==> IsBest(levels, Some(k))
  {
  }

  lemma AllLevels(levels: seq<int>, best: Option<nat>, maxLevel: int)
    requires BestSoFar(levels, |levels|, best, maxLevel)
    ensures IsBest(levels, best)
  {
  }

  class Disassembler {
    const t: Tables
    /** The six tables as the rows of one array; an entry is an index into the opcode table. */
    const memo: array2<Option<nat>>

    constructor (t: Tables)
      ensures this.t == t && fresh(memo) && Shape() && InTable()
      ensures forall row, insn: Insn :: 0 <= row < 6 ==> memo[row, insn] == None
      ensures forall family :: Memo(family)
    {
      this.t := t;
      memo := new Option<nat>[6, 0x1_0000]((i, j) => None);
    }

    ghost predicate Shape() {
      memo.Length0 == 6 && memo.Length1 == 0x1_0000
    }

    /** Every filled entry holds the answer of the search without tables. */
    ghost predicate Memo(family: Family)
      requires Shape()
      reads memo
    {
      forall c: Class, insn: Insn {:trigger EntryRight(c, insn, family)} :: EntryRight(c, insn, family)
    }

    ghost predicate EntryRight(c: Class, insn: Insn, family: Family)
      requires Shape()
      reads memo
    {
      memo[Row(c), insn].Some? ==> memo[Row(c), insn] == Best(t, insn, Representative(c), family)
    }

    /** Filled entries are indices into the opcode table. */
    ghost predicate InTable()
      requires Shape()
      reads memo
    {
      forall row, insn: Insn :: 0 <= row < 6 && memo[row, insn].Some? ==> memo[row, insn].value < |t.opcodes|
    }

    /** What the tables as they are make of a word without a prefix. */
    ghost function PlainNow(insn: Insn, family: Family): (r: Option<nat>)
      requires Shape() && InTable()
      reads memo
      ensures r.Some? ==> r.value < |t.opcodes|
    {
      if memo[Row(Plain), insn].Some? then memo[Row(Plain), insn] else Best(t, insn, NoPrefix, family)
    }

    /** What they make of a prefix word. */
    ghost function PrefixNow(prefix: Insn, family: Family): (p: Option<Prefix>)
      requires Shape() && InTable()
      reads memo
      ensures p.Some? && prefix != NO_CRIS_PREFIX ==> p.value.Prefixed?
    {
      if prefix == NO_CRIS_PREFIX then Some(NoPrefix)
      else
        var po := PlainNow(prefix, family);
        if po.None? then None else Some(Prefixed(prefix, t.opcodes[po.value].match_))
    }

    /** What they make of an instruction after a prefix word, whatever is in them. */
    ghost function AnswerNow(insn: Insn, prefix: Insn, family: Family): (r: Option<nat>)
      requires Shape() && InTable()
      reads memo
    {
      var p := PrefixNow(prefix, family);
      if p.None? then None
      else
        var e := memo[Row(ClassOf(p.value)), insn];
        if e.Some? then e else Best(t, insn, p.value, family)
    }

    /** As long as the tables are right, so is the answer. */
    lemma RightNow(insn: Insn, prefix: Insn, family: Family)
      requires Shape() && InTable() && TablesOk(t, family) && Memo(family)
      ensures AnswerNow(insn, prefix, family) == Lookup(t, insn, prefix, family)
      ensures PlainNow(prefix, family) == Best(t, prefix, NoPrefix, family)
    {
      assert EntryRight(Plain, prefix, family);
      var p := PrefixNow(prefix, family);
      if p.Some? {
        var c := ClassOf(p.value);
        BestDependsOnClass(t, insn, p.value, Representative(c), family);
        assert EntryRight(c, insn, family);
      }
    }

    /** When the prefix is read right, the answer is right exactly if the entry that is read for the
        instruction holds nothing or the family's own best template. */
    lemma RightIffEntry(insn: Insn, prefix: Insn, family: Family)
      requires Shape() && InTable()
      requires prefix != NO_CRIS_PREFIX ==> PlainNow(prefix, family) == Best(t, prefix, NoPrefix, family)
      ensures AnswerNow(insn, prefix, family) == Lookup(t, insn, prefix, family)
         <==> var p := PrefixNow(prefix, family);
              p.None? || var e := memo[Row(ClassOf(p.value)), insn]; e.None? || e == Lookup(t, insn, prefix, family)
    {
    }

    /** Recognises `insn` after `prefix`. Whatever is in the tables, the answer is what they make of it, and
        only the entries of the prefix and of the instruction may be filled. If the tables are right for the
        family, the answer is that of the search without tables; and they stay right for every family that
        reads the two words alike. */
    method GetOpcodeEntry(insn: Insn, prefix: Insn, family: Family) returns (r: Option<nat>)
      requires Shape() && TablesOk(t, family) && InTable()
      modifies memo
      ensures InTable()
      ensures r == old(AnswerNow(insn, prefix, family))
      ensures forall row, i: Insn :: 0 <= row < 6 ==> memo[row, i] == old(After(insn, prefix, family, row, i))
      ensures old(Memo(family)) ==> r == Lookup(t, insn, prefix, family)
      ensures old(Memo(family)) ==> forall g: Family :: ReadAlike(t, insn, prefix, family, g) && old(Memo(g)) ==>
                Memo(g)
    {
      ghost var right, p, po := Memo(family), PrefixNow(prefix, family), PlainNow(prefix, family);
      if right {
        RightNow(insn, prefix, family);
      }
      r := LookUp(insn, prefix, family);
      if right {
        forall g: Family | ReadAlike(t, insn, prefix, family, g) && old(Memo(g))
          ensures Memo(g)
        {
          forall c: Class, i: Insn
            ensures EntryRight(c, i, g)
          {
            assert old(EntryRight(c, i, g));
            assert memo[Row(c), i] == old(After(insn, prefix, family, Row(c), i));
            if p.Some? && c == ClassOf(p.value) && i == insn {
              assert prefix != NO_CRIS_PREFIX ==> po == Best(t, prefix, NoPrefix, family);
              AlikeByClass(t, insn, prefix, family, g, p.value);
            }
          }
        }
      }
    }

    /** The look-up itself. */
    method LookUp(insn: Insn, prefix: Insn, family: Family) returns (r: Option<nat>)
      requires Shape() && TablesOk(t, family) && InTable()
      modifies memo
      ensures InTable()
      ensures r == old(AnswerNow(insn, prefix, family))
      ensures forall row, i: Insn :: 0 <= row < 6 ==> memo[row, i] == old(After(insn, prefix, family, row, i))
      ensures old(prefix == NO_CRIS_PREFIX && memo[Row(Plain), insn].Some?) ==> unchanged(memo)
      decreases prefix != NO_CRIS_PREFIX, 3
    {
      var p := NoPrefix;
      if prefix != NO_CRIS_PREFIX {
        var po := memo[Row(Plain), prefix];
        if po.None? {
          po := LookUp(prefix, NO_CRIS_PREFIX, family);
        }
        if po.None? {
          return None;
        }
        p := Prefixed(prefix, t.opcodes[po.value].match_);
      }
      var row := Row(ClassOf(p));
      if memo[row, insn].Some? {
        r := memo[row, insn];
      } else {
        r := Scan(insn, prefix, family);
        memo[row, insn] := r;
      }
    }

    /** Entry `i` of a row after a look-up. */
    ghost function After(insn: Insn, prefix: Insn, family: Family, row: nat, i: Insn): Option<nat>
      requires Shape() && InTable() && row < 6
      reads memo
    {
      if prefix != NO_CRIS_PREFIX && row == Row(Plain) && i == prefix then PlainNow(prefix, family)
      else
        var p := PrefixNow(prefix, family);
        if p.Some? && row == Row(ClassOf(p.value)) && i == insn then AnswerNow(insn, prefix, family) else memo[row, i]
    }

    /** The scan over the whole opcode table, stopping at a full match. */
    method Scan(insn: Insn, prefix: Insn, family: Family) returns (best: Option<nat>)
      requires Shape() && TablesOk(t, family) && InTable()
      requires prefix != NO_CRIS_PREFIX ==> memo[Row(Plain), prefix].Some?
      modifies memo
      ensures unchanged(memo)
      ensures best == Best(t, insn, PrefixNow(prefix, family).value, family)
      decreases prefix != NO_CRIS_PREFIX, 2, 1
    {
      ghost var levels := Levels(t, insn, PrefixNow(prefix, family).value, family);
      best := None;
      var maxLevel := -1;
      var k := 0;
      while k < |t.opcodes|
        invariant unchanged(memo) && BestSoFar(levels, k, best, maxLevel)
      {
        var level := TemplateLevel(t.opcodes[k], insn, prefix, family);
        NextLevel(levels, k, best, maxLevel, level);
        if level > maxLevel {
          best, maxLevel := Some(k), level;
          if level >= FULL_MATCH {
            break;
          }
        }
        k := k + 1;
      }
      if k == |t.opcodes| {
        AllLevels(levels, best, maxLevel);
      }
      BestIsBest(levels, best);
    }

    /** The conditions under which a template is considered, and its level. */
    method TemplateLevel(o: Opcode, insn: Insn, prefix: Insn, family: Family) returns (level: int)
      requires Shape() && TablesOk(t, family) && InTable()
      requires prefix != NO_CRIS_PREFIX ==> memo[Row(Plain), prefix].Some?
      modifies memo
      ensures unchanged(memo)
      ensures level == Level(t.regs, o, insn, PrefixNow(prefix, family).value, family)
      decreases prefix != NO_CRIS_PREFIX, 2, 0
    {
      level := -1;
      if Considered(o.version, family) && And(o.match_, insn) == o.match_ && And(o.lose, insn) == 0 {
        level := CrisConstraint(o.args, insn, prefix, family);
        if level >= 0 {
          var bits := NumberOfBits(Or(o.match_, o.lose));
          level := level + 2 * bits;
        }
      }
    }

    /** Confidence of the constraint letters `cs`, or -1. The prefix is looked up again where a letter
        needs it; that lookup has no prefix of its own, so the recursion is two deep at most. */
    method CrisConstraint(cs: string, insn: Insn, prefix: Insn, family: Family) returns (level: int)
      requires Shape() && TablesOk(t, family) && InTable()
      requires prefix != NO_CRIS_PREFIX ==> memo[Row(Plain), prefix].Some?
      modifies memo
      ensures unchanged(memo)
      ensures level == Constraint(t.regs, cs, 0, insn, PrefixNow(prefix, family).value, family, 0, false)
      decreases prefix != NO_CRIS_PREFIX, 1
    {
      ghost var p := PrefixNow(prefix, family).value;
      var retval: nat := 0;
      var prefixOk := false;
      var s := 0;
      while s < |cs|
        invariant 0 <= s <= |cs| && unchanged(memo)
        invariant Constraint(t.regs, cs, s, insn, p, family, retval, prefixOk)
               == Constraint(t.regs, cs, 0, insn, p, family, 0, false)
      {
        var c := cs[s];
        if c == '!' {
          if prefix != NO_CRIS_PREFIX || !family.V0V10? {
            return -1;
          }
        } else if c == 'U' {
          return -1;
        } else if c == 'M' {
          var tmp := HighReg(insn);
          if tmp != 0 && tmp != 4 && tmp != 8 {
            return -1;
          }
        } else if c == 'm' {
          if SizeField(insn) == 3 {
            return -1;
          }
        } else if c == 'S' {
          if prefix != NO_CRIS_PREFIX && !PostIncrement(insn) {
            prefixOk := true;
          } else {
            return -1;
          }
        } else if c == 's' || c == 'y' || c == 'Y' {
          if prefix != NO_CRIS_PREFIX {
            if PostIncrement(insn) {
              var po := LookUp(prefix, NO_CRIS_PREFIX, family);
              if t.opcodes[po.value].match_ == DIP_OPCODE {
                return -1;
              }
            }
            prefixOk := true;
          }
        } else if c == 'B' {
          var ok := PushConstraint(NextChar(cs, s), insn, prefix, family);
          if !ok {
            return -1;
          }
          prefixOk := true;
        } else if c == 'D' {
          if HighReg(insn) == LowReg(insn) {
            retval := 5;
          } else {
            return -1;
          }
        } else if c == 'P' {
          var reg := FindSpecReg(HighReg(insn), family);
          if reg.Some? {
            retval := retval + 3;
          } else {
            return -1;
          }
        }
        s := s + 1;
      }
      level := if prefix != NO_CRIS_PREFIX && !prefixOk then -1 else retval;
    }

    /** The 'B' letter: is the prefix a push of the size that the next letter asks for? */
    method PushConstraint(next: char, insn: Insn, prefix: Insn, family: Family) returns (ok: bool)
      requires Shape() && TablesOk(t, family) && InTable()
      requires prefix != NO_CRIS_PREFIX ==> memo[Row(Plain), prefix].Some?
      modifies memo
      ensures unchanged(memo)
      ensures ok == IsPush(t.regs, next, insn, PrefixNow(prefix, family).value, family)
      decreases prefix != NO_CRIS_PREFIX, 0
    {
      ok := false;
      if prefix != NO_CRIS_PREFIX {
        var po := LookUp(prefix, NO_CRIS_PREFIX, family);
        if t.opcodes[po.value].match_ == BDAP_QUICK_OPCODE {
          var pushSize := prefix % 256;
          if pushSize > 127 {
            pushSize := pushSize - 256;
          }
          if next == 'P' {
            var reg := FindSpecReg(HighReg(insn), family);
            ok := reg.Some? && reg.value.size == AsUnsigned(-pushSize);
          } else if next == 'R' {
            ok := SizeField(insn) == 2 && pushSize == -4;
          }
        }
      }
    }

    /** The search for a special register. */
    method FindSpecReg(sreg: int, family: Family) returns (r: Option<SpecReg>)
      ensures r == SpecRegInfo(t.regs, sreg, family)
    {
      var i := 0;
      while i < |t.regs|
        invariant 0 <= i <= |t.regs|
        invariant SpecRegInfo(t.regs[i..], sreg, family) == SpecRegInfo(t.regs, sreg, family)
      {
        SpecRegStep(t.regs, i, sreg, family);
        if t.regs[i].number == sreg {
          if family.V32? {
            match t.regs[i].version {
              case Warning | VersionAll | V3Plus | V8Plus | V10Plus | V32Plus =>
                if !t.regs[i].warned {
                  return Some(t.regs[i]);
                }
              case _ =>
            }
          } else if t.regs[i].version != V32Plus {
            return Some(t.regs[i]);
          }
        }
        i := i + 1;
      }
      return None;
    }
  }

  /** A whole disassembly of one family: any sequence of lookups through one set of tables gives,
      call by call, the answers of the search without tables. */
  method Disassemble(t: Tables, calls: seq<(Insn, Insn)>, family: Family) returns (answers: seq<Option<nat>>)
    requires TablesOk(t, family)
    ensures |answers| == |calls|
    ensures forall i :: 0 <= i < |calls| ==> answers[i] == Lookup(t, calls[i].0, calls[i].1, family)
  {
    var d := new Disassembler(t);
    answers := [];
    for n := 0 to |calls|
      invariant d.t == t && d.Shape() && d.InTable() && d.Memo(family) && fresh(d) && fresh(d.memo)
      invariant |answers| == n
      invariant forall i :: 0 <= i < n ==> answers[i] == Lookup(t, calls[i].0, calls[i].1, family)
    {
      var r := d.GetOpcodeEntry(calls[n].0, calls[n].1, family);
      answers := answers + [r];
    }
  }

  // ---------------------------------------------------------------- two families

  ghost predicate AllOk(t: Tables, f: Family, g: Family) {
    forall h: Family :: h == f || h == g ==> TablesOk(t, h)
  }

  /** What the second of two look-ups of the same words gives, the first for `f` and the second for `g`: an
      answer that was found for `f` stays, and so does what `f` made of the prefix. */
  function SecondAnswer(t: Tables, insn: Insn, prefix: Insn, f: Family, g: Family): Option<nat> {
    var first := Lookup(t, insn, prefix, f);
    if first.Some? then first
    else if prefix == NO_CRIS_PREFIX then Lookup(t, insn, prefix, g)
    else
      var po := Best(t, prefix, NoPrefix, f);
      if po.None? then Lookup(t, insn, prefix, g)
      else Best(t, insn, Prefixed(prefix, t.opcodes[po.value].match_), g)
  }

  method TwoLookUps(t: Tables, insn: Insn, prefix: Insn, f: Family, g: Family)
    returns (first: Option<nat>, second: Option<nat>)
    requires AllOk(t, f, g)
    ensures first == Lookup(t, insn, prefix, f) && second == SecondAnswer(t, insn, prefix, f, g)
  {
    var d := new Disassembler(t);
    assert TablesOk(t, f);
    first := FirstLookUp(d, insn, prefix, f, g);
    assert TablesOk(t, g);
    second := d.GetOpcodeEntry(insn, prefix, g);
  }

  /** A look-up in empty tables, and what it makes them answer afterwards. */
  method FirstLookUp(d: Disassembler, insn: Insn, prefix: Insn, f: Family, ghost g: Family) returns (first: Option<nat>)
    requires d.Shape() && TablesOk(d.t, f) && d.InTable()
    requires forall row, i: Insn :: 0 <= row < 6 ==> d.memo[row, i] == None
    modifies d.memo
    ensures d.InTable() && first == Lookup(d.t, insn, prefix, f)
    ensures d.AnswerNow(insn, prefix, g) == SecondAnswer(d.t, insn, prefix, f, g)
  {
    assert d.Memo(f);
    ghost var p := d.PrefixNow(prefix, f);
    first := d.GetOpcodeEntry(insn, prefix, f);
    assert prefix != NO_CRIS_PREFIX ==> d.memo[Row(Plain), prefix] == Best(d.t, prefix, NoPrefix, f);
    if p.Some? {
      assert d.memo[Row(ClassOf(p.value)), insn] == first;
    }
  }

  /** The families make the same of every pair of words. */
  ghost predicate Alike(t: Tables, f: Family, g: Family) {
    forall insn: Insn, prefix: Insn :: Lookup(t, insn, prefix, f) == Lookup(t, insn, prefix, g)
  }

  /** Two look-ups of the same words, in either order, are both answered right. */
  ghost predicate PairRight(t: Tables, insn: Insn, prefix: Insn, f: Family, g: Family) {
    && SecondAnswer(t, insn, prefix, f, g) == Lookup(t, insn, prefix, g)
    && SecondAnswer(t, insn, prefix, g, f) == Lookup(t, insn, prefix, f)
  }

  lemma PairRightWhen(t: Tables, insn: Insn, prefix: Insn, f: Family, g: Family)
    ensures PairRight(t, insn, prefix, f, g) ==> Lookup(t, insn, prefix, f) == Lookup(t, insn, prefix, g)
    ensures Alike(t, f, g) ==> PairRight(t, insn, prefix, f, g)
  {
    if Alike(t, f, g) {
      assert Lookup(t, insn, prefix, f) == Lookup(t, insn, prefix, g);
      assert Lookup(t, prefix, NO_CRIS_PREFIX, f) == Lookup(t, prefix, NO_CRIS_PREFIX, g);
    }
  }

  /** The tables can serve two families exactly if these make the same of every pair of words. Otherwise two
      look-ups are enough for a wrong answer; if they do, every run is answered right (DisassembleMixed). */
  lemma TablesServeAlikeFamilies(t: Tables, f: Family, g: Family)
    ensures Alike(t, f, g) <==> forall insn: Insn, prefix: Insn :: PairRight(t, insn, prefix, f, g)
  {
    forall insn: Insn, prefix: Insn
      ensures PairRight(t, insn, prefix, f, g) ==> Lookup(t, insn, prefix, f) == Lookup(t, insn, prefix, g)
      ensures Alike(t, f, g) ==> PairRight(t, insn, prefix, f, g)
    {
      PairRightWhen(t, insn, prefix, f, g);
    }
    if forall insn: Insn, prefix: Insn :: PairRight(t, insn, prefix, f, g) {
      forall insn: Insn, prefix: Insn
        ensures Lookup(t, insn, prefix, f) == Lookup(t, insn, prefix, g)
      {
        assert PairRight(t, insn, prefix, f, g);
      }
    }
  }

  datatype Call = Call(insn: Insn, prefix: Insn, family: Family)

  /** A run that mixes families which read every word alike: each answer is that of the search without
      tables. */
  method DisassembleMixed(t: Tables, calls: seq<Call>) returns (answers: seq<Option<nat>>)
    requires forall i :: 0 <= i < |calls| ==> TablesOk(t, calls[i].family)
    requires forall i, j :: 0 <= i < |calls| && 0 <= j < |calls| ==> Alike(t, calls[i].family, calls[j].family)
    ensures |answers| == |calls|
    ensures forall i :: 0 <= i < |calls| ==> answers[i] == Lookup(t, calls[i].insn, calls[i].prefix, calls[i].family)
  {
    var d := new Disassembler(t);
    answers := [];
    for n := 0 to |calls|
      invariant d.t == t && d.Shape() && d.InTable() && fresh(d) && fresh(d.memo)
      invariant forall i :: 0 <= i < |calls| ==> d.Memo(calls[i].family)
      invariant |answers| == n
      invariant forall i :: 0 <= i < n ==> answers[i] == Lookup(t, calls[i].insn, calls[i].prefix, calls[i].family)
    {
      var c := calls[n];
      forall i | 0 <= i < |calls|
        ensures ReadAlike(t, c.insn, c.prefix, c.family, calls[i].family)
      {
        assert Alike(t, c.family, calls[i].family);
        assert Lookup(t, c.prefix, NO_CRIS_PREFIX, c.family) == Lookup(t, c.prefix, NO_CRIS_PREFIX, calls[i].family);
      }
      var r := d.GetOpcodeEntry(c.insn, c.prefix, c.family);
      answers := answers + [r];
    }
  }

  /** Two rows of the opcode table with the same bits, one for each kind of CPU. */
  const ADDOQ := Opcode("addoq", 0x0100, 0x0e00, "Q,A", V32Plus)
  const BDAP := Opcode("bdap", 0x0100, 0x0e00, "pO", V0To10)

  lemma QuickMatch()
    ensures And(0x0100, 0x01fc) == 0x0100
  {
    assert And(1, 1) == 1;
    assert And(2, 3) == 2;
    assert And(4, 7) == 4;
    assert And(8, 15) == 8;
    assert And(16, 31) == 16;
    assert And(32, 63) == 32;
    assert And(64, 127) == 64;
    assert And(128, 254) == 128;
  }

  lemma QuickLose()
    ensures And(0x0e00, 0x01fc) == 0
  {
    assert And(7, 0) == 0;
    assert And(14, 1) == 0;
    assert And(28, 3) == 0;
    assert And(56, 7) == 0;
    assert And(112, 15) == 0;
    assert And(224, 31) == 0;
    assert And(448, 63) == 0;
    assert And(896, 127) == 0;
    assert And(1792, 254) == 0;
  }

  /** Letters that put no constraint on an instruction. */
  predicate Neutral(args: string) {
    forall i :: 0 <= i < |args| ==> args[i] !in {'!', 'U', 'M', 'm', 'S', 's', 'y', 'Y', 'B', 'D', 'P'}
  }

  lemma {:induction false} NeutralAccepts(regs: seq<SpecReg>, args: string, i: nat, insn: Insn, family: Family)
    requires Neutral(args) && i <= |args|
    ensures Constraint(regs, args, i, insn, NoPrefix, family, 0, false) == 0
    decreases |args| - i
  {
    if i < |args| {
      NeutralAccepts(regs, args, i + 1, insn, family);
    }
  }

  /** A row with the bits of BDAP quick and neutral letters. */
  predicate QuickRow(o: Opcode) {
    o.match_ == 0x0100 && o.lose == 0x0e00 && Neutral(o.args)
  }

  lemma QuickLevel(regs: seq<SpecReg>, o: Opcode, family: Family)
    requires QuickRow(o)
    ensures Level(regs, o, 0x01fc, NoPrefix, family) >= 0 <==> Considered(o.version, family)
  {
    QuickMatch();
    QuickLose();
    NeutralAccepts(regs, o.args, 0, 0x01fc, family);
  }

  lemma OneOfTwo(levels: seq<int>)
    requires |levels| == 2
    ensures levels[0] >= 0 > levels[1] ==> BestOf(levels) == Some(0)
    ensures levels[0] < 0 <= levels[1] ==> BestOf(levels) == Some(1)
  {
    BestIsBest(levels, Some(0));
    BestIsBest(levels, Some(1));
  }

  lemma QuickBest(t: Tables, word: Insn, family: Family)
    requires |t.opcodes| == 2 && QuickRow(t.opcodes[0]) && QuickRow(t.opcodes[1]) && word == 0x01fc
    requires t.opcodes[0].version == V32Plus && t.opcodes[1].version == V0To10
    ensures Lookup(t, word, NO_CRIS_PREFIX, family) == Some(if family.V32? then 0 else 1)
  {
    QuickLevel(t.regs, t.opcodes[0], family);
    QuickLevel(t.regs, t.opcodes[1], family);
    OneOfTwo(Levels(t, word, NoPrefix, family));
  }

  lemma QuickTablesOk(t: Tables)
    requires |t.opcodes| == 2 && RegSizesOk(t.regs)
    requires t.opcodes[0].version == V32Plus && t.opcodes[1].version == V0To10
    ensures AllOk(t, V0V10, V32)
  {
  }

  lemma FoundStays(t: Tables, insn: Insn, prefix: Insn, f: Family, g: Family)
    ensures Lookup(t, insn, prefix, f).Some? ==> SecondAnswer(t, insn, prefix, f, g) == Lookup(t, insn, prefix, f)
  {
  }

  /** Two rows with the same bits, one for each kind of CPU: the word 0x01fc, looked up for both through one
      set of tables, stays what it was read as first. */
  method FirstReadingStays(t: Tables, word: Insn) returns (first: Option<nat>, second: Option<nat>)
    requires |t.opcodes| == 2 && QuickRow(t.opcodes[0]) && QuickRow(t.opcodes[1]) && RegSizesOk(t.regs)
    requires t.opcodes[0].version == V32Plus && t.opcodes[1].version == V0To10 && word == 0x01fc
    ensures first == second == Some(1) && Lookup(t, word, NO_CRIS_PREFIX, V32) == Some(0)
  {
    QuickBest(t, word, V0V10);
    QuickBest(t, word, V32);
    FoundStays(t, word, NO_CRIS_PREFIX, V0V10, V32);
    QuickTablesOk(t);
    first, second := TwoLookUps(t, word, NO_CRIS_PREFIX, V0V10, V32);
  }

  /** "bdap" of the old CPUs stays "bdap" although it is "addoq" for the new one. */
  method BdapStaysBdap(regs: seq<SpecReg>, word: Insn) returns (first: string, second: string)
    requires RegSizesOk(regs) && word == 0x01fc
    ensures first == second == "bdap" && Lookup(Tables([ADDOQ, BDAP], regs), word, NO_CRIS_PREFIX, V32) == Some(0)
  {
    var t := Tables([ADDOQ, BDAP], regs);
    var f, s := FirstReadingStays(t, word);
    first, second := t.opcodes[f.value].name, t.opcodes[s.value].name;
  }
}
