/** Whole runs of the cache of translated blocks. */
module TbRuns {
  import opened Basics
  import opened TbChains
  import opened TbCache

  datatype Action =
    | Lookup(c: nat, pc: nat, csBase: nat, flags: nat, room: bool, long: bool)
    | Invalidate(id: nat)
    | MapMissing(c: nat, addr: nat, page: nat)
    | Remap(c: nat, addr: nat, to: Option<nat>)
    | NewMapping(c: nat, mapping: map<nat, nat>)
    | FlushAll

  /** What a look-up was for, the mapping at that moment, the block it gave, and what a walk past the cache
      would have given then. */
  datatype Answer = Answer(request: Action, mapping: map<nat, nat>, id: nat, block: Block, walked: WalkResult)

  ghost predicate AnswerFits(g: Geometry, a: Answer) {
    a.request.Lookup? && Fits(g, a.mapping, a.block, a.request.pc, a.request.csBase, a.request.flags)
  }

  /** Any run of look-ups, invalidations, faults, remappings and flushes of any number of processors: every
      look-up that does not fault gives a block for the state and the mapping of its processor at that
      moment. */
  method Run(t: Translator, actions: seq<Action>) returns (answers: seq<Answer>)
    requires t.Valid()
    modifies t, t.hash, t.cache
    ensures t.Valid()
    ensures forall k :: 0 <= k < |answers| ==> AnswerFits(t.g, answers[k])
  {
    answers := [];
    for i := 0 to |actions|
      invariant t.Valid() && forall k :: 0 <= k < |answers| ==> AnswerFits(t.g, answers[k])
    {
      var answer := Perform(t, actions[i], (pc, csBase, flags, page1) => false);
      if answer.Some? {
        answers := answers + [answer.value];
      }
    }
  }

  /** If the code alone decides whether a block runs into the next page, then over any run the cache gives
      exactly what the walk along the chain would give. */
  method RunByCode(t: Translator, actions: seq<Action>, code: Code) returns (answers: seq<Answer>)
    requires t.Valid() && Determined(t.blocks, t.hash[..], code)
    modifies t, t.hash, t.cache
    ensures t.Valid() && Determined(t.blocks, t.hash[..], code)
    ensures forall k :: 0 <= k < |answers| ==> AnswerFits(t.g, answers[k]) && answers[k].walked == Found(answers[k].id)
  {
    answers := [];
    for i := 0 to |actions|
      invariant t.Valid() && Determined(t.blocks, t.hash[..], code)
      invariant forall k :: 0 <= k < |answers| ==>
                  AnswerFits(t.g, answers[k]) && answers[k].walked == Found(answers[k].id)
    {
      var a := ByCode(t, actions[i], code);
      var answer := Perform(t, a, code);
      if answer.Some? {
        answers := answers + [answer.value];
      }
    }
  }

  /** A look-up as the code decides. */
  function ByCode(t: Translator, a: Action, code: Code): (r: Action)
    reads t
    ensures Follows(t.g, t.mapping, r, code)
  {
    if a.Lookup? && a.c < |t.mapping| && t.g.page(a.pc) in t.mapping[a.c]
    then a.(long := code(a.pc, a.csBase, a.flags, t.mapping[a.c][t.g.page(a.pc)]))
    else a
  }

  ghost predicate Follows(g: Geometry, mapping: seq<map<nat, nat>>, a: Action, code: Code) {
    a.Lookup? && a.c < |mapping| && g.page(a.pc) in mapping[a.c] ==>
      a.long == code(a.pc, a.csBase, a.flags, mapping[a.c][g.page(a.pc)])
  }

  /** One action; those that make no sense in the state at hand do nothing. */
  method Perform(t: Translator, a: Action, ghost code: Code) returns (answer: Option<Answer>)
    requires t.Valid()
    modifies t, t.hash, t.cache
    ensures t.Valid()
    ensures answer.Some? ==> AnswerFits(t.g, answer.value)
    ensures old(Determined(t.blocks, t.hash[..], code) && Follows(t.g, t.mapping, a, code)) ==>
              && Determined(t.blocks, t.hash[..], code)
              && (answer.Some? ==> answer.value.walked == Found(answer.value.id))
  {
    answer := None;
    match a {
      case Lookup(c, pc, csBase, flags, room, long) =>
        if c < |t.mapping| && pc < t.g.space {
          answer := PerformLookup(t, a, code);
        }
      case Invalidate(id) =>
        var hashed := t.IsHashed(id);
        if hashed {
          t.PhysInvalidate(id);
        }
      case MapMissing(c, addr, page) =>
        if c < |t.mapping| && t.g.page(addr) !in t.mapping[c] {
          t.Fill(c, addr, page);
        }
      case Remap(c, addr, to) =>
        if c < |t.mapping| && addr < t.g.space {
          t.FlushPage(c, addr, to);
        }
      case NewMapping(c, mapping) =>
        if c < |t.mapping| {
          t.FlushTlb(c, mapping);
        }
      case FlushAll =>
        t.Flush();
    }
  }

  method PerformLookup(t: Translator, a: Action, ghost code: Code) returns (answer: Option<Answer>)
    requires t.Valid() && a.Lookup? && a.c < |t.mapping| && a.pc < t.g.space
    modifies t, t.hash, t.cache
    ensures t.Valid()
    ensures answer.Some? ==> AnswerFits(t.g, answer.value)
    ensures old(Determined(t.blocks, t.hash[..], code) && Follows(t.g, t.mapping, a, code)) ==>
              && Determined(t.blocks, t.hash[..], code)
              && (answer.Some? ==> answer.value.walked == Found(answer.value.id))
  {
    answer := None;
    ghost var blocks, chains, determined := t.blocks, t.hash[..], Determined(t.blocks, t.hash[..], code)
                && Follows(t.g, t.mapping, a, code);
    var r, generated := t.FindFast(a.c, a.pc, a.csBase, a.flags, a.room, a.long);
    if determined && generated {
      DeterminedStill(t, blocks, chains, a, r, code);
    }
    if r.Some? {
      var mapping := t.mapping[a.c];
      if determined {
        DeterminedAgrees(t.g, mapping, t.blocks, t.hash[..], a.pc, a.csBase, a.flags, code);
        assert Answers(t.g, mapping, t.blocks, t.hash[..], a.pc, a.csBase, a.flags, r.value);
      }
      answer := Some(Answer(a, mapping, r.value, t.blocks[r.value],
                            WalkFrom(t.g, mapping, t.blocks, t.hash[..], a.pc, a.csBase, a.flags)));
    }
  }

  lemma DeterminedStill(t: Translator, blocks: seq<Block>, chains: seq<seq<nat>>, a: Action, r: Option<nat>, code: Code)
    requires t.Valid() && a.Lookup? && a.c < |t.mapping| && t.g.page(a.pc) in t.mapping[a.c]
    requires |chains| == CODE_GEN_PHYS_HASH_SIZE && ChainsOk(t.g, blocks, chains)
    requires Determined(blocks, chains, code) && Follows(t.g, t.mapping, a, code)
    requires t.Generated(blocks, chains, a.c, a.pc, a.csBase, a.flags, a.room, a.long, r)
    ensures Determined(t.blocks, t.hash[..], code)
  {
    var blocks0, chains0 := if a.room then blocks else [], if a.room then chains else NoChains();
    var b := t.blocks[|blocks0|];
    if r.Some? {
      DeterminedAdded(t.g, blocks0, chains0, t.blocks, t.hash[..], b, code);
    } else {
      DeterminedUnlinked(t.g, blocks0, chains0, b, code);
    }
  }

  lemma DeterminedAdded(g: Geometry, blocks: seq<Block>, chains: seq<seq<nat>>, blocks': seq<Block>,
                        chains': seq<seq<nat>>, b: Block, code: Code)
    requires g.Lawful() && |chains| == CODE_GEN_PHYS_HASH_SIZE && ChainsOk(g, blocks, chains)
    requires Determined(blocks, chains, code)
    requires Added(g, blocks, chains, blocks', chains', b) && b.page2.Some? == code(b.pc, b.csBase, b.flags, b.page1)
    ensures Determined(blocks', chains', code)
  {
    forall id: nat | Hashed(blocks', chains', id)
      ensures id == |blocks| || Hashed(blocks, chains, id)
    {
      var h :| 0 <= h < |chains'| && id in chains'[h];
      if id != |blocks| {
        assert id in chains[h];
      }
    }
  }

  lemma DeterminedUnlinked(g: Geometry, blocks: seq<Block>, chains: seq<seq<nat>>, b: Block, code: Code)
    requires g.Lawful() && ChainsOk(g, blocks, chains) && Determined(blocks, chains, code)
    ensures Determined(blocks + [b], chains, code)
  {
    forall id: nat | Hashed(blocks + [b], chains, id)
      ensures Hashed(blocks, chains, id)
    {
      var h :| 0 <= h < |chains| && id in chains[h];
      assert ChainOk(g, blocks, h, chains[h]);
    }
  }

  /** The chain of a block. */
  ghost predicate InChain(g: Geometry, chains: seq<seq<nat>>, b: Block, chain: seq<nat>)
    requires g.Lawful()
  {
    |chains| == CODE_GEN_PHYS_HASH_SIZE && chains[Bucket(g, b)] == chain
  }

  lemma WalkInChain(g: Geometry, mapping: map<nat, nat>, blocks: seq<Block>, chains: seq<seq<nat>>, chain: seq<nat>,
                    b: Block)
    requires g.Lawful() && ChainsOk(g, blocks, chains) && InChain(g, chains, b, chain)
    requires g.page(b.pc) in mapping && mapping[g.page(b.pc)] == b.page1
    ensures forall p :: 0 <= p < |chain| ==> chain[p] < |blocks|
    ensures WalkFrom(g, mapping, blocks, chains, b.pc, b.csBase, b.flags)
              == Walk(g, mapping, blocks, chain, b.pc, b.csBase, b.flags)
  {
    assert g.Grouped(b.pc);
    assert ChainOf(g, mapping, chains, b.pc) == chain;
    ChainOfOk(g, mapping, blocks, chains, b.pc);
  }

  lemma LongBlockUnfit(g: Geometry, mapping: map<nat, nat>, b: Block, chains: seq<seq<nat>>)
    requires g.Lawful() && ChainsOk(g, [b], chains) && InChain(g, chains, b, [0]) && b.page2.Some?
    requires g.page(b.pc) in mapping && mapping[g.page(b.pc)] == b.page1
    requires g.next(g.page(b.pc)) in mapping && mapping[g.next(g.page(b.pc))] != b.page2.value
    ensures WalkFrom(g, mapping, [b], chains, b.pc, b.csBase, b.flags) == Nothing
  {
    WalkInChain(g, mapping, [b], chains, [0], b);
    assert [0][1..] == [];
  }

  lemma ShortBlockFirst(g: Geometry, mapping: map<nat, nat>, b: Block, chains: seq<seq<nat>>)
    requires g.Lawful() && ChainsOk(g, [b, b.(page2 := None)], chains) && InChain(g, chains, b, [1, 0])
    requires g.page(b.pc) in mapping && mapping[g.page(b.pc)] == b.page1
    ensures WalkFrom(g, mapping, [b, b.(page2 := None)], chains, b.pc, b.csBase, b.flags) == Found(1)
  {
    WalkInChain(g, mapping, [b, b.(page2 := None)], chains, [1, 0], b);
  }

  /** A new block for the same address comes to the head of the chain. */
  lemma AddedInChain(g: Geometry, blocks: seq<Block>, chains: seq<seq<nat>>, chain: seq<nat>,
                     blocks': seq<Block>, chains': seq<seq<nat>>, b: Block, b': Block)
    requires g.Lawful() && Bucket(g, b') == Bucket(g, b) && InChain(g, chains, b, chain)
    requires Added(g, blocks, chains, blocks', chains', b')
    ensures blocks' == blocks + [b'] && InChain(g, chains', b, [|blocks|] + chain)
  {
  }

  /** The two can part: processor 0 has a block that runs into its next page, processor 1, with another next
      page, one that does not. The first stays in the cache of processor 0, the second is found first. */
  method CacheMayDisagree(g: Geometry, pc: nat, a: nat, x: nat, y: nat)
    returns (cached: Option<nat>, walked: WalkResult)
    requires g.Lawful() && pc < g.space && g.next(g.page(pc)) != g.page(pc) && x != y
    ensures cached == Some(0) && walked == Found(1)
  {
    var page, next := g.page(pc), g.next(g.page(pc));
    var t := new Translator(g, [map[page := a, next := x], map[page := a, next := y]]);
    var b := Block(pc, 0, 0, a, Some(x));
    LookLong(t, b);
    LookShort(t, b);
    ShortBlockFirst(g, t.mapping[0], b, t.hash[..]);
    cached, walked := t.cache[0, g.slot(pc)], WalkFrom(g, t.mapping[0], t.blocks, t.hash[..], pc, 0, 0);
  }

  lemma NothingInChain(g: Geometry, mapping: map<nat, nat>, blocks: seq<Block>, chains: seq<seq<nat>>, b: Block)
    requires g.Lawful() && ChainsOk(g, blocks, chains) && InChain(g, chains, b, [])
    requires g.page(b.pc) in mapping && mapping[g.page(b.pc)] == b.page1
    ensures WalkFrom(g, mapping, blocks, chains, b.pc, b.csBase, b.flags) == Nothing
  {
    WalkInChain(g, mapping, blocks, chains, [], b);
  }

  /** A look-up that finds nothing, in the cache or by the walk, makes a new block the head of its chain and
      changes no other cache. */
  method LookNew(t: Translator, c: nat, b: Block, ghost chain: seq<nat>)
    requires t.Valid() && c < |t.mapping| && b.pc < t.g.space && b.csBase == b.flags == 0
    requires Mapped(t.g, t.mapping[c], b)
    requires t.g.slot(b.pc) < TB_JMP_CACHE_SIZE && t.cache[c, t.g.slot(b.pc)] == None
    requires InChain(t.g, t.hash[..], b, chain)
    requires WalkFrom(t.g, t.mapping[c], t.blocks, t.hash[..], b.pc, 0, 0) == Nothing
    modifies t`blocks, t`invalidated, t.hash, t.cache
    ensures t.Valid() && t.blocks == old(t.blocks) + [b] && InChain(t.g, t.hash[..], b, [|old(t.blocks)|] + chain)
    ensures t.cache[c, t.g.slot(b.pc)] == Some(|old(t.blocks)|)
    ensures forall d :: 0 <= d < |t.mapping| && d != c ==> t.cache[d, t.g.slot(b.pc)] == old(t.cache[d, t.g.slot(b.pc)])
  {
    ghost var blocks, chains := t.blocks, t.hash[..];
    var r, generated := t.FindFast(c, b.pc, 0, 0, true, b.page2.Some?);
    AddedInChain(t.g, blocks, chains, chain, t.blocks, t.hash[..], b, b);
  }

  /** Processor 0 looks up, and the code runs into the next page. */
  method LookLong(t: Translator, b: Block)
    requires t.Valid() && t.blocks == [] && InChain(t.g, t.hash[..], b, []) && |t.mapping| > 1
    requires b.pc < t.g.space && b.csBase == b.flags == 0 && b.page2.Some? && Mapped(t.g, t.mapping[0], b)
    requires forall c, s :: 0 <= c < t.cache.Length0 && 0 <= s < t.cache.Length1 ==> t.cache[c, s] == None
    modifies t`blocks, t`invalidated, t.hash, t.cache
    ensures t.Valid() && t.blocks == [b] && InChain(t.g, t.hash[..], b, [0])
    ensures t.g.slot(b.pc) < TB_JMP_CACHE_SIZE && t.cache[0, t.g.slot(b.pc)] == Some(0)
    ensures t.cache[1, t.g.slot(b.pc)] == None
  {
    assert t.g.Grouped(b.pc);
    NothingInChain(t.g, t.mapping[0], t.blocks, t.hash[..], b);
    assert t.cache[0, t.g.slot(b.pc)] == None && t.cache[1, t.g.slot(b.pc)] == None;
    LookNew(t, 0, b, []);
  }

  /** Processor 1 looks up, and the block ends before the next page. */
  method LookShort(t: Translator, b: Block)
    requires t.Valid() && t.blocks == [b] && InChain(t.g, t.hash[..], b, [0]) && |t.mapping| > 1
    requires b.pc < t.g.space && b.csBase == b.flags == 0 && b.page2.Some?
    requires Mapped(t.g, t.mapping[1], b.(page2 := None))
    requires t.g.next(t.g.page(b.pc)) in t.mapping[1] && t.mapping[1][t.g.next(t.g.page(b.pc))] != b.page2.value
    requires t.g.slot(b.pc) < TB_JMP_CACHE_SIZE && t.cache[0, t.g.slot(b.pc)] == Some(0)
    requires t.cache[1, t.g.slot(b.pc)] == None
    modifies t`blocks, t`invalidated, t.hash, t.cache
    ensures t.Valid() && t.blocks == [b, b.(page2 := None)] && InChain(t.g, t.hash[..], b, [1, 0])
    ensures t.cache[0, t.g.slot(b.pc)] == Some(0)
  {
    LongBlockUnfit(t.g, t.mapping[1], b, t.hash[..]);
    LookNew(t, 1, b.(page2 := None), [0]);
    assert [1] + [0] == [1, 0];
  }
}
