/** Translated blocks in chains by physical address: when a block fits, what the walk along a chain finds, and
    when a cache of blocks agrees with it. */
module TbChains {
  import opened Basics

  const TB_JMP_CACHE_SIZE: nat := 4096
  const TB_JMP_PAGE_SIZE: nat := 64
  const CODE_GEN_PHYS_HASH_SIZE: nat := 32768

  /** How a target lays out its addresses: how many there are, how large a page is, the page of an address, the
      page after and the page before, the slot of an address in the cache, the group of slots of its page, and
      the chain of a physical address. */
  datatype Geometry = Geometry(space: nat, size: nat, page: nat -> nat, next: nat -> nat, prev: nat -> nat,
                               slot: nat -> nat, group: nat -> nat, bucket: nat -> nat) {
    /** A page's addresses fall into its group. */
    ghost predicate Grouped(pc: nat) {
      && group(pc) == group(page(pc))
      && group(pc) <= slot(pc) < group(pc) + TB_JMP_PAGE_SIZE <= TB_JMP_CACHE_SIZE
      && page(pc) <= pc
    }

    ghost predicate Paged(pc: nat) { prev(next(page(pc))) == page(pc) && page(page(pc)) == page(pc) }

    /** A page is `size` addresses from a multiple of it, and the page after it is where the address after its
        last one is. */
    ghost predicate Adjacent(pc: nat) {
      && size > 0 && page(pc) % size == 0 && page(pc) <= pc < page(pc) + size
      && (pc + 1 < space && page(pc + 1) != page(pc) ==> page(pc + 1) == next(page(pc)))
      && (pc + 1 == space ==> next(page(pc)) == page(0))
    }

    ghost predicate Lawful() {
      && (forall pc :: Grouped(pc))
      && (forall pc: nat :: pc < space ==> Paged(pc))
      && (forall pc: nat {:trigger Adjacent(pc)} :: pc < space ==> Adjacent(pc))
      && (forall pc :: bucket(pc) < CODE_GEN_PHYS_HASH_SIZE)
    }
  }

  /** What tells blocks apart. The second page is there for a block that runs over the end of its page. */
  datatype Block = Block(pc: nat, csBase: nat, flags: nat, page1: nat, page2: Option<nat>)

  function Bucket(g: Geometry, b: Block): (h: nat)
    requires g.Lawful()
    ensures h < CODE_GEN_PHYS_HASH_SIZE
  {
    assert g.Grouped(b.pc);
    g.bucket(b.page1 + (b.pc - g.page(b.pc)))
  }

  /** The block is a translation of what the addresses are mapped to now. */
  ghost predicate Mapped(g: Geometry, mapping: map<nat, nat>, b: Block) {
    && g.page(b.pc) in mapping && mapping[g.page(b.pc)] == b.page1
    && (b.page2.Some? ==> g.next(g.page(b.pc)) in mapping && mapping[g.next(g.page(b.pc))] == b.page2.value)
  }

  /** The block is what a processor in this state may run. */
  ghost predicate Fits(g: Geometry, mapping: map<nat, nat>, b: Block, pc: nat, csBase: nat, flags: nat) {
    b.pc == pc && b.csBase == csBase && b.flags == flags && Mapped(g, mapping, b)
  }

  /** A chain holds blocks of its own bucket, no two of them alike. */
  ghost predicate ChainOk(g: Geometry, blocks: seq<Block>, h: nat, chain: seq<nat>)
    requires g.Lawful()
  {
    && (forall p :: 0 <= p < |chain| ==>
          chain[p] < |blocks| && blocks[chain[p]].pc < g.space && Bucket(g, blocks[chain[p]]) == h)
    && (forall p, q :: 0 <= p < q < |chain| ==> blocks[chain[p]] != blocks[chain[q]])
  }

  ghost predicate ChainsOk(g: Geometry, blocks: seq<Block>, chains: seq<seq<nat>>)
    requires g.Lawful()
  {
    forall h :: 0 <= h < |chains| ==> ChainOk(g, blocks, h, chains[h])
  }

  ghost predicate Hashed(blocks: seq<Block>, chains: seq<seq<nat>>, id: nat) {
    id < |blocks| && exists h :: 0 <= h < |chains| && id in chains[h]
  }

  /** What may be in slot `s` of a processor's cache: nothing, or a block that is hashed, in its own slot and
      mapped. */
  ghost predicate EntryOk(g: Geometry, blocks: seq<Block>, chains: seq<seq<nat>>, mapping: map<nat, nat>, s: nat,
                          e: Option<nat>) {
    e.Some? ==>
      Hashed(blocks, chains, e.value) && g.slot(blocks[e.value].pc) == s && Mapped(g, mapping, blocks[e.value])
  }

  /** A block that fits can only be in the chain of the address that the program counter is mapped to. */
  lemma FitsInBucket(g: Geometry, blocks: seq<Block>, chains: seq<seq<nat>>, mapping: map<nat, nat>, pc: nat,
                     csBase: nat, flags: nat, id: nat)
    requires g.Lawful() && ChainsOk(g, blocks, chains) && |chains| == CODE_GEN_PHYS_HASH_SIZE
    requires Hashed(blocks, chains, id) && Fits(g, mapping, blocks[id], pc, csBase, flags)
    ensures g.page(pc) in mapping && g.page(pc) <= pc && g.bucket(mapping[g.page(pc)] + (pc - g.page(pc))) < |chains|
    ensures id in chains[g.bucket(mapping[g.page(pc)] + (pc - g.page(pc)))]
  {
    assert g.Grouped(pc);
    var h :| 0 <= h < |chains| && id in chains[h];
    assert ChainOk(g, blocks, h, chains[h]);
  }

  // ---------------------------------------------------------------- the walk along a chain

  datatype WalkResult = Found(id: nat) | Fault | Nothing

  /** A block for the same state and the same first page; the second page decides. */
  predicate Candidate(g: Geometry, mapping: map<nat, nat>, b: Block, pc: nat, csBase: nat, flags: nat) {
    b.pc == pc && b.csBase == csBase && b.flags == flags && g.page(pc) in mapping && b.page1 == mapping[g.page(pc)]
  }

  /** What the walk along a chain ends with: the first block that fits, or a fault on the second page of a
      candidate. */
  function Walk(g: Geometry, mapping: map<nat, nat>, blocks: seq<Block>, chain: seq<nat>, pc: nat, csBase: nat,
                flags: nat): WalkResult
    requires forall p :: 0 <= p < |chain| ==> chain[p] < |blocks|
  {
    if chain == [] then Nothing
    else
      var b, next := blocks[chain[0]], g.next(g.page(pc));
      if !Candidate(g, mapping, b, pc, csBase, flags) then Walk(g, mapping, blocks, chain[1..], pc, csBase, flags)
      else if b.page2.None? then Found(chain[0])
      else if next !in mapping then Fault
      else if b.page2.value == mapping[next] then Found(chain[0])
      else Walk(g, mapping, blocks, chain[1..], pc, csBase, flags)
  }

  lemma {:induction false} WalkFindsFit(g: Geometry, mapping: map<nat, nat>, blocks: seq<Block>, chain: seq<nat>,
                                        pc: nat, csBase: nat, flags: nat)
    requires forall p :: 0 <= p < |chain| ==> chain[p] < |blocks|
    ensures var w := Walk(g, mapping, blocks, chain, pc, csBase, flags);
            && (w.Found? ==> w.id in chain && Fits(g, mapping, blocks[w.id], pc, csBase, flags))
            && (w.Nothing? ==> forall p :: 0 <= p < |chain| ==> !Fits(g, mapping, blocks[chain[p]], pc, csBase, flags))
            && (w.Fault? ==> g.next(g.page(pc)) !in mapping)
    decreases |chain|
  {
    if chain != [] {
      WalkFindsFit(g, mapping, blocks, chain[1..], pc, csBase, flags);
      assert chain == [chain[0]] + chain[1..];
    }
  }

  /** The chain of the address that a program counter is mapped to. */
  function ChainOf(g: Geometry, mapping: map<nat, nat>, chains: seq<seq<nat>>, pc: nat): seq<nat>
    requires g.Lawful() && |chains| == CODE_GEN_PHYS_HASH_SIZE && g.page(pc) in mapping
  {
    assert g.Grouped(pc);
    chains[g.bucket(mapping[g.page(pc)] + (pc - g.page(pc)))]
  }

  lemma ChainOfOk(g: Geometry, mapping: map<nat, nat>, blocks: seq<Block>, chains: seq<seq<nat>>, pc: nat)
    requires g.Lawful() && ChainsOk(g, blocks, chains) && |chains| == CODE_GEN_PHYS_HASH_SIZE && g.page(pc) in mapping
    ensures var chain := ChainOf(g, mapping, chains, pc);
            && (forall p :: 0 <= p < |chain| ==> chain[p] < |blocks|)
            && (forall id: nat :: id in chain ==> Hashed(blocks, chains, id))
            && (forall p, q :: 0 <= p < q < |chain| ==> blocks[chain[p]] != blocks[chain[q]])
  {
    assert g.Grouped(pc);
    var h := g.bucket(mapping[g.page(pc)] + (pc - g.page(pc)));
    assert ChainOk(g, blocks, h, chains[h]);
  }

  /** A search past the cache. */
  function WalkFrom(g: Geometry, mapping: map<nat, nat>, blocks: seq<Block>, chains: seq<seq<nat>>, pc: nat,
                    csBase: nat, flags: nat): WalkResult
    requires g.Lawful() && ChainsOk(g, blocks, chains) && |chains| == CODE_GEN_PHYS_HASH_SIZE
  {
    if g.page(pc) !in mapping then Fault
    else
      ChainOfOk(g, mapping, blocks, chains, pc);
      Walk(g, mapping, blocks, ChainOf(g, mapping, chains, pc), pc, csBase, flags)
  }

  /** Hashed and fit for a processor with this mapping in this state. */
  ghost predicate Answers(g: Geometry, mapping: map<nat, nat>, blocks: seq<Block>, chains: seq<seq<nat>>, pc: nat,
                          csBase: nat, flags: nat, id: nat) {
    Hashed(blocks, chains, id) && Fits(g, mapping, blocks[id], pc, csBase, flags)
  }

  /** Whatever block for this state the cache may hold, it is the one that the walk finds. */
  ghost predicate CacheAgrees(g: Geometry, mapping: map<nat, nat>, blocks: seq<Block>, chains: seq<seq<nat>>, pc: nat,
                              csBase: nat, flags: nat)
    requires g.Lawful() && ChainsOk(g, blocks, chains) && |chains| == CODE_GEN_PHYS_HASH_SIZE
  {
    forall id: nat :: Answers(g, mapping, blocks, chains, pc, csBase, flags, id) ==>
      WalkFrom(g, mapping, blocks, chains, pc, csBase, flags) == Found(id)
  }

  lemma AnswerInChain(g: Geometry, mapping: map<nat, nat>, blocks: seq<Block>, chains: seq<seq<nat>>, pc: nat,
                      csBase: nat, flags: nat, id: nat)
    requires g.Lawful() && ChainsOk(g, blocks, chains) && |chains| == CODE_GEN_PHYS_HASH_SIZE
    requires Answers(g, mapping, blocks, chains, pc, csBase, flags, id)
    ensures g.page(pc) in mapping && id in ChainOf(g, mapping, chains, pc)
  {
    FitsInBucket(g, blocks, chains, mapping, pc, csBase, flags, id);
  }

  /** No second hashed block answers. */
  ghost predicate OneAnswers(g: Geometry, mapping: map<nat, nat>, blocks: seq<Block>, chains: seq<seq<nat>>, pc: nat,
                             csBase: nat, flags: nat)
  {
    forall i: nat, j: nat ::
      Answers(g, mapping, blocks, chains, pc, csBase, flags, i)
      && Answers(g, mapping, blocks, chains, pc, csBase, flags, j) ==>
        i == j
  }

  /** With the next page mapped, the cache agrees with the chain, whatever it holds, if and only if no second
      hashed block answers. */
  lemma AgreesIffOneAnswers(g: Geometry, mapping: map<nat, nat>, blocks: seq<Block>, chains: seq<seq<nat>>, pc: nat,
                            csBase: nat, flags: nat)
    requires g.Lawful() && ChainsOk(g, blocks, chains) && |chains| == CODE_GEN_PHYS_HASH_SIZE
    requires g.next(g.page(pc)) in mapping
    ensures CacheAgrees(g, mapping, blocks, chains, pc, csBase, flags)
       <==> OneAnswers(g, mapping, blocks, chains, pc, csBase, flags)
  {
    if OneAnswers(g, mapping, blocks, chains, pc, csBase, flags) {
      forall id: nat | Answers(g, mapping, blocks, chains, pc, csBase, flags, id)
        ensures WalkFrom(g, mapping, blocks, chains, pc, csBase, flags) == Found(id)
      {
        AnswerInChain(g, mapping, blocks, chains, pc, csBase, flags, id);
        WalkAnswers(g, mapping, blocks, chains, pc, csBase, flags);
      }
    }
  }

  lemma WalkAnswers(g: Geometry, mapping: map<nat, nat>, blocks: seq<Block>, chains: seq<seq<nat>>, pc: nat,
                    csBase: nat, flags: nat)
    requires g.Lawful() && ChainsOk(g, blocks, chains) && |chains| == CODE_GEN_PHYS_HASH_SIZE
    ensures var w := WalkFrom(g, mapping, blocks, chains, pc, csBase, flags);
            && (w.Found? ==> Answers(g, mapping, blocks, chains, pc, csBase, flags, w.id))
            && (w.Nothing? ==> forall id: nat :: !Answers(g, mapping, blocks, chains, pc, csBase, flags, id))
            && (w.Fault? ==> g.page(pc) !in mapping || g.next(g.page(pc)) !in mapping)
  {
    if g.page(pc) in mapping {
      ChainOfOk(g, mapping, blocks, chains, pc);
      WalkFindsFit(g, mapping, blocks, ChainOf(g, mapping, chains, pc), pc, csBase, flags);
      forall id: nat | Answers(g, mapping, blocks, chains, pc, csBase, flags, id)
        ensures id in ChainOf(g, mapping, chains, pc)
      {
        AnswerInChain(g, mapping, blocks, chains, pc, csBase, flags, id);
      }
    }
  }

  /** Two blocks answer only if one of them runs into the next page and the other does not. */
  lemma TwoAnswersDiffer(g: Geometry, mapping: map<nat, nat>, blocks: seq<Block>, chains: seq<seq<nat>>, pc: nat,
                         csBase: nat, flags: nat, i: nat, j: nat)
    requires g.Lawful() && ChainsOk(g, blocks, chains) && |chains| == CODE_GEN_PHYS_HASH_SIZE
    requires Answers(g, mapping, blocks, chains, pc, csBase, flags, i)
    requires Answers(g, mapping, blocks, chains, pc, csBase, flags, j)
    ensures i == j <==> blocks[i].page2.Some? == blocks[j].page2.Some?
  {
    AnswerInChain(g, mapping, blocks, chains, pc, csBase, flags, i);
    AnswerInChain(g, mapping, blocks, chains, pc, csBase, flags, j);
    ChainOfOk(g, mapping, blocks, chains, pc);
    var chain := ChainOf(g, mapping, chains, pc);
    var p :| 0 <= p < |chain| && chain[p] == i;
    var q :| 0 <= q < |chain| && chain[q] == j;
    if blocks[i].page2.Some? == blocks[j].page2.Some? {
      assert blocks[i] == blocks[j];
    }
  }

  /** With the next page missing, a candidate that has a second page makes the walk fault. */
  ghost predicate Blocking(g: Geometry, mapping: map<nat, nat>, b: Block, pc: nat, csBase: nat, flags: nat) {
    Candidate(g, mapping, b, pc, csBase, flags) && b.page2.Some?
  }

  lemma {:induction false} WalkWithoutNext(g: Geometry, mapping: map<nat, nat>, blocks: seq<Block>, chain: seq<nat>,
                                           pc: nat, csBase: nat, flags: nat, q: nat)
    requires forall p :: 0 <= p < |chain| ==> chain[p] < |blocks|
    requires g.next(g.page(pc)) !in mapping && q < |chain| && Fits(g, mapping, blocks[chain[q]], pc, csBase, flags)
    requires forall p, r :: 0 <= p < r < |chain| ==> blocks[chain[p]] != blocks[chain[r]]
    ensures Walk(g, mapping, blocks, chain, pc, csBase, flags) == Found(chain[q])
       <==> forall p :: 0 <= p < q ==> !Blocking(g, mapping, blocks[chain[p]], pc, csBase, flags)
    decreases |chain|
  {
    if q > 0 {
      var b := blocks[chain[0]];
      assert b != blocks[chain[q]];
      if !Candidate(g, mapping, b, pc, csBase, flags) {
        WalkWithoutNext(g, mapping, blocks, chain[1..], pc, csBase, flags, q - 1);
        assert forall p :: 1 <= p < |chain| ==> chain[p] == chain[1..][p - 1];
        assert forall p :: 0 <= p < |chain| - 1 ==> chain[1..][p] == chain[p + 1];
      }
    }
  }

  /** With the next page missing, the cache agrees with the chain if and only if no such candidate stands
      before a block that answers. */
  lemma AgreesIffNoneBlocks(g: Geometry, mapping: map<nat, nat>, blocks: seq<Block>, chains: seq<seq<nat>>, pc: nat,
                            csBase: nat, flags: nat)
    requires g.Lawful() && ChainsOk(g, blocks, chains) && |chains| == CODE_GEN_PHYS_HASH_SIZE
    requires g.page(pc) in mapping && g.next(g.page(pc)) !in mapping
    ensures var chain := ChainOf(g, mapping, chains, pc);
            && (forall p :: 0 <= p < |chain| ==> chain[p] < |blocks|)
            && (CacheAgrees(g, mapping, blocks, chains, pc, csBase, flags)
                <==> forall p,
                  q :: 0 <= p < q < |chain| && Blocking(g, mapping, blocks[chain[p]], pc, csBase, flags) ==>
                    !Fits(g, mapping, blocks[chain[q]], pc, csBase, flags))
  {
    ChainOfOk(g, mapping, blocks, chains, pc);
    var chain := ChainOf(g, mapping, chains, pc);
    forall q | 0 <= q < |chain| && Fits(g, mapping, blocks[chain[q]], pc, csBase, flags)
      ensures Walk(g, mapping, blocks, chain, pc, csBase, flags) == Found(chain[q])
         <==> forall p :: 0 <= p < q ==> !Blocking(g, mapping, blocks[chain[p]], pc, csBase, flags)
      ensures Answers(g, mapping, blocks, chains, pc, csBase, flags, chain[q])
    {
      WalkWithoutNext(g, mapping, blocks, chain, pc, csBase, flags, q);
      assert chain[q] in chain;
    }
    forall id: nat | Answers(g, mapping, blocks, chains, pc, csBase, flags, id)
      ensures id in chain
    {
      AnswerInChain(g, mapping, blocks, chains, pc, csBase, flags, id);
    }
  }

  /** Whether a block runs into the next page, as far as the state and the code on its page decide. */
  type Code = (nat, nat, nat, nat) -> bool

  /** Of every hashed block, the code alone has decided whether it runs into the next page. */
  ghost predicate Determined(blocks: seq<Block>, chains: seq<seq<nat>>, code: Code) {
    forall id: nat :: Hashed(blocks, chains, id) ==>
      blocks[id].page2.Some? == code(blocks[id].pc, blocks[id].csBase, blocks[id].flags, blocks[id].page1)
  }

  /** Then the cache agrees with the chain in every state, also where the next page is missing. */
  lemma DeterminedAgrees(g: Geometry, mapping: map<nat, nat>, blocks: seq<Block>, chains: seq<seq<nat>>, pc: nat,
                         csBase: nat, flags: nat, code: Code)
    requires g.Lawful() && ChainsOk(g, blocks, chains) && |chains| == CODE_GEN_PHYS_HASH_SIZE
    requires Determined(blocks, chains, code)
    ensures CacheAgrees(g, mapping, blocks, chains, pc, csBase, flags)
  {
    forall id: nat | Answers(g, mapping, blocks, chains, pc, csBase, flags, id)
      ensures WalkFrom(g, mapping, blocks, chains, pc, csBase, flags) == Found(id)
    {
      AnswerInChain(g, mapping, blocks, chains, pc, csBase, flags, id);
      WalkAnswers(g, mapping, blocks, chains, pc, csBase, flags);
      var w := WalkFrom(g, mapping, blocks, chains, pc, csBase, flags);
      if w.Found? {
        TwoAnswersDiffer(g, mapping, blocks, chains, pc, csBase, flags, id, w.id);
      } else {
        ChainOfOk(g, mapping, blocks, chains, pc);
        var chain := ChainOf(g, mapping, chains, pc);
        assert blocks[id].page2.None?;
        NoFault(g, mapping, blocks, chain, pc, csBase, flags);
      }
    }
  }

  /** A fault comes from a candidate with a second page. */
  lemma {:induction false} NoFault(g: Geometry, mapping: map<nat, nat>, blocks: seq<Block>, chain: seq<nat>, pc: nat,
                                   csBase: nat, flags: nat)
    requires forall p :: 0 <= p < |chain| ==> chain[p] < |blocks|
    ensures Walk(g, mapping, blocks, chain, pc, csBase, flags).Fault? ==>
              exists p :: 0 <= p < |chain| && Candidate(g, mapping, blocks[chain[p]], pc, csBase, flags)
                && blocks[chain[p]].page2.Some?
    decreases |chain|
  {
    if chain != [] {
      NoFault(g, mapping, blocks, chain[1..], pc, csBase, flags);
      assert forall p :: 0 <= p < |chain| - 1 ==> chain[1..][p] == chain[p + 1];
    }
  }

  /** No block in any chain. */
  function NoChains(): (r: seq<seq<nat>>)
    ensures |r| == CODE_GEN_PHYS_HASH_SIZE && forall h :: 0 <= h < |r| ==> r[h] == []
  {
    seq(CODE_GEN_PHYS_HASH_SIZE, i => [])
  }

  /** A block is new at the head of its chain. */
  ghost predicate Added(g: Geometry, blocks: seq<Block>, chains: seq<seq<nat>>, blocks': seq<Block>,
                        chains': seq<seq<nat>>, b: Block)
    requires g.Lawful() && |chains| == CODE_GEN_PHYS_HASH_SIZE
  {
    && blocks' == blocks + [b]
    && chains' == chains[Bucket(g, b) := [|blocks|] + chains[Bucket(g, b)]]
  }

  lemma ChainsStay(g: Geometry, blocks: seq<Block>, b: Block, chains: seq<seq<nat>>)
    requires g.Lawful() && ChainsOk(g, blocks, chains)
    ensures ChainsOk(g, blocks + [b], chains)
  {
    forall h | 0 <= h < |chains|
      ensures ChainOk(g, blocks + [b], h, chains[h])
    {
      assert ChainOk(g, blocks, h, chains[h]);
    }
  }

  lemma ChainsPush(g: Geometry, blocks: seq<Block>, b: Block, chains: seq<seq<nat>>, h: nat)
    requires g.Lawful() && ChainsOk(g, blocks, chains) && h < |chains| && h == Bucket(g, b) && b.pc < g.space
    requires forall id: nat :: Hashed(blocks, chains, id) ==> blocks[id] != b
    ensures ChainsOk(g, blocks + [b], chains[h := [|blocks|] + chains[h]])
  {
    ChainsStay(g, blocks, b, chains);
    var chain := [|blocks|] + chains[h];
    assert ChainOk(g, blocks, h, chains[h]);
    forall p | 0 <= p < |chains[h]|
      ensures blocks[chains[h][p]] != b
    {
      assert chains[h][p] in chains[h];
      assert Hashed(blocks, chains, chains[h][p]);
    }
    assert ChainOk(g, blocks + [b], h, chain);
  }

  lemma HashedInBucket(g: Geometry, blocks: seq<Block>, chains: seq<seq<nat>>, id: nat)
    requires g.Lawful() && ChainsOk(g, blocks, chains) && Hashed(blocks, chains, id)
    ensures Bucket(g, blocks[id]) < |chains| && id in chains[Bucket(g, blocks[id])] && blocks[id].pc < g.space
  {
    var h :| 0 <= h < |chains| && id in chains[h];
    assert ChainOk(g, blocks, h, chains[h]);
  }

  /** Without entry `i`, chain `h` no longer has its block, and everything else is as before. */
  lemma ChainsDrop(g: Geometry, blocks: seq<Block>, chains: seq<seq<nat>>, h: nat, i: nat)
    requires g.Lawful() && ChainsOk(g, blocks, chains) && h < |chains| && i < |chains[h]|
    ensures var chains' := chains[h := chains[h][..i] + chains[h][i + 1..]];
            && ChainsOk(g, blocks, chains')
            && forall id: nat :: Hashed(blocks, chains', id) <==> Hashed(blocks, chains, id) && id != chains[h][i]
  {
    var chain := chains[h];
    var chain' := chain[..i] + chain[i + 1..];
    var chains' := chains[h := chain'];
    assert ChainOk(g, blocks, h, chain);
    ChainDrop(g, blocks, h, chain, i);
    forall id: nat
      ensures Hashed(blocks, chains', id) <==> Hashed(blocks, chains, id) && id != chain[i]
    {
      if Hashed(blocks, chains, id) && id != chain[i] {
        var k :| 0 <= k < |chains| && id in chains[k];
        assert id in chains'[k];
      }
      if Hashed(blocks, chains', id) {
        var k :| 0 <= k < |chains'| && id in chains'[k];
        assert id in chains[k];
        assert k != h ==> ChainOk(g, blocks, k, chains[k]);
      }
    }
  }

  lemma ChainDrop(g: Geometry, blocks: seq<Block>, h: nat, chain: seq<nat>, i: nat)
    requires g.Lawful() && ChainOk(g, blocks, h, chain) && i < |chain|
    ensures var chain' := chain[..i] + chain[i + 1..];
            ChainOk(g, blocks, h, chain') && forall id :: id in chain' <==> id in chain && id != chain[i]
  {
    var chain' := chain[..i] + chain[i + 1..];
    assert forall p :: 0 <= p < |chain'| ==> chain'[p] == if p < i then chain[p] else chain[p + 1];
    forall p | 0 <= p < |chain| && p != i
      ensures chain[p] != chain[i]
    {
      assert blocks[chain[p]] != blocks[chain[i]];
    }
    DropMembers(chain, i);
  }

  /** Without one entry, a list without repetition has all members but that one. */
  lemma DropMembers(chain: seq<nat>, i: nat)
    requires i < |chain| && forall p :: 0 <= p < |chain| && p != i ==> chain[p] != chain[i]
    ensures forall id :: id in chain[..i] + chain[i + 1..] <==> id in chain && id != chain[i]
  {
    var chain' := chain[..i] + chain[i + 1..];
    forall id
      ensures id in chain' <==> id in chain && id != chain[i]
    {
      if id in chain && id != chain[i] {
        var p :| 0 <= p < |chain| && chain[p] == id;
        assert chain'[if p < i then p else p - 1] == id;
      }
      if id in chain' {
        var p :| 0 <= p < |chain'| && chain'[p] == id;
        assert chain[if p < i then p else p + 1] == id;
      }
    }
  }

  predicate InGroup(first: nat, s: nat) { first <= s < first + TB_JMP_PAGE_SIZE }

  /** The block starts on the page, or runs into it. */
  ghost predicate Overlaps(g: Geometry, b: Block, page: nat) {
    g.page(b.pc) == page || (b.page2.Some? && g.next(g.page(b.pc)) == page)
  }

  lemma OverlapsInGroups(g: Geometry, blocks: seq<Block>, chains: seq<seq<nat>>, id: nat, page: nat)
    requires g.Lawful() && ChainsOk(g, blocks, chains) && Hashed(blocks, chains, id) && Overlaps(g, blocks[id], page)
    ensures InGroup(g.group(g.prev(page)), g.slot(blocks[id].pc)) || InGroup(g.group(page), g.slot(blocks[id].pc))
  {
    HashedInBucket(g, blocks, chains, id);
    assert g.Grouped(blocks[id].pc) && g.Paged(blocks[id].pc);
  }

  function Remapped(mapping: map<nat, nat>, page: nat, to: Option<nat>): map<nat, nat> {
    if to.Some? then mapping[page := to.value] else mapping - {page}
  }
}
