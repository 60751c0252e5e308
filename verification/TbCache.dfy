/** The cache of translated blocks by virtual address, in front of the table of blocks by physical address. */
module TbCache {
  import opened Basics
  import opened TbChains

  class Translator {
    const g: Geometry
    /** The blocks in the order of their translation, those invalidated among them. */
    var blocks: seq<Block>
    /** The chains by physical address. */
    const hash: array<seq<nat>>
    /** The caches, one for each processor. */
    const cache: array2<Option<nat>>
    /** The physical page of each virtual page, as each processor has it. Missing pages raise a fault. */
    var mapping: seq<map<nat, nat>>
    var invalidated: bool

    ghost predicate Valid()
      reads this, hash, cache
    {
      && g.Lawful()
      && hash.Length == CODE_GEN_PHYS_HASH_SIZE && cache.Length1 == TB_JMP_CACHE_SIZE && cache.Length0 == |mapping|
      && ChainsOk(g, blocks, hash[..])
      && CacheOk(blocks, hash[..])
    }

    ghost predicate CacheOk(blocks: seq<Block>, chains: seq<seq<nat>>)
      requires cache.Length0 == |mapping|
      reads this`mapping, cache
    {
      forall c, s :: 0 <= c < cache.Length0 && 0 <= s < cache.Length1 ==>
        EntryOk(g, blocks, chains, mapping[c], s, cache[c, s])
    }

    /** No cache and no table yet. */
    constructor (g: Geometry, mapping: seq<map<nat, nat>>)
      requires g.Lawful()
      ensures Valid() && this.g == g && this.mapping == mapping && blocks == [] && hash[..] == NoChains()
      ensures forall c, s :: 0 <= c < cache.Length0 && 0 <= s < cache.Length1 ==> cache[c, s] == None
      ensures fresh(hash) && fresh(cache)
    {
      this.g, this.mapping, blocks, invalidated := g, mapping, [], false;
      hash := new seq<nat>[CODE_GEN_PHYS_HASH_SIZE](i => []);
      cache := new Option<nat>[|mapping|, TB_JMP_CACHE_SIZE]((c, s) => None);
    }

    /** The physical address of code, unless it faults. */
    function PhysAddrCode(c: nat, page: nat): (r: Option<nat>)
      requires c < |mapping|
      reads this
    {
      if page in mapping[c] then Some(mapping[c][page]) else None
    }

    /** tb_find_fast: the block that fits the processor, generated only if there is none. */
    method FindFast(c: nat, pc: nat, csBase: nat, flags: nat, room: bool, long: bool)
      returns (r: Option<nat>, generated: bool)
      requires Valid() && c < |mapping| && pc < g.space
      modifies this`blocks, this`invalidated, hash, cache
      ensures Valid()
      ensures r.Some? ==>
                Hashed(blocks, hash[..], r.value) && Fits(g, mapping[c], blocks[r.value], pc, csBase, flags)
                  && g.slot(pc) < TB_JMP_CACHE_SIZE && cache[c, g.slot(pc)] == r
      ensures r.None? ==> g.page(pc) !in mapping[c] || g.next(g.page(pc)) !in mapping[c]
      ensures g.slot(pc) < TB_JMP_CACHE_SIZE
      ensures old(Hit(c, pc, csBase, flags)) ==> r == old(cache[c, g.slot(pc)]) && !generated
      ensures !old(Hit(c, pc, csBase, flags)) ==>
                match old(WalkFrom(g, mapping[c], blocks, hash[..], pc, csBase, flags))
                case Found(id) => r == Some(id) && !generated
                case Fault => r == None && !generated
                case Nothing => generated && Generated(old(blocks), old(hash[..]), c, pc, csBase, flags, room, long, r)
      ensures generated ==> NoneFits(old(blocks), old(hash[..]), c, pc, csBase, flags)
      ensures !generated ==> blocks == old(blocks) && hash[..] == old(hash[..])
      ensures room ==> old(blocks) <= blocks && forall id: nat :: Hashed(old(blocks), old(hash[..]), id) ==>
                Hashed(blocks, hash[..], id)
      ensures room ==>
                forall d, s :: 0 <= d < cache.Length0 && 0 <= s < cache.Length1 && !(d == c && s == g.slot(pc)) ==>
                  cache[d, s] == old(cache[d, s])
    {
      assert g.Grouped(pc);
      r, generated := cache[c, g.slot(pc)], false;
      if r.None? || blocks[r.value].pc != pc || blocks[r.value].csBase != csBase || blocks[r.value].flags != flags {
        r, generated := FindSlow(c, pc, csBase, flags, room, long);
      }
    }

    /** The cache has a block for the state. */
    ghost predicate Hit(c: nat, pc: nat, csBase: nat, flags: nat)
      requires Valid() && c < |mapping|
      reads this, hash, cache
    {
      assert g.Grouped(pc);
      var e := cache[c, g.slot(pc)];
      e.Some? && (assert EntryOk(g, blocks, hash[..], mapping[c], g.slot(pc), e);
                  blocks[e.value].pc == pc && blocks[e.value].csBase == csBase && blocks[e.value].flags == flags)
    }

    /** The tables have one more block, for this state: at the head of its chain, and with a second page if
        the code runs into it; or the second page is missing and nothing is linked. Without room for the
        block everything else is gone. */
    ghost predicate Generated(blocks0: seq<Block>, chains0: seq<seq<nat>>, c: nat, pc: nat, csBase: nat, flags: nat,
                              room: bool, long: bool, r: Option<nat>)
      requires g.Lawful() && |chains0| == CODE_GEN_PHYS_HASH_SIZE && c < |mapping| && g.page(pc) in mapping[c]
      reads this, hash
    {
      var page1, page2 := mapping[c][g.page(pc)], PhysAddrCode(c, g.next(g.page(pc)));
      var b := Block(pc, csBase, flags, page1, if long then page2 else None);
      var blocks', chains' := if room then blocks0 else [], if room then chains0 else NoChains();
      if long && page2.None? then r == None && blocks == blocks' + [b] && hash[..] == chains'
      else r == Some(|blocks'|) && Added(g, blocks', chains', blocks, hash[..], b)
    }

    /** No block of any chain fits. */
    ghost predicate NoneFits(blocks: seq<Block>, chains: seq<seq<nat>>, c: nat, pc: nat, csBase: nat, flags: nat)
      requires c < |mapping|
      reads this
    {
      forall id: nat :: !Answers(g, mapping[c], blocks, chains, pc, csBase, flags, id)
    }

    /** The walk along the chain. */
    method Search(c: nat, pc: nat, csBase: nat, flags: nat, page1: nat, h: nat) returns (r: Option<nat>, fault: bool)
      requires Valid() && c < |mapping| && g.page(pc) in mapping[c] && page1 == mapping[c][g.page(pc)]
      requires g.page(pc) <= pc && h == g.bucket(page1 + (pc - g.page(pc))) && h < hash.Length
      ensures fault ==> r.None? && g.next(g.page(pc)) !in mapping[c]
      ensures r.Some? ==> Answers(g, mapping[c], blocks, hash[..], pc, csBase, flags, r.value)
      ensures !fault && r.None? ==> NoneFits(blocks, hash[..], c, pc, csBase, flags)
      ensures WalkFrom(g, mapping[c], blocks, hash[..], pc, csBase, flags)
           == if fault then Fault else if r.Some? then Found(r.value) else Nothing
    {
      WalkAnswers(g, mapping[c], blocks, hash[..], pc, csBase, flags);
      ChainOfOk(g, mapping[c], blocks, hash[..], pc);
      r, fault := SearchLoop(c, pc, csBase, flags, page1, h);
    }

    method SearchLoop(c: nat, pc: nat, csBase: nat, flags: nat, page1: nat, h: nat)
      returns (r: Option<nat>, fault: bool)
      requires c < |mapping| && g.page(pc) in mapping[c] && page1 == mapping[c][g.page(pc)] && h < hash.Length
      requires forall p :: 0 <= p < |hash[h]| ==> hash[h][p] < |blocks|
      ensures Walk(g, mapping[c], blocks, hash[h], pc, csBase, flags)
           == if fault then Fault else if r.Some? then Found(r.value) else Nothing
      ensures fault ==> r.None?
    {
      ghost var chain := hash[h];
      for i := 0 to |hash[h]|
        invariant Walk(g, mapping[c], blocks, chain, pc, csBase, flags)
                    == Walk(g, mapping[c], blocks, chain[i..], pc, csBase, flags)
      {
        assert chain[i..][0] == chain[i] && chain[i..][1..] == chain[i + 1..];
        var b := blocks[hash[h][i]];
        if b.pc == pc && b.page1 == page1 && b.csBase == csBase && b.flags == flags {
          if b.page2.Some? {
            var page2 := PhysAddrCode(c, g.next(g.page(pc)));
            if page2.None? {
              return None, true;
            }
            if b.page2 == page2 {
              return Some(hash[h][i]), false;
            }
          } else {
            return Some(hash[h][i]), false;
          }
        }
      }
      return None, false;
    }

    /** tb_find_slow: `room` and `long` stand for the space left for blocks and for whether the code at hand
        runs into the next page. */
    method FindSlow(c: nat, pc: nat, csBase: nat, flags: nat, room: bool, long: bool)
      returns (r: Option<nat>, generated: bool)
      requires Valid() && c < |mapping| && pc < g.space
      modifies this`blocks, this`invalidated, hash, cache
      ensures Valid()
      ensures r.Some? ==>
                Hashed(blocks, hash[..], r.value) && Fits(g, mapping[c], blocks[r.value], pc, csBase, flags)
                  && g.slot(pc) < TB_JMP_CACHE_SIZE && cache[c, g.slot(pc)] == r
      ensures r.None? ==> g.page(pc) !in mapping[c] || g.next(g.page(pc)) !in mapping[c]
      ensures match old(WalkFrom(g, mapping[c], blocks, hash[..], pc, csBase, flags))
              case Found(id) => r == Some(id) && !generated
              case Fault => r == None && !generated
              case Nothing => generated && Generated(old(blocks), old(hash[..]), c, pc, csBase, flags, room, long, r)
      ensures generated ==> NoneFits(old(blocks), old(hash[..]), c, pc, csBase, flags)
      ensures !generated ==> blocks == old(blocks) && hash[..] == old(hash[..])
      ensures room ==> old(blocks) <= blocks && forall id: nat :: Hashed(old(blocks), old(hash[..]), id) ==>
                Hashed(blocks, hash[..], id)
      ensures room ==>
                forall d, s :: 0 <= d < cache.Length0 && 0 <= s < cache.Length1 && !(d == c && s == g.slot(pc)) ==>
                  cache[d, s] == old(cache[d, s])
    {
      assert g.Grouped(pc);
      invalidated := false;
      generated := false;
      r := PhysAddrCode(c, g.page(pc));
      if r.None? {
        return;
      }
      var page1 := r.value;
      var fault;
      r, fault := Search(c, pc, csBase, flags, page1, g.bucket(page1 + (pc - g.page(pc))));
      if fault {
        return;
      }
      if r.None? {
        generated := true;
        r := GenCode(c, pc, csBase, flags, room, long);
        if r.None? {
          return;
        }
      }
      Remember(c, pc, r.value);
    }

    /** The slot of the program counter gets the block. */
    method Remember(c: nat, pc: nat, id: nat)
      requires Valid() && c < |mapping| && Hashed(blocks, hash[..], id) && blocks[id].pc == pc
      requires Mapped(g, mapping[c], blocks[id])
      modifies cache
      ensures Valid() && g.slot(pc) < TB_JMP_CACHE_SIZE && cache[c, g.slot(pc)] == Some(id)
      ensures forall d, s :: 0 <= d < cache.Length0 && 0 <= s < cache.Length1 && !(d == c && s == g.slot(pc)) ==>
                cache[d, s] == old(cache[d, s])
    {
      assert g.Grouped(pc);
      cache[c, g.slot(pc)] := Some(id);
    }

    /** tb_gen_code and tb_link_phys. A fault on the second page leaves an unused block behind. */
    method GenCode(c: nat, pc: nat, csBase: nat, flags: nat, room: bool, long: bool) returns (r: Option<nat>)
      requires Valid() && c < |mapping| && pc < g.space && g.page(pc) in mapping[c]
      requires NoneFits(blocks, hash[..], c, pc, csBase, flags)
      modifies this`blocks, this`invalidated, hash, cache
      ensures Valid()
      ensures r.Some? ==> Hashed(blocks, hash[..], r.value) && Fits(g, mapping[c], blocks[r.value], pc, csBase, flags)
      ensures Generated(old(blocks), old(hash[..]), c, pc, csBase, flags, room, long, r)
      ensures r.None? ==> g.next(g.page(pc)) !in mapping[c]
      ensures room ==> old(blocks) <= blocks && forall id: nat :: Hashed(old(blocks), old(hash[..]), id) ==>
                Hashed(blocks, hash[..], id)
      ensures room ==> invalidated == old(invalidated)
      ensures !room ==> invalidated
      ensures room ==> forall d, s :: 0 <= d < cache.Length0 && 0 <= s < cache.Length1 ==>
                cache[d, s] == old(cache[d, s])
    {
      var page1 := mapping[c][g.page(pc)];
      if !room {
        Flush();
        invalidated := true;
      }
      var page2 := None;
      if long {
        page2 := PhysAddrCode(c, g.next(g.page(pc)));
        if page2.None? {
          Waste(Block(pc, csBase, flags, page1, None));
          return None;
        }
      }
      var b := Block(pc, csBase, flags, page1, page2);
      forall id: nat | Hashed(blocks, hash[..], id)
        ensures blocks[id] != b
      {
        assert room ==> !Answers(g, mapping[c], blocks, hash[..], pc, csBase, flags, id);
      }
      r := Link(b);
    }

    /** A block that is never linked. */
    method Waste(b: Block)
      requires Valid()
      modifies this`blocks
      ensures Valid() && blocks == old(blocks) + [b]
    {
      blocks := blocks + [b];
      ChainsStay(g, old(blocks), b, hash[..]);
      CacheStays(old(blocks), hash[..], blocks, hash[..]);
    }

    /** What is cached stays right as blocks and chains are added to. */
    lemma CacheStays(blocks0: seq<Block>, chains0: seq<seq<nat>>, blocks1: seq<Block>, chains1: seq<seq<nat>>)
      requires cache.Length0 == |mapping| && CacheOk(blocks0, chains0)
      requires blocks0 <= blocks1 && |chains0| == |chains1| && forall h :: 0 <= h < |chains0| ==>
                 (forall id :: id in chains0[h] ==> id in chains1[h])
      ensures CacheOk(blocks1, chains1)
    {
      forall c, s | 0 <= c < cache.Length0 && 0 <= s < cache.Length1
        ensures EntryOk(g, blocks1, chains1, mapping[c], s, cache[c, s])
      {
        assert EntryOk(g, blocks0, chains0, mapping[c], s, cache[c, s]);
        if cache[c, s].Some? {
          var h :| 0 <= h < |chains0| && cache[c, s].value in chains0[h];
          assert cache[c, s].value in chains1[h];
        }
      }
    }

    /** tb_link_phys: the block goes to the head of its chain. */
    method Link(b: Block) returns (r: Option<nat>)
      requires Valid() && b.pc < g.space && forall id: nat :: Hashed(blocks, hash[..], id) ==> blocks[id] != b
      modifies this`blocks, hash
      ensures Valid() && r == Some(|old(blocks)|) && blocks == old(blocks) + [b]
      ensures Added(g, old(blocks), old(hash[..]), blocks, hash[..], b)
      ensures Hashed(blocks, hash[..], |old(blocks)|)
      ensures forall id: nat :: Hashed(old(blocks), old(hash[..]), id) ==> Hashed(blocks, hash[..], id)
    {
      var h := Bucket(g, b);
      assert g.Grouped(b.pc);
      ghost var chains := hash[..];
      r := Some(|blocks|);
      assert h < |chains|;
      ChainsPush(g, blocks, b, chains, h);
      blocks := blocks + [b];
      hash[h] := [|blocks| - 1] + hash[h];
      assert hash[..] == chains[h := [|old(blocks)|] + chains[h]];
      CacheStays(old(blocks), chains, blocks, hash[..]);
      forall id: nat | Hashed(old(blocks), chains, id)
        ensures Hashed(blocks, hash[..], id)
      {
        var k :| 0 <= k < |chains| && id in chains[k];
        assert id in hash[..][k];
      }
      assert hash[..][h][0] == |old(blocks)|;
    }

    /** tb_flush: no blocks, no chains and empty caches of all processors. */
    method Flush()
      requires Valid()
      modifies this`blocks, hash, cache
      ensures Valid() && blocks == [] && hash[..] == NoChains()
      ensures forall c, s :: 0 <= c < cache.Length0 && 0 <= s < cache.Length1 ==> cache[c, s] == None
    {
      blocks := [];
      forall c, s | 0 <= c < cache.Length0 && 0 <= s < cache.Length1 {
        cache[c, s] := None;
      }
      forall h | 0 <= h < hash.Length {
        hash[h] := [];
      }
    }

    /** tb_phys_invalidate: a hashed block leaves its chain and the caches of all processors. */
    method PhysInvalidate(id: nat)
      requires Valid() && Hashed(blocks, hash[..], id)
      modifies this`invalidated, hash, cache
      ensures Valid() && invalidated
      ensures forall other: nat :: Hashed(blocks, hash[..], other)
                <==> Hashed(blocks, old(hash[..]), other) && other != id
      ensures forall c, s :: 0 <= c < cache.Length0 && 0 <= s < cache.Length1 ==>
                cache[c, s] == if old(cache[c, s]) == Some(id) then None else old(cache[c, s])
    {
      ghost var chains := hash[..];
      var h := Bucket(g, blocks[id]);
      HashedInBucket(g, blocks, chains, id);
      var i := 0;
      while hash[h][i] != id
        invariant exists j :: i <= j < |hash[h]| && hash[h][j] == id
        decreases |hash[h]| - i
      {
        i := i + 1;
      }
      ChainsDrop(g, blocks, chains, h, i);
      hash[h] := hash[h][..i] + hash[h][i + 1..];
      assert hash[..] == chains[h := chains[h][..i] + chains[h][i + 1..]];
      invalidated := true;
      Forget(id, chains);
    }

    /** Whether a block is in its chain. */
    method IsHashed(id: nat) returns (hashed: bool)
      requires Valid()
      ensures hashed <==> Hashed(blocks, hash[..], id)
    {
      if id >= |blocks| {
        return false;
      }
      var h := Bucket(g, blocks[id]);
      assert g.Grouped(blocks[id].pc);
      if id in hash[h] {
        assert hash[..][h] == hash[h];
        return true;
      }
      if Hashed(blocks, hash[..], id) {
        HashedInBucket(g, blocks, hash[..], id);
        assert false;
      }
      return false;
    }

    /** The slot of a block that is no longer hashed is emptied, where it has the block. */
    method Forget(id: nat, ghost chains: seq<seq<nat>>)
      requires g.Lawful() && cache.Length1 == TB_JMP_CACHE_SIZE && cache.Length0 == |mapping| && id < |blocks|
      requires CacheOk(blocks, chains)
      requires forall other: nat :: Hashed(blocks, chains, other) && other != id ==> Hashed(blocks, hash[..], other)
      modifies cache
      ensures CacheOk(blocks, hash[..])
      ensures forall c, s :: 0 <= c < cache.Length0 && 0 <= s < cache.Length1 ==>
                cache[c, s] == if old(cache[c, s]) == Some(id) then None else old(cache[c, s])
    {
      var slot := g.slot(blocks[id].pc);
      assert g.Grouped(blocks[id].pc);
      for c := 0 to cache.Length0
        invariant forall d, s :: 0 <= d < cache.Length0 && 0 <= s < cache.Length1 ==>
          cache[d, s] == if d < c && s == slot && old(cache[d, s]) == Some(id) then None else old(cache[d, s])
      {
        if cache[c, slot] == Some(id) {
          cache[c, slot] := None;
        }
      }
      forall c, s | 0 <= c < cache.Length0 && 0 <= s < cache.Length1
        ensures cache[c, s] == if old(cache[c, s]) == Some(id) then None else old(cache[c, s])
        ensures EntryOk(g, blocks, hash[..], mapping[c], s, cache[c, s])
      {
        assert EntryOk(g, blocks, chains, mapping[c], s, old(cache[c, s]));
      }
    }

    /** tlb_flush_jmp_cache: the groups of the page and of the one before it are emptied. Nothing that runs
        on the page, from its start or over the end of the page before, is left. */
    method FlushJmpCache(c: nat, page: nat)
      requires Valid() && c < |mapping| && page < g.space && g.page(page) == page
      modifies cache
      ensures Valid()
      ensures forall d, s :: 0 <= d < cache.Length0 && 0 <= s < cache.Length1 ==>
                cache[d, s] == if d == c && (InGroup(g.group(g.prev(page)), s) || InGroup(g.group(page), s)) then None
                  else old(cache[d, s])
      ensures forall s :: 0 <= s < cache.Length1 && cache[c, s].Some? ==> !Overlaps(g, blocks[cache[c, s].value], page)
    {
      assert g.Grouped(g.prev(page)) && g.Grouped(page);
      ClearGroup(c, g.group(g.prev(page)));
      ClearGroup(c, g.group(page));
      forall s | 0 <= s < cache.Length1 && cache[c, s].Some?
        ensures !Overlaps(g, blocks[cache[c, s].value], page)
      {
        assert EntryOk(g, blocks, hash[..], mapping[c], s, cache[c, s]);
        if Overlaps(g, blocks[cache[c, s].value], page) {
          OverlapsInGroups(g, blocks, hash[..], cache[c, s].value, page);
        }
      }
    }

    /** memset on a group of slots. */
    method ClearGroup(c: nat, first: nat)
      requires Valid() && c < |mapping| && first + TB_JMP_PAGE_SIZE <= TB_JMP_CACHE_SIZE
      modifies cache
      ensures Valid()
      ensures forall d, s :: 0 <= d < cache.Length0 && 0 <= s < cache.Length1 ==>
                cache[d, s] == if d == c && InGroup(first, s) then None else old(cache[d, s])
    {
      ghost var chains := hash[..];
      forall i | first <= i < first + TB_JMP_PAGE_SIZE {
        cache[c, i] := None;
      }
      assert hash[..] == chains;
      forall d, s | 0 <= d < cache.Length0 && 0 <= s < cache.Length1
        ensures EntryOk(g, blocks, hash[..], mapping[d], s, cache[d, s])
      {
        assert EntryOk(g, blocks, chains, mapping[d], s, old(cache[d, s]));
      }
    }

    /** tlb_flush_page, with the mapping of the page that is in force from then on. */
    method FlushPage(c: nat, addr: nat, to: Option<nat>)
      requires Valid() && c < |mapping| && addr < g.space
      modifies this`mapping, cache
      ensures Valid()
      ensures mapping == old(mapping)[c := Remapped(old(mapping)[c], g.page(addr), to)]
    {
      assert g.Grouped(addr) && g.Paged(addr);
      var page := g.page(addr);
      FlushJmpCache(c, page);
      ghost var before := mapping[c];
      mapping := mapping[c := Remapped(mapping[c], page, to)];
      forall d, s | 0 <= d < cache.Length0 && 0 <= s < cache.Length1
        ensures EntryOk(g, blocks, hash[..], mapping[d], s, cache[d, s])
      {
        assert EntryOk(g, blocks, hash[..], old(mapping)[d], s, cache[d, s]);
      }
    }

    /** A page that was missing gets mapped; the cache needs no flush for that. */
    method Fill(c: nat, addr: nat, to: nat)
      requires Valid() && c < |mapping| && g.page(addr) !in mapping[c]
      modifies this`mapping
      ensures Valid() && mapping == old(mapping)[c := Remapped(old(mapping)[c], g.page(addr), Some(to))]
    {
      mapping := mapping[c := Remapped(mapping[c], g.page(addr), Some(to))];
      forall d, s | 0 <= d < cache.Length0 && 0 <= s < cache.Length1
        ensures EntryOk(g, blocks, hash[..], mapping[d], s, cache[d, s])
      {
        assert EntryOk(g, blocks, hash[..], old(mapping)[d], s, cache[d, s]);
      }
    }

    /** tlb_flush: the whole cache of the processor goes, and any mapping may be in force from then on. */
    method FlushTlb(c: nat, to: map<nat, nat>)
      requires Valid() && c < |mapping|
      modifies this`mapping, cache
      ensures Valid() && mapping == old(mapping)[c := to]
      ensures forall d, s :: 0 <= d < cache.Length0 && 0 <= s < cache.Length1 ==>
                cache[d, s] == if d == c then None else old(cache[d, s])
    {
      ghost var chains := hash[..];
      forall i | 0 <= i < cache.Length1 {
        cache[c, i] := None;
      }
      assert hash[..] == chains;
      mapping := mapping[c := to];
      forall d, s | 0 <= d < cache.Length0 && 0 <= s < cache.Length1
        ensures EntryOk(g, blocks, hash[..], mapping[d], s, cache[d, s])
      {
        assert EntryOk(g, blocks, chains, old(mapping)[d], s, old(cache[d, s]));
      }
    }
  }
}
