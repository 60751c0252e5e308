/** The life of one DMA request, from `dma_bdrv_io` through the callbacks of its batches. */
module DmaRequest {
  import opened Dma
  import opened Basics

  /** Where a request stands between two callbacks: a batch is with the block device, no memory could be
      mapped and the request waits to be called again, the request is over, or the block device did not
      accept a batch and the request is dropped. */
  datatype Phase = InFlight | Waiting | Finished(ret: int) | Dropped

  /** What the environment does in one callback: the result of the batch that was in flight, the lengths
      that the mapping calls grant one after the other (a mapping fails when its grant is zero or
      missing), and whether the block device accepts the next batch. */
  datatype Event = Event(ret: int, grants: seq<nat>, accepted: bool)

  /** A position in the list: inside an area, at an empty one, or at the end of the list. */
  ghost predicate Positioned(areas: seq<Area>, index: nat, offset: nat) {
    && index <= |areas|
    && (if index < |areas| && areas[index].len > 0 then offset < areas[index].len else offset == 0)
  }

  /** Every address is either transferred by an issued batch, or in the batch being put together, or
      still to come, in this order. */
  ghost predicate Accounted(areas: seq<Area>, issued: seq<Batch>, current: seq<Area>, index: nat, offset: nat) {
    && Positioned(areas, index, offset)
    && (forall all {:trigger Asked(all)} :: Asked(all) && all == Flatten(areas) ==>
          all == Transferred(issued) + (Flatten(current) + Remaining(areas, index, offset)))
  }

  /** Names a list of addresses, so that its account is only opened where it is asked for. */
  ghost predicate Asked(all: seq<Addr>) { true }

  lemma Account(areas: seq<Area>, issued: seq<Batch>, current: seq<Area>, index: nat, offset: nat)
    requires Positioned(areas, index, offset)
    ensures Accounted(areas, issued, current, index, offset)
       <==> Flatten(areas) == Transferred(issued) + (Flatten(current) + Remaining(areas, index, offset))
  {
    assert Asked(Flatten(areas));
  }

  ghost predicate NoEmptyArea(areas: seq<Area>) {
    forall i :: 0 <= i < |areas| ==> areas[i].len > 0
  }

  /** Mapping the next n bytes moves them from what is to come into the current batch. */
  lemma MapAccounted(areas: seq<Area>, issued: seq<Batch>, current: seq<Area>, index: nat, offset: nat, n: nat, a: Area)
    returns (index': nat, offset': nat)
    requires Accounted(areas, issued, current, index, offset)
    requires index < |areas| && 0 < n && offset + n <= areas[index].len && a == Area(areas[index].base + offset, n)
    ensures index' == if offset + n == areas[index].len then index + 1 else index
    ensures offset' == if offset + n == areas[index].len then 0 else offset + n
    ensures Accounted(areas, issued, current + [a], index', offset')
    ensures Size(current + [a]) == Size(current) + n
  {
    index' := if offset + n == areas[index].len then index + 1 else index;
    offset' := if offset + n == areas[index].len then 0 else offset + n;
    FlattenLast(current, a);
    RemainingMoves(areas, index, offset, n, index', offset');
    Account(areas, issued, current, index, offset);
    MoveOver(Flatten(areas), Transferred(issued), Flatten(current), Remaining(areas, index, offset), Span(a.base, n),
            Remaining(areas, index', offset'), Flatten(current + [a]));
    Account(areas, issued, current + [a], index', offset');
  }

  lemma RemainingMoves(areas: seq<Area>, index: nat, offset: nat, n: nat, index': nat, offset': nat)
    requires index < |areas| && 0 < n && offset + n <= areas[index].len
    requires index' == if offset + n == areas[index].len then index + 1 else index
    requires offset' == if offset + n == areas[index].len then 0 else offset + n
    ensures Positioned(areas, index', offset')
    ensures Remaining(areas, index, offset) == Span(areas[index].base + offset, n) + Remaining(areas, index', offset')
  {
    RemainingAdvances(areas, index, offset, n);
  }

  lemma MoveOver<T>(all: seq<T>, w: seq<T>, x: seq<T>, r: seq<T>, y: seq<T>, z: seq<T>, xy: seq<T>)
    requires all == w + (x + r) && r == y + z && xy == x + y
    ensures all == w + (xy + z)
  {
    assert x + (y + z) == (x + y) + z;
  }

  /** Issuing the current batch moves it to what is transferred. */
  lemma IssueAccounted(areas: seq<Area>, issued: seq<Batch>, b: Batch, index: nat, offset: nat)
    requires Accounted(areas, issued, b.iov, index, offset)
    ensures Accounted(areas, issued + [b], [], index, offset)
  {
    Account(areas, issued, b.iov, index, offset);
    Account(areas, issued + [b], [], index, offset);
    TransferredLast(issued, b);
    Concat(Transferred(issued), Flatten(b.iov), Remaining(areas, index, offset));
  }

  lemma Concat<T>(x: seq<T>, y: seq<T>, z: seq<T>)
    ensures x + (y + z) == (x + y) + ([] + z)
  {
    assert [] + z == z;
  }

  // ---------------------------------------------------------------- what a callback does

  /** What the mapping loop makes of its grants: the areas mapped and the position after them. */
  datatype Mapping = Mapping(iov: seq<Area>, index: nat, offset: nat)

  /** A mapping takes what is granted, up to the end of the area. It fails without a grant, and always on an
      empty area. */
  function MapFrom(areas: seq<Area>, index: nat, offset: nat, grants: seq<nat>): (m: Mapping)
    requires Positioned(areas, index, offset)
    ensures Positioned(areas, m.index, m.offset) && index <= m.index
    ensures m.iov == [] ==> m.index == index && m.offset == offset
    ensures forall i :: index <= i < m.index ==> areas[i].len > 0
    decreases |grants|
  {
    if index == |areas| || grants == [] || grants[0] == 0 || areas[index].len == 0 then Mapping([], index, offset)
    else
      var left := areas[index].len - offset;
      var n := if grants[0] < left then grants[0] else left;
      var m := if n == left then MapFrom(areas, index + 1, 0, grants[1..])
               else MapFrom(areas, index, offset + n, grants[1..]);
      m.(iov := [Area(areas[index].base + offset, n)] + m.iov)
  }

  /** Where a request stands. */
  datatype Progress = Progress(phase: Phase, sector: nat, index: nat, offset: nat, iov: seq<Area>, issued: seq<Batch>)

  ghost predicate PositionOk(areas: seq<Area>, p: Progress) { Positioned(areas, p.index, p.offset) }

  /** One callback. */
  function Step(areas: seq<Area>, p: Progress, e: Event): (q: Progress)
    requires PositionOk(areas, p)
    ensures PositionOk(areas, q)
  {
    var sector := p.sector + Size(p.iov) / SECTOR_SIZE;
    if p.index == |areas| || e.ret < 0 then Progress(Finished(e.ret), sector, p.index, p.offset, [], p.issued)
    else
      var m := MapFrom(areas, p.index, p.offset, e.grants);
      if m.iov == [] then Progress(Waiting, sector, m.index, m.offset, [], p.issued)
      else if e.accepted then Progress(InFlight, sector, m.index, m.offset, m.iov, p.issued + [Batch(sector, m.iov)])
      else Progress(Dropped, sector, m.index, m.offset, [], p.issued)
  }

  /** A request that is called again after it could map nothing is called without an error. */
  function Heard(p: Progress, e: Event): Event { if p.phase.Waiting? then e.(ret := 0) else e }

  /** It is over; the first callback that maps nothing makes the whole request fail. */
  predicate Over(p: Progress, first: bool) {
    p.phase.Finished? || p.phase.Dropped? || (p.phase.Waiting? && first)
  }

  /** The callbacks after `done` of them. */
  function Play(areas: seq<Area>, p: Progress, script: seq<Event>, done: nat): (q: Progress)
    requires PositionOk(areas, p) && done <= |script|
    ensures PositionOk(areas, q)
    decreases |script| - done
  {
    if done == |script| || Over(p, done == 1) then p
    else Play(areas, Step(areas, p, Heard(p, script[done])), script, done + 1)
  }

  /** The request stands at `p` after `done` callbacks, and comes out as `total`. */
  ghost predicate Played(total: Progress, areas: seq<Area>, p: Progress, script: seq<Event>, done: nat) {
    && PositionOk(areas, p) && done <= |script|
    && forall t {:trigger Seen(t)} :: Seen(t) && t == total ==> t == Play(areas, p, script, done)
  }

  /** Names a result, so that how it comes about is only looked up where it is needed. */
  ghost predicate Seen(p: Progress) { true }

  lemma PlayedFurther(total: Progress, areas: seq<Area>, p: Progress, script: seq<Event>, done: nat, q: Progress)
    requires Played(total, areas, p, script, done) && done < |script| && !Over(p, done == 1)
    requires q == Step(areas, p, Heard(p, script[done]))
    ensures Played(total, areas, q, script, done + 1)
  {
    assert Seen(total);
  }

  lemma PlayedOver(total: Progress, areas: seq<Area>, p: Progress, script: seq<Event>, done: nat)
    requires Played(total, areas, p, script, done) && (done == |script| || Over(p, done == 1))
    ensures total == p
  {
    assert Seen(total);
  }

  lemma StepEnds(areas: seq<Area>, p: Progress, e: Event)
    requires PositionOk(areas, p) && (p.index == |areas| || e.ret < 0)
    ensures Step(areas, p, e)
         == Progress(Finished(e.ret), p.sector + Size(p.iov) / SECTOR_SIZE, p.index, p.offset, [], p.issued)
  {
  }

  lemma StepProceeds(areas: seq<Area>, p: Progress, e: Event, sector: nat, m: Mapping)
    requires PositionOk(areas, p) && !(p.index == |areas| || e.ret < 0)
    requires sector == p.sector + Size(p.iov) / SECTOR_SIZE && m == MapFrom(areas, p.index, p.offset, e.grants)
    ensures Step(areas, p, e)
         == if m.iov == [] then Progress(Waiting, sector, m.index, m.offset, [], p.issued)
            else if e.accepted
              then Progress(InFlight, sector, m.index, m.offset, m.iov, p.issued + [Batch(sector, m.iov)])
            else Progress(Dropped, sector, m.index, m.offset, [], p.issued)
  {
  }

  function Fresh(start: nat): Progress { Progress(Waiting, start, 0, 0, [], []) }

  class Request {
    const areas: seq<Area>
    const start: nat
    var sector: nat
    var index: nat
    var offset: nat
    var iov: seq<Area>
    var phase: Phase
    // What the environment has seen: batches accepted by the block device, areas mapped, areas
    // unmapped, and areas of a batch that was not accepted.
    var issued: seq<Batch>
    var mapped: seq<Area>
    var unmapped: seq<Area>
    var refused: seq<Area>

    constructor (areas: seq<Area>, start: nat)
      requires areas != []
      ensures this.areas == areas && this.start == start
      ensures Valid() && Now() == Fresh(start) && mapped == []
    {
      this.areas, this.start := areas, start;
      sector, index, offset, iov := start, 0, 0, [];
      phase, issued, mapped, unmapped, refused := Waiting, [], [], [], [];
      new;
      RemainingStarts(areas);
      Account(areas, [], [], 0, 0);
    }

    ghost function Now(): Progress
      reads this
    {
      Progress(phase, sector, index, offset, iov, issued)
    }

    ghost predicate Valid()
      reads this
    {
      && Accounted(areas, issued, refused, index, offset)
      && (forall i :: 0 <= i < index ==> areas[i].len > 0)
      && Consecutive(issued, start)
      && mapped == unmapped + iov
      && (refused != [] ==> phase.Dropped?)
      && (if phase.InFlight?
          then Size(iov) > 0 && issued != [] && sector == start + Sectors(issued[..|issued| - 1])
               && issued[|issued| - 1] == Batch(sector, iov)
          else iov == [] && sector == start + Sectors(issued))
      && (phase.Finished? && phase.ret >= 0 ==> index == |areas|)
    }

    /** dma_bdrv_unmap. */
    method Unmap()
      modifies this`unmapped
      ensures unmapped == old(unmapped) + iov
    {
      for i := 0 to |iov|
        invariant unmapped == old(unmapped) + iov[..i]
      {
        unmapped := unmapped + [iov[i]];
      }
    }

    /** The mapping loop: maps areas until the list ends or a mapping fails. */
    method Map(grants: seq<nat>)
      requires Accounted(areas, issued, [], index, offset)
      requires iov == [] && index < |areas| && mapped == unmapped
      modifies this`index, this`offset, this`iov, this`mapped
      ensures Accounted(areas, issued, iov, index, offset) && mapped == unmapped + iov
      ensures Mapping(iov, index, offset) == MapFrom(areas, old(index), old(offset), grants)
      ensures Size(iov) == 0 <==> iov == []
    {
      ghost var total := MapFrom(areas, index, offset, grants);
      var k := 0;
      while index < |areas|
        invariant Accounted(areas, issued, iov, index, offset) && mapped == unmapped + iov
        invariant k <= |grants| && (Size(iov) == 0 <==> iov == [])
        invariant MapAhead(total, areas, iov, index, offset, grants[k..])
        decreases |grants| - k, 1
      {
        var left := areas[index].len - offset;
        var granted := if k < |grants| then grants[k] else 0;
        if granted == 0 || left == 0 {
          break;
        }
        var n := if granted < left then granted else left;
        MapFurther(total, areas, iov, index, offset, grants, k, n);
        k := k + 1;
        MapOne(n);
      }
      MapOver(total, areas, iov, index, offset, grants, k);
    }

    /** One mapping of n bytes from the current position on. */
    method MapOne(n: nat)
      requires Accounted(areas, issued, iov, index, offset) && mapped == unmapped + iov
      requires index < |areas| && 0 < n && offset + n <= areas[index].len
      modifies this`index, this`offset, this`iov, this`mapped
      ensures Accounted(areas, issued, iov, index, offset) && mapped == unmapped + iov
      ensures Size(iov) == Size(old(iov)) + n
      ensures iov == old(iov) + [Area(areas[old(index)].base + old(offset), n)]
      ensures if old(offset) + n == areas[old(index)].len then index == old(index) + 1 && offset == 0
              else index == old(index) && offset == old(offset) + n
    {
      var a := Area(areas[index].base + offset, n);
      ghost var index', offset' := MapAccounted(areas, issued, iov, index, offset, n, a);
      assert mapped + [a] == unmapped + (iov + [a]);
      iov, mapped, offset := iov + [a], mapped + [a], offset + n;
      if offset == areas[index].len {
        index, offset := index + 1, 0;
      }
      assert index == index' && offset == offset';
    }

    /** The start of a callback: the sector moves past the batch that was in flight, and its memory is
        unmapped. */
    method Retire()
      requires Valid() && (phase.InFlight? || phase.Waiting?)
      modifies this`sector, this`unmapped, this`iov
      ensures iov == [] && sector == start + Sectors(issued) && unmapped == mapped
      ensures sector == old(sector) + Size(old(iov)) / SECTOR_SIZE
    {
      if phase.InFlight? {
        SectorsLast(issued[..|issued| - 1], issued[|issued| - 1]);
        assert issued == issued[..|issued| - 1] + [issued[|issued| - 1]];
      }
      sector := sector + Size(iov) / SECTOR_SIZE;
      Unmap();
      iov := [];
    }

    /** The end of a callback that has put a batch together. */
    method Submit(accepted: bool)
      requires Accounted(areas, issued, iov, index, offset) && Consecutive(issued, start)
      requires forall i :: 0 <= i < index ==> areas[i].len > 0
      requires mapped == unmapped + iov && refused == [] && Size(iov) > 0 && sector == start + Sectors(issued)
      modifies this`issued, this`phase, this`unmapped, this`refused, this`iov
      ensures Valid()
      ensures if accepted then phase == InFlight && issued == old(issued) + [Batch(sector, iov)] && iov == old(iov)
              else phase == Dropped && issued == old(issued) && mapped == unmapped && iov == []
    {
      if accepted {
        Issue();
      } else {
        Unmap();
        refused, iov, phase := iov, [], Dropped;
      }
    }

    /** dma_bdrv_cb: the account is kept, and the request goes on as the step says. */
    method Callback(e: Event)
      requires Valid() && (phase.InFlight? || (phase.Waiting? && e.ret == 0))
      modifies this
      ensures Valid() && old(PositionOk(areas, Now())) && Now() == Step(areas, old(Now()), e)
      ensures !phase.InFlight? ==> mapped == unmapped
    {
      ghost var p := Now();
      Retire();
      if index == |areas| || e.ret < 0 {
        phase := Finished(e.ret);
        StepEnds(areas, p, e);
        return;
      }
      StepProceeds(areas, p, e, sector, MapFrom(areas, index, offset, e.grants));
      Proceed(e);
    }

    /** The rest of the callback, when there is more to transfer. */
    method Proceed(e: Event)
      requires Accounted(areas, issued, [], index, offset) && Consecutive(issued, start)
      requires forall i :: 0 <= i < index ==> areas[i].len > 0
      requires iov == refused == [] && index < |areas| && mapped == unmapped && sector == start + Sectors(issued)
      modifies this`index, this`offset, this`iov, this`mapped, this`phase, this`issued, this`unmapped, this`refused
      ensures Valid() && (!phase.InFlight? ==> mapped == unmapped)
      ensures var m := MapFrom(areas, old(index), old(offset), e.grants);
              && index == m.index && offset == m.offset
              && if m.iov == [] then phase == Waiting && iov == [] && issued == old(issued)
                 else if e.accepted
                   then phase == InFlight && iov == m.iov && issued == old(issued) + [Batch(sector, m.iov)]
                 else phase == Dropped && iov == [] && issued == old(issued)
    {
      Map(e.grants);
      if Size(iov) == 0 {
        phase := Waiting;
        return;
      }
      Submit(e.accepted);
    }

    /** What a valid request has transferred. */
    lemma InOrder()
      requires Valid()
      ensures Transferred(issued) <= Flatten(areas)
      ensures phase.Finished? && phase.ret >= 0 ==> Transferred(issued) == Flatten(areas) && NoEmptyArea(areas)
    {
      Account(areas, issued, refused, index, offset);
      if phase.Finished? && phase.ret >= 0 {
        assert Flatten(refused) + Remaining(areas, index, offset) == [];
      }
    }

    /** The block device accepts the batch that has been put together. */
    method Issue()
      requires Accounted(areas, issued, iov, index, offset) && Consecutive(issued, start)
      requires forall i :: 0 <= i < index ==> areas[i].len > 0
      requires mapped == unmapped + iov && refused == []
      requires Size(iov) > 0 && sector == start + Sectors(issued)
      modifies this`issued, this`phase
      ensures Valid() && phase == InFlight && issued == old(issued) + [Batch(sector, iov)]
    {
      var b := Batch(sector, iov);
      IssueAccounted(areas, issued, b, index, offset);
      ConsecutiveLast(issued, b, start);
      issued, phase := issued + [b], InFlight;
    }
  }

  /** With `iov` mapped, the loop goes on from the position with the grants left, and comes out as `total`. */
  ghost predicate MapAhead(total: Mapping, areas: seq<Area>, iov: seq<Area>, index: nat, offset: nat,
                           grants: seq<nat>) {
    && Positioned(areas, index, offset)
    && var m := MapFrom(areas, index, offset, grants);
       total == m.(iov := iov + m.iov)
  }

  lemma MapFurther(total: Mapping, areas: seq<Area>, iov: seq<Area>, index: nat, offset: nat, grants: seq<nat>, k: nat,
                   n: nat)
    requires k < |grants| && MapAhead(total, areas, iov, index, offset, grants[k..])
    requires index < |areas| && offset < areas[index].len && grants[k] > 0
    requires n == if grants[k] < areas[index].len - offset then grants[k] else areas[index].len - offset
    ensures var iov' := iov + [Area(areas[index].base + offset, n)];
            if offset + n == areas[index].len then MapAhead(total, areas, iov', index + 1, 0, grants[k + 1..])
            else MapAhead(total, areas, iov', index, offset + n, grants[k + 1..])
  {
    assert grants[k..][1..] == grants[k + 1..];
    var a := Area(areas[index].base + offset, n);
    var next := if offset + n == areas[index].len then MapFrom(areas, index + 1, 0, grants[k + 1..])
                else MapFrom(areas, index, offset + n, grants[k + 1..]);
    assert MapFrom(areas, index, offset, grants[k..]) == next.(iov := [a] + next.iov);
    Regroup(iov, [a], next.iov);
  }

  lemma MapOver(total: Mapping, areas: seq<Area>, iov: seq<Area>, index: nat, offset: nat, grants: seq<nat>, k: nat)
    requires k <= |grants| && MapAhead(total, areas, iov, index, offset, grants[k..])
    requires index == |areas| || k == |grants| || grants[k] == 0 || areas[index].len == 0
    ensures total == Mapping(iov, index, offset)
  {
    assert iov + [] == iov;
  }

  lemma ConsecutiveLast(batches: seq<Batch>, b: Batch, start: nat)
    requires Consecutive(batches, start) && b.sector == start + Sectors(batches)
    ensures Consecutive(batches + [b], start)
  {
    var all := batches + [b];
    forall k | 0 <= k < |all|
      ensures all[k].sector == start + Sectors(all[..k])
    {
      if k < |batches| {
        assert all[..k] == batches[..k];
      } else {
        assert all[..k] == batches;
      }
    }
  }

  /** A whole request: `dma_bdrv_io` and then one callback after the other, for every behaviour of the
      environment. At every point the batches issued transfer a prefix of the list in order, each batch
      starts at the sector its predecessors advanced to, and areas are unmapped in the order in which
      they were mapped. When the request has finished without an error the batches transfer exactly the
      list, which then has no empty area; when it is over in any way, every area mapped has been unmapped
      exactly once. */
  method Run(areas: seq<Area>, start: nat, script: seq<Event>)
    returns (phase: Phase, issued: seq<Batch>, mapped: seq<Area>, unmapped: seq<Area>)
    requires areas != []
    ensures Transferred(issued) <= Flatten(areas) && Consecutive(issued, start) && unmapped <= mapped
    ensures phase.Finished? && phase.ret >= 0 ==> Transferred(issued) == Flatten(areas) && NoEmptyArea(areas)
    ensures !phase.InFlight? ==> mapped == unmapped
    ensures PositionOk(areas, Fresh(start))
    ensures var p := Play(areas, Fresh(start), script, 0); phase == p.phase && issued == p.issued
  {
    var r := new Request(areas, start);
    Drive(r, script, Play(areas, r.Now(), script, 0));
    phase, issued, mapped, unmapped := r.phase, r.issued, r.mapped, r.unmapped;
    r.InOrder();
  }

  /** The callbacks, one after the other. */
  method Drive(r: Request, script: seq<Event>, ghost total: Progress)
    requires r.Valid() && r.phase == Waiting && Played(total, r.areas, r.Now(), script, 0)
    modifies r
    ensures r.Valid() && r.Now() == total && (!r.phase.InFlight? ==> r.mapped == r.unmapped)
  {
    var k: nat := 0;
    while k < |script|
      invariant r.Valid() && 0 <= k <= |script| && (k == 0 ==> r.phase == Waiting)
      invariant !r.phase.InFlight? ==> r.mapped == r.unmapped
      invariant Played(total, r.areas, r.Now(), script, k)
    {
      if k > 0 && r.phase.Waiting? && k == 1 {
        break; // dma_bdrv_io gives up when the first callback maps nothing
      }
      if r.phase.Finished? || r.phase.Dropped? {
        break;
      }
      NextCallback(r, script, k, total);
      k := k + 1;
    }
    PlayedOver(total, r.areas, r.Now(), script, k);
  }

  /** The next callback. */
  method NextCallback(r: Request, script: seq<Event>, k: nat, ghost total: Progress)
    requires r.Valid() && k < |script| && !Over(r.Now(), k == 1) && Played(total, r.areas, r.Now(), script, k)
    modifies r
    ensures r.Valid() && (!r.phase.InFlight? ==> r.mapped == r.unmapped)
              && Played(total, r.areas, r.Now(), script, k + 1)
  {
    ghost var p := r.Now();
    var e := script[k];
    if r.phase.Waiting? {
      e := e.(ret := 0); // called again by reschedule_dma
    }
    r.Callback(e);
    PlayedFurther(total, r.areas, p, script, k, r.Now());
  }

  // ---------------------------------------------------------------- whole sectors

  ghost predicate WholeSectors(n: int) { n % SECTOR_SIZE == 0 }

  ghost predicate AreasWhole(areas: seq<Area>) {
    forall i :: 0 <= i < |areas| ==> WholeSectors(areas[i].len)
  }

  /** Each grant is a whole number of sectors or covers the rest of its area. */
  ghost predicate GrantsWhole(areas: seq<Area>, index: nat, offset: nat, grants: seq<nat>)
    requires Positioned(areas, index, offset)
    decreases |grants|
  {
    if index == |areas| || grants == [] || grants[0] == 0 || areas[index].len == 0 then true
    else
      var left := areas[index].len - offset;
      if grants[0] >= left then GrantsWhole(areas, index + 1, 0, grants[1..])
      else WholeSectors(grants[0]) && GrantsWhole(areas, index, offset + grants[0], grants[1..])
  }

  /** The same for all callbacks to come. */
  ghost predicate ScriptWhole(areas: seq<Area>, p: Progress, script: seq<Event>, done: nat)
    requires PositionOk(areas, p) && done <= |script|
    decreases |script| - done
  {
    if done == |script| || Over(p, done == 1) then true
    else
      && GrantsWhole(areas, p.index, p.offset, script[done].grants)
      && ScriptWhole(areas, Step(areas, p, Heard(p, script[done])), script, done + 1)
  }

  lemma {:induction false} MapsWhole(areas: seq<Area>, index: nat, offset: nat, grants: seq<nat>)
    requires Positioned(areas, index, offset) && AreasWhole(areas) && WholeSectors(offset)
    requires GrantsWhole(areas, index, offset, grants)
    ensures var m := MapFrom(areas, index, offset, grants); WholeSectors(Size(m.iov)) && WholeSectors(m.offset)
    decreases |grants|
  {
    if !(index == |areas| || grants == [] || grants[0] == 0 || areas[index].len == 0) {
      var left := areas[index].len - offset;
      var n := if grants[0] < left then grants[0] else left;
      assert WholeSectors(n) by {
        assert WholeSectors(areas[index].len);
      }
      var a := Area(areas[index].base + offset, n);
      if n == left {
        MapsWhole(areas, index + 1, 0, grants[1..]);
        OneMoreWhole(a, MapFrom(areas, index + 1, 0, grants[1..]).iov);
      } else {
        WholeSum(offset, n);
        MapsWhole(areas, index, offset + n, grants[1..]);
        OneMoreWhole(a, MapFrom(areas, index, offset + n, grants[1..]).iov);
      }
    }
  }

  lemma WholeSum(x: int, y: int)
    requires WholeSectors(x) && WholeSectors(y)
    ensures WholeSectors(x + y)
  {
  }

  lemma OneMoreWhole(a: Area, iov: seq<Area>)
    requires WholeSectors(a.len) && WholeSectors(Size(iov))
    ensures WholeSectors(Size([a] + iov))
  {
    assert ([a] + iov)[1..] == iov;
    WholeSum(a.len, Size(iov));
  }

  /** So every batch is a whole number of sectors: the lengths of the areas and the grants decide. */
  lemma {:induction false} PlaysWhole(areas: seq<Area>, p: Progress, script: seq<Event>, done: nat)
    requires PositionOk(areas, p) && done <= |script| && AreasWhole(areas) && ScriptWhole(areas, p, script, done)
    requires WholeSectors(p.offset) && forall k :: 0 <= k < |p.issued| ==> Aligned(p.issued[k])
    ensures forall k :: 0 <= k < |Play(areas, p, script, done).issued| ==>
              Aligned(Play(areas, p, script, done).issued[k])
    decreases |script| - done
  {
    if !(done == |script| || Over(p, done == 1)) {
      var e := Heard(p, script[done]);
      MapsWhole(areas, p.index, p.offset, script[done].grants);
      PlaysWhole(areas, Step(areas, p, e), script, done + 1);
    }
  }

  // ---------------------------------------------------------------- what the transfer does

  /** The bytes at a list of addresses. */
  function Gather<B>(mem: Addr -> B, addrs: seq<Addr>): (bytes: seq<B>)
    ensures |bytes| == |addrs|
  {
    seq(|addrs|, i requires 0 <= i < |addrs| => mem(addrs[i]))
  }

  /** The batches lie inside a disk of the given size. */
  predicate Fit(batches: seq<Batch>, size: nat) {
    forall k :: 0 <= k < |batches| ==> batches[k].sector * SECTOR_SIZE + |Flatten(batches[k].iov)| <= size
  }

  /** The disk after a list of write batches. */
  function WriteBatches<B>(disk: seq<B>, mem: Addr -> B, batches: seq<Batch>): (d: seq<B>)
    requires Fit(batches, |disk|)
    ensures |d| == |disk|
  {
    if batches == [] then disk
    else
      var n := |batches| - 1;
      var b := batches[n];
      assert Fit(batches[..n], |disk|) by {
        assert forall k :: 0 <= k < n ==> batches[..n][k] == batches[k];
      }
      Patch(WriteBatches(disk, mem, batches[..n]), b.sector * SECTOR_SIZE, Gather(mem, Flatten(b.iov)))
  }

  lemma PatchExtends<B>(disk: seq<B>, p: nat, x: seq<B>, y: seq<B>)
    requires p + |x| + |y| <= |disk|
    ensures Patch(Patch(disk, p, x), p + |x|, y) == Patch(disk, p, x + y)
  {
  }

  lemma GatherConcat<B>(mem: Addr -> B, x: seq<Addr>, y: seq<Addr>)
    ensures Gather(mem, x + y) == Gather(mem, x) + Gather(mem, y)
  {
  }

  /** A DMA write whose batches are whole numbers of sectors changes exactly the addressed range of the
      disk, to the bytes of guest memory in the order of the list. */
  lemma {:induction false} DiskGetsMemory<B>(disk: seq<B>, mem: Addr -> B, batches: seq<Batch>, start: nat)
    requires Consecutive(batches, start) && forall k :: 0 <= k < |batches| ==> Aligned(batches[k])
    requires start * SECTOR_SIZE + |Transferred(batches)| <= |disk|
    ensures Fit(batches, |disk|)
    ensures WriteBatches(disk, mem, batches) == Patch(disk, start * SECTOR_SIZE, Gather(mem, Transferred(batches)))
  {
    if batches == [] {
    } else {
      var n := |batches| - 1;
      var init, b := batches[..n], batches[n];
      assert batches == init + [b];
      TransferredLast(init, b);
      InitOfBatches(batches, start);
      DiskGetsMemory(disk, mem, init, start);
      BatchPlacedRight(batches, start, n);
      WriteOneMore(disk, mem, init, b, start * SECTOR_SIZE, Transferred(init));
    }
  }

  lemma WriteOneMore<B>(disk: seq<B>, mem: Addr -> B, batches: seq<Batch>, b: Batch, p: nat, x: seq<Addr>)
    requires Fit(batches, |disk|) && p + |x| + |Flatten(b.iov)| <= |disk|
    requires WriteBatches(disk, mem, batches) == Patch(disk, p, Gather(mem, x))
    requires b.sector * SECTOR_SIZE == p + |x|
    ensures Fit(batches + [b], |disk|)
    ensures WriteBatches(disk, mem, batches + [b]) == Patch(disk, p, Gather(mem, x + Flatten(b.iov)))
  {
    var all, y := batches + [b], Flatten(b.iov);
    assert all[..|all| - 1] == batches;
    GatherConcat(mem, x, y);
    PatchExtends(disk, p, Gather(mem, x), Gather(mem, y));
  }

  lemma InitOfBatches(batches: seq<Batch>, start: nat)
    requires batches != [] && Consecutive(batches, start) && forall k :: 0 <= k < |batches| ==> Aligned(batches[k])
    ensures var init := batches[..|batches| - 1];
            Consecutive(init, start) && forall k :: 0 <= k < |init| ==> Aligned(init[k])
  {
    var n := |batches| - 1;
    assert forall k :: 0 <= k < n ==> batches[..n][..k] == batches[..k] && batches[..n][k] == batches[k];
  }

  // ---------------------------------------------------------------- the other direction

  /** Memory with the bytes put at the addresses, one after the other. */
  function Scatter<B>(mem: map<Addr, B>, addrs: seq<Addr>, bytes: seq<B>): map<Addr, B>
    requires |addrs| == |bytes|
  {
    if addrs == [] then mem
    else
      var n := |addrs| - 1;
      Scatter(mem, addrs[..n], bytes[..n])[addrs[n] := bytes[n]]
  }

  lemma {:induction false} ScatterConcat<B>(mem: map<Addr, B>, a: seq<Addr>, x: seq<B>, b: seq<Addr>, y: seq<B>)
    requires |a| == |x| && |b| == |y|
    ensures Scatter(mem, a + b, x + y) == Scatter(Scatter(mem, a, x), b, y)
    decreases |b|
  {
    if b == [] {
      assert a + b == a && x + y == x;
    } else {
      var n := |b| - 1;
      ScatterConcat(mem, a, x, b[..n], y[..n]);
      assert (a + b)[..|a + b| - 1] == a + b[..n] && (x + y)[..|a + b| - 1] == x + y[..n];
    }
  }

  /** What reading the batches from the disk makes of memory. */
  function ReadBatches<B>(mem: map<Addr, B>, disk: seq<B>, batches: seq<Batch>): map<Addr, B>
    requires Fit(batches, |disk|)
  {
    if batches == [] then mem
    else
      var b := batches[|batches| - 1];
      var addrs := Flatten(b.iov);
      Scatter(ReadBatches(mem, disk, batches[..|batches| - 1]), addrs, Part(disk, b.sector * SECTOR_SIZE, |addrs|))
  }

  /** The `n` bytes of a disk from position p on. */
  function Part<B>(disk: seq<B>, p: nat, n: nat): (bytes: seq<B>)
    requires p + n <= |disk|
    ensures |bytes| == n
  {
    disk[p..p + n]
  }

  lemma PartConcat<B>(disk: seq<B>, p: nat, m: nat, n: nat)
    requires p + m + n <= |disk|
    ensures Part(disk, p, m) + Part(disk, p + m, n) == Part(disk, p, m + n)
  {
  }

  /** A DMA read whose batches are whole numbers of sectors puts the addressed range of the disk into guest
      memory in the order of the list. */
  lemma {:induction false} MemoryGetsDisk<B>(mem: map<Addr, B>, disk: seq<B>, batches: seq<Batch>, start: nat)
    requires Consecutive(batches, start) && forall k :: 0 <= k < |batches| ==> Aligned(batches[k])
    requires start * SECTOR_SIZE + |Transferred(batches)| <= |disk|
    ensures Fit(batches, |disk|)
    ensures var p, all := start * SECTOR_SIZE, Transferred(batches);
            ReadBatches(mem, disk, batches) == Scatter(mem, all, Part(disk, p, |all|))
    decreases |batches|
  {
    if batches != [] {
      var n := |batches| - 1;
      var init, b := batches[..n], batches[n];
      assert batches == init + [b];
      TransferredLast(init, b);
      InitOfBatches(batches, start);
      MemoryGetsDisk(mem, disk, init, start);
      BatchPlacedRight(batches, start, n);
      ReadOneMore(mem, disk, init, b, start * SECTOR_SIZE, Transferred(init));
    }
  }

  lemma ReadOneMore<B>(mem: map<Addr, B>, disk: seq<B>, batches: seq<Batch>, b: Batch, p: nat, x: seq<Addr>)
    requires Fit(batches, |disk|) && p + |x| + |Flatten(b.iov)| <= |disk|
    requires ReadBatches(mem, disk, batches) == Scatter(mem, x, Part(disk, p, |x|))
    requires b.sector * SECTOR_SIZE == p + |x|
    ensures Fit(batches + [b], |disk|)
    ensures ReadBatches(mem, disk, batches + [b])
              == Scatter(mem, x + Flatten(b.iov), Part(disk, p, |x + Flatten(b.iov)|))
  {
    ReadLast(mem, disk, batches, b);
    ScatterOneMore(mem, disk, p, x, Flatten(b.iov));
  }

  lemma ReadLast<B>(mem: map<Addr, B>, disk: seq<B>, batches: seq<Batch>, b: Batch)
    requires Fit(batches, |disk|) && b.sector * SECTOR_SIZE + |Flatten(b.iov)| <= |disk|
    ensures Fit(batches + [b], |disk|)
    ensures ReadBatches(mem, disk, batches + [b])
            == Scatter(ReadBatches(mem, disk, batches), Flatten(b.iov),
                       Part(disk, b.sector * SECTOR_SIZE, |Flatten(b.iov)|))
  {
    var all := batches + [b];
    assert all[..|all| - 1] == batches;
  }

  lemma ScatterOneMore<B>(mem: map<Addr, B>, disk: seq<B>, p: nat, x: seq<Addr>, y: seq<Addr>)
    requires p + |x| + |y| <= |disk|
    ensures Scatter(Scatter(mem, x, Part(disk, p, |x|)), y, Part(disk, p + |x|, |y|))
              == Scatter(mem, x + y, Part(disk, p, |x + y|))
  {
    ScatterConcat(mem, x, Part(disk, p, |x|), y, Part(disk, p + |x|, |y|));
    PartConcat(disk, p, |x|, |y|);
  }

  // ---------------------------------------------------------------- from the request to its effect

  /** What is known of the request before it begins: areas and grants in whole sectors. */
  ghost predicate InWholeSectors(areas: seq<Area>, start: nat, script: seq<Event>) {
    areas != [] && AreasWhole(areas) && PositionOk(areas, Fresh(start)) && ScriptWhole(areas, Fresh(start), script, 0)
  }

  /** A write request in whole sectors that finishes without an error changes exactly the addressed range of
      the disk, to the bytes of memory in the order of the list. */
  method WriteRequest<B>(areas: seq<Area>, start: nat, script: seq<Event>, disk: seq<B>, mem: Addr -> B)
    returns (phase: Phase, after: seq<B>)
    requires InWholeSectors(areas, start, script) && start * SECTOR_SIZE + |Flatten(areas)| <= |disk|
    ensures phase == Play(areas, Fresh(start), script, 0).phase
    ensures phase.Finished? && phase.ret >= 0 ==> after == Patch(disk, start * SECTOR_SIZE, Gather(mem, Flatten(areas)))
  {
    var issued, mapped, unmapped;
    phase, issued, mapped, unmapped := Run(areas, start, script);
    PlaysWhole(areas, Fresh(start), script, 0);
    DiskGetsMemory(disk, mem, issued, start);
    after := WriteBatches(disk, mem, issued);
  }

  /** A read request puts the addressed range of the disk into memory in the order of the list. */
  method ReadRequest<B>(areas: seq<Area>, start: nat, script: seq<Event>, disk: seq<B>, mem: map<Addr, B>)
    returns (phase: Phase, after: map<Addr, B>)
    requires InWholeSectors(areas, start, script) && start * SECTOR_SIZE + |Flatten(areas)| <= |disk|
    ensures phase == Play(areas, Fresh(start), script, 0).phase
    ensures phase.Finished? && phase.ret >= 0 ==>
              after == Scatter(mem, Flatten(areas), Part(disk, start * SECTOR_SIZE, |Flatten(areas)|))
  {
    var issued, mapped, unmapped;
    phase, issued, mapped, unmapped := Run(areas, start, script);
    PlaysWhole(areas, Fresh(start), script, 0);
    MemoryGetsDisk(mem, disk, issued, start);
    after := ReadBatches(mem, disk, issued);
  }

  /** A list of 512 bytes in two areas, of which the first callback can map only the first area: the second
      batch is put where the first one was. */
  method SecondBatchMisplaced() returns (phase: Phase, issued: seq<Batch>)
    ensures phase == Finished(0) && |issued| == 2
    ensures issued[1].sector * SECTOR_SIZE != 7 * SECTOR_SIZE + |Transferred(issued[..1])|
  {
    var areas, script := [Area(0, 100), Area(100, 412)],
          [Event(0, [100], true), Event(0, [412], true), Event(0, [], true)];
    var mapped, unmapped;
    phase, issued, mapped, unmapped := Run(areas, 7, script);
    TwoBatches(areas, script);
    UnalignedBatchMisplacesNext();
  }

  const FIRST := Batch(7, [Area(0, 100)])
  const SECOND := Batch(7, [Area(100, 412)])

  lemma FirstStep(areas: seq<Area>)
    requires areas == [Area(0, 100), Area(100, 412)] && PositionOk(areas, Fresh(7))
    ensures Step(areas, Fresh(7), Event(0, [100], true)) == Progress(InFlight, 7, 1, 0, FIRST.iov, [FIRST])
  {
    assert [100][1..] == [];
    assert MapFrom(areas, 1, 0, []) == Mapping([], 1, 0);
    assert MapFrom(areas, 0, 0, [100]) == Mapping([Area(0, 100)], 1, 0);
  }

  lemma SecondStep(areas: seq<Area>, p: Progress)
    requires areas == [Area(0, 100), Area(100, 412)] && p == Progress(InFlight, 7, 1, 0, FIRST.iov, [FIRST])
    ensures PositionOk(areas, p)
    ensures Step(areas, p, Event(0, [412], true)) == Progress(InFlight, 7, 2, 0, SECOND.iov, [FIRST, SECOND])
  {
    assert [412][1..] == [];
    assert MapFrom(areas, 2, 0, []) == Mapping([], 2, 0);
    assert MapFrom(areas, 1, 0, [412]) == Mapping([Area(100, 412)], 2, 0);
    SizeOfOne(Area(0, 100));
  }

  lemma TwoBatches(areas: seq<Area>, script: seq<Event>)
    requires areas == [Area(0, 100), Area(100, 412)] && PositionOk(areas, Fresh(7))
    requires script == [Event(0, [100], true), Event(0, [412], true), Event(0, [], true)]
    ensures var p := Play(areas, Fresh(7), script, 0); p.phase == Finished(0) && p.issued == [FIRST, SECOND]
  {
    var p1, p2 := Step(areas, Fresh(7), script[0]), Progress(InFlight, 7, 2, 0, SECOND.iov, [FIRST, SECOND]);
    FirstStep(areas);
    SecondStep(areas, p1);
    var p3 := Step(areas, p2, script[2]);
    assert Play(areas, p3, script, 3) == p3;
    assert Play(areas, p2, script, 2) == p3;
    assert Play(areas, p1, script, 1) == p3;
  }

  lemma SizeOfOne(a: Area)
    ensures Size([a]) == a.len
  {
    assert [a][1..] == [];
  }
}
