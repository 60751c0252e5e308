/** Scatter/gather DMA on a block device: a list of guest memory areas is transferred in batches, each
    made of as much memory as could be mapped at the time. */
module Dma {
  import opened Basics

  type Addr = nat

  // ---------------------------------------------------------------- lists of areas

  datatype Area = Area(base: Addr, len: nat)

  /** The addresses of an area, in order. */
  function Span(base: Addr, len: nat): (s: seq<Addr>)
    ensures |s| == len
  {
    seq(len, i requires 0 <= i => base + i)
  }

  /** The addresses of a list of areas, in order. */
  function Flatten(areas: seq<Area>): seq<Addr> {
    if areas == [] then [] else Span(areas[0].base, areas[0].len) + Flatten(areas[1..])
  }

  function Size(areas: seq<Area>): (n: nat)
    ensures n == |Flatten(areas)|
  {
    if areas == [] then 0 else areas[0].len + Size(areas[1..])
  }

  lemma {:induction false} FlattenLast(areas: seq<Area>, a: Area)
    ensures Flatten(areas + [a]) == Flatten(areas) + Span(a.base, a.len)
    ensures Size(areas + [a]) == Size(areas) + a.len
  {
    if areas == [] {
      assert areas + [a] == [a] && [a][1..] == [];
      assert Flatten([]) == [];
      assert Span(a.base, a.len) + [] == Span(a.base, a.len);
    } else {
      assert (areas + [a])[1..] == areas[1..] + [a];
      FlattenLast(areas[1..], a);
    }
  }

  /** What is left of a list from byte `offset` of area `index` on. */
  function Remaining(areas: seq<Area>, index: nat, offset: nat): seq<Addr>
    requires index <= |areas| && (index < |areas| ==> offset <= areas[index].len)
  {
    if index == |areas| then []
    else Span(areas[index].base + offset, areas[index].len - offset) + Flatten(areas[index + 1..])
  }

  lemma RemainingStarts(areas: seq<Area>)
    requires |areas| > 0
    ensures Remaining(areas, 0, 0) == Flatten(areas)
  {
  }

  /** Taking n bytes off the current area. */
  lemma RemainingAdvances(areas: seq<Area>, index: nat, offset: nat, n: nat)
    requires index < |areas| && offset + n <= areas[index].len
    ensures Remaining(areas, index, offset) == Span(areas[index].base + offset, n) + Remaining(areas, index, offset + n)
    ensures offset + n == areas[index].len ==>
              Remaining(areas, index, offset) == Span(areas[index].base + offset, n) + Remaining(areas, index + 1, 0)
  {
    var a := areas[index];
    var rest := Flatten(areas[index + 1..]);
    assert Span(a.base + offset, a.len - offset)
           == Span(a.base + offset, n) + Span(a.base + offset + n, a.len - offset - n);
    if offset + n == a.len {
      assert Span(a.base + offset + n, 0) == [];
      if index + 1 < |areas| {
        assert areas[index + 1..][1..] == areas[index + 2..];
      }
    }
  }

  // ---------------------------------------------------------------- batches

  /** A request to the block device: `sector` is where it starts, `iov` are the mapped areas. */
  datatype Batch = Batch(sector: nat, iov: seq<Area>)

  /** All addresses transferred by a list of batches, in order. */
  function Transferred(batches: seq<Batch>): seq<Addr> {
    if batches == [] then [] else Flatten(batches[0].iov) + Transferred(batches[1..])
  }

  lemma {:induction false} TransferredLast(batches: seq<Batch>, b: Batch)
    ensures Transferred(batches + [b]) == Transferred(batches) + Flatten(b.iov)
  {
    if batches == [] {
      assert batches + [b] == [b] && [b][1..] == [];
      assert Transferred([]) == [];
    } else {
      assert (batches + [b])[1..] == batches[1..] + [b];
      TransferredLast(batches[1..], b);
    }
  }

  /** The sectors by which a list of batches advances the request: whole sectors of each batch. */
  function Sectors(batches: seq<Batch>): nat {
    if batches == [] then 0 else Size(batches[0].iov) / SECTOR_SIZE + Sectors(batches[1..])
  }

  lemma {:induction false} SectorsLast(batches: seq<Batch>, b: Batch)
    ensures Sectors(batches + [b]) == Sectors(batches) + Size(b.iov) / SECTOR_SIZE
  {
    if batches == [] {
      assert batches + [b] == [b] && [b][1..] == [];
      assert Sectors([]) == 0;
    } else {
      assert (batches + [b])[1..] == batches[1..] + [b];
      SectorsLast(batches[1..], b);
    }
  }

  /** Every batch starts at the sector that its predecessors have advanced the request to. */
  ghost predicate Consecutive(batches: seq<Batch>, start: nat) {
    forall k :: 0 <= k < |batches| ==> batches[k].sector == start + Sectors(batches[..k])
  }

  predicate Aligned(b: Batch) { Size(b.iov) % SECTOR_SIZE == 0 }

  /** The sectors counted fall short of the bytes transferred exactly when some batch was not a whole
      number of sectors. */
  lemma {:induction false} SectorsCountBytes(batches: seq<Batch>)
    ensures Sectors(batches) * SECTOR_SIZE <= |Transferred(batches)|
    ensures (Sectors(batches) * SECTOR_SIZE == |Transferred(batches)|)
         <==> (forall k :: 0 <= k < |batches| ==> Aligned(batches[k]))
  {
    if batches != [] {
      var rest := batches[1..];
      SectorsCountBytes(rest);
      var n := Size(batches[0].iov);
      assert n == n / SECTOR_SIZE * SECTOR_SIZE + n % SECTOR_SIZE;
      assert forall k :: 1 <= k < |batches| ==> batches[k] == rest[k - 1];
      assert forall k :: 0 <= k < |rest| ==> rest[k] == batches[k + 1];
    }
  }

  /** So batch k starts at the byte up to which its predecessors have transferred if and only if all of
      them were whole numbers of sectors. */
  lemma BatchPlacedRight(batches: seq<Batch>, start: nat, k: nat)
    requires Consecutive(batches, start) && k < |batches|
    ensures batches[k].sector * SECTOR_SIZE == start * SECTOR_SIZE + |Transferred(batches[..k])|
       <==> forall j :: 0 <= j < k ==> Aligned(batches[j])
  {
    SectorsCountBytes(batches[..k]);
    assert forall j :: 0 <= j < k ==> batches[..k][j] == batches[j];
  }

  /** A batch that is not a whole number of sectors puts the next one in the wrong place. */
  lemma UnalignedBatchMisplacesNext()
    ensures var batches := [Batch(7, [Area(0, 100)]), Batch(7, [Area(100, 412)])];
            Consecutive(batches, 7) && batches[1].sector * SECTOR_SIZE != 7 * SECTOR_SIZE + |Transferred(batches[..1])|
  {
    var b0 := Batch(7, [Area(0, 100)]);
    var batches := [b0, Batch(7, [Area(100, 412)])];
    assert batches[..1] == [b0] && batches[..0] == [] && [b0][1..] == [];
    assert Size([Area(0, 100)][1..]) == 0 && Flatten([Area(0, 100)][1..]) == [];
    assert Size(b0.iov) == 100;
    assert Transferred([b0]) == Flatten(b0.iov) + Transferred([]);
    assert Sectors([b0]) == 0 && |Transferred([b0])| == 100;
  }
}
