/** Committing a copy-on-write image into its backing image. */
module BlockCommit {
  import opened Basics

  const MAX_RUN := 65536

  /** A copy-on-write image: an overlay whose allocated sectors hide those of the backing image. `S` is the
      contents of a sector. */
  class CowImage<S> {
    const inserted: bool
    const readOnly: bool
    const hasBacking: bool
    const canEmpty: bool
    /** The backing image can be written. */
    const backingWritable: bool
    const zero: S
    var overlay: seq<S>
    var present: seq<bool>
    var backing: seq<S>
    /** Which of the coming driver calls fail. */
    var faults: seq<bool>
    /** What the writes that fail leave behind, one after the other. */
    var spoils: seq<S>

    constructor (overlay: seq<S>, present: seq<bool>, backing: seq<S>, faults: seq<bool>, spoils: seq<S>, zero: S,
                 inserted: bool, readOnly: bool, hasBacking: bool, backingWritable: bool, canEmpty: bool)
      requires |present| == |overlay|
      ensures Valid() && this.overlay == overlay && this.present == present && this.backing == backing
      ensures this.faults == faults && this.zero == zero
    {
      this.overlay, this.present, this.backing, this.faults, this.zero := overlay, present, backing, faults, zero;
      this.inserted, this.readOnly, this.hasBacking, this.canEmpty := inserted, readOnly, hasBacking, canEmpty;
      this.backingWritable, this.spoils := backingWritable, spoils;
    }

    ghost predicate Valid()
      reads this
    {
      |present| == |overlay|
    }

    /** What the guest reads from sector i. */
    ghost function Seen(i: nat): S
      requires Valid() && i < |overlay|
      reads this
    {
      if present[i] then overlay[i] else if i < |backing| then backing[i] else zero
    }

    /** What the guest sees of the whole disk. */
    ghost function View(): (v: seq<S>)
      requires Valid()
      reads this
      ensures |v| == |overlay|
    {
      seq(|overlay|, i requires 0 <= i < |overlay| && Valid() reads this => Seen(i))
    }

    method Fault() returns (fault: bool)
      modifies this`faults
      ensures old(faults) == [] ==> !fault && faults == []
    {
      if faults == [] {
        return false;
      }
      fault := faults[0];
      faults := faults[1..];
    }

    /** The driver says whether sector i is allocated, and for how many sectors from there on the answer
        is the same; it may report any such number. */
    method IsAllocated(i: nat) returns (alloc: bool, n: nat)
      requires Valid() && i < |overlay|
      ensures alloc == present[i] && 1 <= n <= MAX_RUN && i + n <= |overlay|
      ensures forall j :: i <= j < i + n ==> present[j] == alloc
    {
      alloc := present[i];
      n :| 1 <= n <= MAX_RUN && i + n <= |overlay| && forall j :: i <= j < i + n ==> present[j] == alloc;
    }

    /** The backing image takes sector i. */
    ghost predicate Writable(i: nat)
      reads this`backing
    {
      backingWritable && i < |backing|
    }

    /** Copies one allocated sector to the backing image. A write that fails may leave anything in the
        sector; a sector that the backing image does not have cannot be written, nor can any if the image
        is read-only. */
    method CopySector(i: nat) returns (ok: bool)
      requires Valid() && i < |overlay| && present[i]
      modifies this`faults, this`spoils, this`backing
      ensures |backing| == |old(backing)| && View() == old(View())
      ensures forall j :: 0 <= j < |backing| && j != i ==> backing[j] == old(backing[j])
      ensures ok ==> i < |backing| && backing[i] == overlay[i]
      ensures old(faults) == [] ==> faults == [] && (ok <==> Writable(i))
    {
      var fault := Fault();
      if fault {
        return false;
      }
      var sector := overlay[i];
      if !backingWritable || i >= |backing| {
        return false;
      }
      fault := Fault();
      if fault {
        if spoils != [] {
          backing, spoils := backing[i := spoils[0]], spoils[1..];
        }
        return false;
      }
      backing := backing[i := sector];
      return true;
    }

    /** Empties the overlay; when that fails, some sectors may have been dropped and others not. */
    method MakeEmpty() returns (r: int)
      requires Valid()
      modifies this`faults, this`present
      ensures Valid()
      ensures forall i :: 0 <= i < |present| ==> present[i] ==> old(present)[i]
      ensures r == 0 || r == -EIO
      ensures r == 0 ==> forall i :: 0 <= i < |present| ==> !present[i]
      ensures old(faults) == [] ==> r == 0
    {
      var fault := Fault();
      if fault {
        var kept: nat :| kept <= |present|;
        present := seq(|present|, i requires 0 <= i < |present| reads this => i < kept && present[i]);
        return -EIO;
      }
      present := seq(|present|, i => false);
      return 0;
    }

    /** The allocated sectors below i are in the backing image. */
    ghost predicate CopiedUpTo(i: nat)
      requires Valid() && i <= |overlay|
      reads this
    {
      forall j :: 0 <= j < i && present[j] ==> j < |backing| && backing[j] == overlay[j]
    }

    /** Dropping sectors that are in the backing image cannot be seen. */
    twostate lemma DroppingIsInvisible()
      requires old(Valid()) && old(CopiedUpTo(|overlay|)) && Valid()
      requires overlay == old(overlay) && backing == old(backing)
      requires forall i :: 0 <= i < |present| ==> present[i] ==> old(present)[i]
      ensures View() == old(View())
    {
      forall i | 0 <= i < |overlay|
        ensures Seen(i) == old(Seen(i))
      {
      }
    }

    /** The copying loop of bdrv_commit. */
    method CopyAll() returns (ok: bool)
      requires Valid()
      modifies this`faults, this`spoils, this`backing
      ensures |backing| == |old(backing)| && View() == old(View())
      ensures ok ==> CopiedUpTo(|overlay|)
      ensures forall j :: 0 <= j < |backing| && !(j < |overlay| && present[j]) ==> backing[j] == old(backing[j])
      ensures old(faults) == [] ==>
                faults == [] && (ok <==> forall j :: 0 <= j < |overlay| && present[j] ==> Writable(j))
    {
      var i := 0;
      while i < |overlay|
        invariant 0 <= i <= |overlay| && |backing| == |old(backing)| && View() == old(View()) && CopiedUpTo(i)
        invariant forall j :: 0 <= j < |backing| && !(j < |overlay| && present[j]) ==> backing[j] == old(backing[j])
        invariant old(faults) == [] ==> faults == [] && forall j :: 0 <= j < i && present[j] ==> Writable(j)
        decreases |overlay| - i
      {
        var alloc, n := IsAllocated(i);
        if alloc {
          ghost var first := i;
          for j := 0 to n
            invariant i == first + j && |backing| == |old(backing)| && View() == old(View()) && CopiedUpTo(i)
            invariant forall k :: 0 <= k < |backing| && !(k < |overlay| && present[k]) ==> backing[k] == old(backing[k])
            invariant old(faults) == [] ==> faults == [] && forall k :: 0 <= k < i && present[k] ==> Writable(k)
          {
            assert present[i];
            ok := CopySector(i);
            if !ok {
              assert old(faults) == [] ==> faults == [] && i < |overlay| && present[i] && !Writable(i);
              return;
            }
            i := i + 1;
          }
        } else {
          i := i + n;
        }
      }
      return true;
    }

    /** bdrv_commit. Whatever happens, also when it stops in the middle with an error, what the guest sees
        does not change. When it succeeds the backing image holds what the guest sees. */
    method Commit() returns (r: int)
      requires Valid()
      modifies this`faults, this`spoils, this`backing, this`present
      ensures Valid() && View() == old(View())
      ensures r == -ENOMEDIUM <==> !inserted
      ensures r == -EACCES <==> inserted && readOnly
      ensures r == -ENOTSUP <==> inserted && !readOnly && !hasBacking
      ensures !inserted || readOnly || !hasBacking ==> backing == old(backing) && present == old(present)
      ensures inserted && !readOnly && hasBacking ==> r == 0 || r == -EIO
      ensures r == 0 ==> forall i :: 0 <= i < |overlay| ==>
                if i < |backing| then backing[i] == View()[i] else View()[i] == zero
      ensures r == 0 && canEmpty ==> forall i :: 0 <= i < |present| ==> !present[i]
      ensures old(faults) == [] && inserted && !readOnly && hasBacking ==>
                (r == 0 <==> forall i :: 0 <= i < |overlay| && old(present)[i] ==> Writable(i))
    {
      if !inserted {
        return -ENOMEDIUM;
      }
      if readOnly {
        return -EACCES;
      }
      if !hasBacking {
        return -ENOTSUP;
      }
      var ok := CopyAll();
      if !ok {
        return -EIO;
      }
      if canEmpty {
        label Copied:
        r := MakeEmpty();
        DroppingIsInvisible@Copied();
        return;
      }
      return 0;
    }
  }
}
