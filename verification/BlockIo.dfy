/** Byte-granular reads and writes of a block device, built over whole sectors. */
module BlockIo {
  import opened Basics

  /** Patching two neighbouring parts is patching both at once. */
  lemma PatchTwice(image: seq<Byte>, at: nat, x: seq<Byte>, y: seq<Byte>)
    requires at + |x| + |y| <= |image|
    ensures Patch(Patch(image, at, x), at + |x|, y) == Patch(image, at, x + y)
  {
  }

  /** Patching a whole range with its own contents changed in the middle is patching the middle. */
  lemma PatchInside(image: seq<Byte>, at: nat, size: nat, off: nat, data: seq<Byte>)
    requires at + size <= |image| && off + |data| <= size
    ensures Patch(image, at, Patch(image[at..at + size], off, data)) == Patch(image, at + off, data)
  {
    var part := image[at..at + size];
    assert image[..at] + part[..off] == image[..at + off];
    assert part[off + |data|..] + image[at + size..] == image[at + off + |data|..];
  }

  lemma SliceOfSlice(image: seq<Byte>, at: nat, size: nat, off: nat, len: nat)
    requires at + size <= |image| && off + len <= size
    ensures image[at..at + size][off..off + len] == image[at + off..at + off + len]
  {
    var part, whole := image[at..at + size][off..off + len], image[at + off..at + off + len];
    assert |part| == |whole| && forall i :: 0 <= i < |part| ==> part[i] == whole[i];
  }

  /** Two neighbouring parts that agree with the image agree with it together. */
  lemma Joined(buf: seq<Byte>, image: seq<Byte>, offset: nat, a: nat, b: nat)
    requires a <= b <= |buf| && offset + b <= |image|
    requires buf[..a] == image[offset..offset + a] && buf[a..b] == image[offset + a..offset + b]
    ensures buf[..b] == image[offset..offset + b]
  {
    assert buf[..b] == buf[..a] + buf[a..b];
    assert image[offset..offset + b] == image[offset..offset + a] + image[offset + a..offset + b];
  }

  /** Two images differ only between two positions. */
  ghost predicate DifferInside(a: seq<Byte>, b: seq<Byte>, from: int, to: int) {
    |a| == |b| && forall i :: 0 <= i < |a| && !(from <= i < to) ==> a[i] == b[i]
  }

  lemma PatchDiffers(image: seq<Byte>, at: nat, data: seq<Byte>)
    requires at + |data| <= |image|
    ensures DifferInside(image, Patch(image, at, data), at, at + |data|)
  {
  }

  lemma DifferFurther(a: seq<Byte>, b: seq<Byte>, c: seq<Byte>, from: int, to: int, s: int, e: int)
    requires DifferInside(a, b, s, e) && DifferInside(b, c, from, to) && s <= from && to <= e
    ensures DifferInside(a, c, s, e)
  {
  }

  /** The end of the last sector that the bytes from `offset` on touch. */
  function TouchedEnd(offset: int, count: int): (e: int)
    ensures e % SECTOR_SIZE == 0 && offset + count <= e < offset + count + SECTOR_SIZE
  {
    (offset + count + SECTOR_SIZE - 1) / SECTOR_SIZE * SECTOR_SIZE
  }

  /** The end of a request that starts at a sector boundary, with `n` whole sectors and `left` bytes. */
  lemma EndOfRequest(sector: int, n: nat, left: nat, end: int)
    requires left < SECTOR_SIZE && end % SECTOR_SIZE == 0
    requires sector * SECTOR_SIZE + n * SECTOR_SIZE + left <= end < sector * SECTOR_SIZE + n * SECTOR_SIZE + left
               + SECTOR_SIZE
    ensures end == (sector + n + if left > 0 then 1 else 0) * SECTOR_SIZE
  {
  }

  /** The sector of a position, and what is left of it: nothing at the start of a sector. */
  lemma SectorOf(offset: int)
    ensures var sector, len := offset / SECTOR_SIZE, (SECTOR_SIZE - offset) % SECTOR_SIZE;
            && sector * SECTOR_SIZE <= offset < (sector + 1) * SECTOR_SIZE
            && if len == 0 then offset == sector * SECTOR_SIZE else offset + len == (sector + 1) * SECTOR_SIZE
  {
  }

  /** What goes over a position of a sector and ends with a sector includes the end of that sector. */
  lemma SectorInside(sector: int, offset: int, e: int)
    requires sector * SECTOR_SIZE <= offset < e && e % SECTOR_SIZE == 0
    ensures (sector + 1) * SECTOR_SIZE <= e
  {
  }

  function TouchedStart(offset: int): (s: int)
    ensures s % SECTOR_SIZE == 0 && s <= offset < s + SECTOR_SIZE
  {
    offset / SECTOR_SIZE * SECTOR_SIZE
  }

  /** A device that does not grow. `faults` are the errors of the coming driver calls, 0 for none; a write that
      fails may leave anything in the sectors it was meant for. */
  class Device {
    var image: seq<Byte>
    var faults: seq<nat>
    const hasDriver: bool
    const inserted: bool
    const readOnly: bool

    constructor (image: seq<Byte>, faults: seq<nat>, hasDriver: bool, inserted: bool, readOnly: bool)
      ensures this.image == image && this.faults == faults
      ensures this.hasDriver == hasDriver && this.inserted == inserted && this.readOnly == readOnly
    {
      this.image, this.faults := image, faults;
      this.hasDriver, this.inserted, this.readOnly := hasDriver, inserted, readOnly;
    }

    /** There is a medium that may be written. */
    predicate Writable() { hasDriver && inserted && !readOnly }

    /** No driver call to come fails. */
    ghost predicate Healthy()
      reads this
    {
      hasDriver && inserted && forall i :: 0 <= i < |faults| ==> faults[i] == 0
    }

    /** bdrv_check_byte_request. */
    predicate InRange(offset: int, size: nat)
      reads this
    {
      0 <= offset <= |image| && |image| - offset >= size
    }

    method Fault() returns (fault: nat)
      modifies this`faults
      ensures old(Healthy()) ==> Healthy() && fault == 0
      ensures fault == old(NextFault())
    {
      if faults == [] {
        return 0;
      }
      fault := faults[0];
      faults := faults[1..];
    }

    /** The error of the next driver call. */
    ghost function NextFault(): nat
      reads this
    {
      if faults == [] then 0 else faults[0]
    }

    /** bdrv_read. */
    method Read(sector: int, n: nat) returns (ret: int, data: seq<Byte>)
      modifies this`faults
      ensures ret == if !hasDriver then -ENOMEDIUM
                     else if !inserted || !InRange(sector * SECTOR_SIZE, n * SECTOR_SIZE) then -EIO
                     else -(old(NextFault()) as int)
      ensures old(Healthy()) ==> Healthy()
      ensures ret == 0 ==> InRange(sector * SECTOR_SIZE, n * SECTOR_SIZE)
      ensures ret == 0 ==> data == image[sector * SECTOR_SIZE..(sector + n) * SECTOR_SIZE]
    {
      if !hasDriver {
        return -ENOMEDIUM, [];
      }
      if !inserted || !InRange(sector * SECTOR_SIZE, n * SECTOR_SIZE) {
        return -EIO, [];
      }
      var fault := Fault();
      if fault != 0 {
        return -(fault as int), [];
      }
      return 0, image[sector * SECTOR_SIZE..(sector + n) * SECTOR_SIZE];
    }

    /** bdrv_write. */
    method Write(sector: int, data: seq<Byte>) returns (ret: int)
      requires |data| % SECTOR_SIZE == 0
      modifies this`faults, this`image
      ensures ret == if !hasDriver then -ENOMEDIUM
                     else if readOnly then -EACCES
                     else if !inserted || !old(InRange(sector * SECTOR_SIZE, |data|)) then -EIO
                     else -(old(NextFault()) as int)
      ensures |image| == |old(image)|
      ensures old(Healthy()) ==> Healthy()
      ensures ret == 0 ==>
                InRange(sector * SECTOR_SIZE, |data|) && image == Patch(old(image), sector * SECTOR_SIZE, data)
      ensures !Writable() || !old(InRange(sector * SECTOR_SIZE, |data|)) ==> image == old(image)
      ensures ret != 0 ==> DifferInside(old(image), image, sector * SECTOR_SIZE, sector * SECTOR_SIZE + |data|)
    {
      if !hasDriver {
        return -ENOMEDIUM;
      }
      if readOnly {
        return -EACCES;
      }
      if !inserted || !InRange(sector * SECTOR_SIZE, |data|) {
        return -EIO;
      }
      var fault := Fault();
      if fault != 0 {
        var junk: seq<Byte> :| |junk| == |data|;
        image := Patch(image, sector * SECTOR_SIZE, junk);
        return -(fault as int);
      }
      image := Patch(image, sector * SECTOR_SIZE, data);
      return 0;
    }

    /** Reads `n` sectors and copies `len` bytes of them, from byte `off` on, to `buf[at..]`. */
    method ReadPart(sector: int, n: nat, off: nat, len: nat, buf: array<Byte>, at: nat) returns (ok: bool)
      requires off + len <= n * SECTOR_SIZE && at + len <= buf.Length
      modifies this`faults, buf
      ensures old(Healthy()) ==> Healthy() && (ok <==> InRange(sector * SECTOR_SIZE, n * SECTOR_SIZE))
      ensures ok ==> InRange(sector * SECTOR_SIZE, n * SECTOR_SIZE)
      ensures ok ==> buf[at..at + len] == image[sector * SECTOR_SIZE + off..sector * SECTOR_SIZE + off + len]
      ensures buf[..at] == old(buf[..at])
    {
      var ret, data := Read(sector, n);
      ok := ret >= 0;
      if !ok {
        return;
      }
      forall i | 0 <= i < len {
        buf[at + i] := data[off + i];
      }
      assert buf[at..at + len] == data[off..off + len];
      SliceOfSlice(image, sector * SECTOR_SIZE, n * SECTOR_SIZE, off, len);
    }

    /** bdrv_pread: either the bytes of the image from `offset` on, or an error. Without faults there is an
        error exactly when a touched sector is not wholly inside the image. */
    method Pread(offset: int, buf: array<Byte>, count1: int) returns (r: int)
      requires count1 <= buf.Length
      modifies this`faults, buf
      ensures r == count1 || r == -EIO
      ensures r == count1 && count1 > 0 ==> Holds(buf[..], offset, count1) && TouchedEnd(offset, count1) <= |image|
      ensures old(Healthy()) && r == -EIO && count1 > 0 ==> offset < 0 || TouchedEnd(offset, count1) > |image|
      ensures count1 <= 0 ==> r == count1
    {
      var count, at := count1, 0;
      var len := (SECTOR_SIZE - offset) % SECTOR_SIZE;
      if len > count {
        len := count;
      }
      var sector := offset / SECTOR_SIZE;
      if len > 0 {
        var ok := ReadPart(sector, 1, offset % SECTOR_SIZE, len, buf, 0);
        if !ok {
          return -EIO;
        }
        count := count - len;
        if count == 0 {
          return count1;
        }
        sector, at := sector + 1, at + len;
      }
      r := PreadAligned(offset, buf, count1, sector, at, count, TouchedEnd(offset, count1));
    }

    /** The rest of bdrv_pread, from a sector boundary on: whole sectors, then the start of the last one. */
    method PreadAligned(offset: int, buf: array<Byte>, count1: int, sector: int, at: nat, count: int, ghost end: int)
      returns (r: int)
      requires at <= buf.Length && count1 <= buf.Length && at + count == count1 && (count1 > 0 ==> count > 0)
      requires count1 > 0 ==> sector * SECTOR_SIZE == offset + at
      requires end % SECTOR_SIZE == 0 && offset + count1 <= end < offset + count1 + SECTOR_SIZE
      requires at > 0 ==> Holds(buf[..], offset, at)
      modifies this`faults, buf
      ensures r == count1 || r == -EIO
      ensures r == count1 && count1 > 0 ==> Holds(buf[..], offset, count1) && end <= |image|
      ensures old(Healthy()) && r == -EIO && count1 > 0 ==> offset < 0 || end > |image|
      ensures count1 <= 0 ==> r == count1
    {
      if count <= 0 {
        return count1;
      }
      var n := count / SECTOR_SIZE;
      var done := at + n * SECTOR_SIZE;
      EndOfRequest(sector, n, count1 - done, end);
      if n > 0 {
        var ok := ReadMore(offset, sector, n, n * SECTOR_SIZE, buf, at);
        if !ok {
          return -EIO;
        }
      }
      if count1 - done > 0 {
        var ok := ReadMore(offset, sector + n, 1, count1 - done, buf, done);
        if !ok {
          return -EIO;
        }
      }
      return count1;
    }

    /** The first `n` bytes of the buffer are those of the image from `offset` on. */
    ghost predicate Holds(buf: seq<Byte>, offset: int, n: nat)
      reads this
    {
      0 <= offset && offset + n <= |image| && n <= |buf| && buf[..n] == image[offset..offset + n]
    }

    /** Extends the bytes read so far from the start of a sector. */
    method ReadMore(offset: int, sector: int, n: nat, len: nat, buf: array<Byte>, at: nat) returns (ok: bool)
      requires len <= n * SECTOR_SIZE && at + len <= buf.Length && sector * SECTOR_SIZE == offset + at
      requires at > 0 ==> Holds(buf[..], offset, at)
      modifies this`faults, buf
      ensures old(Healthy()) ==> Healthy() && (ok <==> InRange(offset + at, n * SECTOR_SIZE))
      ensures ok ==> InRange(offset + at, n * SECTOR_SIZE)
      ensures ok && 0 <= offset ==> Holds(buf[..], offset, at + len)
      ensures ok && offset < 0 ==> at > 0
    {
      ghost var before := buf[..];
      ok := ReadPart(sector, n, 0, len, buf, at);
      if ok && 0 <= offset {
        assert buf[..][..at] == before[..at] && buf[..][at..at + len] == buf[at..at + len];
        Joined(buf[..], image, offset, at, at + len);
      }
    }

    /** The image is that of `before` with the first `n` bytes of the buffer written from `offset` on. */
    ghost predicate Written(before: seq<Byte>, buf: seq<Byte>, offset: int, n: nat)
      reads this
    {
      if n == 0 then image == before
      else 0 <= offset && offset + n <= |before| && n <= |buf| && image == Patch(before, offset, buf[..n])
    }

    /** Reads a sector, replaces a part of it and writes it back. */
    method Modify(sector: int, off: nat, data: seq<Byte>) returns (ok: bool)
      requires off + |data| <= SECTOR_SIZE
      modifies this`faults, this`image
      ensures |image| == |old(image)|
      ensures old(Healthy()) ==> Healthy() && (ok <==> !readOnly && InRange(sector * SECTOR_SIZE, SECTOR_SIZE))
      ensures !Writable() ==> !ok && image == old(image)
      ensures ok ==>
                InRange(sector * SECTOR_SIZE, SECTOR_SIZE)
                  && image == Patch(old(image), sector * SECTOR_SIZE + off, data)
      ensures !ok ==> DifferInside(old(image), image, sector * SECTOR_SIZE, (sector + 1) * SECTOR_SIZE)
    {
      var ret, tmp := Read(sector, 1);
      ok := ret >= 0;
      if !ok {
        return;
      }
      PatchInside(image, sector * SECTOR_SIZE, SECTOR_SIZE, off, data);
      ret := Write(sector, Patch(tmp, off, data));
      ok := ret >= 0;
    }

    /** bdrv_pwrite: either exactly the addressed bytes of the image change, to those of the buffer, or
        there is an error and at most the touched sectors have changed. */
    method Pwrite(offset: int, buf: seq<Byte>, count1: int) returns (r: int)
      requires count1 <= |buf|
      modifies this`faults, this`image
      ensures r == count1 || r == -EIO
      ensures count1 > 0 ==> DifferInside(old(image), image, TouchedStart(offset), TouchedEnd(offset, count1))
      ensures r == count1 && count1 > 0 ==>
                Written(old(image), buf, offset, count1) && TouchedEnd(offset, count1) <= |image|
      ensures old(Healthy()) ==> Healthy()
      ensures old(Healthy()) && !readOnly && r == -EIO && count1 > 0 ==>
                offset < 0 || TouchedEnd(offset, count1) > |image|
      ensures !Writable() && count1 > 0 ==> r == -EIO && image == old(image)
      ensures count1 <= 0 ==> r == count1 && image == old(image)
    {
      if count1 <= 0 {
        return count1; // none of the three parts below has anything to do
      }
      ghost var before, s, e := image, TouchedStart(offset), TouchedEnd(offset, count1);
      var count, at := count1, 0;
      var len := (SECTOR_SIZE - offset) % SECTOR_SIZE;
      if len > count {
        len := count;
      }
      var sector := offset / SECTOR_SIZE;
      SectorOf(offset);
      SectorInside(sector, offset, e);
      if len > 0 {
        var ok := WriteHead(offset, sector, buf, len, before, e);
        if !ok {
          return -EIO;
        }
        count := count - len;
        if count == 0 {
          return count1;
        }
        sector, at := sector + 1, at + len;
      }
      r := PwriteAligned(offset, buf, count1, sector, at, s, e, before);
    }

    /** The part before the first sector boundary. */
    method WriteHead(offset: int, sector: int, buf: seq<Byte>, len: nat, ghost before: seq<Byte>, ghost e: int)
      returns (ok: bool)
      requires 0 < len <= |buf| && image == before && sector * SECTOR_SIZE <= offset
      requires offset + len <= (sector + 1) * SECTOR_SIZE <= e
      modifies this`faults, this`image
      ensures DifferInside(before, image, sector * SECTOR_SIZE, e)
      ensures !Writable() ==> !ok && image == old(image)
      ensures old(Healthy()) ==> Healthy() && (ok <==> !readOnly && InRange(sector * SECTOR_SIZE, SECTOR_SIZE))
      ensures ok ==> InRange(sector * SECTOR_SIZE, SECTOR_SIZE) && Written(before, buf, offset, len)
    {
      ok := Modify(sector, offset - sector * SECTOR_SIZE, buf[..len]);
      if ok {
        PatchDiffers(before, offset, buf[..len]);
      }
    }

    /** The rest of bdrv_pwrite, from a sector boundary on. */
    method PwriteAligned(offset: int, buf: seq<Byte>, count1: int, sector: int, at: nat,
                         ghost s: int, ghost e: int, ghost before: seq<Byte>)
      returns (r: int)
      requires at < count1 <= |buf| && sector * SECTOR_SIZE == offset + at
      requires s <= offset && e % SECTOR_SIZE == 0 && offset + count1 <= e < offset + count1 + SECTOR_SIZE
      requires DifferInside(before, image, s, e) && Written(before, buf, offset, at)
      modifies this`faults, this`image
      ensures r == count1 || r == -EIO
      ensures DifferInside(before, image, s, e)
      ensures !Writable() ==> r == -EIO && image == old(image)
      ensures r == count1 ==> Written(before, buf, offset, count1) && e <= |image|
      ensures old(Healthy()) ==> Healthy()
      ensures old(Healthy()) && !readOnly && r == -EIO ==> offset < 0 || e > |image|
    {
      var count := count1 - at;
      var n := count / SECTOR_SIZE;
      var done := at + n * SECTOR_SIZE;
      EndOfRequest(sector, n, count1 - done, e);
      if n > 0 {
        var ok := WriteWhole(offset, sector, n, buf, at, s, e, before);
        if !ok {
          return -EIO;
        }
      }
      if count1 - done > 0 {
        var ok := WriteTail(offset, sector + n, buf, done, count1, s, e, before);
        if !ok {
          return -EIO;
        }
      }
      return count1;
    }

    /** Whole sectors. */
    method WriteWhole(offset: int, sector: int, n: nat, buf: seq<Byte>, at: nat, ghost s: int, ghost e: int,
                      ghost before: seq<Byte>)
      returns (ok: bool)
      requires n > 0 && at + n * SECTOR_SIZE <= |buf| && sector * SECTOR_SIZE == offset + at
      requires s <= offset && (sector + n) * SECTOR_SIZE <= e
      requires DifferInside(before, image, s, e) && Written(before, buf, offset, at)
      modifies this`faults, this`image
      ensures DifferInside(before, image, s, e)
      ensures !Writable() ==> !ok && image == old(image)
      ensures old(Healthy()) ==> Healthy() && (ok <==> !readOnly && InRange(offset + at, n * SECTOR_SIZE))
      ensures ok ==> InRange(offset + at, n * SECTOR_SIZE) && Written(before, buf, offset, at + n * SECTOR_SIZE)
    {
      ghost var now := image;
      var chunk := buf[at..at + n * SECTOR_SIZE];
      var ret := Write(sector, chunk);
      ok := ret >= 0;
      if ok {
        PatchDiffers(now, sector * SECTOR_SIZE, chunk);
        WrittenMore(before, now, image, buf, offset, at, at + n * SECTOR_SIZE, sector * SECTOR_SIZE, chunk);
      }
      DifferFurther(before, now, image, sector * SECTOR_SIZE, sector * SECTOR_SIZE + |chunk|, s, e);
    }

    /** The start of the last sector. */
    method WriteTail(offset: int, sector: int, buf: seq<Byte>, at: nat, end: nat, ghost s: int, ghost e: int,
                     ghost before: seq<Byte>)
      returns (ok: bool)
      requires at < end <= |buf| && end - at <= SECTOR_SIZE && sector * SECTOR_SIZE == offset + at
      requires s <= offset && (sector + 1) * SECTOR_SIZE <= e
      requires DifferInside(before, image, s, e) && Written(before, buf, offset, at)
      modifies this`faults, this`image
      ensures DifferInside(before, image, s, e)
      ensures !Writable() ==> !ok && image == old(image)
      ensures old(Healthy()) ==> Healthy() && (ok <==> !readOnly && InRange(offset + at, SECTOR_SIZE))
      ensures ok ==> InRange(offset + at, SECTOR_SIZE) && Written(before, buf, offset, end)
    {
      ghost var now := image;
      var chunk := buf[at..end];
      ok := Modify(sector, 0, chunk);
      if ok {
        PatchDiffers(now, sector * SECTOR_SIZE + 0, chunk);
        WrittenMore(before, now, image, buf, offset, at, end, sector * SECTOR_SIZE + 0, chunk);
      }
      DifferFurther(before, now, image, sector * SECTOR_SIZE, (sector + 1) * SECTOR_SIZE, s, e);
    }

    /** Writing the next bytes of the buffer after those already written. */
    lemma WrittenMore(before: seq<Byte>, now: seq<Byte>, then_: seq<Byte>, buf: seq<Byte>, offset: int, a: nat, b: nat,
                      p: nat, chunk: seq<Byte>)
      requires a < b <= |buf| && |now| == |before| && 0 <= offset + a && offset + b <= |now|
      requires if a == 0 then now == before
               else 0 <= offset && offset + a <= |before| && now == Patch(before, offset, buf[..a])
      requires p == offset + a && chunk == buf[a..b] && then_ == Patch(now, p, chunk)
      ensures 0 <= offset && then_ == Patch(before, offset, buf[..b])
    {
      assert buf[..b] == buf[..a] + buf[a..b];
      if a > 0 {
        PatchTwice(before, offset, buf[..a], buf[a..b]);
      }
    }
  }

  /** A read after a successful write of the same range returns the data. */
  method WriteThenRead(d: Device, offset: int, data: seq<Byte>) returns (ok: bool, back: seq<Byte>)
    modifies d
    ensures ok ==> back == data
    ensures old(d.Healthy()) && !d.readOnly && 0 <= offset && TouchedEnd(offset, |data|) <= |old(d.image)| ==> ok
  {
    var r := d.Pwrite(offset, data, |data|);
    if r < |data| {
      return false, [];
    }
    var buf := new Byte[|data|];
    r := d.Pread(offset, buf, |data|);
    if r < |data| {
      return false, [];
    }
    return true, buf[..];
  }
}
