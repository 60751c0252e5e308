/** The ring buffer between a text console and its guest. */
module ConsoleFifo {
  import opened Basics

  /** The position `n` further on, going round. */
  function Wrap(size: nat, r: nat, n: nat): nat
    requires r <= size && n <= size
  {
    if r + n < size then r + n else r + n - size
  }

  /** The `n` bytes from `r` on, going round at the end of the buffer. */
  function View<T>(buf: seq<T>, r: nat, n: nat): (v: seq<T>)
    requires n <= |buf| && (r < |buf| || n == 0)
    ensures |v| == n
  {
    if n == 0 then [] else View(buf, r, n - 1) + [buf[Wrap(|buf|, r, n - 1)]]
  }

  /** Bytes written elsewhere do not matter. */
  lemma {:induction false} ViewElsewhere<T>(buf: seq<T>, buf': seq<T>, r: nat, n: nat)
    requires n <= |buf| == |buf'| && (r < |buf| || n == 0)
    requires forall k: nat :: k < n ==> buf'[Wrap(|buf|, r, k)] == buf[Wrap(|buf|, r, k)]
    ensures View(buf', r, n) == View(buf, r, n)
    decreases n
  {
    if n > 0 {
      ViewElsewhere(buf, buf', r, n - 1);
    }
  }

  lemma {:induction false} ViewStretch<T>(buf: seq<T>, r: nat, n: nat, w: nat, l: nat)
    requires n + l <= |buf| && r < |buf| && w == Wrap(|buf|, r, n) && w + l <= |buf|
    ensures View(buf, r, n + l) == View(buf, r, n) + buf[w..w + l]
    decreases l
  {
    if l > 0 {
      ViewStretch(buf, r, n, w, l - 1);
      assert buf[w..w + l] == buf[w..w + l - 1] + [buf[w + l - 1]];
    }
  }

  /** Bytes written where the contents end come behind them. */
  lemma WriteExtends<T>(buf: seq<T>, buf': seq<T>, r: nat, n: nat, w: nat, chunk: seq<T>)
    requires r < |buf| && n + |chunk| <= |buf| && w == Wrap(|buf|, r, n) && w + |chunk| <= |buf|
    requires buf' == buf[..w] + chunk + buf[w + |chunk|..]
    ensures View(buf', r, n + |chunk|) == View(buf, r, n) + chunk
  {
    ViewElsewhere(buf, buf', r, n);
    ViewStretch(buf', r, n, w, |chunk|);
    assert buf'[w..w + |chunk|] == chunk;
  }

  /** Bytes read where the contents begin come off them. */
  lemma {:induction false} ReadShortens<T>(buf: seq<T>, r: nat, n: nat, l: nat)
    requires r < |buf| && l <= n <= |buf| && r + l <= |buf|
    ensures Wrap(|buf|, r, l) < |buf| && Wrap(|buf|, r, n) == Wrap(|buf|, Wrap(|buf|, r, l), n - l)
    ensures View(buf, r, n) == buf[r..r + l] + View(buf, Wrap(|buf|, r, l), n - l)
    decreases n
  {
    if n == l {
      assert View(buf, r, 0) == [];
      ViewStretch(buf, r, 0, r, l);
    } else {
      ReadShortens(buf, r, n - 1, l);
    }
  }

  lemma Appended<T>(before: seq<T>, data: seq<T>, done: nat, l: nat)
    requires done + l <= |data|
    ensures before + data[..done] + data[done..done + l] == before + data[..done + l]
  {
  }

  class Fifo<T(0)> {
    const buf: array<T>
    var count: nat
    var wptr: nat
    var rptr: nat

    ghost predicate Valid()
      reads this
    {
      && count <= buf.Length
      && (if buf.Length == 0 then rptr == wptr == 0 else rptr < buf.Length && wptr < buf.Length)
      && wptr == Wrap(buf.Length, rptr, count)
    }

    ghost function Contents(): seq<T>
      requires Valid()
      reads this, buf
    {
      View(buf[..], rptr, count)
    }

    constructor (size: nat)
      ensures Valid() && Contents() == [] && buf.Length == size && fresh(buf)
    {
      buf := new T[size];
      count, wptr, rptr := 0, 0, 0;
    }

    /** qemu_fifo_write: appends as much as fits. */
    method Write(data: seq<T>) returns (len: nat)
      requires Valid()
      modifies this`count, this`wptr, buf
      ensures Valid()
      ensures len == if |data| <= buf.Length - old(count) then |data| else buf.Length - old(count)
      ensures Contents() == old(Contents()) + data[..len]
    {
      len := |data|;
      if len > buf.Length - count {
        len := buf.Length - count;
      }
      WriteAll(data, len);
      count := count + len;
    }

    /** The loop. */
    method WriteAll(data: seq<T>, len: nat)
      requires Valid() && len <= |data| && count + len <= buf.Length
      modifies this`wptr, buf
      ensures buf.Length > 0 ==> wptr < buf.Length
      ensures wptr == Wrap(buf.Length, rptr, count + len)
      ensures View(buf[..], rptr, count + len) == old(View(buf[..], rptr, count)) + data[..len]
    {
      ghost var before := View(buf[..], rptr, count);
      var done: nat := 0;
      while done < len
        invariant done <= len
        invariant wptr == Wrap(buf.Length, rptr, count + done) && (buf.Length > 0 ==> wptr < buf.Length)
        invariant View(buf[..], rptr, count + done) == before + data[..done]
        decreases len - done
      {
        var l := WriteChunk(data, done, len);
        Appended(before, data, done, l);
        done := done + l;
      }
    }

    /** One memcpy, up to the end of the buffer at most. */
    method WriteChunk(data: seq<T>, done: nat, len: nat) returns (l: nat)
      requires done < len <= |data| && count + len <= buf.Length && rptr < buf.Length && wptr < buf.Length
      requires wptr == Wrap(buf.Length, rptr, count + done)
      modifies this`wptr, buf
      ensures 0 < l <= len - done && wptr < buf.Length && wptr == Wrap(buf.Length, rptr, count + done + l)
      ensures View(buf[..], rptr, count + done + l) == old(View(buf[..], rptr, count + done)) + data[done..done + l]
    {
      l := buf.Length - wptr;
      if l > len - done {
        l := len - done;
      }
      Copy(wptr, data, done, l);
      WriteExtends(old(buf[..]), buf[..], rptr, count + done, wptr, data[done..done + l]);
      wptr := if wptr + l >= buf.Length then 0 else wptr + l;
    }

    /** memcpy */
    method Copy(at: nat, data: seq<T>, done: nat, l: nat)
      requires at + l <= buf.Length && done + l <= |data|
      modifies buf
      ensures buf[..] == old(buf[..])[..at] + data[done..done + l] + old(buf[..])[at + l..]
    {
      forall k | 0 <= k < l {
        buf[at + k] := data[done + k];
      }
    }

    /** qemu_fifo_read: takes off as much as is asked for and there. */
    method Read(len1: nat) returns (data: seq<T>)
      requires Valid()
      modifies this`count, this`rptr
      ensures Valid()
      ensures |data| == if len1 <= old(count) then len1 else old(count)
      ensures old(Contents()) == data + Contents()
    {
      var len := len1;
      if len > count {
        len := count;
      }
      data := ReadAll(len);
      count := count - len;
    }

    /** The loop. */
    method ReadAll(len: nat) returns (data: seq<T>)
      requires Valid() && len <= count
      modifies this`rptr
      ensures |data| == len && (if buf.Length == 0 then rptr == 0 else rptr < buf.Length)
      ensures wptr == Wrap(buf.Length, rptr, count - len)
      ensures old(View(buf[..], rptr, count)) == data + View(buf[..], rptr, count - len)
    {
      data := [];
      ghost var before := View(buf[..], rptr, count);
      while |data| < len
        invariant |data| <= len && (if buf.Length == 0 then rptr == 0 else rptr < buf.Length)
        invariant before == data + View(buf[..], rptr, count - |data|)
        invariant wptr == Wrap(buf.Length, rptr, count - |data|)
        decreases len - |data|
      {
        ghost var n := count - |data|;
        var chunk := ReadChunk(len - |data|, n);
        Regroup(data, chunk, View(buf[..], rptr, n - |chunk|));
        data := data + chunk;
      }
    }

    /** One memcpy, up to the end of the buffer at most. */
    method ReadChunk(len: nat, ghost n: nat) returns (chunk: seq<T>)
      requires 0 < len <= n <= buf.Length && rptr < buf.Length && wptr == Wrap(buf.Length, rptr, n)
      modifies this`rptr
      ensures 0 < |chunk| <= len && rptr < buf.Length && wptr == Wrap(buf.Length, rptr, n - |chunk|)
      ensures old(View(buf[..], rptr, n)) == chunk + View(buf[..], rptr, n - |chunk|)
    {
      var l := buf.Length - rptr;
      if l > len {
        l := len;
      }
      ReadShortens(buf[..], rptr, n, l);
      chunk := buf[rptr..rptr + l];
      rptr := if rptr + l >= buf.Length then 0 else rptr + l;
    }
  }

  datatype Op<T> = Put(data: seq<T>) | Get(len: nat)

  /** Any sequence of writes and reads: what was taken out, followed by what is still there, is what was
      there at first, followed by what was accepted. */
  method Run<T(0)>(f: Fifo<T>, ops: seq<Op<T>>) returns (accepted: seq<T>, taken: seq<T>)
    requires f.Valid()
    modifies f, f.buf
    ensures f.Valid()
    ensures taken + f.Contents() == old(f.Contents()) + accepted
  {
    accepted, taken := [], [];
    ghost var first := f.Contents();
    for i := 0 to |ops|
      invariant f.Valid() && taken + f.Contents() == first + accepted
    {
      ghost var now := f.Contents();
      match ops[i] {
        case Put(data) =>
          var len := f.Write(data);
          Regroup(taken, now, data[..len]);
          Regroup(first, accepted, data[..len]);
          accepted := accepted + data[..len];
        case Get(len) =>
          var data := f.Read(len);
          Regroup(taken, data, f.Contents());
          taken := taken + data;
      }
    }
  }
}
