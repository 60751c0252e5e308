/** What several parts of the program share. */
module Basics {
  type Byte = bv8

  const SECTOR_SIZE := 512

  /** The block of AES. */
  const BLOCK_SIZE := 16

  const EIO := 5
  const EAGAIN := 11
  const EACCES := 13
  const EINVAL := 22
  const ENOTSUP := 95
  const ENOMEDIUM := 123

  datatype Option<+T> = None | Some(value: T)

  function Reversed<T>(s: seq<T>): (r: seq<T>)
    ensures |r| == |s|
    ensures forall i :: 0 <= i < |s| ==> r[i] == s[|s| - 1 - i]
  {
    seq(|s|, i requires 0 <= i < |s| => s[|s| - 1 - i])
  }

  /** A part of a sequence replaced. */
  function Patch<T>(s: seq<T>, at: nat, data: seq<T>): (r: seq<T>)
    requires at + |data| <= |s|
    ensures |r| == |s|
  {
    s[..at] + data + s[at + |data|..]
  }

  lemma Regroup<T>(x: seq<T>, y: seq<T>, z: seq<T>)
    ensures x + (y + z) == x + y + z
  {
  }
}
