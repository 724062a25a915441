/** Go's built-in `copy` over slices, on sequence values.

    `copy(dst[at:], src)` overwrites dst from position `at` with as many
    elements of src as fit and leaves the rest of dst alone. The source is
    read as a value before anything is written, which is exactly Go's
    memmove behaviour when dst and src share a backing array. */
module GoSlices {

  /** copy(dst[at:], src), returning the updated dst. */
  function CopyAt<T>(dst: seq<T>, at: nat, src: seq<T>): (r: seq<T>)
    requires at <= |dst|
    ensures |r| == |dst|
    ensures forall j :: 0 <= j < at ==> r[j] == dst[j]
    ensures forall j :: at <= j < |dst| && j - at < |src| ==> r[j] == src[j - at]
    ensures forall j :: at + |src| <= j < |dst| ==> r[j] == dst[j]
  {
    var n := if |dst| - at < |src| then |dst| - at else |src|;
    dst[..at] + src[..n] + dst[at + n..]
  }
}
