/** The disk image as the program sees it through `lseek` and `read` on one descriptor. */
module Disk {
  import opened Bytes
  import opened Wrappers

  /** The image's bytes, and the offsets at which `read` fails with -1 (an I/O error). */
  datatype Device = Device(bytes: seq<Byte>, failing: set<nat>)

  /** What one `read` returns: the bytes it delivered, or failure. */
  datatype ReadResult = Got(data: seq<Byte>) | Failed

  function Min(a: int, b: int): int { if a <= b then a else b }

  /** `lseek(fd, off, SEEK_SET)` followed by `read(fd, buf, len)`: the read delivers the
      bytes from `off` up to `len` of them, fewer at the end of the image, none past it. */
  function Read(d: Device, off: nat, len: nat): (r: ReadResult)
    ensures r.Failed? <==> off in d.failing
    ensures r.Got? ==> |r.data| == (if off >= |d.bytes| then 0 else Min(len, |d.bytes| - off))
    ensures r.Got? ==> forall i :: 0 <= i < |r.data| ==> r.data[i] == d.bytes[off + i]
  {
    if off in d.failing then Failed
    else if off >= |d.bytes| then Got([])
    else Got(d.bytes[off..Min(off + len, |d.bytes|)])
  }

  /** A read whose result the caller compares with the requested length: any shorter
      result, or -1, counts as a failed read. */
  function ReadExact(d: Device, off: nat, len: nat): (r: Option<seq<Byte>>)
    ensures r.Some? <==> off !in d.failing && (len == 0 || off + len <= |d.bytes|)
    ensures r.Some? ==> |r.value| == len
    ensures r.Some? && len > 0 ==> r.value == d.bytes[off..off + len]
  {
    match Read(d, off, len)
    case Got(data) => if |data| == len then Some(data) else None
    case Failed => None
  }
}
