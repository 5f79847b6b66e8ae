/**
 * Address arithmetic of the simulator: splitting an address into page number
 * and offset, translating a frame and offset back to a physical address, and
 * the positioned read from the executable image that fills a faulting page.
 */
module Translation {
  import opened PageTable

  /** A logical address once split into page number and offset within the page. */
  datatype Location = Location(page: int, offset: int)

  /** `address / pageSize` and `address % pageSize`; for a non-negative address the
      source's truncating operators agree with Dafny's. */
  function Split(address: int, pageSize: int): (l: Location)
    requires address >= 0 && pageSize > 0
    ensures l.page >= 0 && 0 <= l.offset < pageSize
    ensures l.page * pageSize + l.offset == address
  {
    Location(address / pageSize, address % pageSize)
  }

  /** Physical address of byte `offset` of frame `frame`; splitting it gives back the frame and offset. */
  function Translate(frame: int, pageSize: int, offset: int): (physical: int)
    requires frame >= 0 && pageSize > 0 && 0 <= offset < pageSize
    ensures physical >= 0
    ensures Split(physical, pageSize) == Location(frame, offset)
  {
    DivisionIsUnique(frame * pageSize + offset, pageSize, frame, offset);
    frame * pageSize + offset
  }

  /** File offset in the executable image from which page `page` is loaded. */
  function ExeOffset(page: int, pageSize: int): (off: int)
    requires page >= 0 && pageSize > 0
    ensures 0 <= off < MEMORY_SIZE
    ensures page * pageSize < MEMORY_SIZE ==> off == page * pageSize
  {
    (page * pageSize) % MEMORY_SIZE
  }

  /** What `read` returns after seeking the image to `offset`: up to `count` bytes, fewer at end of file. */
  function ReadImage(image: seq<char>, offset: int, count: int): (bytes: seq<char>)
    requires offset >= 0 && count >= 0
    ensures |bytes| == if offset + count <= |image| then count
                       else if offset <= |image| then |image| - offset
                       else 0
    ensures forall k :: 0 <= k < |bytes| ==> bytes[k] == image[offset + k]
  {
    if offset >= |image| then []
    else if offset + count <= |image| then image[offset..offset + count]
    else image[offset..]
  }

  /** `memory` with `bytes` written at `base`, everything else as before. */
  function CopyInto(memory: seq<char>, base: int, bytes: seq<char>): (r: seq<char>)
    requires 0 <= base && base + |bytes| <= |memory|
    ensures |r| == |memory|
    ensures forall i :: 0 <= i < |r| ==> r[i] == if base <= i < base + |bytes| then bytes[i - base] else memory[i]
  {
    memory[..base] + bytes + memory[base + |bytes|..]
  }

  /** Quotient and remainder by a positive divisor are unique. */
  lemma DivisionIsUnique(a: int, d: int, q: int, r: int)
    requires d > 0 && 0 <= r < d && a == q * d + r
    ensures a / d == q && a % d == r
  {
    var q', r' := a / d, a % d;
    assert q' * d + r' == a;
    MultiplyOut(q', q, d);
    if q' > q {
      AtLeastOnce(q' - q, d);
    } else if q' < q {
      MultiplyOut(q, q', d);
      AtLeastOnce(q - q', d);
    }
  }

  lemma MultiplyOut(x: int, y: int, d: int)
    ensures (x - y) * d == x * d - y * d
  {
  }

  lemma AtLeastOnce(m: int, d: int)
    requires m >= 1 && d > 0
    ensures m * d >= d
  {
  }
}
