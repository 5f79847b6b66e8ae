/**
 * Segment layout: how many pages each of the four segments (text, data, bss,
 * heap and stack) occupies, and how many pages the page table holds in all.
 */
module Layout {

  /** Largest value of the source's 32-bit `int`. */
  const INT_MAX: int := 0x7fff_ffff

  /** The pages a segment of `size` bytes needs: `size / pageSize` rounded up. */
  function PageCount(size: int, pageSize: int): (n: nat)
    requires size >= 0 && pageSize > 0
    ensures size <= n * pageSize < size + pageSize
  {
    (size + pageSize - 1) / pageSize
  }

  /** The number of page-table entries: one per page of each of the four segments. */
  function TotalPages(textSize: int, dataSize: int, bssSize: int, heapStackSize: int, pageSize: int): (n: nat)
    requires textSize >= 0 && dataSize >= 0 && bssSize >= 0 && heapStackSize >= 0 && pageSize > 0
    ensures textSize + dataSize + bssSize + heapStackSize <= n * pageSize
    ensures n * pageSize < textSize + dataSize + bssSize + heapStackSize + 4 * pageSize
  {
    var t, d, b, h := PageCount(textSize, pageSize), PageCount(dataSize, pageSize),
                      PageCount(bssSize, pageSize), PageCount(heapStackSize, pageSize);
    Distribute(t, d, b, h, pageSize);
    t + d + b + h
  }

  /** The computations the constructor does in 32-bit arithmetic stay below INT_MAX. */
  predicate LayoutFitsInt(textSize: int, dataSize: int, bssSize: int, heapStackSize: int, pageSize: int)
    requires textSize >= 0 && dataSize >= 0 && bssSize >= 0 && heapStackSize >= 0 && pageSize > 0
  {
    textSize + pageSize - 1 <= INT_MAX && dataSize + pageSize - 1 <= INT_MAX &&
    bssSize + pageSize - 1 <= INT_MAX && heapStackSize + pageSize - 1 <= INT_MAX &&
    TotalPages(textSize, dataSize, bssSize, heapStackSize, pageSize) <= INT_MAX
  }

  /** Multiplication distributes over the sum of the four page counts. */
  lemma Distribute(t: int, d: int, b: int, h: int, k: int)
    ensures (t + d + b + h) * k == t * k + d * k + b * k + h * k
  {
  }
}
