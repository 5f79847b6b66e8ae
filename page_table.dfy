/**
 * The page descriptor record and the constants of the simulator: the size of
 * physical memory (which is also the bound on accepted addresses) and the
 * "no swap copy" sentinel.
 */
module PageTable {

  /** Size in bytes of physical memory, and the exclusive bound on addresses. */
  const MEMORY_SIZE: int := 256

  /** The swap slot of a page that has no copy in the swap file. */
  const NO_SWAP: int := -1

  /** One entry of the page table, indexed by logical page number. */
  datatype PageDescriptor = PageDescriptor(valid: bool, frame: int, dirty: bool, swapIndex: int)

  /** The entry of a page that is resident in the frame of the same number, clean, with no swap copy. */
  function InitialDescriptor(page: int): PageDescriptor
  {
    PageDescriptor(true, page, false, NO_SWAP)
  }

  /** The page table as the constructor leaves it: page i resident in frame i. */
  function InitialTable(n: nat): (t: seq<PageDescriptor>)
    ensures |t| == n
    ensures forall i :: 0 <= i < n ==> t[i].valid && t[i].frame == i && !t[i].dirty && t[i].swapIndex == NO_SWAP
    ensures forall i, j :: 0 <= i < j < n ==> t[i].frame != t[j].frame
    ensures IdentityMapped(t) && Clean(t)
  {
    seq(n, i => InitialDescriptor(i))
  }

  /** Every resident page lives in the frame whose number is its own page number. */
  ghost predicate IdentityMapped(t: seq<PageDescriptor>)
  {
    forall i :: 0 <= i < |t| && t[i].valid ==> t[i].frame == i
  }

  /** No entry is dirty and no entry has a swap copy. */
  ghost predicate Clean(t: seq<PageDescriptor>)
  {
    forall i :: 0 <= i < |t| ==> !t[i].dirty && t[i].swapIndex == NO_SWAP
  }
}
