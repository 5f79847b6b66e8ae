/**
 * The simulator's state as a value (physical memory and page table) and the
 * effect of `load`, `store` and the page-fault path on it. The class in
 * SimMem is proved to change its arrays exactly as these functions say.
 */
module MemoryModel {
  import opened PageTable
  import opened Translation

  /** Physical memory and the page table, indexed by logical page number. */
  datatype MemState = MemState(memory: seq<char>, table: seq<PageDescriptor>)

  /** Outcome of making a page resident: whether it is, and the state afterwards. */
  datatype Fault = Fault(loaded: bool, state: MemState)

  /** Physical memory has MEMORY_SIZE bytes and every resident page sits in the frame of its own number. */
  ghost predicate WellFormed(s: MemState, pageSize: int)
  {
    |s.memory| == MEMORY_SIZE && pageSize > 0 && IdentityMapped(s.table)
  }

  /** The bound `load` and `store` check themselves. */
  predicate InRange(address: int)
  {
    0 <= address < MEMORY_SIZE
  }

  /** What the caller must guarantee for an address that passes the bound check: the page
      has an entry, and if the page faults its frame lies inside physical memory. */
  ghost predicate Accessible(s: MemState, pageSize: int, address: int)
    requires pageSize > 0
  {
    InRange(address) ==>
      var page := Split(address, pageSize).page;
      page < |s.table| && (!s.table[page].valid ==> page * pageSize + pageSize <= MEMORY_SIZE)
  }

  /** The page holding `address` is resident. */
  ghost predicate Resident(s: MemState, pageSize: int, address: int)
    requires pageSize > 0 && InRange(address) && Accessible(s, pageSize, address)
  {
    s.table[Split(address, pageSize).page].valid
  }

  /** The page-fault path: read one page of the image at its file offset into the frame of the
      same number, then mark the entry resident, clean and without swap copy. A short read
      leaves the bytes it did read in memory and the entry as it was. */
  function PageFault(s: MemState, pageSize: int, image: seq<char>, page: int): (f: Fault)
    requires WellFormed(s, pageSize) && 0 <= page < |s.table| && page * pageSize + pageSize <= MEMORY_SIZE
    ensures WellFormed(f.state, pageSize) && |f.state.table| == |s.table|
    ensures f.loaded <==> page * pageSize + pageSize <= |image|
    ensures f.state.table == if f.loaded then s.table[page := InitialDescriptor(page)] else s.table
    ensures forall i :: 0 <= i < MEMORY_SIZE ==>
      f.state.memory[i] == if page * pageSize <= i < page * pageSize + pageSize && i < |image| then image[i] else s.memory[i]
  {
    var base := page * pageSize;
    var bytes := ReadImage(image, ExeOffset(page, pageSize), pageSize);
    var memory := CopyInto(s.memory, base, bytes);
    if |bytes| != pageSize then Fault(false, MemState(memory, s.table))
    else Fault(true, MemState(memory, s.table[page := InitialDescriptor(page)]))
  }

  /** The page is made resident unless it already is; a resident page is left alone. */
  function EnsureResident(s: MemState, pageSize: int, image: seq<char>, page: int): (f: Fault)
    requires WellFormed(s, pageSize) && 0 <= page < |s.table|
    requires !s.table[page].valid ==> page * pageSize + pageSize <= MEMORY_SIZE
    ensures WellFormed(f.state, pageSize) && |f.state.table| == |s.table|
    ensures s.table[page].valid ==> f == Fault(true, s)
    ensures f.loaded ==> f.state.table[page].valid
  {
    if s.table[page].valid then Fault(true, s) else PageFault(s, pageSize, image, page)
  }

  /** `load(address)`: the byte at the translated address, or '\0' when the address is out of
      range or the page could not be read in. */
  function Load(s: MemState, pageSize: int, image: seq<char>, address: int): (r: (char, MemState))
    requires WellFormed(s, pageSize) && Accessible(s, pageSize, address)
    ensures WellFormed(r.1, pageSize) && |r.1.table| == |s.table|
    ensures !InRange(address) ==> r == ('\0', s)
    ensures InRange(address) && Resident(s, pageSize, address) ==> r == (s.memory[address], s)
  {
    if !InRange(address) then ('\0', s)
    else
      var loc := Split(address, pageSize);
      var f := EnsureResident(s, pageSize, image, loc.page);
      if !f.loaded then ('\0', f.state)
      else (f.state.memory[Translate(f.state.table[loc.page].frame, pageSize, loc.offset)], f.state)
  }

  /** `store(address, value)`: writes `value` at the translated address; does nothing when the
      address is out of range, and writes only what the page-fault read brought in when the
      page could not be read in. */
  function Store(s: MemState, pageSize: int, image: seq<char>, address: int, value: char): (r: MemState)
    requires WellFormed(s, pageSize) && Accessible(s, pageSize, address)
    ensures WellFormed(r, pageSize) && |r.table| == |s.table|
    ensures !InRange(address) ==> r == s
    ensures InRange(address) && Resident(s, pageSize, address) ==> r == MemState(s.memory[address := value], s.table)
  {
    if !InRange(address) then s
    else
      var loc := Split(address, pageSize);
      var f := EnsureResident(s, pageSize, image, loc.page);
      if !f.loaded then f.state
      else MemState(f.state.memory[Translate(f.state.table[loc.page].frame, pageSize, loc.offset) := value], f.state.table)
  }
}
