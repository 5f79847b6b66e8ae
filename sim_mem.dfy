/**
 * The simulator object: segment sizes and page size fixed at construction,
 * 256 bytes of physical memory, a page table with one descriptor per logical
 * page, and the executable image that faulting pages are read from.
 */
module SimMem {
  import opened PageTable
  import opened Layout
  import opened Translation
  import opened MemoryModel

  class SimMem {
    const program: seq<char>
    const textSize: int
    const dataSize: int
    const bssSize: int
    const heapStackSize: int
    const numOfPages: nat
    const pageSize: int
    const mainMemory: array<char>
    const pageTable: array<PageDescriptor>

    /** Object invariant: the sizes of the two arrays, a positive page size, and every
        resident page in the frame of its own number. */
    ghost predicate Valid()
      reads this, pageTable
    {
      mainMemory.Length == MEMORY_SIZE && pageTable.Length == numOfPages && pageSize > 0 &&
      IdentityMapped(pageTable[..])
    }

    /** Physical memory and page table as a value. */
    ghost function State(): (s: MemState)
      reads this, mainMemory, pageTable
      requires Valid()
      ensures WellFormed(s, pageSize)
    {
      MemState(mainMemory[..], pageTable[..])
    }

    /** Zero-fills physical memory and builds one resident, clean descriptor per page of each
        segment, page i in frame i. */
    constructor (program: seq<char>, textSize: int, dataSize: int, bssSize: int, heapStackSize: int, pageSize: int)
      requires textSize >= 0 && dataSize >= 0 && bssSize >= 0 && heapStackSize >= 0 && pageSize > 0
      requires LayoutFitsInt(textSize, dataSize, bssSize, heapStackSize, pageSize)
      ensures Valid() && fresh(mainMemory) && fresh(pageTable)
      ensures this.program == program && this.pageSize == pageSize
      ensures this.textSize == textSize && this.dataSize == dataSize
      ensures this.bssSize == bssSize && this.heapStackSize == heapStackSize
      ensures numOfPages == TotalPages(textSize, dataSize, bssSize, heapStackSize, pageSize)
      ensures forall i :: 0 <= i < MEMORY_SIZE ==> mainMemory[i] == '\0'
      ensures pageTable[..] == InitialTable(numOfPages)
    {
      this.program := program;
      this.textSize, this.dataSize, this.bssSize, this.heapStackSize := textSize, dataSize, bssSize, heapStackSize;
      this.pageSize := pageSize;

      var memory := new char[MEMORY_SIZE];
      forall i | 0 <= i < MEMORY_SIZE {
        memory[i] := '\0';
      }

      var textPages := PageCount(textSize, pageSize);
      var dataPages := PageCount(dataSize, pageSize);
      var bssPages := PageCount(bssSize, pageSize);
      var heapStackPages := PageCount(heapStackSize, pageSize);
      var n := textPages + dataPages + bssPages + heapStackPages;

      var table := new PageDescriptor[n];
      var frameIndex := 0;
      frameIndex := InitSegment(table, frameIndex, textPages);
      frameIndex := InitSegment(table, frameIndex, dataPages);
      frameIndex := InitSegment(table, frameIndex, bssPages);
      frameIndex := InitSegment(table, frameIndex, heapStackPages);

      this.numOfPages := n;
      this.mainMemory := memory;
      this.pageTable := table;
    }

    /** Fills the `count` entries from `frameIndex` on with page i resident in frame i, and
        returns the index after the last one filled. */
    static method InitSegment(table: array<PageDescriptor>, frameIndex: nat, count: nat) returns (next: nat)
      requires frameIndex + count <= table.Length
      modifies table
      ensures next == frameIndex + count
      ensures forall i :: 0 <= i < table.Length ==>
        table[i] == if frameIndex <= i < next then InitialDescriptor(i) else old(table[i])
    {
      next := frameIndex;
      for k := 0 to count
        invariant next == frameIndex + k
        invariant forall i :: 0 <= i < table.Length ==>
          table[i] == if frameIndex <= i < next then InitialDescriptor(i) else old(table[i])
      {
        table[next] := PageDescriptor(true, next, false, NO_SWAP);
        next := next + 1;
      }
    }

    /** The page-fault path: reads the page from the executable image into its frame and, if
        the whole page was read, marks the entry resident. */
    method HandlePageFault(page: int) returns (loaded: bool)
      requires Valid() && 0 <= page < numOfPages && page * pageSize + pageSize <= MEMORY_SIZE
      modifies mainMemory, pageTable
      ensures Valid()
      ensures Fault(loaded, State()) == PageFault(old(State()), pageSize, program, page)
    {
      var base := page * pageSize;
      var bytes := ReadImage(program, ExeOffset(page, pageSize), pageSize);
      forall k | 0 <= k < |bytes| {
        mainMemory[base + k] := bytes[k];
      }
      assert mainMemory[..] == CopyInto(old(mainMemory[..]), base, bytes);
      if |bytes| != pageSize {
        return false;
      }
      pageTable[page] := pageTable[page].(valid := true, dirty := false, frame := page, swapIndex := NO_SWAP);
      loaded := true;
    }

    /** `load(address)`: the byte at `address`, or '\0' when the address is out of range or
        a page fault could not read the whole page. */
    method Load(address: int) returns (r: char)
      requires Valid() && Accessible(State(), pageSize, address)
      modifies mainMemory, pageTable
      ensures Valid()
      ensures (r, State()) == MemoryModel.Load(old(State()), pageSize, program, address)
      ensures !InRange(address) ==> r == '\0' && unchanged(mainMemory, pageTable)
      ensures InRange(address) && old(Resident(State(), pageSize, address)) ==>
        r == mainMemory[address] && unchanged(mainMemory, pageTable)
    {
      if address < 0 || address >= MEMORY_SIZE {
        return '\0';
      }
      var loc := Split(address, pageSize);
      if !pageTable[loc.page].valid {
        var loaded := HandlePageFault(loc.page);
        if !loaded {
          return '\0';
        }
      }
      var physicalAddress := Translate(pageTable[loc.page].frame, pageSize, loc.offset);
      r := mainMemory[physicalAddress];
    }

    /** `store(address, value)`: writes `value` at `address`; does nothing when the address is
        out of range, and writes no value when a page fault could not read the whole page. */
    method Store(address: int, value: char)
      requires Valid() && Accessible(State(), pageSize, address)
      modifies mainMemory, pageTable
      ensures Valid()
      ensures State() == MemoryModel.Store(old(State()), pageSize, program, address, value)
      ensures !InRange(address) ==> unchanged(mainMemory, pageTable)
      ensures InRange(address) && old(Resident(State(), pageSize, address)) ==>
        mainMemory[..] == old(mainMemory[..])[address := value] && unchanged(pageTable)
    {
      if address < 0 || address >= MEMORY_SIZE {
        return;
      }
      var loc := Split(address, pageSize);
      if !pageTable[loc.page].valid {
        var loaded := HandlePageFault(loc.page);
        if !loaded {
          return;
        }
      }
      var physicalAddress := Translate(pageTable[loc.page].frame, pageSize, loc.offset);
      mainMemory[physicalAddress] := value;
    }
  }
}
