/**
 * Properties of `load` and `store` across calls: the store-then-load round trip,
 * independence of distinct addresses, idempotence, demand loading from the
 * executable image, the failed read, and that the page table as constructed is
 * never changed by either operation.
 */
module Properties {
  import opened PageTable
  import opened Translation
  import opened MemoryModel

  /** After `store(a, v)` has brought the page in (it was resident, or the image holds the
      whole page), `load(a)` returns `v` and changes nothing. */
  lemma StoreThenLoad(s: MemState, pageSize: int, image: seq<char>, a: int, v: char)
    requires WellFormed(s, pageSize) && Accessible(s, pageSize, a) && InRange(a)
    requires Resident(s, pageSize, a) || Split(a, pageSize).page * pageSize + pageSize <= |image|
    ensures var s' := Store(s, pageSize, image, a, v);
      Accessible(s', pageSize, a) && Load(s', pageSize, image, a) == (v, s')
  {
  }

  /** A store to a resident address leaves what a load from any other address returns as it
      was, whether that load faults or not; from another resident address it returns the old
      byte and changes nothing further. */
  lemma StoreLeavesOtherAddresses(s: MemState, pageSize: int, image: seq<char>, a: int, b: int, v: char)
    requires WellFormed(s, pageSize) && Accessible(s, pageSize, a) && Accessible(s, pageSize, b)
    requires InRange(a) && a != b
    requires Resident(s, pageSize, a)
    ensures var s' := Store(s, pageSize, image, a, v);
      Accessible(s', pageSize, b) && Load(s', pageSize, image, b).0 == Load(s, pageSize, image, b).0
    ensures InRange(b) && Resident(s, pageSize, b) ==>
      var s' := Store(s, pageSize, image, a, v);
      Load(s', pageSize, image, b) == (s.memory[b], s')
  {
  }

  /** Loading the same address twice gives the same byte and the same state as loading it once,
      also when the page-fault read comes up short both times. */
  lemma LoadIsIdempotent(s: MemState, pageSize: int, image: seq<char>, a: int)
    requires WellFormed(s, pageSize) && Accessible(s, pageSize, a)
    ensures var r := Load(s, pageSize, image, a);
      Accessible(r.1, pageSize, a) && Load(r.1, pageSize, image, a) == r
  {
    if InRange(a) && !Resident(s, pageSize, a) {
      var page := Split(a, pageSize).page;
      var f := PageFault(s, pageSize, image, page);
      if !f.loaded {
        RefaultChangesNothing(s, pageSize, image, page);
      }
    }
  }

  /** Storing the same value at the same address twice has the effect of storing it once. */
  lemma StoreIsIdempotent(s: MemState, pageSize: int, image: seq<char>, a: int, v: char)
    requires WellFormed(s, pageSize) && Accessible(s, pageSize, a)
    ensures var s' := Store(s, pageSize, image, a, v);
      Accessible(s', pageSize, a) && Store(s', pageSize, image, a, v) == s'
  {
  }

  /** A page fault repeated after a short read reads the same bytes into memory again. */
  lemma RefaultChangesNothing(s: MemState, pageSize: int, image: seq<char>, page: int)
    requires WellFormed(s, pageSize) && 0 <= page < |s.table| && page * pageSize + pageSize <= MEMORY_SIZE
    requires !PageFault(s, pageSize, image, page).loaded
    ensures var s' := PageFault(s, pageSize, image, page).state;
      PageFault(s', pageSize, image, page) == Fault(false, s')
  {
  }

  /** A fault whose read succeeds installs page `p` in frame `p`, clean and without swap copy,
      and `load` then returns the byte the executable image holds at the same offset. */
  lemma FaultLoadsFromImage(s: MemState, pageSize: int, image: seq<char>, a: int)
    requires WellFormed(s, pageSize) && Accessible(s, pageSize, a) && InRange(a)
    requires !Resident(s, pageSize, a)
    requires Split(a, pageSize).page * pageSize + pageSize <= |image|
    ensures var page, r := Split(a, pageSize).page, Load(s, pageSize, image, a);
      r.0 == image[a] && r.1.table == s.table[page := InitialDescriptor(page)]
  {
  }

  /** A store whose fault read succeeds installs page `p` in frame `p`, clean and without swap
      copy; the stored byte holds the value, the rest of the page the image bytes at the same
      offsets, and every other byte is unchanged. */
  lemma FaultThenStore(s: MemState, pageSize: int, image: seq<char>, a: int, v: char)
    requires WellFormed(s, pageSize) && Accessible(s, pageSize, a) && InRange(a)
    requires !Resident(s, pageSize, a)
    requires Split(a, pageSize).page * pageSize + pageSize <= |image|
    ensures var page, r := Split(a, pageSize).page, Store(s, pageSize, image, a, v);
      r.table == s.table[page := InitialDescriptor(page)] &&
      r.memory[a] == v &&
      forall i :: 0 <= i < MEMORY_SIZE && i != a ==>
        r.memory[i] == if page * pageSize <= i < page * pageSize + pageSize then image[i] else s.memory[i]
  {
  }

  /** A fault whose read comes up short leaves the page table unchanged; `load` returns '\0'
      and `store` writes nothing beyond what the read brought in. */
  lemma FaultShortRead(s: MemState, pageSize: int, image: seq<char>, a: int, v: char)
    requires WellFormed(s, pageSize) && Accessible(s, pageSize, a) && InRange(a)
    requires !Resident(s, pageSize, a)
    requires Split(a, pageSize).page * pageSize + pageSize > |image|
    ensures var r := Load(s, pageSize, image, a);
      r.0 == '\0' && r.1.table == s.table && Store(s, pageSize, image, a, v) == r.1
    ensures forall i :: 0 <= i < MEMORY_SIZE ==>
      Store(s, pageSize, image, a, v).memory[i] ==
        if Split(a, pageSize).page * pageSize <= i < |image| then image[i] else s.memory[i]
  {
  }

  /** Neither operation ever sets a dirty bit or a swap slot, whatever the rest of the table
      holds; so a clean table stays clean. */
  lemma AccessesKeepTableClean(s: MemState, pageSize: int, image: seq<char>, a: int, v: char)
    requires WellFormed(s, pageSize) && Accessible(s, pageSize, a)
    ensures forall j :: 0 <= j < |s.table| && !s.table[j].dirty ==>
      !Load(s, pageSize, image, a).1.table[j].dirty && !Store(s, pageSize, image, a, v).table[j].dirty
    ensures forall j :: 0 <= j < |s.table| && s.table[j].swapIndex == NO_SWAP ==>
      Load(s, pageSize, image, a).1.table[j].swapIndex == NO_SWAP &&
      Store(s, pageSize, image, a, v).table[j].swapIndex == NO_SWAP
    ensures Clean(s.table) ==>
      Clean(Load(s, pageSize, image, a).1.table) && Clean(Store(s, pageSize, image, a, v).table)
  {
  }

  /** From the page table the constructor builds, no address faults: `load` reads the byte at
      the address itself and `store` writes it, and the page table never changes. */
  lemma ConstructedTableNeverFaults(s: MemState, pageSize: int, image: seq<char>, a: int, v: char)
    requires WellFormed(s, pageSize) && s.table == InitialTable(|s.table|)
    requires InRange(a) && Split(a, pageSize).page < |s.table|
    ensures Accessible(s, pageSize, a) && Resident(s, pageSize, a)
    ensures Load(s, pageSize, image, a) == (s.memory[a], s)
    ensures Store(s, pageSize, image, a, v) == MemState(s.memory[a := v], s.table)
  {
  }
}
