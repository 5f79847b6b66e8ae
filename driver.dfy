/**
 * A client of the simulator in the configuration the demo driver builds
 * (text 16, data 16, bss 32, heap and stack 32 bytes, pages of 16 bytes),
 * proving what its calls return from the class's contracts alone.
 */
module Driver {
  import SimMem

  /** Stores 'X' at address 20 and loads it back, then loads address 8, which nothing wrote:
      physical memory starts zeroed and no page is ever read from the image, so it is '\0'.
      The demo driver itself stores at 98, which is on page 6 of this six-entry table and so
      outside it; the client stores at 20, on page 1, instead. */
  method Demo(image: seq<char>) returns (stored: char, untouched: char)
    ensures stored == 'X'
    ensures untouched == '\0'
  {
    var mem := new SimMem.SimMem(image, 16, 16, 32, 32, 16);
    assert mem.numOfPages == 6;
    mem.Store(20, 'X');
    stored := mem.Load(20);
    untouched := mem.Load(8);
  }
}
