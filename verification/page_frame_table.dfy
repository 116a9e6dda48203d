/** The page/frame table object: two vectors updated in place, each method
    proved against the value-level operation of module FifoTable. */
module PageFrames {
  import opened Config
  import opened Search
  import opened FifoTable

  class PageFrameTable {
    /** page number -> frame number, UNMAPPED for a page without a frame */
    var pageTable: seq<int>
    /** frames in the order they were assigned; the front is the next victim */
    var allocatedFrames: seq<int>

    /** The table as a value. */
    ghost function Abs(): Table
      reads this
    {
      Table(pageTable, allocatedFrames)
    }

    /** The FIFO replacement invariant for the configured sizes. */
    ghost predicate Valid()
      reads this
    {
      Inv(Abs(), NUM_PAGES, NUM_FRAMES)
    }

    /** Fills the page table with UNMAPPED, then maps page i to frame i and
        queues frame i for every frame number i in increasing order. */
    constructor ()
      ensures |pageTable| == NUM_PAGES
      ensures forall p :: 0 <= p < NUM_PAGES ==> pageTable[p] == (if p < NUM_FRAMES then p else UNMAPPED)
      ensures allocatedFrames == FrameIds(NUM_FRAMES)
      ensures Abs() == Initial(NUM_PAGES, NUM_FRAMES) && Valid()
    {
      pageTable := [];
      allocatedFrames := [];
      new;
      var i := 0;
      while i < NUM_PAGES
        invariant 0 <= i <= NUM_PAGES
        invariant |pageTable| == i && allocatedFrames == []
        invariant forall p :: 0 <= p < i ==> pageTable[p] == UNMAPPED
      {
        pageTable := pageTable + [UNMAPPED];
        i := i + 1;
      }
      i := 0;
      while i < NUM_FRAMES
        invariant 0 <= i <= NUM_FRAMES
        invariant |pageTable| == NUM_PAGES
        invariant forall p :: 0 <= p < NUM_PAGES ==> pageTable[p] == (if p < i then p else UNMAPPED)
        invariant allocatedFrames == FrameIds(i)
      {
        pageTable := pageTable[i := i];
        allocatedFrames := allocatedFrames + [i];
        i := i + 1;
      }
      InitialInv(NUM_PAGES, NUM_FRAMES);
    }

    /** getFrameNumber: the page's entry; under the invariant a mapped page's
        frame is one of the allocated frames. */
    function GetFrameNumber(pageNumber: int): (frame: int)
      reads this
      requires 0 <= pageNumber < |pageTable|
      ensures frame == pageTable[pageNumber]
      ensures Valid() ==> frame == UNMAPPED || frame in allocatedFrames
    {
      pageTable[pageNumber]
    }

    /** cycleFrame: shifts every frame one place towards the front, drops the
        last slot and appends the former front frame. */
    method CycleFrame()
      requires |allocatedFrames| > 0
      modifies this
      ensures allocatedFrames == Rotate(old(allocatedFrames))
      ensures pageTable == old(pageTable)
    {
      var start := allocatedFrames[0];
      var i := 0;
      while i < |allocatedFrames| - 1
        invariant |allocatedFrames| == |old(allocatedFrames)|
        invariant 0 <= i <= |allocatedFrames| - 1
        invariant forall k :: 0 <= k < i ==> allocatedFrames[k] == old(allocatedFrames)[k + 1]
        invariant forall k :: i <= k < |allocatedFrames| ==> allocatedFrames[k] == old(allocatedFrames)[k]
        invariant pageTable == old(pageTable)
      {
        allocatedFrames := allocatedFrames[i := allocatedFrames[i + 1]];
        i := i + 1;
      }
      allocatedFrames := allocatedFrames[..|allocatedFrames| - 1];
      allocatedFrames := allocatedFrames + [start];
    }

    /** allocateFrame: hands the front frame to `pageNumber`, unmaps its
        previous owner and cycles the queue; does nothing when no page owns
        the front frame. On an unmapped page it keeps the invariant. */
    method AllocateFrame(pageNumber: int)
      requires 0 <= pageNumber < |pageTable| && |allocatedFrames| > 0
      modifies this
      ensures Abs() == Allocate(old(Abs()), pageNumber)
      ensures old(Valid()) && old(pageTable[pageNumber]) == UNMAPPED ==> Valid()
    {
      ghost var before := Abs();
      var frame := allocatedFrames[0];
      var idx := NumInVector(pageTable, frame);
      FirstIndexUnique(pageTable, frame, idx, IndexOf(pageTable, frame));
      if idx != -1 {
        pageTable := pageTable[pageNumber := frame];
        pageTable := pageTable[idx := UNMAPPED];
        CycleFrame();
      }
      if Inv(before, NUM_PAGES, NUM_FRAMES) && before.pages[pageNumber] == UNMAPPED {
        AllocatePreservesInv(before, pageNumber, NUM_PAGES, NUM_FRAMES);
      }
    }
  }
}
