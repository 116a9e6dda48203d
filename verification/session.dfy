/** The main loop's state as an object: the page/frame table and the
    secondary-storage record, updated in place by each iteration. */
module Simulator {
  import opened Config
  import opened Search
  import opened FifoTable
  import opened PageFrames
  import opened Translation

  class Session {
    const table: PageFrameTable
    /** pages that have been faulted in, in the order they were first seen */
    var secondaryStorage: seq<int>

    /** The session as a value. */
    ghost function Abs(): Machine
      reads this, table
    {
      Machine(table.Abs(), secondaryStorage)
    }

    constructor ()
      ensures fresh(table)
      ensures Abs() == Start() && Valid(Abs())
    {
      table := new PageFrameTable();
      secondaryStorage := [];
    }

    /** One iteration of the main loop on `logicalAddress`, reporting what
        the loop would print. */
    method Step(logicalAddress: int) returns (r: StepResult)
      requires logicalAddress >= -1 && WellFormed(Abs())
      modifies this, table
      ensures Outcome(r, Abs()) == Translate(old(Abs()), logicalAddress)
      ensures Valid(old(Abs())) ==> Valid(Abs())
    {
      ghost var before := Abs();
      if Valid(before) {
        TranslateKeepsValid(before, logicalAddress);
      }
      if logicalAddress == -1 || logicalAddress > PAGE_SIZE * NUM_PAGES {
        return EndSession;
      }
      var pageNumber := logicalAddress / PAGE_SIZE;
      var offset := logicalAddress % PAGE_SIZE;
      if pageNumber < NUM_PAGES {
        var frameNumber := table.GetFrameNumber(pageNumber);
        if frameNumber == UNMAPPED {
          TranslateFaultAllocatesPage(before, logicalAddress);
          var storageLocation := NumInVector(secondaryStorage, pageNumber);
          FirstIndexUnique(secondaryStorage, pageNumber, storageLocation, IndexOf(secondaryStorage, pageNumber));
          if storageLocation != -1 {
            table.AllocateFrame(secondaryStorage[storageLocation]);
          } else {
            secondaryStorage := secondaryStorage + [pageNumber];
            table.AllocateFrame(pageNumber);
          }
          assert Abs() == Translate(before, logicalAddress).next;
          frameNumber := table.GetFrameNumber(pageNumber);
        }
        var physicalAddress := frameNumber * FRAME_SIZE + offset;
        r := Translated(logicalAddress, physicalAddress, pageNumber, offset);
      } else {
        r := InvalidPage(pageNumber);
      }
    }
  }
}
