/** One iteration of the simulator's main loop, without the console: the
    range check, the split of the logical address into page number and
    offset, the page-fault path through the secondary-storage record, and the
    physical address. */
module Translation {
  import opened Config
  import opened Search
  import opened FifoTable

  /** What one iteration reports instead of printing. */
  datatype StepResult =
    | EndSession                 // the -1 sentinel or an address beyond the address space: the session ends
    | InvalidPage(pageNumber: int)  // reported, and the session goes on
    | Translated(logicalAddress: int, physicalAddress: int, pageNumber: int, offset: int)

  /** The state the main loop carries from one iteration to the next: the
      page/frame table and the record of pages that have been faulted in. */
  datatype Machine = Machine(table: Table, storage: seq<int>)

  /** The report of one iteration and the state after it. */
  datatype Outcome = Outcome(result: StepResult, next: Machine)

  /** The state at the start of a session: the constructor's table and an
      empty storage record, which satisfy the session invariant. */
  function Start(): (m: Machine)
    ensures WellFormed(m) && m.storage == [] && Valid(m)
  {
    InitialInv(NUM_PAGES, NUM_FRAMES);
    Machine(Initial(NUM_PAGES, NUM_FRAMES), [])
  }

  /** The shape the table has throughout a session: one entry per page and a
      non-empty frame queue. */
  predicate WellFormed(m: Machine) {
    |m.table.pages| == NUM_PAGES && |m.table.queue| > 0
  }

  predicate NoDuplicates(s: seq<int>) {
    forall i, j :: 0 <= i < j < |s| ==> s[i] != s[j]
  }

  /** The invariant of a session: the table keeps FIFO replacement's
      invariant, and the storage record lists valid page numbers, each once. */
  ghost predicate Valid(m: Machine) {
    Inv(m.table, NUM_PAGES, NUM_FRAMES) &&
    NoDuplicates(m.storage) &&
    (forall i :: 0 <= i < |m.storage| ==> 0 <= m.storage[i] < NUM_PAGES)
  }

  /** Page number and offset of a logical address (integer division and remainder). */
  function SplitAddress(address: nat): (r: (nat, nat))
    ensures r.0 * PAGE_SIZE + r.1 == address && r.1 < PAGE_SIZE
    ensures address < PAGE_SIZE * NUM_PAGES <==> r.0 < NUM_PAGES
  {
    (address / PAGE_SIZE, address % PAGE_SIZE)
  }

  /** The physical address of an offset within a frame; an in-frame offset
      and the frame number can be read back from it. */
  function PhysicalAddress(frame: int, offset: int): (a: int)
    ensures 0 <= offset < FRAME_SIZE ==> a / FRAME_SIZE == frame && a % FRAME_SIZE == offset
  {
    frame * FRAME_SIZE + offset
  }

  /** A physical address built from a frame number in range and an in-frame
      offset stays below the size of physical memory. */
  lemma PhysicalAddressInMemory(frame: int, offset: int)
    requires 0 <= frame < NUM_FRAMES && 0 <= offset < FRAME_SIZE
    ensures 0 <= PhysicalAddress(frame, offset) < NUM_FRAMES * FRAME_SIZE
  {
  }

  /** One iteration of the main loop on logical address `address`. On a
      fault the page is looked up in the storage record; when present it is
      allocated under the page number recorded there, otherwise it is
      recorded and allocated; then the table is queried again. */
  function Translate(m: Machine, address: int): (o: Outcome)
    requires WellFormed(m) && address >= -1
    ensures WellFormed(o.next) && |o.next.table.queue| == |m.table.queue|
  {
    if address == -1 || address > PAGE_SIZE * NUM_PAGES then
      Outcome(EndSession, m)
    else
      var pageNumber := SplitAddress(address).0;
      var offset := SplitAddress(address).1;
      if pageNumber < NUM_PAGES then
        var frameNumber := m.table.pages[pageNumber];
        if frameNumber == UNMAPPED then
          var storageLocation := IndexOf(m.storage, pageNumber);
          var target := if storageLocation != -1 then m.storage[storageLocation] else pageNumber;
          var storage := if storageLocation != -1 then m.storage else m.storage + [pageNumber];
          var table := Allocate(m.table, target);
          var retried := table.pages[pageNumber];
          Outcome(Translated(address, PhysicalAddress(retried, offset), pageNumber, offset), Machine(table, storage))
        else
          Outcome(Translated(address, PhysicalAddress(frameNumber, offset), pageNumber, offset), m)
      else
        Outcome(InvalidPage(pageNumber), m)
  }

  /** The session ends exactly on the sentinel -1 and on addresses beyond
      PAGE_SIZE * NUM_PAGES, and ending it changes nothing. */
  lemma TranslateEndsSession(m: Machine, address: int)
    requires WellFormed(m) && address >= -1
    ensures Translate(m, address).result == EndSession <==> (address == -1 || address > PAGE_SIZE * NUM_PAGES)
    ensures Translate(m, address).result == EndSession ==> Translate(m, address).next == m
  {
  }

  /** The bounds check lets PAGE_SIZE * NUM_PAGES itself through; that
      address, and no other, is reported as the invalid page NUM_PAGES, with
      the table and the storage record untouched. */
  lemma TranslateInvalidPage(m: Machine, address: int)
    requires WellFormed(m) && address >= -1
    ensures Translate(m, address).result.InvalidPage? <==> address == PAGE_SIZE * NUM_PAGES
    ensures address == PAGE_SIZE * NUM_PAGES ==>
              Translate(m, address) == Outcome(InvalidPage(NUM_PAGES), m)
  {
  }

  /** A page that is already mapped is translated without touching the
      state: hits do not move its frame in the queue (FIFO, not LRU). */
  lemma TranslateHitKeepsState(m: Machine, address: int)
    requires WellFormed(m) && 0 <= address < PAGE_SIZE * NUM_PAGES
    requires m.table.pages[address / PAGE_SIZE] != UNMAPPED
    ensures Translate(m, address).next == m
    ensures Translate(m, address).result ==
              Translated(address, m.table.pages[address / PAGE_SIZE] * FRAME_SIZE + address % PAGE_SIZE,
                         address / PAGE_SIZE, address % PAGE_SIZE)
  {
  }

  /** On a fault both branches allocate the faulting page itself, and the
      page is appended to the storage record exactly when it is not there yet. */
  lemma TranslateFaultAllocatesPage(m: Machine, address: int)
    requires WellFormed(m) && 0 <= address < PAGE_SIZE * NUM_PAGES
    requires m.table.pages[address / PAGE_SIZE] == UNMAPPED
    ensures Translate(m, address).next.table == Allocate(m.table, address / PAGE_SIZE)
    ensures Translate(m, address).next.storage ==
              if address / PAGE_SIZE in m.storage then m.storage else m.storage + [address / PAGE_SIZE]
  {
  }

  /** After a fault the physical address is computed from the frame the
      page holds in the new table. */
  lemma TranslateFaultRequeries(m: Machine, address: int)
    requires WellFormed(m) && 0 <= address < PAGE_SIZE * NUM_PAGES
    requires m.table.pages[address / PAGE_SIZE] == UNMAPPED
    ensures Translate(m, address).result ==
              Translated(address, Translate(m, address).next.table.pages[address / PAGE_SIZE] * FRAME_SIZE + address % PAGE_SIZE,
                         address / PAGE_SIZE, address % PAGE_SIZE)
  {
  }

  /** What an in-range translation promises: page number and offset
      recombine to the address, the page is mapped in the new table, and the
      physical address lies inside physical memory at that frame. */
  predicate TranslatedInMemory(address: int, o: Outcome)
    requires WellFormed(o.next)
  {
    o.result.Translated? &&
    o.result.logicalAddress == address &&
    o.result.pageNumber * PAGE_SIZE + o.result.offset == address &&
    0 <= o.result.offset < PAGE_SIZE &&
    0 <= o.result.pageNumber < NUM_PAGES &&
    0 <= o.next.table.pages[o.result.pageNumber] < NUM_FRAMES &&
    o.result.physicalAddress == o.next.table.pages[o.result.pageNumber] * FRAME_SIZE + o.result.offset &&
    0 <= o.result.physicalAddress < NUM_FRAMES * FRAME_SIZE
  }

  /** A page fault on an in-range address maps the page and keeps the
      session invariant. */
  lemma TranslateFaultInRange(m: Machine, address: int)
    requires Valid(m) && 0 <= address < PAGE_SIZE * NUM_PAGES
    requires m.table.pages[address / PAGE_SIZE] == UNMAPPED
    ensures TranslatedInMemory(address, Translate(m, address)) && Valid(Translate(m, address).next)
  {
    var page := address / PAGE_SIZE;
    var o := Translate(m, address);
    TranslateFaultAllocatesPage(m, address);
    AllocatePreservesInv(m.table, page, NUM_PAGES, NUM_FRAMES);
    AllocateIsFifo(m.table, page, NUM_PAGES, NUM_FRAMES);
    QueueIsFrameRange(m.table, NUM_PAGES, NUM_FRAMES);
    assert m.table.queue[0] in m.table.queue;
    if page !in m.storage {
      assert o.next.storage == m.storage + [page];
    }
  }

  /** An address inside the address space is always translated inside
      physical memory, and the session invariant is kept. */
  lemma TranslateInRange(m: Machine, address: int)
    requires Valid(m) && 0 <= address < PAGE_SIZE * NUM_PAGES
    ensures TranslatedInMemory(address, Translate(m, address)) && Valid(Translate(m, address).next)
  {
    if m.table.pages[address / PAGE_SIZE] == UNMAPPED {
      TranslateFaultInRange(m, address);
    } else {
      EntryIsFrame(m.table, NUM_PAGES, NUM_FRAMES, address / PAGE_SIZE);
    }
  }

  /** Every iteration keeps the session invariant. */
  lemma TranslateKeepsValid(m: Machine, address: int)
    requires Valid(m) && address >= -1
    ensures Valid(Translate(m, address).next)
  {
    if 0 <= address < PAGE_SIZE * NUM_PAGES {
      TranslateInRange(m, address);
    } else {
      TranslateEndsSession(m, address);
      TranslateInvalidPage(m, address);
    }
  }

  /** Feeds the addresses to the loop one by one until the session ends,
      collecting the reports; returns the reports and the final state. */
  function Run(m: Machine, addresses: seq<int>): (r: (seq<StepResult>, Machine))
    requires WellFormed(m)
    requires forall i :: 0 <= i < |addresses| ==> addresses[i] >= -1
    ensures |r.0| <= |addresses| && WellFormed(r.1)
    decreases |addresses|
  {
    if |addresses| == 0 then ([], m)
    else
      var o := Translate(m, addresses[0]);
      if o.result == EndSession then ([EndSession], m)
      else
        var rest := Run(o.next, addresses[1..]);
        ([o.result] + rest.0, rest.1)
  }

  /** A report that, if it is a translation, recombines to its logical
      address and lies inside physical memory. */
  predicate ReportInMemory(s: StepResult) {
    s.Translated? ==>
      s.pageNumber * PAGE_SIZE + s.offset == s.logicalAddress &&
      0 <= s.physicalAddress < NUM_FRAMES * FRAME_SIZE
  }

  /** Over a whole session from a valid state every translated address is
      translated inside physical memory, and the final state is still valid. */
  lemma {:induction false} RunKeepsValid(m: Machine, addresses: seq<int>)
    requires Valid(m)
    requires forall i :: 0 <= i < |addresses| ==> addresses[i] >= -1
    ensures Valid(Run(m, addresses).1)
    ensures forall k :: 0 <= k < |Run(m, addresses).0| ==> ReportInMemory(Run(m, addresses).0[k])
    decreases |addresses|
  {
    if |addresses| > 0 {
      var o := Translate(m, addresses[0]);
      if o.result != EndSession {
        var rest := Run(o.next, addresses[1..]);
        assert Run(m, addresses) == ([o.result] + rest.0, rest.1);
        TranslateKeepsValid(m, addresses[0]);
        if o.result.Translated? {
          TranslateInRange(m, addresses[0]);
        }
        assert ReportInMemory(o.result);
        RunKeepsValid(o.next, addresses[1..]);
      }
    }
  }

  /** The reports of a run line up with the addresses: report k answers
      addresses[k], it ends the session exactly when addresses[k] is -1 or
      above PAGE_SIZE * NUM_PAGES, and a run that does not use up its input
      stops at the first such address. */
  lemma {:induction false} RunReportsInOrder(m: Machine, addresses: seq<int>)
    requires WellFormed(m)
    requires forall i :: 0 <= i < |addresses| ==> addresses[i] >= -1
    ensures var r := Run(m, addresses).0;
            (forall k :: 0 <= k < |r| ==>
               (r[k] == EndSession <==> addresses[k] == -1 || addresses[k] > PAGE_SIZE * NUM_PAGES)) &&
            (forall k :: 0 <= k < |r| - 1 ==> r[k] != EndSession) &&
            (|r| < |addresses| ==> |r| > 0 && r[|r| - 1] == EndSession) &&
            (forall k :: 0 <= k < |r| && r[k].Translated? ==> r[k].logicalAddress == addresses[k])
    decreases |addresses|
  {
    if |addresses| > 0 {
      var o := Translate(m, addresses[0]);
      TranslateEndsSession(m, addresses[0]);
      if o.result != EndSession {
        var rest := Run(o.next, addresses[1..]);
        assert Run(m, addresses).0 == [o.result] + rest.0;
        RunReportsInOrder(o.next, addresses[1..]);
      }
    }
  }
}
