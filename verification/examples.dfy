/** Concrete sessions of the simulator with the fixed configuration. */
module Scenarios {
  import opened Search
  import opened FifoTable
  import opened Translation

  /** The table at the start of a session. */
  const START_TABLE: Table :=
    Table([0, 1, 2, 3, 4, 5, 6, 7, -1, -1, -1, -1, -1, -1, -1, -1], [0, 1, 2, 3, 4, 5, 6, 7])

  /** The table after page 8 faulted in from the start state. */
  const AFTER_PAGE_8: Table :=
    Table([-1, 1, 2, 3, 4, 5, 6, 7, 0, -1, -1, -1, -1, -1, -1, -1], [1, 2, 3, 4, 5, 6, 7, 0])

  /** The table after page 0 faulted back in next. */
  const AFTER_PAGE_0: Table :=
    Table([1, -1, 2, 3, 4, 5, 6, 7, 0, -1, -1, -1, -1, -1, -1, -1], [2, 3, 4, 5, 6, 7, 0, 1])

  /** The start state spelled out: pages 0..7 on frames 0..7, frames queued
      in order, nothing recorded. */
  lemma StartSpelledOut()
    ensures Start() == Machine(START_TABLE, [])
  {
  }

  /** From the start state, 0x1234 lies in the identity-mapped page 4 at
      offset 0x234, so it translates to itself without a fault. */
  lemma IdentityMappedHit()
    ensures Translate(Start(), 0x1234) == Outcome(Translated(0x1234, 0x1234, 4, 0x234), Start())
  {
    StartSpelledOut();
  }

  // The tables below are passed as parameters pinned by `requires` rather
  // than named directly, which keeps the verifier from unfolding the search
  // over every literal table in scope at once.

  /** In the start table frame 0, the front of the queue, is owned by page 0. */
  lemma StartVictimOwner(t: Table)
    requires t == START_TABLE
    ensures IndexOf(t.pages, t.queue[0]) == 0
  {
    assert IsFirstIndex(t.pages, 0, 0);
    FirstIndexUnique(t.pages, 0, 0, IndexOf(t.pages, 0));
  }

  /** From the start table, allocating to page 8 takes frame 0 from page 0. */
  lemma AllocateFromStart(t: Table)
    requires t == START_TABLE
    ensures Allocate(t, 8) == AFTER_PAGE_8
  {
    StartVictimOwner(t);
    RotateStartQueue(t.queue);
    UpdateStartPages(t.pages);
  }

  lemma RotateStartQueue(q: seq<int>)
    requires q == START_TABLE.queue
    ensures Rotate(q) == AFTER_PAGE_8.queue
  {
  }

  lemma UpdateStartPages(pages: seq<int>)
    requires pages == START_TABLE.pages
    ensures pages[8 := 0][0 := UNMAPPED] == AFTER_PAGE_8.pages
  {
  }

  /** After page 8 came in, frame 1, now at the front, is owned by page 1. */
  lemma SecondVictimOwner(t: Table)
    requires t == AFTER_PAGE_8
    ensures IndexOf(t.pages, t.queue[0]) == 1
  {
    assert IsFirstIndex(t.pages, 1, 1);
    FirstIndexUnique(t.pages, 1, 1, IndexOf(t.pages, 1));
  }

  /** Next, allocating to page 0 takes frame 1 from page 1. */
  lemma AllocateAfterPage8(t: Table)
    requires t == AFTER_PAGE_8
    ensures Allocate(t, 0) == AFTER_PAGE_0
  {
    SecondVictimOwner(t);
    RotateSecondQueue(t.queue);
    UpdateSecondPages(t.pages);
  }

  lemma RotateSecondQueue(q: seq<int>)
    requires q == AFTER_PAGE_8.queue
    ensures Rotate(q) == AFTER_PAGE_0.queue
  {
  }

  lemma UpdateSecondPages(pages: seq<int>)
    requires pages == AFTER_PAGE_8.pages
    ensures pages[0 := 1][1 := UNMAPPED] == AFTER_PAGE_0.pages
  {
  }
}
