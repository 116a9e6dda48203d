/** The fixed configuration of the simulator: sizes in addressable units and counts. */
module Config {
  const PAGE_SIZE: int := 1024
  const FRAME_SIZE: int := 1024
  const NUM_PAGES: int := 16
  const NUM_FRAMES: int := 8
}
