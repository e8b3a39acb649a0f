/**
  The constant path table of the dataset stager (`FileHandler.dirs`), each
  path split into its components.
 */
module Paths {
  import opened Disk

  /** Where the archives of raw training and test images are placed. */
  const TrainZip: Path := ["resources", "train_zip"]
  const TestZip: Path := ["resources", "test_zip"]

  /** The parents of the four pools. */
  const RawData: Path := ["resources", "raw_data"]
  const ProcData: Path := ["resources", "proc_data"]

  /** The pools of extracted raw images and of cropped, renamed images. */
  const TrainRaw: Path := ["resources", "raw_data", "train_data"]
  const TestRaw: Path := ["resources", "raw_data", "test_data"]
  const TrainProc: Path := ["resources", "proc_data", "train_data"]
  const TestProc: Path := ["resources", "proc_data", "test_data"]

  /** The four pools in the order the table lists them: raw before processed, training before test. */
  const Pools: seq<Path> := [TrainRaw, TestRaw, TrainProc, TestProc]

}
