/** The constants and small types that the on-disk day-file layout is built
    from (typed.go). Durations are counted in seconds here; in the Go code
    they are time.Duration values, so only their ratios carry over. */
module Layout {
  import opened Bytes

  /** Seconds in one day: the number of timeline slots in a day file. */
  const TimelineLengthOfDay: int := 86400
  /** Size of the header (magic word, day baseline). */
  const FileHeaderOffset: int := 16
  /** Size of one slot (first and last frame offset). */
  const MateInfoSize: int := 8
  /** Size of the slot table: 86400 slots of 8 bytes. */
  const MateTableSize: int := 691200
  /** Position of the next-frame link inside a frame. */
  const NextDataOffset: int := 8
  /** Offset of the first frame: end of the slot table (MateTableSize +
      FileHeaderOffset), well below 2^32. */
  const FileDataOffset: int := 691216
  /** Size of a frame header: timestamp (8), next (4), payload length (4). */
  const DataHeaderLen: int := 8 + 4 + 4
  /** The file's magic word, written at offset 0 by init. */
  const Magic: int := 7089841687217925715

  /** The retention durations, in seconds: one day is the 86400 seconds of
      a day file, and the default retention is seven of them. */
  const TimestampOf1Day: int := 24 * 60 * 60
  const TimestampOf7Day: int := TimestampOf1Day * 7
  const TimestampOf14Day: int := TimestampOf1Day * 14
  const TimestampOf30Day: int := TimestampOf1Day * 30
  const TimestampOf1Year: int := TimestampOf1Day * 365
  const TimestampOf100Year: int := TimestampOf1Year * 100

  type u32 = x: int | 0 <= x < TWO32

  /** One slot of the table (timelineMateInfo). The value 0 stands for "no
      frame": `first` is where a query starts, `last` is where the next
      write links in. */
  datatype TimelineMateInfo = TimelineMateInfo(first: u32, last: u32)

  const EmptySlot: TimelineMateInfo := TimelineMateInfo(0, 0)

  datatype Option<+T> = None | Some(value: T)

  datatype Result<+T> = Ok(value: T) | Err(error: Error)

  /** The errors the core can return, one constructor per distinct error
      value or message of the Go code. */
  datatype Error =
    | FileNotHit          // ErrorDBFileNotHit
    | BeyondScope         // "beyond the scope of the query" (slot or range outside the file)
    | FileClosed          // the os.File behind a store file was closed (Seek fails)
    | ReadEOF             // a frame header read past the end of the file
    | EncodeFailed        // proto.Marshal failed on an item
    | InvalidTimeRange    // "is not a valid time range"
    | FileNotFound        // "file not found"
    | AlreadyInitialized  // the data directory is already registered
    | DBNotOpen           // "db not open"
    | PathFailed          // filepath.Abs or MkDirIfNotExist failed in InitDB
}
