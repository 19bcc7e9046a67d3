/** The byte image of one day file (storefile.go) as values: where a slot
    lives, what a frame looks like, what init and a batched write turn the
    image into, and what a chain walk reads out of it. The class in
    StoreFiles runs these steps in place; this module states and proves what
    they mean. */
module DayImage {
  import opened Bytes
  import opened Layout

  /** Seconds a day file serves: [begin, begin + 86400). Every caller in the
      engine stays inside it, since it writes and reads a file only for the
      day that contains the second. */
  predicate InDay(begin: int, t: int) {
    begin <= t < begin + TimelineLengthOfDay
  }

  /** The bound ReadMateInfo and writeMateInfo check: inclusive at the top,
      one slot more than the table holds. */
  predicate InMateRange(begin: int, t: int) {
    begin <= t <= begin + TimelineLengthOfDay
  }

  /** MateInfoSize * (t - begin) + FileHeaderOffset */
  function SlotOffset(begin: int, t: int): (off: nat)
    requires InMateRange(begin, t)
    ensures FileHeaderOffset <= off <= FileDataOffset
    ensures InDay(begin, t) ==> off + MateInfoSize <= FileDataOffset
  {
    MateInfoSize * (t - begin) + FileHeaderOffset
  }

  /** ReadMateInfo's read of the slot of t (bytes past the end read as 0). */
  function SlotAt(b: seq<byte>, begin: int, t: int): TimelineMateInfo
    requires InMateRange(begin, t)
  {
    var buf := ReadZ(b, SlotOffset(begin, t), 8);
    TimelineMateInfo(U32(buf, 0), U32(buf, 4))
  }

  function SlotBytes(m: TimelineMateInfo): seq<byte> {
    Le32(m.first) + Le32(m.last)
  }

  /** What init writes: magic word, day baseline, 86400 zeroed slots. */
  function InitImage(begin: int): seq<byte> {
    Le64(Magic) + Le64(begin) + seq(MateTableSize, _ => 0)
  }

  // ---------------------------------------------------------------- frames

  function TsLo(b: seq<byte>, o: nat): u32 requires o + DataHeaderLen <= |b| { U32(b, o) }
  function TsHi(b: seq<byte>, o: nat): u32 requires o + DataHeaderLen <= |b| { U32(b, o + 4) }
  function NextOf(b: seq<byte>, o: nat): u32 requires o + DataHeaderLen <= |b| { U32(b, o + NextDataOffset) }
  function LenOf(b: seq<byte>, o: nat): u32 requires o + DataHeaderLen <= |b| { U32(b, o + 12) }

  function FrameEnd(b: seq<byte>, o: nat): nat
    requires o + DataHeaderLen <= |b|
  {
    o + DataHeaderLen + LenOf(b, o)
  }

  /** The payload buffer the walk reads for the frame at o. */
  function PayloadAt(b: seq<byte>, o: nat): seq<byte>
    requires o + DataHeaderLen <= |b|
  {
    ReadZ(b, o + DataHeaderLen, LenOf(b, o))
  }

  /** One frame as the write loop lays it out (the length is cast to uint32). */
  function FrameBytes(t: int, next: u32, payload: seq<byte>): seq<byte> {
    Le64(t) + Le32(next) + Le32(|payload| % TWO32) + payload
  }

  /** Bytes a batch of payloads takes: the sum of 16 + len per item. */
  function BatchSize(ps: seq<seq<byte>>): nat {
    if ps == [] then 0 else BatchSize(ps[..|ps| - 1]) + DataHeaderLen + |ps[|ps| - 1]|
  }

  /** The write buffer for a batch placed at pos: frame i points at frame
      i+1, and when `final` holds the last frame's next is 0. Positions are
      cast to uint32 as in the Go code. */
  function Batch(pos: int, t: int, ps: seq<seq<byte>>, final: bool): seq<byte> {
    if ps == [] then []
    else
      Batch(pos, t, ps[..|ps| - 1], false)
      + FrameBytes(t, if final then 0 else (pos + BatchSize(ps)) % TWO32, ps[|ps| - 1])
  }

  /** Offsets of the frames of a batch placed at pos. */
  function BatchOffsets(pos: nat, ps: seq<seq<byte>>): (r: seq<nat>)
    ensures |r| == |ps|
  {
    seq(|ps|, i requires 0 <= i < |ps| => pos + BatchSize(ps[..i]))
  }

  /** The whole effect of Write(t, batch) on the image, in the Go code's
      order: patch the old tail's next link, append the batch at the old
      end of file, store the new slot. */
  function WriteImage(b: seq<byte>, begin: int, t: int, ps: seq<seq<byte>>): seq<byte>
    requires InMateRange(begin, t) && ps != []
  {
    var m := SlotAt(b, begin, t);
    StoreSlot(LinkTail(b, m.last, |b|) + Batch(|b|, t, ps, true), begin, t, NewSlot(m, |b|, ps))
  }

  /** Point the frame at tail (if any) at the frame about to be appended at eof. */
  function LinkTail(b: seq<byte>, tail: nat, eof: nat): seq<byte> {
    if tail != 0 then Patch(b, tail + NextDataOffset, Le32(eof % TWO32)) else b
  }

  /** writeMateInfo: store slot m for second t. */
  function StoreSlot(b: seq<byte>, begin: int, t: int, m: TimelineMateInfo): seq<byte>
    requires InMateRange(begin, t)
  {
    Patch(b, SlotOffset(begin, t), SlotBytes(m))
  }

  /** The slot after a batch: first is set only if the chain was empty,
      last becomes the batch's last frame. */
  function NewSlot(m: TimelineMateInfo, eof: nat, ps: seq<seq<byte>>): TimelineMateInfo
    requires ps != []
  {
    TimelineMateInfo(if m.first == 0 then eof % TWO32 else m.first,
                     (eof + BatchSize(ps[..|ps| - 1])) % TWO32)
  }

  // ---------------------------------------------------------------- walk

  /** The chain from off leads forward: it reaches 0, a short read, or a
      timestamp mismatch before any next link fails to move forward. Every
      chain the engine lays out is of this kind. */
  predicate ChainOk(b: seq<byte>, t: int, off: nat)
    decreases if off <= |b| then |b| - off else 0
  {
    off == 0 || off + DataHeaderLen > |b| || TsLo(b, off) != t
    || NextOf(b, off) == 0 || (off < NextOf(b, off) && ChainOk(b, t, NextOf(b, off)))
  }

  function Keep<R>(decode: seq<byte> -> Option<R>, p: seq<byte>): seq<R> {
    match decode(p)
    case Some(r) => [r]
    case None => []
  }

  /** The records that decode, in order; undecodable payloads are skipped. */
  function Decoded<R>(decode: seq<byte> -> Option<R>, ps: seq<seq<byte>>): seq<R> {
    if ps == [] then [] else Keep(decode, ps[0]) + Decoded(decode, ps[1..])
  }

  function Prepend<R>(xs: seq<R>, r: Result<seq<R>>): Result<seq<R>> {
    match r
    case Ok(ys) => Ok(xs + ys)
    case Err(e) => r
  }

  /** queryByTimeline's loop from off on a chain that leads forward: stop
      at 0, fail on a short header read, stop on a mismatching low
      timestamp word, else keep the decoded payload and follow next. */
  function Walk<R>(b: seq<byte>, t: int, off: nat, decode: seq<byte> -> Option<R>): Result<seq<R>>
    requires ChainOk(b, t, off)
    decreases if off <= |b| then |b| - off else 0
  {
    if off == 0 then Ok([])
    else if off + DataHeaderLen > |b| then Err(ReadEOF)
    else if TsLo(b, off) != t then Ok([])
    else if NextOf(b, off) == 0 then Ok(Keep(decode, PayloadAt(b, off)))
    else Prepend(Keep(decode, PayloadAt(b, off)), Walk(b, t, NextOf(b, off), decode))
  }

  /** One pass of queryByTimeline's loop as written, at the frame at off:
      None when the loop leaves there (off is 0, the header read is short,
      or the frame carries another second), otherwise the offset it goes on
      with, which the Go code takes from the frame whatever its value. */
  function LoopStep(b: seq<byte>, t: int, off: nat): Option<nat> {
    if off == 0 || off + DataHeaderLen > |b| || TsLo(b, off) != t then None else Some(NextOf(b, off))
  }

  /** Where the loop as written stands after n passes from off: the offset
      it examines next, or None once it has left. */
  function LoopAfter(b: seq<byte>, t: int, off: nat, n: nat): Option<nat>
    decreases n
  {
    if n == 0 then Some(off)
    else match LoopStep(b, t, off)
      case None => None
      case Some(next) => LoopAfter(b, t, next, n - 1)
  }

  /** What the loop as written returns if it leaves within n passes from
      off, None if it is still running after them. It follows every next
      link, forward or not. */
  function LoopRun<R>(b: seq<byte>, t: int, off: nat, n: nat, decode: seq<byte> -> Option<R>): Option<Result<seq<R>>>
    decreases n
  {
    if n == 0 then None
    else if off == 0 then Some(Ok([]))
    else if off + DataHeaderLen > |b| then Some(Err(ReadEOF))
    else if TsLo(b, off) != t then Some(Ok([]))
    else match LoopRun(b, t, NextOf(b, off), n - 1, decode)
      case None => None
      case Some(r) => Some(Prepend(Keep(decode, PayloadAt(b, off)), r))
  }

  /** The positions 1 .. n. */
  function Positions(n: nat): set<nat> {
    if n == 0 then {} else Positions(n - 1) + {n}
  }

  lemma {:induction false} InPositions(n: nat, o: nat)
    requires 1 <= o <= n
    ensures o in Positions(n)
    decreases n
  {
    if o < n {
      InPositions(n - 1, o);
    }
  }

  /** The offsets 1 .. |b|, among them every offset at which a frame
      header lies in b. */
  function Offsets(b: seq<byte>): set<nat> {
    Positions(|b|)
  }

  /** The walk with the guard the Go loop lacks: seen holds the frames the
      walk has read before off, and a next link back to one of them or to
      the frame at off ends the chain after that frame. It ends on every
      file, and wherever the Go loop leaves it returns what the loop returns
      (DayProofs.GuardedWalkWhereLoopEnds). */
  function GuardedWalk<R>(b: seq<byte>, t: int, off: nat, seen: set<nat>, decode: seq<byte> -> Option<R>): Result<seq<R>>
    requires off !in seen
    decreases Offsets(b) - seen
  {
    if off == 0 then Ok([])
    else if off + DataHeaderLen > |b| then Err(ReadEOF)
    else if TsLo(b, off) != t then Ok([])
    else if NextOf(b, off) == 0 || NextOf(b, off) in seen + {off} then Ok(Keep(decode, PayloadAt(b, off)))
    else
      InPositions(|b|, off);
      Prepend(Keep(decode, PayloadAt(b, off)), GuardedWalk(b, t, NextOf(b, off), seen + {off}, decode))
  }

  // ---------------------------------------------------------------- shape

  /** Ghost description of a well-formed image: the frames in file order and,
      for each second of the day (by its index from the baseline), the chain
      of frame offsets. */
  datatype Shape = Shape(frames: seq<nat>, chains: seq<seq<nat>>)

  /** Frame i of fs lies in the data region, inside the file. */
  ghost predicate FrameAt(b: seq<byte>, fs: seq<nat>, i: int)
    requires 0 <= i < |fs|
  {
    FileDataOffset <= fs[i] && fs[i] + DataHeaderLen <= |b| && FrameEnd(b, fs[i]) <= |b|
  }

  /** Frame i of fs ends before frame j starts. */
  ghost predicate Apart(b: seq<byte>, fs: seq<nat>, i: int, j: int)
    requires 0 <= i < j < |fs|
  {
    fs[i] + DataHeaderLen <= |b| && FrameEnd(b, fs[i]) <= fs[j]
  }

  /** Frames lie in the data region, inside the file, without overlapping. */
  ghost predicate FramesLaidOut(b: seq<byte>, fs: seq<nat>) {
    && (forall i :: 0 <= i < |fs| ==> FrameAt(b, fs, i))
    && (forall i, j :: 0 <= i < j < |fs| ==> Apart(b, fs, i, j))
  }

  /** Link i of the chain c of second s: a frame of fs stamped with s that
      points at link i+1 further on, or at 0 when it is the last. */
  ghost predicate LinkAt(b: seq<byte>, s: int, c: seq<nat>, fs: seq<nat>, i: int)
    requires 0 <= i < |c|
  {
    && c[i] in fs && c[i] + DataHeaderLen <= |b|
    && TsLo(b, c[i]) == s % TWO32 && TsHi(b, c[i]) == (s % TWO64) / TWO32
    && NextOf(b, c[i]) == (if i + 1 < |c| then c[i + 1] else 0)
    && (i + 1 < |c| ==> c[i] < c[i + 1])
  }

  /** The chain c of second s: every link in place. */
  ghost predicate ChainLaid(b: seq<byte>, s: int, c: seq<nat>, fs: seq<nat>) {
    forall i :: 0 <= i < |c| ==> LinkAt(b, s, c, fs, i)
  }

  /** The slot of a chain holds its first and last frame, or (0, 0). */
  predicate SlotMatches(m: TimelineMateInfo, c: seq<nat>) {
    if c == [] then m == EmptySlot else m.first == c[0] && m.last == c[|c| - 1]
  }

  /** Second i of the day: its chain is laid out and its slot names it. */
  ghost predicate SecondOk(b: seq<byte>, begin: int, sh: Shape, i: int)
    requires 0 <= i < |sh.chains| && i < TimelineLengthOfDay
  {
    ChainLaid(b, begin + i, sh.chains[i], sh.frames) && SlotMatches(SlotAt(b, begin, begin + i), sh.chains[i])
  }

  /** The invariant of a day file between operations. */
  ghost predicate WellFormed(b: seq<byte>, begin: int, sh: Shape) {
    && FileDataOffset <= |b| < TWO32
    && b[..FileHeaderOffset] == Le64(Magic) + Le64(begin)
    && FramesLaidOut(b, sh.frames)
    && |sh.chains| == TimelineLengthOfDay
    && forall i :: 0 <= i < TimelineLengthOfDay ==> SecondOk(b, begin, sh, i)
  }

  /** Every frame of a laid-out list lies in the data region and the file. */
  lemma FramesInside(b: seq<byte>, fs: seq<nat>)
    requires FramesLaidOut(b, fs)
    ensures forall i :: 0 <= i < |fs| ==>
              FileDataOffset <= fs[i] && fs[i] + DataHeaderLen <= |b| && FrameEnd(b, fs[i]) <= |b|
  {
    forall i | 0 <= i < |fs|
      ensures FileDataOffset <= fs[i] && fs[i] + DataHeaderLen <= |b| && FrameEnd(b, fs[i]) <= |b|
    {
      assert FrameAt(b, fs, i);
    }
  }

  /** Every link of a laid-out chain is inside the file. */
  lemma ChainInside(b: seq<byte>, s: int, c: seq<nat>, fs: seq<nat>)
    requires ChainLaid(b, s, c, fs)
    ensures forall i :: 0 <= i < |c| ==> c[i] + DataHeaderLen <= |b|
  {
    forall i | 0 <= i < |c| ensures c[i] + DataHeaderLen <= |b| {
      assert LinkAt(b, s, c, fs, i);
    }
  }

  /** The payloads stored along a chain (a frame whose header lies past the
      end counts as empty; in a well-formed file there is none). */
  function Records(b: seq<byte>, c: seq<nat>): (r: seq<seq<byte>>)
    ensures |r| == |c|
  {
    seq(|c|, i requires 0 <= i < |c| =>
      if c[i] + DataHeaderLen <= |b| then PayloadAt(b, c[i]) else [])
  }
}
