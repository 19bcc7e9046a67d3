/** Three discrepancies in storefile.go, each shown on a concrete day file.
    (1) ReadMateInfo and writeMateInfo bound t inclusively
    (begin <= t <= end, with end = begin + 86400). The table holds 86400
    slots, so the "slot" of end lies at offset 691216, where the first frame
    of the data region starts: reading it yields that frame's timestamp
    words, writing it overwrites them, and QueryBetween, whose loop reaches
    end, enters the next day's midnight. (2) QueryBetween's hit test
    end > TimelineBegin refuses a range that ends at the baseline.
    (3) queryByTimeline follows any next link, so a chain whose links close
    a cycle, such as a frame that links back to itself, keeps it in its
    loop for ever. The class in StoreFiles refuses end in Write,
    QueryByTimeline and QueryBetween, tests end >= begin, and stops its walk
    at a link back to a frame it has already read. */
module Findings {
  import opened Bytes
  import opened Layout
  import opened DayImage
  import opened DayProofs
  import opened WriteProofs
  import opened StoreFiles

  /** The slot of end is the 8 bytes at the start of the data region: the
      two timestamp words of the first frame. */
  lemma EndSlotReadsFirstFrame(b: seq<byte>, begin: int)
    requires FileDataOffset + DataHeaderLen <= |b|
    ensures SlotOffset(begin, begin + TimelineLengthOfDay) == FileDataOffset
    ensures SlotAt(b, begin, begin + TimelineLengthOfDay)
         == TimelineMateInfo(TsLo(b, FileDataOffset), TsHi(b, FileDataOffset))
  {
    var buf := ReadZ(b, FileDataOffset, 8);
    assert buf == b[FileDataOffset..FileDataOffset + 8];
    U32OfAgreeing(buf, b, 0, FileDataOffset);
    U32OfAgreeing(buf, b, 4, FileDataOffset + 4);
  }

  /** The file after the first write of the day: one record p stamped with
      the baseline, as the first frame of the data region. */
  function FirstWrite(begin: int, p: seq<byte>): seq<byte> {
    WriteImage(InitImage(begin), begin, begin, [p])
  }

  lemma FirstWriteFacts(begin: int, p: seq<byte>)
    requires 0 < begin < TWO32 && FileDataOffset + DataHeaderLen + |p| < TWO32
    ensures |FirstWrite(begin, p)| == FileDataOffset + DataHeaderLen + |p|
    ensures WellFormed(FirstWrite(begin, p), begin, WriteShape(EmptyShape(begin), begin, begin, FileDataOffset, [p]))
    ensures TsLo(FirstWrite(begin, p), FileDataOffset) == begin && TsHi(FirstWrite(begin, p), FileDataOffset) == 0
    ensures SlotAt(FirstWrite(begin, p), begin, begin) == TimelineMateInfo(FileDataOffset, FileDataOffset)
  {
    FirstShape(begin, p);
    InitImageEmpty(begin);
    WriteKeepsWellFormed(InitImage(begin), begin, EmptyShape(begin), begin, [p]);
    OnlyFrame(FirstWrite(begin, p), begin, WriteShape(EmptyShape(begin), begin, begin, FileDataOffset, [p]));
  }

  /** The first batch of one record is one frame at the start of the data
      region, the only link of the baseline second's chain. */
  lemma FirstShape(begin: int, p: seq<byte>)
    ensures BatchSize([p]) == DataHeaderLen + |p|
    ensures WriteShape(EmptyShape(begin), begin, begin, FileDataOffset, [p]).chains[0] == [FileDataOffset]
  {
    assert [p][..0] == [];
    assert BatchOffsets(FileDataOffset, [p]) == [FileDataOffset];
  }

  /** A well-formed file whose baseline chain is the first data frame alone. */
  lemma OnlyFrame(b: seq<byte>, begin: int, sh: Shape)
    requires 0 < begin < TWO32
    requires WellFormed(b, begin, sh) && sh.chains[0] == [FileDataOffset]
    ensures FileDataOffset + DataHeaderLen <= |b|
    ensures TsLo(b, FileDataOffset) == begin && TsHi(b, FileDataOffset) == 0
    ensures SlotAt(b, begin, begin) == TimelineMateInfo(FileDataOffset, FileDataOffset)
  {
    assert SecondOk(b, begin, sh, 0);
    OnlyLink(b, begin, sh.chains[0], sh.frames);
  }

  lemma OnlyLink(b: seq<byte>, begin: int, c: seq<nat>, fs: seq<nat>)
    requires 0 < begin < TWO32
    requires ChainLaid(b, begin, c, fs) && c == [FileDataOffset]
    ensures FileDataOffset + DataHeaderLen <= |b|
    ensures TsLo(b, FileDataOffset) == begin && TsHi(b, FileDataOffset) == 0
  {
    assert LinkAt(b, begin, c, fs, 0);
    LowStamp(begin);
  }

  /** A baseline below 2^32 is its own low word and has high word 0. */
  lemma LowStamp(begin: int)
    requires 0 <= begin < TWO32
    ensures begin % TWO32 == begin && (begin % TWO64) / TWO32 == 0
  {
  }

  /** The query of end after that first write: the slot it reads is not
      empty, though nothing was written for end (the second belongs to the
      next day's file), so the walk starts at file offset begin. */
  lemma AsWrittenEndQueryReadsFrame(begin: int, p: seq<byte>)
    requires 0 < begin < TWO32 && FileDataOffset + DataHeaderLen + |p| < TWO32
    ensures SlotAt(FirstWrite(begin, p), begin, begin + TimelineLengthOfDay) == TimelineMateInfo(begin, 0)
  {
    FirstWriteFacts(begin, p);
    EndSlotReadsFirstFrame(FirstWrite(begin, p), begin);
  }

  /** A second write, as written, for the second end: its slot store
      overwrites the high timestamp word of the first frame with the offset
      of the new frame, and the file has no well-formed shape any more (the
      chain of the baseline second now starts at a frame with a wrong stamp). */
  lemma AsWrittenEndWriteCorrupts(begin: int, p: seq<byte>, q: seq<byte>)
    requires 0 < begin < TWO32 && FileDataOffset + 2 * DataHeaderLen + |p| + |q| < TWO32
    ensures var b1 := FirstWrite(begin, p);
            var b2 := WriteImage(b1, begin, begin + TimelineLengthOfDay, [q]);
            && |b1| == FileDataOffset + DataHeaderLen + |p|
            && |b2| == |b1| + DataHeaderLen + |q|
            && TsHi(b1, FileDataOffset) == 0
            && TsHi(b2, FileDataOffset) == |b1|
            && forall sh :: !WellFormed(b2, begin, sh)
  {
    var b1 := FirstWrite(begin, p);
    FirstWriteFacts(begin, p);
    EndWriteOverwritesStamp(b1, begin, q);
    var b2 := WriteImage(b1, begin, begin + TimelineLengthOfDay, [q]);
    LowStamp(begin);
    forall sh ensures !WellFormed(b2, begin, sh) {
      StampedFirstFrame(b2, begin, sh);
    }
  }

  /** The byte effect of a write at end on a file whose first frame is
      stamped with the baseline and whose baseline slot names that frame. */
  lemma EndWriteOverwritesStamp(b1: seq<byte>, begin: int, q: seq<byte>)
    requires 0 < begin < TWO32 && FileDataOffset + DataHeaderLen <= |b1|
    requires |b1| + DataHeaderLen + |q| < TWO32
    requires TsLo(b1, FileDataOffset) == begin && TsHi(b1, FileDataOffset) == 0
    requires SlotAt(b1, begin, begin) == TimelineMateInfo(FileDataOffset, FileDataOffset)
    ensures var b2 := WriteImage(b1, begin, begin + TimelineLengthOfDay, [q]);
            && |b2| == |b1| + DataHeaderLen + |q|
            && TsHi(b2, FileDataOffset) == |b1|
            && SlotAt(b2, begin, begin) == TimelineMateInfo(FileDataOffset, FileDataOffset)
  {
    var E := begin + TimelineLengthOfDay;
    EndSlotReadsFirstFrame(b1, begin);
    var x := Batch(|b1|, E, [q], true);
    BatchLength(|b1|, E, [q], true);
    var sb := Le32(begin) + Le32(|b1|);
    EndImage(b1, begin, q, x, sb);
    StoreAtEnd(b1, x, sb, WriteImage(b1, begin, E, [q]), begin);
    assert sb == Le32(begin) + Le32(|b1|) + [];
    U32At(Le32(begin), |b1|, []);
  }

  /** A write at end when the "slot" of end reads (begin, 0): no tail to
      link, the batch appended, and the slot bytes (begin, old end of file)
      stored at 691216. */
  lemma EndImage(b1: seq<byte>, begin: int, q: seq<byte>, x: seq<byte>, sb: seq<byte>)
    requires 0 < begin < TWO32 && |b1| < TWO32
    requires SlotAt(b1, begin, begin + TimelineLengthOfDay) == TimelineMateInfo(begin, 0)
    requires x == Batch(|b1|, begin + TimelineLengthOfDay, [q], true) && sb == Le32(begin) + Le32(|b1|)
    ensures WriteImage(b1, begin, begin + TimelineLengthOfDay, [q]) == Patch(b1 + x, FileDataOffset, sb)
  {
    var E := begin + TimelineLengthOfDay;
    var m := SlotAt(b1, begin, E);
    var ns := NewSlot(m, |b1|, [q]);
    NewSlotOfOne(m, |b1|, q);
    assert LinkTail(b1, m.last, |b1|) == b1;
    assert SlotOffset(begin, E) == FileDataOffset;
    assert SlotBytes(ns) == sb;
  }

  /** A one-frame batch on a chain that has a first frame: first is kept,
      last is the old end of file. */
  lemma NewSlotOfOne(m: TimelineMateInfo, eof: nat, q: seq<byte>)
    requires m.first != 0 && eof < TWO32
    ensures NewSlot(m, eof, [q]) == TimelineMateInfo(m.first, eof)
  {
    assert [q][..0] == [];
  }

  /** Eight bytes sb stored at 691216 after appending x: the high word of
      the first frame reads sb's second word, the baseline slot is kept. */
  lemma StoreAtEnd(b1: seq<byte>, x: seq<byte>, sb: seq<byte>, b2: seq<byte>, begin: int)
    requires FileDataOffset + DataHeaderLen <= |b1| && |sb| == 8
    requires b2 == Patch(b1 + x, FileDataOffset, sb)
    ensures |b2| == |b1| + |x|
    ensures TsHi(b2, FileDataOffset) == U32(sb, 4)
    ensures SlotAt(b2, begin, begin) == SlotAt(b1, begin, begin)
  {
    assert b2[FileDataOffset + 4..FileDataOffset + 8] == sb[4..8] by {
      forall k | 0 <= k < 4 ensures b2[FileDataOffset + 4..FileDataOffset + 8][k] == sb[4..8][k] {
        assert b2[FileDataOffset + 4 + k] == sb[4 + k];
      }
    }
    U32OfAgreeing(b2, sb, FileDataOffset + 4, 4);
    var so := SlotOffset(begin, begin);
    assert AgreeOn(b1, b2, so, so + 8) by {
      forall k | so <= k < so + 8 ensures b1[k] == b2[k] {
        assert b2[k] == (b1 + x)[k];
      }
    }
    AgreeSlice(b1, b2, so, so + 8);
  }

  /** A file whose baseline slot names the first data frame is well formed
      only if that frame carries the baseline's high timestamp word. */
  lemma StampedFirstFrame(w: seq<byte>, begin: int, sh: Shape)
    requires FileDataOffset + DataHeaderLen <= |w|
    requires SlotAt(w, begin, begin) == TimelineMateInfo(FileDataOffset, FileDataOffset)
    ensures WellFormed(w, begin, sh) ==> TsHi(w, FileDataOffset) == (begin % TWO64) / TWO32
  {
    if WellFormed(w, begin, sh) {
      assert SecondOk(w, begin, sh, 0);
      assert LinkAt(w, begin + 0, sh.chains[0], sh.frames, 0);
    }
  }

  /** queryByTimeline as written for the second end, which ReadMateInfo's
      inclusive bound lets through: the walk starts wherever the 8 bytes at
      691216 point (a closed file reads them as 0). */
  function EndQuery<R>(b: seq<byte>, begin: int, closed: bool, decode: seq<byte> -> Option<R>): Result<seq<R>>
    requires ChainOk(b, begin + TimelineLengthOfDay, SlotAt(b, begin, begin + TimelineLengthOfDay).first)
  {
    if closed then Ok([])
    else Walk(b, begin + TimelineLengthOfDay, SlotAt(b, begin, begin + TimelineLengthOfDay).first, decode)
  }

  /** QueryBetween as written: the hit test end > TimelineBegin, then the
      loop over [max(lo, begin), min(hi, end)], the second end included. The
      seconds of the day are Between's; end comes last, from EndQuery, and
      its result is entered like any other (an empty list after a short
      read). The walk of end must end for the loop to go on past it. */
  function WindowAsWritten<R>(b: seq<byte>, begin: int, closed: bool, lo: int, hi: int,
                              decode: seq<byte> -> Option<R>, m: map<int, seq<R>>): (map<int, seq<R>>, Result<()>)
    requires Walkable(b, begin)
    requires hi >= begin + TimelineLengthOfDay ==>
               ChainOk(b, begin + TimelineLengthOfDay, SlotAt(b, begin, begin + TimelineLengthOfDay).first)
  {
    var dayEnd := begin + TimelineLengthOfDay;
    if !(hi > begin && lo < dayEnd) then (m, Err(BeyondScope))
    else
      var w := Between(b, begin, closed, Max(lo, begin), Min(hi, dayEnd - 1), decode, m);
      if w.1.Err? || hi < dayEnd then w
      else
        var q := EndQuery(b, begin, closed, decode);
        if q.Err? && q.error != ReadEOF then (w.0, Err(q.error))
        else (w.0[dayEnd := if q.Ok? then q.value else []], Ok(()))
  }

  /** As written, a range reaching past the day also enters the next day's
      midnight. After the first write of a day whose baseline lies past the
      end of its file (as every Unix baseline since 1970-01-09 does), the
      walk of end starts at file offset begin, its header read is short, and
      an empty list is entered under end: the corrected Window gives the same
      map without that key. */
  lemma AsWrittenEndEntry<R>(begin: int, p: seq<byte>, lo: int, hi: int,
                             decode: seq<byte> -> Option<R>, m: map<int, seq<R>>)
    requires 0 < begin < TWO32 && FileDataOffset + DataHeaderLen + |p| <= begin
    requires lo < begin + TimelineLengthOfDay <= hi
    ensures Walkable(FirstWrite(begin, p), begin)
    ensures ChainOk(FirstWrite(begin, p), begin + TimelineLengthOfDay,
                    SlotAt(FirstWrite(begin, p), begin, begin + TimelineLengthOfDay).first)
    ensures Window(FirstWrite(begin, p), begin, false, lo, hi, decode, m).1 == Ok(())
    ensures WindowAsWritten(FirstWrite(begin, p), begin, false, lo, hi, decode, m)
         == (Window(FirstWrite(begin, p), begin, false, lo, hi, decode, m).0[begin + TimelineLengthOfDay := []], Ok(()))
    ensures begin + TimelineLengthOfDay !in m ==>
              begin + TimelineLengthOfDay !in Window(FirstWrite(begin, p), begin, false, lo, hi, decode, m).0
  {
    FirstWriteFacts(begin, p);
    AsWrittenEndQueryReadsFrame(begin, p);
    EndEntryOf(FirstWrite(begin, p), begin, WriteShape(EmptyShape(begin), begin, begin, FileDataOffset, [p]),
               lo, hi, decode, m);
  }

  /** On a well-formed file whose "slot" of end names an offset with no
      frame header in the file, the loop as written enters [] under end
      after the seconds of the day, which Window enters alike. */
  lemma EndEntryOf<R>(b: seq<byte>, begin: int, sh: Shape, lo: int, hi: int,
                      decode: seq<byte> -> Option<R>, m: map<int, seq<R>>)
    requires WellFormed(b, begin, sh) && lo < begin + TimelineLengthOfDay <= hi
    requires SlotAt(b, begin, begin + TimelineLengthOfDay).first != 0
    requires |b| < SlotAt(b, begin, begin + TimelineLengthOfDay).first + DataHeaderLen
    ensures Walkable(b, begin)
    ensures ChainOk(b, begin + TimelineLengthOfDay, SlotAt(b, begin, begin + TimelineLengthOfDay).first)
    ensures Window(b, begin, false, lo, hi, decode, m).1 == Ok(())
    ensures WindowAsWritten(b, begin, false, lo, hi, decode, m)
         == (Window(b, begin, false, lo, hi, decode, m).0[begin + TimelineLengthOfDay := []], Ok(()))
    ensures begin + TimelineLengthOfDay !in m ==> begin + TimelineLengthOfDay !in Window(b, begin, false, lo, hi, decode, m).0
  {
    var dayEnd := begin + TimelineLengthOfDay;
    WindowOfWellFormed(b, begin, sh, false, lo, hi, decode, m);
    assert EndQuery(b, begin, false, decode) == Err(ReadEOF);
    var e := Entries(b, begin, sh, false, lo, hi, decode);
    assert dayEnd !in e;
  }

  /** A range [lo, begin] is refused as written, while the corrected Window
      enters the records of the baseline second. Through the engine's day
      walk, which visits every baseline up to and including hi, any range
      query ending at midnight of a day with a file fails as a whole. */
  lemma AsWrittenMidnightRefused<R>(b: seq<byte>, begin: int, sh: Shape, lo: int,
                                    decode: seq<byte> -> Option<R>, m: map<int, seq<R>>)
    requires WellFormed(b, begin, sh) && lo <= begin
    ensures Walkable(b, begin)
    ensures WindowAsWritten(b, begin, false, lo, begin, decode, m) == (m, Err(BeyondScope))
    ensures Window(b, begin, false, lo, begin, decode, m).1 == Ok(())
    ensures Window(b, begin, false, lo, begin, decode, m).0 == m[begin := Stored(b, begin, sh, begin, decode)]
  {
    WindowOfWellFormed(b, begin, sh, false, lo, begin, decode, m);
    EntriesOfBaseline(b, begin, sh, lo, decode);
  }

  lemma EntriesOfBaseline<R>(b: seq<byte>, begin: int, sh: Shape, lo: int, decode: seq<byte> -> Option<R>)
    requires |sh.chains| == TimelineLengthOfDay && lo <= begin
    ensures Entries(b, begin, sh, false, lo, begin, decode) == map[begin := Stored(b, begin, sh, begin, decode)]
  {
    var e := Entries(b, begin, sh, false, lo, begin, decode);
    assert begin in e;
    assert forall x :: x in e ==> x == begin;
  }

  // ---------------------------------------------------- a looping chain

  /** A frame of second t whose next link names the frame itself: after any
      number of passes the loop as written is still at that frame. */
  lemma {:induction false} SelfLinkLoops(b: seq<byte>, t: int, o: nat, n: nat)
    requires o != 0 && o + DataHeaderLen <= |b| && TsLo(b, o) == t && NextOf(b, o) == o
    ensures LoopAfter(b, t, o, n) == Some(o)
    decreases n
  {
    if n > 0 {
      SelfLinkLoops(b, t, o, n - 1);
    }
  }

  /** The file of the first write of a day, with the first frame's next link
      turned back at the frame itself: a file the engine never writes, but
      which open accepts as it is. */
  function SelfLinked(begin: int, p: seq<byte>): seq<byte> {
    Patch(FirstWrite(begin, p), FileDataOffset + NextDataOffset, Le32(FileDataOffset))
  }

  /** The query of the baseline second of SelfLinked never returns as
      written: the slot still names the first frame, the frame still carries
      the baseline, and the loop stays at it after any number of passes, so
      it leaves within no number of passes (and ChainOk fails). The
      corrected walk stops after the frame, with its record. */
  lemma AsWrittenCorruptChainLoops<R>(begin: int, p: seq<byte>, decode: seq<byte> -> Option<R>)
    requires 0 < begin < TWO32 && FileDataOffset + DataHeaderLen + |p| < TWO32
    ensures |SelfLinked(begin, p)| == FileDataOffset + DataHeaderLen + |p|
    ensures SlotAt(SelfLinked(begin, p), begin, begin).first == FileDataOffset
    ensures forall n: nat :: LoopAfter(SelfLinked(begin, p), begin, FileDataOffset, n) == Some(FileDataOffset)
    ensures forall n: nat :: LoopRun(SelfLinked(begin, p), begin, FileDataOffset, n, decode) == None
    ensures !ChainOk(SelfLinked(begin, p), begin, FileDataOffset)
    ensures GuardedWalk(SelfLinked(begin, p), begin, FileDataOffset, {}, decode)
         == Ok(Keep(decode, PayloadAt(SelfLinked(begin, p), FileDataOffset)))
  {
    FirstWriteFacts(begin, p);
    TurnBack(FirstWrite(begin, p), begin);
    var c := SelfLinked(begin, p);
    forall n: nat ensures LoopAfter(c, begin, FileDataOffset, n) == Some(FileDataOffset) {
      SelfLinkLoops(c, begin, FileDataOffset, n);
    }
    forall n: nat ensures LoopRun(c, begin, FileDataOffset, n, decode) == None {
      SelfLinkLoops(c, begin, FileDataOffset, 1);
      CycleNeverLeaves(c, begin, FileDataOffset, 1, n, decode);
    }
  }

  /** Turning the first frame's next link back at the frame keeps its
      stamp, the file's length and the baseline slot. */
  lemma TurnBack(b: seq<byte>, begin: int)
    requires FileDataOffset + DataHeaderLen <= |b|
    ensures var c := Patch(b, FileDataOffset + NextDataOffset, Le32(FileDataOffset));
            && |c| == |b| && TsLo(c, FileDataOffset) == TsLo(b, FileDataOffset)
            && NextOf(c, FileDataOffset) == FileDataOffset
            && SlotAt(c, begin, begin) == SlotAt(b, begin, begin)
  {
    var o := FileDataOffset;
    var c := Patch(b, o + NextDataOffset, Le32(o));
    assert AgreeOn(c, b, o, o + 4);
    AgreeU32(c, b, o);
    assert c[o + NextDataOffset..o + NextDataOffset + 4] == Le32(o)[0..4];
    U32OfAgreeing(c, Le32(o), o + NextDataOffset, 0);
    U32OfLe32(o);
    assert AgreeOn(b, c, FileHeaderOffset, FileHeaderOffset + 8);
    AgreeSlice(b, c, FileHeaderOffset, FileHeaderOffset + 8);
  }
}
