/** What Write(t, batch) of storefile.go does to a well-formed day file:
    the file stays well formed, the chain of t grows by exactly the batch,
    and every other second keeps its chain, its slot and its records. */
module WriteProofs {
  import opened Bytes
  import opened Layout
  import opened DayImage
  import opened DayProofs

  /** The tail frame of t's chain, whose next link a write patches (0 when
      the chain is empty). */
  function TailOf(b: seq<byte>, begin: int, t: int): nat
    requires InDay(begin, t)
  {
    SlotAt(b, begin, t).last
  }

  /** w agrees with b everywhere below |b| except on the slot at so and the
      next link of the frame at tail. */
  ghost predicate Kept(b: seq<byte>, w: seq<byte>, so: nat, tail: nat) {
    && |b| <= |w|
    && forall k :: 0 <= k < |b| ==> KeptAt(b, w, so, tail, k)
  }

  ghost predicate KeptAt(b: seq<byte>, w: seq<byte>, so: nat, tail: nat, k: int) {
    && 0 <= k < |b| && k < |w|
    && !(so <= k < so + MateInfoSize)
    && !(tail != 0 && tail + NextDataOffset <= k < tail + NextDataOffset + 4)
    ==> w[k] == b[k]
  }

  /** Kept gives agreement on any range clear of the two patched places. */
  lemma KeptRange(b: seq<byte>, w: seq<byte>, so: nat, tail: nat, lo: int, hi: int)
    requires Kept(b, w, so, tail) && 0 <= lo <= hi <= |b|
    requires hi <= so || so + MateInfoSize <= lo
    requires tail == 0 || hi <= tail + NextDataOffset || tail + NextDataOffset + 4 <= lo
    ensures AgreeOn(b, w, lo, hi) && b[lo..hi] == w[lo..hi]
  {
    forall k | lo <= k < hi ensures w[k] == b[k] {
      assert KeptAt(b, w, so, tail, k);
    }
    AgreeSlice(b, w, lo, hi);
  }

  /** Patching four bytes v of the tail frame, appending x and storing
      eight slot bytes sb, on arbitrary byte strings. */
  lemma PatchAppendStore(b: seq<byte>, tail: nat, v: seq<byte>, x: seq<byte>, so: nat, sb: seq<byte>,
                         b1: seq<byte>, w: seq<byte>)
    requires |v| == 4 && |sb| == 8 && so + MateInfoSize <= FileDataOffset <= |b|
    requires tail != 0 ==> FileDataOffset <= tail && tail + DataHeaderLen <= |b|
    requires b1 == if tail != 0 then Patch(b, tail + NextDataOffset, v) else b
    requires w == Patch(b1 + x, so, sb)
    ensures StepsDone(b, w, so, tail, x, v, sb)
  {
    AppendThenPatch(b1, x, so, sb);
    if tail != 0 {
      PatchNext(b, tail, v);
      assert AgreeOn(w, b1, tail + NextDataOffset, tail + NextDataOffset + 4);
      AgreeSlice(w, b1, tail + NextDataOffset, tail + NextDataOffset + 4);
    }
    forall k | 0 <= k < |b| ensures KeptAt(b, w, so, tail, k) {
      if !(so <= k < so + MateInfoSize) && !(tail != 0 && tail + NextDataOffset <= k < tail + NextDataOffset + 4) {
        assert w[k] == b1[k];
      }
    }
  }

  /** The byte-level effect of WriteImage: the file grows by the batch,
      which sits at the old end; the old tail points at the old end; only the
      slot of t and that link change below the old end; the slot of t is
      the new slot. */
  lemma WriteImageParts(b: seq<byte>, begin: int, t: int, ps: seq<seq<byte>>)
    requires InDay(begin, t) && ps != [] && FileDataOffset <= |b|
    requires TailOf(b, begin, t) != 0 ==>
               FileDataOffset <= TailOf(b, begin, t) && TailOf(b, begin, t) + DataHeaderLen <= |b|
    ensures Written(b, WriteImage(b, begin, t, ps), begin, t, ps)
  {
    var L := TailOf(b, begin, t);
    var m' := NewSlot(SlotAt(b, begin, t), |b|, ps);
    WriteImageSplit(b, begin, t, ps);
    LinkTailIs(b, L, |b|);
    PatchAppendStore(b, L, Le32(|b| % TWO32), Batch(|b|, t, ps, true), SlotOffset(begin, t), SlotBytes(m'),
                     LinkTail(b, L, |b|), WriteImage(b, begin, t, ps));
    SlotReadBack(WriteImage(b, begin, t, ps), begin, t, m');
  }

  /** WriteImage is the three steps in order: link the tail, append the
      batch, store the slot. */
  lemma WriteImageSplit(b: seq<byte>, begin: int, t: int, ps: seq<seq<byte>>)
    requires InDay(begin, t) && ps != []
    ensures WriteImage(b, begin, t, ps)
            == Patch(LinkTail(b, TailOf(b, begin, t), |b|) + Batch(|b|, t, ps, true),
                     SlotOffset(begin, t), SlotBytes(NewSlot(SlotAt(b, begin, t), |b|, ps)))
  {
  }

  lemma LinkTailIs(b: seq<byte>, tail: nat, eof: nat)
    ensures LinkTail(b, tail, eof) == if tail != 0 then Patch(b, tail + NextDataOffset, Le32(eof % TWO32)) else b
  {
  }

  /** Patching the next link of a frame inside the file. */
  lemma PatchNext(b: seq<byte>, o: nat, v: seq<byte>)
    requires o + DataHeaderLen <= |b| && |v| == 4
    ensures |Patch(b, o + NextDataOffset, v)| == |b|
    ensures Patch(b, o + NextDataOffset, v)[o + NextDataOffset..o + NextDataOffset + 4] == v
  {
    var r := Patch(b, o + NextDataOffset, v);
    assert forall k :: 0 <= k < 4 ==> r[o + NextDataOffset..o + NextDataOffset + 4][k] == v[k];
  }

  /** Appending a batch, then overwriting eight bytes below the old end. */
  lemma AppendThenPatch(b1: seq<byte>, batch: seq<byte>, so: nat, sb: seq<byte>)
    requires so + 8 <= |b1| && |sb| == 8
    ensures |Patch(b1 + batch, so, sb)| == |b1| + |batch|
    ensures Patch(b1 + batch, so, sb)[|b1|..] == batch
    ensures Patch(b1 + batch, so, sb)[so..so + 8] == sb
    ensures forall k :: 0 <= k < |b1| && !(so <= k < so + 8) ==> Patch(b1 + batch, so, sb)[k] == b1[k]
  {
    var w := Patch(b1 + batch, so, sb);
    assert forall k :: 0 <= k < |batch| ==> w[|b1|..][k] == batch[k];
    assert forall k :: 0 <= k < 8 ==> w[so..so + 8][k] == sb[k];
  }

  /** The slot written as SlotBytes reads back as the same slot. */
  lemma SlotReadBack(w: seq<byte>, begin: int, t: int, m: TimelineMateInfo)
    requires InDay(begin, t) && SlotOffset(begin, t) + 8 <= |w|
    requires w[SlotOffset(begin, t)..SlotOffset(begin, t) + 8] == SlotBytes(m)
    ensures SlotAt(w, begin, t) == m
  {
    var sb := SlotBytes(m);
    assert ReadZ(w, SlotOffset(begin, t), 8) == sb;
    assert sb == [] + Le32(m.first) + Le32(m.last);
    U32At([], m.first, Le32(m.last));
    assert sb == Le32(m.first) + Le32(m.last) + [];
    U32At(Le32(m.first), m.last, []);
  }

  /** A frame lying wholly in the unchanged part keeps every field. */
  lemma FrameKept(b: seq<byte>, w: seq<byte>, so: nat, tail: nat, o: nat)
    requires Kept(b, w, so, tail)
    requires o + DataHeaderLen <= |b| && FrameEnd(b, o) <= |b| && so + MateInfoSize <= o
    requires tail == 0 || FrameEnd(b, o) <= tail + NextDataOffset || tail + NextDataOffset + 4 <= o
    ensures o + DataHeaderLen <= |w|
    ensures TsLo(w, o) == TsLo(b, o) && TsHi(w, o) == TsHi(b, o)
    ensures NextOf(w, o) == NextOf(b, o) && LenOf(w, o) == LenOf(b, o)
    ensures FrameEnd(w, o) == FrameEnd(b, o) && PayloadAt(w, o) == PayloadAt(b, o)
  {
    KeptRange(b, w, so, tail, o, FrameEnd(b, o));
    AgreeU32(b, w, o);
    AgreeU32(b, w, o + 4);
    AgreeU32(b, w, o + 8);
    AgreeU32(b, w, o + 12);
    AgreeSlice(b, w, o + DataHeaderLen, FrameEnd(b, o));
  }

  /** The tail frame keeps every field but its next link, which now holds
      the old end of file. */
  lemma TailKept(b: seq<byte>, w: seq<byte>, so: nat, tail: nat)
    requires Kept(b, w, so, tail) && tail != 0 && so + MateInfoSize <= tail
    requires tail + DataHeaderLen <= |b| && FrameEnd(b, tail) <= |b|
    requires w[tail + NextDataOffset..tail + NextDataOffset + 4] == Le32(|b| % TWO32)
    ensures tail + DataHeaderLen <= |w|
    ensures TsLo(w, tail) == TsLo(b, tail) && TsHi(w, tail) == TsHi(b, tail)
    ensures NextOf(w, tail) == |b| % TWO32 && LenOf(w, tail) == LenOf(b, tail)
    ensures FrameEnd(w, tail) == FrameEnd(b, tail) && PayloadAt(w, tail) == PayloadAt(b, tail)
  {
    KeptRange(b, w, so, tail, tail, tail + 8);
    KeptRange(b, w, so, tail, tail + 12, FrameEnd(b, tail));
    AgreeU32(b, w, tail);
    AgreeU32(b, w, tail + 4);
    AgreeU32(b, w, tail + 12);
    U32OfAgreeing(w, Le32(|b| % TWO32), tail + 8, 0);
    U32OfLe32(|b| % TWO32);
    AgreeSlice(b, w, tail + DataHeaderLen, FrameEnd(b, tail));
  }

  /** A slot other than the rewritten one reads the same. */
  lemma SlotKept(b: seq<byte>, w: seq<byte>, begin: int, t: int, s: int, tail: nat)
    requires InDay(begin, t) && InDay(begin, s) && s != t && FileDataOffset <= |b|
    requires Kept(b, w, SlotOffset(begin, t), tail) && (tail == 0 || FileDataOffset <= tail)
    ensures SlotAt(w, begin, s) == SlotAt(b, begin, s)
  {
    var os := SlotOffset(begin, s);
    KeptRange(b, w, SlotOffset(begin, t), tail, os, os + 8);
  }

  /** Where frame i of an appended final batch lies and what it points at. */
  lemma NewFrameBytes(b: seq<byte>, w: seq<byte>, t: int, ps: seq<seq<byte>>, i: nat)
    requires i < |ps| && |w| == |b| + BatchSize(ps) && |w| < TWO32
    requires w[|b|..] == Batch(|b|, t, ps, true)
    ensures |ps[i]| < TWO32 && |b| + BatchSize(ps[..i]) + DataHeaderLen + |ps[i]| <= |w|
    ensures w[|b| + BatchSize(ps[..i])..|b| + BatchSize(ps[..i]) + DataHeaderLen + |ps[i]|]
         == FrameBytes(t, BatchNext(|b|, ps, true, i), ps[i])
  {
    var lo := BatchSize(ps[..i]);
    var hi := lo + DataHeaderLen + |ps[i]|;
    var x := Batch(|b|, t, ps, true);
    BatchFrame(|b|, t, ps, true, i);
    SliceOfSuffix(w, |b|, x, lo, hi, FrameBytes(t, BatchNext(|b|, ps, true, i), ps[i]));
  }

  /** In a final batch that ends below 2^32 the uint32 casts of the
      next links change nothing. */
  lemma FinalNext(pos: nat, ps: seq<seq<byte>>, i: nat)
    requires i < |ps| && pos + BatchSize(ps) < TWO32
    ensures i + 1 < |ps| ==> pos + BatchSize(ps[..i + 1]) < TWO32
    ensures BatchNext(pos, ps, true, i) == if i + 1 < |ps| then pos + BatchSize(ps[..i + 1]) else 0
  {
    if i + 1 < |ps| {
      InnerNext(pos, ps, i);
    } else {
      assert BatchNext(pos, ps, true, i) == 0;
    }
  }

  /** A frame that is not the last points at the end of itself. */
  lemma InnerNext(pos: nat, ps: seq<seq<byte>>, i: nat)
    requires i + 1 < |ps| && pos + BatchSize(ps) < TWO32
    ensures pos + BatchSize(ps[..i + 1]) < TWO32
    ensures BatchNext(pos, ps, true, i) == pos + BatchSize(ps[..i + 1])
  {
    PrefixWithin(ps, i + 1);
    BatchNextOf(pos, ps, i);
    NoWrap(pos, BatchSize(ps[..i + 1]), BatchSize(ps), BatchNext(pos, ps, true, i));
  }

  lemma BatchNextOf(pos: nat, ps: seq<seq<byte>>, i: nat)
    requires i + 1 < |ps|
    ensures BatchNext(pos, ps, true, i) == (pos + BatchSize(ps[..i + 1])) % TWO32
  {
  }

  lemma NoWrap(pos: nat, m: nat, total: nat, n: int)
    requires m <= total && pos + total < TWO32 && n == (pos + m) % TWO32
    ensures pos + m < TWO32 && n == pos + m
  {
    SmallMod(pos + m);
  }

  lemma PrefixWithin(ps: seq<seq<byte>>, i: nat)
    requires i <= |ps|
    ensures BatchSize(ps[..i]) <= BatchSize(ps)
  {
    BatchSizePrefix(ps, i, |ps|);
    assert ps[..|ps|] == ps;
  }

  lemma SliceOfSuffix(w: seq<byte>, n: nat, x: seq<byte>, lo: nat, hi: nat, f: seq<byte>)
    requires n <= |w| && w[n..] == x && lo <= hi <= |x| && x[lo..hi] == f
    ensures n + hi <= |w| && w[n + lo..n + hi] == f
  {
    assert w[n..][lo..hi] == f;
  }

  /** Distinct seconds less than 2^32 apart have distinct low words. */
  lemma ModDistinct(s: int, t: int)
    requires s != t && -TWO32 < s - t < TWO32
    ensures s % TWO32 != t % TWO32
  {
  }

  // ------------------------------------------------------------ the new shape

  /** Everything WriteImage does, as one fact the structural lemmas start from. */
  ghost predicate Written(b: seq<byte>, w: seq<byte>, begin: int, t: int, ps: seq<seq<byte>>)
    requires InDay(begin, t) && ps != []
  {
    && StepsDone(b, w, SlotOffset(begin, t), TailOf(b, begin, t), Batch(|b|, t, ps, true),
                 Le32(|b| % TWO32), SlotBytes(NewSlot(SlotAt(b, begin, t), |b|, ps)))
    && SlotAt(w, begin, t) == NewSlot(SlotAt(b, begin, t), |b|, ps)
  }

  /** w is b with x appended, v at the next link of tail and sb at so. */
  ghost predicate StepsDone(b: seq<byte>, w: seq<byte>, so: nat, tail: nat, x: seq<byte>, v: seq<byte>, sb: seq<byte>) {
    && |w| == |b| + |x|
    && w[|b|..] == x
    && (tail != 0 ==> tail + NextDataOffset + 4 <= |w| && w[tail + NextDataOffset..tail + NextDataOffset + 4] == v)
    && so + 8 <= |w| && w[so..so + 8] == sb
    && Kept(b, w, so, tail)
  }

  /** The shape after the write: the batch's frames are appended to the
      frame list and to the chain of t. */
  function WriteShape(sh: Shape, begin: int, t: int, eof: nat, ps: seq<seq<byte>>): Shape
    requires InDay(begin, t) && |sh.chains| == TimelineLengthOfDay
  {
    Shape(sh.frames + BatchOffsets(eof, ps),
          sh.chains[t - begin := sh.chains[t - begin] + BatchOffsets(eof, ps)])
  }

  /** In a well-formed file the tail of t is the last frame of t's chain, or
      0 exactly when the chain is empty. */
  lemma TailFacts(b: seq<byte>, begin: int, sh: Shape, t: int)
    requires WellFormed(b, begin, sh) && InDay(begin, t)
    ensures var c := sh.chains[t - begin];
            (TailOf(b, begin, t) == 0) == (c == [])
            && (c == [] ==> SlotAt(b, begin, t) == EmptySlot)
            && (c != [] ==> TailOf(b, begin, t) == c[|c| - 1] && SlotAt(b, begin, t).first == c[0])
    ensures TailOf(b, begin, t) != 0 ==>
              && TailOf(b, begin, t) in sh.frames
              && FileDataOffset <= TailOf(b, begin, t)
              && TailOf(b, begin, t) + DataHeaderLen <= |b|
              && FrameEnd(b, TailOf(b, begin, t)) <= |b|
              && TsLo(b, TailOf(b, begin, t)) == t % TWO32
  {
    var c := sh.chains[t - begin];
    SecondOf(b, begin, sh, t);
    FramesInside(b, sh.frames);
    if c != [] {
      assert LinkAt(b, t, c, sh.frames, |c| - 1);
      assert LinkAt(b, t, c, sh.frames, 0);
      var j :| 0 <= j < |sh.frames| && sh.frames[j] == c[|c| - 1];
      var j0 :| 0 <= j0 < |sh.frames| && sh.frames[j0] == c[0];
    }
  }

  /** Frame o keeps its timestamp, length and payload in w; if it is the
      tail it now points at eof, otherwise where it did. */
  ghost predicate FrameKeptAt(b: seq<byte>, w: seq<byte>, o: nat, tail: nat, eof: nat) {
    && o + DataHeaderLen <= |b| && o + DataHeaderLen <= |w|
    && TsLo(w, o) == TsLo(b, o) && TsHi(w, o) == TsHi(b, o)
    && FrameEnd(w, o) == FrameEnd(b, o) && PayloadAt(w, o) == PayloadAt(b, o)
    && NextOf(w, o) == (if o == tail then eof else NextOf(b, o))
  }

  ghost predicate OldKept(b: seq<byte>, w: seq<byte>, fs: seq<nat>, tail: nat, eof: nat) {
    forall o :: o in fs ==> FrameKeptAt(b, w, o, tail, eof)
  }

  /** Frame k of offs holds payload k of ps stamped t and points at frame
      k+1, or at 0 when it is the last. */
  ghost predicate NewFrameAt(w: seq<byte>, t: int, offs: seq<nat>, ps: seq<seq<byte>>, k: int)
    requires 0 <= k < |offs| && |offs| == |ps|
  {
    && offs[k] + DataHeaderLen + |ps[k]| <= |w|
    && TsLo(w, offs[k]) == t % TWO32 && TsHi(w, offs[k]) == (t % TWO64) / TWO32
    && NextOf(w, offs[k]) == (if k + 1 < |offs| then offs[k + 1] else 0)
    && FrameEnd(w, offs[k]) == offs[k] + DataHeaderLen + |ps[k]|
    && PayloadAt(w, offs[k]) == ps[k]
  }

  ghost predicate NewLaid(w: seq<byte>, t: int, offs: seq<nat>, ps: seq<seq<byte>>) {
    && |offs| == |ps|
    && (forall k :: 0 <= k < |offs| ==> NewFrameAt(w, t, offs, ps, k))
    && (forall i, j :: 0 <= i < j < |offs| ==> Apart(w, offs, i, j))
  }

  /** Every old frame keeps its timestamp, length and payload; only the old
      tail of t now points at the old end of file. */
  lemma OldFrames(b: seq<byte>, w: seq<byte>, begin: int, sh: Shape, t: int)
    requires WellFormed(b, begin, sh) && InDay(begin, t)
    requires Kept(b, w, SlotOffset(begin, t), TailOf(b, begin, t))
    requires TailOf(b, begin, t) != 0 ==>
               TailOf(b, begin, t) + NextDataOffset + 4 <= |w|
               && w[TailOf(b, begin, t) + NextDataOffset..TailOf(b, begin, t) + NextDataOffset + 4]
                  == Le32(|b| % TWO32)
    ensures OldKept(b, w, sh.frames, TailOf(b, begin, t), |b|)
  {
    var fs := sh.frames;
    var L := TailOf(b, begin, t);
    var so := SlotOffset(begin, t);
    TailFacts(b, begin, sh, t);
    forall o | o in fs
      ensures FrameKeptAt(b, w, o, L, |b|)
    {
      var i :| 0 <= i < |fs| && fs[i] == o;
      assert FrameAt(b, fs, i);
      if o == L {
        TailKept(b, w, so, L);
        SmallMod(|b|);
      } else {
        if L != 0 {
          var j :| 0 <= j < |fs| && fs[j] == L;
          if i < j { assert Apart(b, fs, i, j); } else { assert Apart(b, fs, j, i); }
        }
        FrameKept(b, w, so, L, o);
      }
    }
  }

  lemma WrittenOf(b: seq<byte>, begin: int, sh: Shape, t: int, ps: seq<seq<byte>>)
    requires WellFormed(b, begin, sh) && InDay(begin, t) && ps != []
    ensures Written(b, WriteImage(b, begin, t, ps), begin, t, ps)
  {
    TailFacts(b, begin, sh, t);
    WriteImageParts(b, begin, t, ps);
  }

  /** The appended batch is laid out as NewLaid says, from the old end on. */
  lemma NewFrames(b: seq<byte>, w: seq<byte>, t: int, ps: seq<seq<byte>>)
    requires |w| == |b| + BatchSize(ps) && |w| < TWO32
    requires w[|b|..] == Batch(|b|, t, ps, true)
    ensures NewLaid(w, t, BatchOffsets(|b|, ps), ps)
  {
    var offs := BatchOffsets(|b|, ps);
    forall k | 0 <= k < |offs|
      ensures NewFrameAt(w, t, offs, ps, k)
    {
      assert offs[k] == |b| + BatchSize(ps[..k]);
      if k + 1 < |offs| {
        assert offs[k + 1] == |b| + BatchSize(ps[..k + 1]);
      }
      NewFrameBytes(b, w, t, ps, k);
      FinalNext(|b|, ps, k);
      ReadFrame(w, offs[k], t, BatchNext(|b|, ps, true, k), ps[k]);
    }
    NewFramesApart(w, t, offs, ps);
  }

  lemma NewFramesApart(w: seq<byte>, t: int, offs: seq<nat>, ps: seq<seq<byte>>)
    requires |offs| == |ps| && forall k :: 0 <= k < |offs| ==> NewFrameAt(w, t, offs, ps, k)
    requires exists pos: nat :: offs == BatchOffsets(pos, ps)
    ensures forall i, j :: 0 <= i < j < |offs| ==> Apart(w, offs, i, j)
  {
    var pos: nat :| offs == BatchOffsets(pos, ps);
    forall i, j | 0 <= i < j < |offs|
      ensures Apart(w, offs, i, j)
    {
      assert NewFrameAt(w, t, offs, ps, i);
      assert offs[i] == pos + BatchSize(ps[..i]) && offs[j] == pos + BatchSize(ps[..j]);
      BatchSizePrefix(ps, i, j);
    }
  }

  /** The old frames, then the new ones further on, still do not overlap. */
  lemma FramesAfter(b: seq<byte>, w: seq<byte>, fs: seq<nat>, tail: nat, t: int, offs: seq<nat>, ps: seq<seq<byte>>)
    requires FramesLaidOut(b, fs) && OldKept(b, w, fs, tail, |b|) && NewLaid(w, t, offs, ps)
    requires FileDataOffset <= |b| <= |w|
    requires forall k :: 0 <= k < |offs| ==> |b| <= offs[k]
    ensures FramesLaidOut(w, fs + offs)
  {
    var fs' := fs + offs;
    forall i | 0 <= i < |fs'|
      ensures FrameAt(w, fs', i)
    {
      if i < |fs| {
        assert fs'[i] == fs[i] && fs[i] in fs;
        assert FrameAt(b, fs, i) && FrameKeptAt(b, w, fs[i], tail, |b|);
      } else {
        assert fs'[i] == offs[i - |fs|];
        assert NewFrameAt(w, t, offs, ps, i - |fs|);
      }
    }
    forall i, j | 0 <= i < j < |fs'|
      ensures Apart(w, fs', i, j)
    {
      if j < |fs| {
        assert fs'[i] == fs[i] && fs[i] in fs && fs'[j] == fs[j];
        assert Apart(b, fs, i, j) && FrameKeptAt(b, w, fs[i], tail, |b|);
      } else if i < |fs| {
        assert fs'[i] == fs[i] && fs[i] in fs && fs'[j] == offs[j - |fs|];
        assert FrameAt(b, fs, i) && FrameKeptAt(b, w, fs[i], tail, |b|);
      } else {
        assert fs'[i] == offs[i - |fs|] && fs'[j] == offs[j - |fs|];
        assert Apart(w, offs, i - |fs|, j - |fs|);
      }
    }
  }

  /** A chain of another second keeps its frames and its records. */
  lemma OtherChain(b: seq<byte>, w: seq<byte>, s: int, c: seq<nat>, fs: seq<nat>, fs': seq<nat>,
                   tail: nat, eof: nat, t: int)
    requires ChainLaid(b, s, c, fs) && OldKept(b, w, fs, tail, eof)
    requires forall o :: o in fs ==> 0 < o && o in fs'
    requires tail == 0 || (tail + DataHeaderLen <= |b| && TsLo(b, tail) == t % TWO32)
    requires s % TWO32 != t % TWO32
    ensures ChainLaid(w, s, c, fs')
    ensures Records(w, c) == Records(b, c)
  {
    forall k | 0 <= k < |c|
      ensures LinkAt(w, s, c, fs', k) && Records(w, c)[k] == Records(b, c)[k]
    {
      assert LinkAt(b, s, c, fs, k);
      assert c[k] in fs;
      assert FrameKeptAt(b, w, c[k], tail, eof);
      assert c[k] != tail;
    }
  }

  function Tail(c: seq<nat>): nat {
    if c == [] then 0 else c[|c| - 1]
  }

  /** The chain of t followed by the batch's frames is laid out, and holds
      the old records followed by the batch. */
  lemma ExtendedChain(b: seq<byte>, w: seq<byte>, t: int, c: seq<nat>, fs: seq<nat>, fs': seq<nat>,
                      offs: seq<nat>, ps: seq<seq<byte>>)
    requires ChainLaid(b, t, c, fs) && NewLaid(w, t, offs, ps) && ps != [] && offs[0] == |b|
    requires OldKept(b, w, fs, Tail(c), |b|)
    requires forall o :: o in fs ==> FileDataOffset <= o && o in fs'
    requires forall k :: 0 <= k < |offs| ==> offs[k] in fs'
    ensures ChainLaid(w, t, c + offs, fs')
    ensures Records(w, c + offs) == Records(b, c) + ps
  {
    var c' := c + offs;
    if c != [] {
      assert LinkAt(b, t, c, fs, |c| - 1);
    }
    forall k | 0 <= k < |c'|
      ensures LinkAt(w, t, c', fs', k) && Records(w, c')[k] == (Records(b, c) + ps)[k]
    {
      if k < |c| {
        ExtendedOld(b, w, t, c, fs, fs', offs, k);
        OldRecord(b, w, c, offs, ps, k);
      } else {
        ExtendedNew(w, t, c, fs', offs, ps, k - |c|);
        NewRecord(b, w, c, offs, ps, k);
      }
    }
  }

  lemma OldRecord(b: seq<byte>, w: seq<byte>, c: seq<nat>, offs: seq<nat>, ps: seq<seq<byte>>, k: nat)
    requires k < |c| && c[k] + DataHeaderLen <= |b| && c[k] + DataHeaderLen <= |w|
    requires PayloadAt(w, c[k]) == PayloadAt(b, c[k])
    ensures Records(w, c + offs)[k] == (Records(b, c) + ps)[k]
  {
    assert (c + offs)[k] == c[k];
  }

  lemma NewRecord(b: seq<byte>, w: seq<byte>, c: seq<nat>, offs: seq<nat>, ps: seq<seq<byte>>, k: nat)
    requires |c| <= k < |c| + |offs| && |offs| == |ps|
    requires offs[k - |c|] + DataHeaderLen <= |w| && PayloadAt(w, offs[k - |c|]) == ps[k - |c|]
    ensures Records(w, c + offs)[k] == (Records(b, c) + ps)[k]
  {
    assert (c + offs)[k] == offs[k - |c|];
  }

  /** An old link of t's chain: it keeps its frame, and the last one now
      points at the first frame of the batch. */
  lemma ExtendedOld(b: seq<byte>, w: seq<byte>, t: int, c: seq<nat>, fs: seq<nat>, fs': seq<nat>,
                    offs: seq<nat>, k: nat)
    requires ChainLaid(b, t, c, fs) && offs != [] && offs[0] == |b| && k < |c|
    requires OldKept(b, w, fs, Tail(c), |b|)
    requires forall o :: o in fs ==> FileDataOffset <= o && o in fs'
    ensures LinkAt(w, t, c + offs, fs', k)
    ensures c[k] + DataHeaderLen <= |b| && c[k] + DataHeaderLen <= |w|
    ensures PayloadAt(w, c[k]) == PayloadAt(b, c[k])
  {
    var c' := c + offs;
    assert c'[k] == c[k];
    assert LinkAt(b, t, c, fs, k);
    assert c[k] in fs;
    assert FrameKeptAt(b, w, c[k], Tail(c), |b|);
    if k + 1 < |c| {
      assert LinkAt(b, t, c, fs, |c| - 1);
      assert NextOf(b, c[k]) == c[k + 1] > c[k] >= 0 == NextOf(b, Tail(c));
      assert LinkAt(b, t, c, fs, k + 1);
      assert c'[k + 1] == c[k + 1];
    } else {
      assert c[k] == Tail(c);
      assert c'[k + 1] == offs[0];
    }
  }

  /** A link made of the batch's frame j. */
  lemma ExtendedNew(w: seq<byte>, t: int, c: seq<nat>, fs': seq<nat>, offs: seq<nat>, ps: seq<seq<byte>>, j: nat)
    requires NewLaid(w, t, offs, ps) && j < |offs|
    requires forall k :: 0 <= k < |offs| ==> offs[k] in fs'
    requires c != [] ==> c[|c| - 1] < offs[0]
    ensures LinkAt(w, t, c + offs, fs', |c| + j)
    ensures offs[j] + DataHeaderLen <= |w| && PayloadAt(w, offs[j]) == ps[j]
  {
    var c' := c + offs;
    assert c'[|c| + j] == offs[j];
    assert NewFrameAt(w, t, offs, ps, j);
    if j + 1 < |offs| {
      assert Apart(w, offs, j, j + 1);
      assert c'[|c| + j + 1] == offs[j + 1];
    }
  }

  /** The new slot of t has first = the chain's first frame (or the old end
      of file for an empty chain) and last = the batch's last frame. */
  lemma NewSlotMatches(m: TimelineMateInfo, c: seq<nat>, eof: nat, ps: seq<seq<byte>>)
    requires SlotMatches(m, c) && (c != [] ==> 0 < c[0])
    requires ps != [] && eof + BatchSize(ps) < TWO32
    ensures SlotMatches(NewSlot(m, eof, ps), c + BatchOffsets(eof, ps))
  {
    var offs := BatchOffsets(eof, ps);
    OffsetsEnds(eof, ps);
    SmallMod(eof);
    SmallMod(offs[|ps| - 1]);
    SlotOfAppend(m, c, offs, NewSlot(m, eof, ps));
  }

  /** The first frame of a batch sits at eof, the last after all others. */
  lemma OffsetsEnds(eof: nat, ps: seq<seq<byte>>)
    requires ps != [] && eof + BatchSize(ps) < TWO32
    ensures BatchOffsets(eof, ps)[0] == eof
    ensures BatchOffsets(eof, ps)[|ps| - 1] == eof + BatchSize(ps[..|ps| - 1]) < TWO32
  {
    var n := |ps|;
    assert ps[..n] == ps;
    assert ps[..0] == [];
    BatchSizePrefix(ps, n - 1, n);
  }

  /** A slot that keeps a non-zero first and takes the batch's last frame
      names the chain extended by the batch. */
  lemma SlotOfAppend(m: TimelineMateInfo, c: seq<nat>, offs: seq<nat>, m': TimelineMateInfo)
    requires SlotMatches(m, c) && (c != [] ==> 0 < c[0]) && offs != []
    requires m'.first == (if m.first == 0 then offs[0] else m.first) && m'.last == offs[|offs| - 1]
    ensures SlotMatches(m', c + offs)
  {
    var c' := c + offs;
    assert c'[|c'| - 1] == offs[|offs| - 1];
    if c == [] {
      assert c' == offs;
    } else {
      assert c'[0] == c[0];
    }
  }

  /** The frames of the new shape: the old ones and the batch's. */
  lemma FramesListed(fs: seq<nat>, offs: seq<nat>)
    ensures forall o :: o in fs ==> o in fs + offs
    ensures forall k :: 0 <= k < |offs| ==> offs[k] in fs + offs
  {
    forall k | 0 <= k < |offs| ensures offs[k] in fs + offs {
      assert (fs + offs)[|fs| + k] == offs[k];
    }
  }

  /** Every old frame lies in the data area. */
  lemma FramesAboveTable(b: seq<byte>, fs: seq<nat>)
    requires FramesLaidOut(b, fs)
    ensures forall o :: o in fs ==> FileDataOffset <= o
  {
    forall o | o in fs ensures FileDataOffset <= o {
      var i :| 0 <= i < |fs| && fs[i] == o;
      assert FrameAt(b, fs, i);
    }
  }

  /** What the write leaves of the old file and what it adds: the facts the
      per-second lemmas start from. */
  ghost predicate WriteFacts(b: seq<byte>, w: seq<byte>, begin: int, sh: Shape, t: int, ps: seq<seq<byte>>)
    requires InDay(begin, t) && ps != []
  {
    && WellFormed(b, begin, sh)
    && |b| + BatchSize(ps) < TWO32
    && |w| == |b| + BatchSize(ps)
    && Kept(b, w, SlotOffset(begin, t), TailOf(b, begin, t))
    && SlotAt(w, begin, t) == NewSlot(SlotAt(b, begin, t), |b|, ps)
    && OldKept(b, w, sh.frames, TailOf(b, begin, t), |b|)
    && NewLaid(w, t, BatchOffsets(|b|, ps), ps)
  }

  lemma WriteFactsOf(b: seq<byte>, begin: int, sh: Shape, t: int, ps: seq<seq<byte>>)
    requires WellFormed(b, begin, sh) && InDay(begin, t) && ps != []
    requires |b| + BatchSize(ps) < TWO32
    ensures WriteFacts(b, WriteImage(b, begin, t, ps), begin, sh, t, ps)
  {
    var w := WriteImage(b, begin, t, ps);
    WrittenOf(b, begin, sh, t, ps);
    BatchLength(|b|, t, ps, true);
    OldFrames(b, w, begin, sh, t);
    NewFrames(b, w, t, ps);
  }

  /** The second t after the write: its chain is the old chain followed by
      the batch's frames, its slot matches, and its records gain the batch. */
  lemma TheSecond(b: seq<byte>, w: seq<byte>, begin: int, sh: Shape, t: int, ps: seq<seq<byte>>)
    requires InDay(begin, t) && ps != [] && WriteFacts(b, w, begin, sh, t, ps)
    ensures var offs := BatchOffsets(|b|, ps);
            var c := sh.chains[t - begin];
            && ChainLaid(w, t, c + offs, sh.frames + offs)
            && SlotMatches(SlotAt(w, begin, t), c + offs)
            && Records(w, c + offs) == Records(b, c) + ps
  {
    var offs := BatchOffsets(|b|, ps);
    var c := sh.chains[t - begin];
    var fs := sh.frames;
    TailFacts(b, begin, sh, t);
    SecondOf(b, begin, sh, t);
    FramesAboveTable(b, fs);
    FramesListed(fs, offs);
    assert ps[..0] == [];
    assert offs[0] == |b|;
    assert Tail(c) == TailOf(b, begin, t);
    ExtendedChain(b, w, t, c, fs, fs + offs, offs, ps);
    if c != [] {
      assert LinkAt(b, t, c, fs, 0);
    }
    NewSlotMatches(SlotAt(b, begin, t), c, |b|, ps);
  }

  /** Another second s after the write keeps its chain, slot and records. */
  lemma OtherSecond(b: seq<byte>, w: seq<byte>, begin: int, sh: Shape, t: int, ps: seq<seq<byte>>, s: int)
    requires InDay(begin, t) && ps != [] && WriteFacts(b, w, begin, sh, t, ps)
    requires InDay(begin, s) && s != t
    ensures var c := sh.chains[s - begin];
            && ChainLaid(w, s, c, sh.frames + BatchOffsets(|b|, ps))
            && SlotAt(w, begin, s) == SlotAt(b, begin, s)
            && SlotMatches(SlotAt(w, begin, s), c)
            && Records(w, c) == Records(b, c)
  {
    var offs := BatchOffsets(|b|, ps);
    var c := sh.chains[s - begin];
    var fs := sh.frames;
    var L := TailOf(b, begin, t);
    TailFacts(b, begin, sh, t);
    SecondOf(b, begin, sh, s);
    FramesAboveTable(b, fs);
    FramesListed(fs, offs);
    ModDistinct(s, t);
    OtherChain(b, w, s, c, fs, fs + offs, L, |b|, t);
    SlotKept(b, w, begin, t, s, L);
  }

  /** The first sixteen bytes (magic word and baseline) are untouched. */
  lemma HeaderKept(b: seq<byte>, w: seq<byte>, begin: int, t: int, ps: seq<seq<byte>>, sh: Shape)
    requires InDay(begin, t) && ps != [] && WriteFacts(b, w, begin, sh, t, ps)
    ensures w[..FileHeaderOffset] == b[..FileHeaderOffset]
  {
    TailFacts(b, begin, sh, t);
    KeptRange(b, w, SlotOffset(begin, t), TailOf(b, begin, t), 0, FileHeaderOffset);
  }

  /** Second begin + i is well formed after the write. */
  lemma SecondAfter(b: seq<byte>, w: seq<byte>, begin: int, sh: Shape, t: int, ps: seq<seq<byte>>, i: int)
    requires InDay(begin, t) && ps != [] && WriteFacts(b, w, begin, sh, t, ps)
    requires 0 <= i < TimelineLengthOfDay
    ensures SecondOk(w, begin, WriteShape(sh, begin, t, |b|, ps), i)
  {
    if begin + i == t {
      TheSecondOk(b, w, begin, sh, t, ps);
    } else {
      OtherSecondOk(b, w, begin, sh, t, ps, i);
    }
  }

  lemma TheSecondOk(b: seq<byte>, w: seq<byte>, begin: int, sh: Shape, t: int, ps: seq<seq<byte>>)
    requires InDay(begin, t) && ps != [] && WriteFacts(b, w, begin, sh, t, ps)
    ensures SecondOk(w, begin, WriteShape(sh, begin, t, |b|, ps), t - begin)
  {
    var offs := BatchOffsets(|b|, ps);
    ShapeAfter(sh, begin, t, |b|, ps, t);
    TheSecond(b, w, begin, sh, t, ps);
    SecondOkFrom(w, begin, WriteShape(sh, begin, t, |b|, ps), t - begin, t,
                 sh.chains[t - begin] + offs, sh.frames + offs);
  }

  lemma OtherSecondOk(b: seq<byte>, w: seq<byte>, begin: int, sh: Shape, t: int, ps: seq<seq<byte>>, i: int)
    requires InDay(begin, t) && ps != [] && WriteFacts(b, w, begin, sh, t, ps)
    requires 0 <= i < TimelineLengthOfDay && begin + i != t
    ensures SecondOk(w, begin, WriteShape(sh, begin, t, |b|, ps), i)
  {
    var offs := BatchOffsets(|b|, ps);
    var s := begin + i;
    ShapeAfter(sh, begin, t, |b|, ps, s);
    OtherSecond(b, w, begin, sh, t, ps, s);
    SecondOkFrom(w, begin, WriteShape(sh, begin, t, |b|, ps), i, s, sh.chains[s - begin], sh.frames + offs);
  }

  /** The chain of second s in the new shape. */
  lemma ShapeAfter(sh: Shape, begin: int, t: int, eof: nat, ps: seq<seq<byte>>, s: int)
    requires InDay(begin, t) && InDay(begin, s) && |sh.chains| == TimelineLengthOfDay
    ensures WriteShape(sh, begin, t, eof, ps).frames == sh.frames + BatchOffsets(eof, ps)
    ensures |WriteShape(sh, begin, t, eof, ps).chains| == TimelineLengthOfDay
    ensures WriteShape(sh, begin, t, eof, ps).chains[s - begin]
         == if s == t then sh.chains[s - begin] + BatchOffsets(eof, ps) else sh.chains[s - begin]
  {
  }

  lemma SecondOkFrom(w: seq<byte>, begin: int, sh: Shape, i: int, s: int, c: seq<nat>, fs: seq<nat>)
    requires 0 <= i < |sh.chains| && i < TimelineLengthOfDay && s == begin + i
    requires sh.chains[i] == c && sh.frames == fs
    requires ChainLaid(w, s, c, fs) && SlotMatches(SlotAt(w, begin, s), c)
    ensures SecondOk(w, begin, sh, i)
  {
  }

  /** Every second of the day is well formed after the write. */
  lemma AllSeconds(b: seq<byte>, w: seq<byte>, begin: int, sh: Shape, t: int, ps: seq<seq<byte>>)
    requires InDay(begin, t) && ps != [] && WriteFacts(b, w, begin, sh, t, ps)
    ensures forall i :: 0 <= i < TimelineLengthOfDay ==> SecondOk(w, begin, WriteShape(sh, begin, t, |b|, ps), i)
  {
    forall i | 0 <= i < TimelineLengthOfDay
      ensures SecondOk(w, begin, WriteShape(sh, begin, t, |b|, ps), i)
    {
      SecondAfter(b, w, begin, sh, t, ps, i);
    }
  }

  /** The file after the write is well formed with the new shape. */
  lemma WellFormedAfter(b: seq<byte>, w: seq<byte>, begin: int, sh: Shape, t: int, ps: seq<seq<byte>>)
    requires InDay(begin, t) && ps != [] && WriteFacts(b, w, begin, sh, t, ps)
    ensures WellFormed(w, begin, WriteShape(sh, begin, t, |b|, ps))
  {
    HeaderKept(b, w, begin, t, ps, sh);
    TailFacts(b, begin, sh, t);
    FramesAfter(b, w, sh.frames, TailOf(b, begin, t), t, BatchOffsets(|b|, ps), ps);
    AllSeconds(b, w, begin, sh, t, ps);
  }

  /** What Write has in hand once the batch is encoded: the slot it read,
      the offset of the tail's next field, the encoded buffer and the new
      slot, each as the write image describes them. */
  ghost predicate Staged(b: seq<byte>, begin: int, t: int, ps: seq<seq<byte>>, m: TimelineMateInfo,
                         linkedOfLast: int, buf: seq<byte>, slot: TimelineMateInfo)
  {
    InDay(begin, t) && ps != [] && |b| + BatchSize(ps) < TWO32
    && m == SlotAt(b, begin, t) && linkedOfLast == (if m.last != 0 then m.last + NextDataOffset else 0)
    && buf == Batch(|b|, t, ps, true) && slot == NewSlot(m, |b|, ps)
  }

  /** Write keeps the day file well formed, with the batch's frames added to
      the frame list and to the chain of t. */
  lemma WriteKeepsWellFormed(b: seq<byte>, begin: int, sh: Shape, t: int, ps: seq<seq<byte>>)
    requires WellFormed(b, begin, sh) && InDay(begin, t) && ps != []
    requires |b| + BatchSize(ps) < TWO32
    ensures |WriteImage(b, begin, t, ps)| == |b| + BatchSize(ps)
    ensures WellFormed(WriteImage(b, begin, t, ps), begin, WriteShape(sh, begin, t, |b|, ps))
  {
    WriteFactsOf(b, begin, sh, t, ps);
    WellFormedAfter(b, WriteImage(b, begin, t, ps), begin, sh, t, ps);
  }

  /** After the write the records of t are the old ones followed by the
      batch, in order. With TimelineOfWellFormed this is what a later
      queryByTimeline(t) sees. */
  lemma WriteAppendsRecords(b: seq<byte>, begin: int, sh: Shape, t: int, ps: seq<seq<byte>>)
    requires WellFormed(b, begin, sh) && InDay(begin, t) && ps != []
    requires |b| + BatchSize(ps) < TWO32
    ensures Records(WriteImage(b, begin, t, ps), WriteShape(sh, begin, t, |b|, ps).chains[t - begin])
         == Records(b, sh.chains[t - begin]) + ps
  {
    var w := WriteImage(b, begin, t, ps);
    WriteFactsOf(b, begin, sh, t, ps);
    TheSecond(b, w, begin, sh, t, ps);
  }

  /** Every other second s keeps its chain and its records. */
  lemma WriteKeepsOthers(b: seq<byte>, begin: int, sh: Shape, t: int, ps: seq<seq<byte>>, s: int)
    requires WellFormed(b, begin, sh) && InDay(begin, t) && ps != []
    requires |b| + BatchSize(ps) < TWO32
    requires InDay(begin, s) && s != t
    ensures WriteShape(sh, begin, t, |b|, ps).chains[s - begin] == sh.chains[s - begin]
    ensures Records(WriteImage(b, begin, t, ps), sh.chains[s - begin]) == Records(b, sh.chains[s - begin])
  {
    WriteFactsOf(b, begin, sh, t, ps);
    OtherSecond(b, WriteImage(b, begin, t, ps), begin, sh, t, ps, s);
  }
}
