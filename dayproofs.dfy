/** What storefile.go's chain walk and batched write do to a well-formed day
    file, proved on the byte image of DayImage. */
module DayProofs {
  import opened Bytes
  import opened Layout
  import opened DayImage

  /** The walk's start for chain position k: the k-th frame, or 0 past the end. */
  function Head(c: seq<nat>, k: nat): nat {
    if k < |c| then c[k] else 0
  }

  /** The facts about the k-th frame of a laid-out chain that one step of
      the walk needs. */
  lemma ChainStep(b: seq<byte>, s: int, c: seq<nat>, fs: seq<nat>, k: nat)
    requires ChainLaid(b, s, c, fs)
    requires forall i :: 0 <= i < |fs| ==> FileDataOffset <= fs[i]
    requires 0 <= s < TWO32 && k < |c|
    ensures 0 < c[k] && c[k] + DataHeaderLen <= |b| && TsLo(b, c[k]) == s
    ensures NextOf(b, c[k]) == Head(c, k + 1)
    ensures Head(c, k + 1) == 0 || c[k] < Head(c, k + 1)
    ensures k + 1 < |c| ==> c[k] < c[k + 1]
  {
    assert LinkAt(b, s, c, fs, k);
    assert c[k] in fs;
  }

  lemma RecordsCons(b: seq<byte>, c: seq<nat>, k: nat)
    requires k < |c| && c[k] + DataHeaderLen <= |b|
    ensures Records(b, c[k..]) == [PayloadAt(b, c[k])] + Records(b, c[k + 1..])
  {
  }

  lemma DecodedCons<R>(decode: seq<byte> -> Option<R>, p: seq<byte>, rest: seq<seq<byte>>)
    ensures Decoded(decode, [p] + rest) == Keep(decode, p) + Decoded(decode, rest)
  {
    assert ([p] + rest)[1..] == rest;
  }

  /** Passes of the loop as written compose: j passes to w, then k more,
      are k passes from w. */
  lemma {:induction false} LoopAfterAdd(b: seq<byte>, t: int, v: nat, w: nat, j: nat, k: nat)
    requires LoopAfter(b, t, v, j) == Some(w)
    ensures LoopAfter(b, t, v, j + k) == LoopAfter(b, t, w, k)
    decreases j
  {
    if j > 0 {
      LoopAfterAdd(b, t, LoopStep(b, t, v).value, w, j - 1, k);
    }
  }

  /** A loop still running after j passes has not left within them. */
  lemma {:induction false} RunningAt<R>(b: seq<byte>, t: int, v: nat, j: nat, n: nat, decode: seq<byte> -> Option<R>)
    requires LoopAfter(b, t, v, j).Some? && n <= j
    ensures LoopRun(b, t, v, n, decode) == None
    decreases n
  {
    if n > 0 {
      RunningAt(b, t, NextOf(b, v), j - 1, n - 1, decode);
    }
  }

  /** A loop at w after j passes that does not leave within n - j passes
      from w does not leave within n passes. */
  lemma {:induction false} RunShift<R>(b: seq<byte>, t: int, v: nat, w: nat, j: nat, n: nat, decode: seq<byte> -> Option<R>)
    requires LoopAfter(b, t, v, j) == Some(w) && j <= n && LoopRun(b, t, w, n - j, decode) == None
    ensures LoopRun(b, t, v, n, decode) == None
    decreases j
  {
    if j > 0 {
      RunShift(b, t, NextOf(b, v), w, j - 1, n - 1, decode);
    }
  }

  /** A loop that comes back to the frame it started at after p passes
      never leaves. */
  lemma {:induction false} CycleNeverLeaves<R>(b: seq<byte>, t: int, w: nat, p: nat, n: nat, decode: seq<byte> -> Option<R>)
    requires 1 <= p && LoopAfter(b, t, w, p) == Some(w)
    ensures LoopRun(b, t, w, n, decode) == None
    decreases n
  {
    if n <= p {
      RunningAt(b, t, w, p, n, decode);
    } else {
      CycleNeverLeaves(b, t, w, p, n - p, decode);
      RunShift(b, t, w, w, p, n, decode);
    }
  }

  /** The distances to off of the frames read so far, each at least one
      pass: the frames of seen lead to off, and off leads to itself in
      none. */
  ghost predicate LeadTo(b: seq<byte>, t: int, seen: set<nat>, dist: map<nat, nat>, off: nat) {
    forall v :: v in seen ==> v in dist && 1 <= dist[v] && LoopAfter(b, t, v, dist[v]) == Some(off)
  }

  /** A link from off back to off or to a frame that leads to off closes a
      cycle: the loop as written never leaves off. */
  lemma BackLinkNeverLeaves<R>(b: seq<byte>, t: int, off: nat, seen: set<nat>, dist: map<nat, nat>,
                               n: nat, decode: seq<byte> -> Option<R>)
    requires LeadTo(b, t, seen, dist, off) && LoopStep(b, t, off).Some?
    requires LoopStep(b, t, off).value in seen + {off}
    ensures LoopRun(b, t, off, n, decode) == None
  {
    var next := LoopStep(b, t, off).value;
    assert LoopAfter(b, t, off, 1) == Some(next);
    if next == off {
      CycleNeverLeaves(b, t, off, 1, n, decode);
    } else {
      LoopAfterAdd(b, t, off, next, 1, dist[next]);
      CycleNeverLeaves(b, t, off, 1 + dist[next], n, decode);
    }
  }

  /** One pass further: off and the frames of seen lead to the frame that
      off links to. */
  lemma LeadOn(b: seq<byte>, t: int, off: nat, seen: set<nat>, dist: map<nat, nat>) returns (dist': map<nat, nat>)
    requires LeadTo(b, t, seen, dist, off) && LoopStep(b, t, off).Some?
    ensures LeadTo(b, t, seen + {off}, dist', LoopStep(b, t, off).value)
  {
    var next := LoopStep(b, t, off).value;
    dist' := map v | v in seen + {off} :: if v == off then 1 else dist[v] + 1;
    assert LoopAfter(b, t, off, 1) == Some(next);
    forall v | v in seen ensures LoopAfter(b, t, v, dist'[v]) == Some(next) {
      LoopAfterAdd(b, t, v, off, dist[v], 1);
    }
  }

  /** The guarded walk from off, having read the frames of seen, each of
      which the loop as written leads to off: if the loop leaves within n
      passes from off, the guard never fires, because a link back to a
      frame already read would close a cycle the loop never leaves. */
  lemma {:induction false} GuardedWalkOfRun<R>(b: seq<byte>, t: int, off: nat, seen: set<nat>, dist: map<nat, nat>,
                                               n: nat, decode: seq<byte> -> Option<R>)
    requires off !in seen && LeadTo(b, t, seen, dist, off)
    requires LoopRun(b, t, off, n, decode).Some?
    ensures GuardedWalk(b, t, off, seen, decode) == LoopRun(b, t, off, n, decode).value
    decreases n
  {
    if n > 0 && off != 0 && off + DataHeaderLen <= |b| && TsLo(b, off) == t {
      var next := NextOf(b, off);
      var k := Keep(decode, PayloadAt(b, off));
      if next == 0 {
        assert k + [] == k;
      } else if next in seen + {off} {
        BackLinkNeverLeaves(b, t, off, seen, dist, n, decode);
        assert false;
      } else {
        var dist' := LeadOn(b, t, off, seen, dist);
        GuardedWalkOfRun(b, t, next, seen + {off}, dist', n - 1, decode);
      }
    }
  }

  /** Wherever the loop as written leaves, within however many passes, the
      guarded walk returns what it returns, including on chains whose
      links lead backward. */
  lemma GuardedWalkWhereLoopEnds<R>(b: seq<byte>, t: int, off: nat, n: nat, decode: seq<byte> -> Option<R>)
    requires LoopRun(b, t, off, n, decode).Some?
    ensures GuardedWalk(b, t, off, {}, decode) == LoopRun(b, t, off, n, decode).value
  {
    GuardedWalkOfRun(b, t, off, {}, map[], n, decode);
  }

  /** On a chain that leads forward the loop as written leaves within
      |b| + 2 passes, with Walk's answer. */
  lemma {:induction false} WalkIsLoopRun<R>(b: seq<byte>, t: int, off: nat, n: nat, decode: seq<byte> -> Option<R>)
    requires ChainOk(b, t, off) && 1 <= n && |b| + 2 <= n + off
    ensures LoopRun(b, t, off, n, decode) == Some(Walk(b, t, off, decode))
    decreases n
  {
    if off != 0 && off + DataHeaderLen <= |b| && TsLo(b, off) == t {
      var k := Keep(decode, PayloadAt(b, off));
      if NextOf(b, off) == 0 {
        assert k + [] == k;
      } else {
        WalkIsLoopRun(b, t, NextOf(b, off), n - 1, decode);
      }
    }
  }

  /** On a chain that leads forward the guarded walk is Walk. */
  lemma GuardedWalkAgrees<R>(b: seq<byte>, t: int, off: nat, decode: seq<byte> -> Option<R>)
    requires ChainOk(b, t, off)
    ensures GuardedWalk(b, t, off, {}, decode) == Walk(b, t, off, decode)
  {
    WalkIsLoopRun(b, t, off, |b| + 2, decode);
    GuardedWalkWhereLoopEnds(b, t, off, |b| + 2, decode);
  }

  /** Following a laid-out chain from its k-th frame terminates and yields
      the decodable payloads of frames k.. in chain order. */
  lemma {:induction false} WalkAlongChain<R>(b: seq<byte>, s: int, c: seq<nat>, fs: seq<nat>,
                                             k: nat, decode: seq<byte> -> Option<R>)
    requires ChainLaid(b, s, c, fs)
    requires forall i :: 0 <= i < |fs| ==> FileDataOffset <= fs[i]
    requires 0 <= s < TWO32 && k <= |c|
    ensures ChainOk(b, s, Head(c, k))
    ensures Walk(b, s, Head(c, k), decode) == Ok(Decoded(decode, Records(b, c[k..])))
    decreases |c| - k
  {
    ChainInside(b, s, c, fs);
    if k < |c| {
      WalkAlongChain(b, s, c, fs, k + 1, decode);
      ChainStep(b, s, c, fs, k);
      RecordsCons(b, c, k);
      var p, rest := PayloadAt(b, c[k]), Records(b, c[k + 1..]);
      DecodedCons(decode, p, rest);
      assert Head(c, k) == c[k] && 0 < c[k];
      if k + 1 == |c| {
        assert NextOf(b, c[k]) == 0;
        assert Walk(b, s, c[k], decode) == Ok(Keep(decode, p));
        assert rest == [] && Decoded(decode, rest) == [];
        assert Keep(decode, p) + [] == Keep(decode, p);
      } else {
        assert Head(c, k + 1) == c[k + 1] && NextOf(b, c[k]) == c[k + 1] && c[k] < c[k + 1];
        assert Walk(b, s, c[k], decode) == Prepend(Keep(decode, p), Walk(b, s, c[k + 1], decode));
      }
    } else {
      assert Records(b, c[k..]) == [];
    }
  }

  /** Only the low 32 bits of a frame's timestamp are compared with the
      queried second, so a second outside [0, 2^32) never matches its own
      frames and its walk stops at once. */
  lemma WalkOutsideU32<R>(b: seq<byte>, s: int, c: seq<nat>, fs: seq<nat>, decode: seq<byte> -> Option<R>)
    requires ChainLaid(b, s, c, fs)
    requires !(0 <= s < TWO32)
    ensures ChainOk(b, s, Head(c, 0))
    ensures Walk(b, s, Head(c, 0), decode) == Ok([])
  {
    if c != [] {
      assert LinkAt(b, s, c, fs, 0);
      assert TsLo(b, c[0]) == s % TWO32 != s;
    }
  }

  /** The facts WellFormed keeps about second s of the day. */
  lemma SecondOf(b: seq<byte>, begin: int, sh: Shape, s: int)
    requires WellFormed(b, begin, sh) && InDay(begin, s)
    ensures ChainLaid(b, s, sh.chains[s - begin], sh.frames)
    ensures SlotMatches(SlotAt(b, begin, s), sh.chains[s - begin])
  {
    assert SecondOk(b, begin, sh, s - begin);
    assert begin + (s - begin) == s;
  }

  /** In a well-formed file the walk of every second of the day terminates
      and returns exactly the decodable records of that second's chain, in
      order (nothing for a second outside [0, 2^32)). */
  lemma TimelineOfWellFormed<R>(b: seq<byte>, begin: int, sh: Shape, s: int, decode: seq<byte> -> Option<R>)
    requires WellFormed(b, begin, sh) && InDay(begin, s)
    ensures ChainOk(b, s, SlotAt(b, begin, s).first)
    ensures Walk(b, s, SlotAt(b, begin, s).first, decode)
         == Ok(if 0 <= s < TWO32 then Decoded(decode, Records(b, sh.chains[s - begin])) else [])
  {
    var c := sh.chains[s - begin];
    SecondOf(b, begin, sh, s);
    FramesInside(b, sh.frames);
    assert SlotAt(b, begin, s).first == Head(c, 0);
    if 0 <= s < TWO32 {
      WalkAlongChain(b, s, c, sh.frames, 0, decode);
      assert c[0..] == c;
    } else {
      WalkOutsideU32(b, s, c, sh.frames, decode);
    }
  }

  // ------------------------------------------------------------ init

  /** The empty shape of a freshly initialised file: no frames, every
      second of the day with an empty chain. */
  function EmptyShape(begin: int): Shape {
    Shape([], seq(TimelineLengthOfDay, _ => []))
  }

  /** init lays out exactly 16 + 86400 * 8 = 691216 bytes with every slot
      (0, 0): a well-formed file with no records. */
  lemma InitImageEmpty(begin: int)
    ensures |InitImage(begin)| == FileDataOffset
    ensures forall s :: InDay(begin, s) ==> SlotAt(InitImage(begin), begin, s) == EmptySlot
    ensures WellFormed(InitImage(begin), begin, EmptyShape(begin))
  {
    var b := InitImage(begin);
    assert b[..FileHeaderOffset] == Le64(Magic) + Le64(begin);
    assert forall k :: FileHeaderOffset <= k < |b| ==> b[k] == 0;
    forall s | InDay(begin, s)
      ensures SlotAt(b, begin, s) == EmptySlot
    {
      var buf := ReadZ(b, SlotOffset(begin, s), 8);
      assert forall j :: 0 <= j < 8 ==> buf[j] == 0;
    }
  }

  /** The header init writes reads back as the magic word at offset 0 and
      the day baseline at offset 8. */
  lemma InitImageHeader(begin: int)
    requires IsInt64(begin)
    ensures I64(InitImage(begin), 0) == Magic && I64(InitImage(begin), 8) == begin
  {
    var b := InitImage(begin);
    Le64Words(Magic);
    I64OfLe64(Magic);
    I64OfLe64(begin);
    assert b[0..8] == Le64(Magic);
    assert b[8..16] == Le64(begin);
    U32OfAgreeing(b, Le64(Magic), 0, 0);
    U32OfAgreeing(b, Le64(Magic), 4, 4);
    U32OfAgreeing(b, Le64(begin), 8, 0);
    U32OfAgreeing(b, Le64(begin), 12, 4);
  }

  /** writeMateInfo then ReadMateInfo: the slot stored for t reads back as
      stored, and every other slot in the checked range reads as before
      (on any file, however short: the store grows it with zeros, which a
      read past the end sees too). */
  lemma SlotRoundTrip(b: seq<byte>, begin: int, t: int, m: TimelineMateInfo, s: int)
    requires InMateRange(begin, t) && InMateRange(begin, s)
    ensures SlotAt(StoreSlot(b, begin, t, m), begin, s) == if s == t then m else SlotAt(b, begin, s)
  {
    var w := StoreSlot(b, begin, t, m);
    var ot, os := SlotOffset(begin, t), SlotOffset(begin, s);
    if s == t {
      ReadPatched(b, ot, SlotBytes(m));
      U32At([], m.first, Le32(m.last));
      U32At(Le32(m.first), m.last, []);
      assert SlotBytes(m) == [] + Le32(m.first) + Le32(m.last);
      assert SlotBytes(m) == Le32(m.first) + Le32(m.last) + [];
    } else {
      assert os + 8 <= ot || ot + 8 <= os;
      ReadAroundPatch(b, ot, SlotBytes(m), os, 8);
    }
  }

  // ------------------------------------------------------------ batches

  function BatchNext(pos: int, ps: seq<seq<byte>>, final: bool, i: nat): u32
    requires i < |ps|
  {
    if i == |ps| - 1 && final then 0 else (pos + BatchSize(ps[..i + 1])) % TWO32
  }

  lemma FrameBytesLength(t: int, n: u32, p: seq<byte>)
    ensures |FrameBytes(t, n, p)| == DataHeaderLen + |p|
  {
    Le64Words(t);
  }

  lemma {:induction false} BatchLength(pos: int, t: int, ps: seq<seq<byte>>, final: bool)
    ensures |Batch(pos, t, ps, final)| == BatchSize(ps)
    decreases |ps|
  {
    if ps != [] {
      BatchLength(pos, t, ps[..|ps| - 1], false);
      FrameBytesLength(t, if final then 0 else (pos + BatchSize(ps)) % TWO32, ps[|ps| - 1]);
    }
  }

  /** Sizes of prefixes of a batch grow by one frame at a time. */
  lemma {:induction false} BatchSizePrefix(ps: seq<seq<byte>>, i: nat, j: nat)
    requires i <= j <= |ps|
    ensures BatchSize(ps[..i]) <= BatchSize(ps[..j])
    ensures i < j ==> BatchSize(ps[..i]) + DataHeaderLen + |ps[i]| <= BatchSize(ps[..j])
    decreases j - i
  {
    if i < j {
      var q := ps[..j];
      assert q[..j - 1] == ps[..j - 1];
      assert BatchSize(q) == BatchSize(ps[..j - 1]) + DataHeaderLen + |ps[j - 1]|;
      BatchSizePrefix(ps, i, j - 1);
    }
  }

  /** A batch is the batch of all items but the last, followed by the last
      item's frame. */
  lemma BatchSnoc(pos: int, t: int, ps: seq<seq<byte>>, final: bool)
    requires ps != []
    ensures Batch(pos, t, ps, final)
         == Batch(pos, t, ps[..|ps| - 1], false)
            + FrameBytes(t, BatchNext(pos, ps, final, |ps| - 1), ps[|ps| - 1])
    ensures |Batch(pos, t, ps[..|ps| - 1], false)| == BatchSize(ps[..|ps| - 1])
  {
    assert ps[..|ps|] == ps;
    assert BatchNext(pos, ps, final, |ps| - 1) == if final then 0 else (pos + BatchSize(ps)) % TWO32;
    BatchLength(pos, t, ps[..|ps| - 1], false);
  }

  lemma SliceWithinPrefix(x: seq<byte>, y: seq<byte>, m: nat, lo: nat, hi: nat, f: seq<byte>)
    requires lo <= hi <= m <= |x| && x[..m] == y && y[lo..hi] == f
    ensures x[lo..hi] == f
  {
    assert x[..m][lo..hi] == x[lo..hi];
  }

  lemma SuffixPart(x: seq<byte>, y: seq<byte>)
    ensures (x + y)[|x|..|x| + |y|] == y
  {
  }

  /** A batch starts with the batch of all items but the last. */
  lemma BatchPrefix(pos: int, t: int, ps: seq<seq<byte>>, final: bool)
    requires ps != []
    ensures |Batch(pos, t, ps, final)| == BatchSize(ps)
    ensures BatchSize(ps[..|ps| - 1]) <= BatchSize(ps)
    ensures Batch(pos, t, ps, final)[..BatchSize(ps[..|ps| - 1])] == Batch(pos, t, ps[..|ps| - 1], false)
  {
    BatchSnoc(pos, t, ps, final);
    BatchLength(pos, t, ps, final);
  }

  /** The last frame of a batch sits after all the others. */
  lemma BatchFrameLast(pos: int, t: int, ps: seq<seq<byte>>, final: bool)
    requires ps != []
    ensures BatchSize(ps[..|ps| - 1]) + DataHeaderLen + |ps[|ps| - 1]| == |Batch(pos, t, ps, final)|
    ensures Batch(pos, t, ps, final)[BatchSize(ps[..|ps| - 1])..BatchSize(ps[..|ps| - 1]) + DataHeaderLen + |ps[|ps| - 1]|]
         == FrameBytes(t, BatchNext(pos, ps, final, |ps| - 1), ps[|ps| - 1])
  {
    var prev := Batch(pos, t, ps[..|ps| - 1], false);
    var fr := FrameBytes(t, BatchNext(pos, ps, final, |ps| - 1), ps[|ps| - 1]);
    BatchSnoc(pos, t, ps, final);
    FrameBytesLength(t, BatchNext(pos, ps, final, |ps| - 1), ps[|ps| - 1]);
    SuffixPart(prev, fr);
  }

  /** Frame i of a batch sits at the size of the items before it and holds
      the timestamp, the link to frame i+1 (or 0 for the last frame of a
      final batch), the length and the payload. */
  lemma {:induction false} BatchFrame(pos: int, t: int, ps: seq<seq<byte>>, final: bool, i: nat)
    requires i < |ps|
    ensures BatchSize(ps[..i]) + DataHeaderLen + |ps[i]| <= |Batch(pos, t, ps, final)|
    ensures Batch(pos, t, ps, final)[BatchSize(ps[..i])..BatchSize(ps[..i]) + DataHeaderLen + |ps[i]|]
         == FrameBytes(t, BatchNext(pos, ps, final, i), ps[i])
    decreases |ps|
  {
    var n := |ps|;
    if i == n - 1 {
      BatchFrameLast(pos, t, ps, final);
    } else {
      var init := ps[..n - 1];
      BatchFrame(pos, t, init, false, i);
      FrameOfPrefix(pos, t, ps, init, final, i);
    }
  }

  /** A frame that is not the last one lies inside the batch of all items
      but the last, where it has the same bytes. */
  lemma FrameOfPrefix(pos: int, t: int, ps: seq<seq<byte>>, init: seq<seq<byte>>, final: bool, i: nat)
    requires i < |ps| - 1 && init == ps[..|ps| - 1]
    requires && BatchSize(init[..i]) + DataHeaderLen + |init[i]| <= |Batch(pos, t, init, false)|
             && Batch(pos, t, init, false)[BatchSize(init[..i])..BatchSize(init[..i]) + DataHeaderLen + |init[i]|]
                == FrameBytes(t, BatchNext(pos, init, false, i), init[i])
    ensures BatchSize(ps[..i]) + DataHeaderLen + |ps[i]| <= |Batch(pos, t, ps, final)|
    ensures Batch(pos, t, ps, final)[BatchSize(ps[..i])..BatchSize(ps[..i]) + DataHeaderLen + |ps[i]|]
         == FrameBytes(t, BatchNext(pos, ps, final, i), ps[i])
  {
    assert init[..i] == ps[..i] && init[i] == ps[i] && init[..i + 1] == ps[..i + 1];
    NextInPrefix(pos, ps, init, final, i);
    BatchPrefix(pos, t, ps, final);
    BatchLength(pos, t, init, false);
    var lo, hi := BatchSize(ps[..i]), BatchSize(ps[..i]) + DataHeaderLen + |ps[i]|;
    SliceWithinPrefix(Batch(pos, t, ps, final), Batch(pos, t, init, false), BatchSize(init), lo, hi,
                      FrameBytes(t, BatchNext(pos, ps, final, i), ps[i]));
  }

  /** A frame that is not the last points at the same place in the batch
      and in the batch of all items but the last. */
  lemma NextInPrefix(pos: int, ps: seq<seq<byte>>, init: seq<seq<byte>>, final: bool, i: nat)
    requires i < |ps| - 1 && init == ps[..|ps| - 1]
    ensures BatchNext(pos, init, false, i) == BatchNext(pos, ps, final, i)
  {
    assert init[..i + 1] == ps[..i + 1];
  }

  /** The four header words and the tail of a header-shaped concatenation. */
  lemma HeaderWords(h: seq<byte>, x: seq<byte>, y: seq<byte>, p: seq<byte>)
    requires |h| == 8 && |x| == 4 && |y| == 4
    ensures |h + x + y + p| == DataHeaderLen + |p|
    ensures U32(h + x + y + p, 0) == U32(h, 0) && U32(h + x + y + p, 4) == U32(h, 4)
    ensures U32(h + x + y + p, 8) == U32(x, 0) && U32(h + x + y + p, 12) == U32(y, 0)
    ensures (h + x + y + p)[DataHeaderLen..] == p
  {
    var f := h + x + y + p;
    assert f[0] == h[0] && f[1] == h[1] && f[2] == h[2] && f[3] == h[3];
    assert f[4] == h[4] && f[5] == h[5] && f[6] == h[6] && f[7] == h[7];
    assert f[8] == x[0] && f[9] == x[1] && f[10] == x[2] && f[11] == x[3];
    assert f[12] == y[0] && f[13] == y[1] && f[14] == y[2] && f[15] == y[3];
  }

  /** The fields of one frame's bytes. */
  lemma FrameFields(t: int, n: u32, p: seq<byte>)
    requires |p| < TWO32
    ensures |FrameBytes(t, n, p)| == DataHeaderLen + |p|
    ensures U32(FrameBytes(t, n, p), 0) == t % TWO32
    ensures U32(FrameBytes(t, n, p), 4) == (t % TWO64) / TWO32
    ensures U32(FrameBytes(t, n, p), 8) == n
    ensures U32(FrameBytes(t, n, p), 12) == |p|
    ensures FrameBytes(t, n, p)[DataHeaderLen..] == p
  {
    Le64Words(t);
    SmallMod(|p|);
    U32OfLe32(n);
    U32OfLe32(|p|);
    HeaderWords(Le64(t), Le32(n), Le32(|p| % TWO32), p);
  }

  /** A read inside a copy of f at offset o reads what f holds. */
  lemma ShiftedU32(b: seq<byte>, f: seq<byte>, o: nat, k: nat)
    requires o + |f| <= |b| && b[o..o + |f|] == f && k + 4 <= |f|
    ensures U32(b, o + k) == U32(f, k)
  {
    assert b[o + k] == f[k] && b[o + k + 1] == f[k + 1] && b[o + k + 2] == f[k + 2] && b[o + k + 3] == f[k + 3];
  }

  /** Reading a frame back from the bytes it was written as. */
  lemma ReadFrame(b: seq<byte>, o: nat, t: int, n: u32, p: seq<byte>)
    requires |p| < TWO32
    requires o + DataHeaderLen + |p| <= |b| && b[o..o + DataHeaderLen + |p|] == FrameBytes(t, n, p)
    ensures TsLo(b, o) == t % TWO32 && TsHi(b, o) == (t % TWO64) / TWO32
    ensures NextOf(b, o) == n && LenOf(b, o) == |p|
    ensures FrameEnd(b, o) == o + DataHeaderLen + |p| && PayloadAt(b, o) == p
  {
    var f := FrameBytes(t, n, p);
    FrameFields(t, n, p);
    ShiftedU32(b, f, o, 0);
    ShiftedU32(b, f, o, 4);
    ShiftedU32(b, f, o, 8);
    ShiftedU32(b, f, o, 12);
    assert b[o + DataHeaderLen..o + DataHeaderLen + |p|] == f[DataHeaderLen..];
  }
}
