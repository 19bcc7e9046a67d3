/** One day file of storefile.go as an object: its window [begin, end), the
    bytes of the file and whether it has been closed. The methods do what
    the Go methods do, step by step; their contracts tie the new state to the
    image functions of DayImage, whose meaning DayProofs and WriteProofs
    establish. Write, QueryByTimeline and QueryBetween use the window
    [begin, end); ReadMateInfo and WriteMateInfo keep the Go code's inclusive
    bound (see AsWrittenEndWriteCorrupts). */
module StoreFiles {
  import opened Bytes
  import opened Layout
  import opened DayImage
  import opened DayProofs
  import opened WriteProofs

  // ------------------------------------------------------------ codec

  /** proto.Marshal over a batch, item by item in order; the first failure
      fails the whole batch. */
  function EncodeAll<D>(encode: D -> Option<seq<byte>>, data: seq<D>): (r: Option<seq<seq<byte>>>)
    ensures r.Some? ==> |r.value| == |data|
  {
    if data == [] then Some([])
    else match EncodeAll(encode, data[..|data| - 1])
      case None => None
      case Some(ps) =>
        match encode(data[|data| - 1])
        case None => None
        case Some(p) => Some(ps + [p])
  }

  /** Once a prefix of the batch fails to encode, the whole batch does. */
  lemma {:induction false} EncodePrefixFails<D>(encode: D -> Option<seq<byte>>, data: seq<D>, i: nat)
    requires i <= |data| && EncodeAll(encode, data[..i]).None?
    ensures EncodeAll(encode, data).None?
  {
    if i < |data| {
      assert data[..|data| - 1][..i] == data[..i];
      EncodePrefixFails(encode, data[..|data| - 1], i);
    } else {
      assert data[..i] == data;
    }
  }

  /** A successful encoding is exactly one successful encoding per item. */
  lemma {:induction false} EncodeAllItems<D>(encode: D -> Option<seq<byte>>, data: seq<D>)
    requires EncodeAll(encode, data).Some?
    ensures forall i :: 0 <= i < |data| ==> encode(data[i]) == Some(EncodeAll(encode, data).value[i])
  {
    if data != [] {
      var init := data[..|data| - 1];
      EncodeAllItems(encode, init);
      forall i | 0 <= i < |data|
        ensures encode(data[i]) == Some(EncodeAll(encode, data).value[i])
      {
        if i < |init| {
          assert data[i] == init[i];
        }
      }
    }
  }

  /** The batch fits below 4 GiB, so that no uint32 offset wraps (vacuous
      when the batch does not encode: then nothing is written). */
  predicate Fits<D>(b: seq<byte>, encode: D -> Option<seq<byte>>, data: seq<D>) {
    EncodeAll(encode, data).Some? ==> |b| + BatchSize(EncodeAll(encode, data).value) < TWO32
  }

  // ------------------------------------------------------------ queries

  /** Second t, if it lies in the day, has a chain that leads forward. */
  ghost predicate WalkableAt(b: seq<byte>, begin: int, t: int) {
    InDay(begin, t) ==> ChainOk(b, t, SlotAt(b, begin, t).first)
  }

  /** Every second of the day has a walk that ends. */
  ghost predicate Walkable(b: seq<byte>, begin: int) {
    forall t {:trigger WalkableAt(b, begin, t)} :: WalkableAt(b, begin, t)
  }

  lemma WalkableOf(b: seq<byte>, begin: int, sh: Shape)
    requires WellFormed(b, begin, sh)
    ensures Walkable(b, begin)
  {
    forall t ensures WalkableAt(b, begin, t) {
      if InDay(begin, t) {
        TimelineOfWellFormed<int>(b, begin, sh, t, _ => None);
      }
    }
  }

  /** What queryByTimeline(t) adds to the caller's list, on the window
      [begin, begin + 86400): a closed file reads every slot as (0, 0). */
  function Timeline<R>(b: seq<byte>, begin: int, closed: bool, t: int, decode: seq<byte> -> Option<R>): Result<seq<R>>
    requires Walkable(b, begin)
  {
    if !InDay(begin, t) then Err(BeyondScope)
    else if closed then Ok([])
    else assert WalkableAt(b, begin, t); Walk(b, t, SlotAt(b, begin, t).first, decode)
  }

  /** The records the query of second s of a well-formed file returns: the
      decodable payloads of its chain, or nothing when s is outside
      [0, 2^32), since only the low word of the stamp is compared. */
  ghost function Stored<R>(b: seq<byte>, begin: int, sh: Shape, s: int, decode: seq<byte> -> Option<R>): seq<R>
    requires InDay(begin, s) && |sh.chains| == TimelineLengthOfDay
  {
    if 0 <= s < TWO32 then Decoded(decode, Records(b, sh.chains[s - begin])) else []
  }

  /** In a well-formed open file a query of a second of the day succeeds
      with the records stored for it; outside the day it is refused. */
  lemma TimelineOfStored<R>(b: seq<byte>, begin: int, sh: Shape, closed: bool, t: int, decode: seq<byte> -> Option<R>)
    requires WellFormed(b, begin, sh)
    ensures Walkable(b, begin)
    ensures Timeline(b, begin, closed, t, decode)
         == if !InDay(begin, t) then Err(BeyondScope) else if closed then Ok([]) else Ok(Stored(b, begin, sh, t, decode))
  {
    WalkableOf(b, begin, sh);
    if InDay(begin, t) && !closed {
      TimelineOfWellFormed(b, begin, sh, t, decode);
    }
  }

  lemma {:induction false} DecodedAppend<R>(decode: seq<byte> -> Option<R>, xs: seq<seq<byte>>, ys: seq<seq<byte>>)
    ensures Decoded(decode, xs + ys) == Decoded(decode, xs) + Decoded(decode, ys)
    decreases |xs|
  {
    if xs == [] {
      assert xs + ys == ys;
    } else {
      assert (xs + ys)[0] == xs[0] && (xs + ys)[1..] == xs[1..] + ys;
      DecodedAppend(decode, xs[1..], ys);
    }
  }

  /** Write then query: after a batch is written at t, the query of t
      returns what it returned before followed by the batch's records that
      decode, in order; every other second returns what it did. */
  lemma WriteThenQuery<R>(b: seq<byte>, begin: int, sh: Shape, t: int, ps: seq<seq<byte>>,
                          decode: seq<byte> -> Option<R>, s: int)
    requires WellFormed(b, begin, sh) && InDay(begin, t) && ps != [] && |b| + BatchSize(ps) < TWO32
    requires InDay(begin, s)
    ensures WellFormed(WriteImage(b, begin, t, ps), begin, WriteShape(sh, begin, t, |b|, ps))
    ensures s != t ==>
              (Stored(WriteImage(b, begin, t, ps), begin, WriteShape(sh, begin, t, |b|, ps), s, decode)
               == Stored(b, begin, sh, s, decode))
    ensures s == t ==>
              (Stored(WriteImage(b, begin, t, ps), begin, WriteShape(sh, begin, t, |b|, ps), s, decode)
               == Stored(b, begin, sh, s, decode) + (if 0 <= t < TWO32 then Decoded(decode, ps) else []))
  {
    WriteKeepsWellFormed(b, begin, sh, t, ps);
    if s == t {
      WriteAppendsRecords(b, begin, sh, t, ps);
      DecodedAppend(decode, Records(b, sh.chains[t - begin]), ps);
    } else {
      WriteKeepsOthers(b, begin, sh, t, ps, s);
    }
  }

  /** QueryBetween's loop over the seconds s..last: each second's query
      result becomes the entry for s (an empty list after a short read);
      any other error stops the loop, keeping the entries set so far. */
  function Between<R>(b: seq<byte>, begin: int, closed: bool, s: int, last: int,
                      decode: seq<byte> -> Option<R>, m: map<int, seq<R>>): (map<int, seq<R>>, Result<()>)
    requires Walkable(b, begin)
    decreases last - s
  {
    if s > last then (m, Ok(()))
    else
      var q := Timeline(b, begin, closed, s, decode);
      if q.Err? && q.error != ReadEOF then (m, Err(q.error))
      else Between(b, begin, closed, s + 1, last, decode, m[s := if q.Ok? then q.value else []])
  }

  /** One second of Between that neither aborts nor ends the walk. */
  lemma BetweenNext<R>(b: seq<byte>, begin: int, closed: bool, s: int, last: int,
                       decode: seq<byte> -> Option<R>, m: map<int, seq<R>>, q: Result<seq<R>>)
    requires Walkable(b, begin) && s <= last && q == Timeline(b, begin, closed, s, decode)
    requires !(q.Err? && q.error != ReadEOF)
    ensures Between(b, begin, closed, s, last, decode, m)
         == Between(b, begin, closed, s + 1, last, decode, m[s := if q.Ok? then q.value else []])
  {
  }

  /** A second whose query fails with anything but a short read stops
      Between with that error. */
  lemma BetweenStops<R>(b: seq<byte>, begin: int, closed: bool, s: int, last: int,
                        decode: seq<byte> -> Option<R>, m: map<int, seq<R>>, q: Result<seq<R>>)
    requires Walkable(b, begin) && s <= last && q == Timeline(b, begin, closed, s, decode)
    requires q.Err? && q.error != ReadEOF
    ensures Between(b, begin, closed, s, last, decode, m) == (m, Err(q.error))
  {
  }

  /** Past last, Between adds nothing. */
  lemma BetweenDone<R>(b: seq<byte>, begin: int, closed: bool, s: int, last: int,
                       decode: seq<byte> -> Option<R>, m: map<int, seq<R>>)
    requires Walkable(b, begin) && s > last
    ensures Between(b, begin, closed, s, last, decode, m) == (m, Ok(()))
  {
  }

  function Max(x: int, y: int): int { if x < y then y else x }
  function Min(x: int, y: int): int { if x < y then x else y }

  /** QueryBetween(lo, hi) on the file: refused unless [lo, hi] meets the
      day, that is hi >= begin and lo < end; otherwise every second of
      [lo, hi] that lies in the day. (The Go code refuses hi == begin too and
      also visits the second end: see WindowAsWritten.) */
  function Window<R>(b: seq<byte>, begin: int, closed: bool, lo: int, hi: int,
                     decode: seq<byte> -> Option<R>, m: map<int, seq<R>>): (map<int, seq<R>>, Result<()>)
    requires Walkable(b, begin)
  {
    if !(hi >= begin && lo < begin + TimelineLengthOfDay) then (m, Err(BeyondScope))
    else Between(b, begin, closed, Max(lo, begin), Min(hi, begin + TimelineLengthOfDay - 1), decode, m)
  }

  /** The entries a query of the seconds s..last of a well-formed file adds. */
  ghost function Entries<R>(b: seq<byte>, begin: int, sh: Shape, closed: bool, s: int, last: int,
                            decode: seq<byte> -> Option<R>): map<int, seq<R>>
    requires |sh.chains| == TimelineLengthOfDay
  {
    map x | s <= x <= last && InDay(begin, x) :: if closed then [] else Stored(b, begin, sh, x, decode)
  }

  /** Every query of s..last succeeds. */
  ghost predicate AllAnswer<R>(b: seq<byte>, begin: int, closed: bool, s: int, last: int, decode: seq<byte> -> Option<R>)
    requires Walkable(b, begin)
  {
    forall x :: s <= x <= last ==> Timeline(b, begin, closed, x, decode).Ok?
  }

  /** The results of the queries of s..last that succeed, by second. */
  ghost function Answers<R>(b: seq<byte>, begin: int, closed: bool, s: int, last: int,
                            decode: seq<byte> -> Option<R>): map<int, seq<R>>
    requires Walkable(b, begin)
  {
    map x | s <= x <= last && Timeline(b, begin, closed, x, decode).Ok? :: Timeline(b, begin, closed, x, decode).value
  }

  /** When every query succeeds, the loop enters each result under its
      second and reports success. */
  lemma {:induction false} BetweenAnswers<R>(b: seq<byte>, begin: int, closed: bool, s: int, last: int,
                                             decode: seq<byte> -> Option<R>, m: map<int, seq<R>>)
    requires Walkable(b, begin) && AllAnswer(b, begin, closed, s, last, decode)
    ensures Between(b, begin, closed, s, last, decode, m) == (m + Answers(b, begin, closed, s, last, decode), Ok(()))
    decreases last - s
  {
    if s > last {
      assert Answers(b, begin, closed, s, last, decode) == map[];
      assert m + map[] == m;
    } else {
      assert Timeline(b, begin, closed, s, decode).Ok?;
      var v := Timeline(b, begin, closed, s, decode).value;
      BetweenAnswers(b, begin, closed, s + 1, last, decode, m[s := v]);
      AnswersStep(b, begin, closed, s, last, decode, v);
      MapUnionStep(m, s, v, Answers(b, begin, closed, s + 1, last, decode), Answers(b, begin, closed, s, last, decode));
    }
  }

  lemma AnswersStep<R>(b: seq<byte>, begin: int, closed: bool, s: int, last: int,
                       decode: seq<byte> -> Option<R>, v: seq<R>)
    requires Walkable(b, begin) && s <= last && Timeline(b, begin, closed, s, decode) == Ok(v)
    ensures Answers(b, begin, closed, s, last, decode) == Answers(b, begin, closed, s + 1, last, decode)[s := v]
  {
  }

  lemma MapUnionStep<K, V>(m: map<K, V>, k: K, v: V, e': map<K, V>, e: map<K, V>)
    requires e == e'[k := v] && k !in e'
    ensures m[k := v] + e' == m + e
  {
  }

  /** In a well-formed file the queries of s..last inside the day all
      succeed, with the records stored for each second. */
  lemma AnswersOfWellFormed<R>(b: seq<byte>, begin: int, sh: Shape, closed: bool, s: int, last: int,
                               decode: seq<byte> -> Option<R>)
    requires WellFormed(b, begin, sh) && begin <= s && last < begin + TimelineLengthOfDay
    ensures Walkable(b, begin)
    ensures AllAnswer(b, begin, closed, s, last, decode)
    ensures Answers(b, begin, closed, s, last, decode) == Entries(b, begin, sh, closed, s, last, decode)
  {
    WalkableOf(b, begin, sh);
    forall x | s <= x <= last
      ensures Timeline(b, begin, closed, x, decode) == Ok(if closed then [] else Stored(b, begin, sh, x, decode))
    {
      TimelineOfStored(b, begin, sh, closed, x, decode);
    }
  }

  /** On a well-formed file the loop never fails and gives every second of
      s..last an entry, the seconds without records included. */
  lemma BetweenOfWellFormed<R>(b: seq<byte>, begin: int, sh: Shape, closed: bool, s: int, last: int,
                               decode: seq<byte> -> Option<R>, m: map<int, seq<R>>)
    requires WellFormed(b, begin, sh) && begin <= s && last < begin + TimelineLengthOfDay
    ensures Walkable(b, begin)
    ensures Between(b, begin, closed, s, last, decode, m) == (m + Entries(b, begin, sh, closed, s, last, decode), Ok(()))
  {
    AnswersOfWellFormed(b, begin, sh, closed, s, last, decode);
    BetweenAnswers(b, begin, closed, s, last, decode, m);
  }

  /** A query of [lo, hi] that reaches into the file gives exactly the
      seconds of [lo, hi] inside the day an entry each. */
  lemma WindowOfWellFormed<R>(b: seq<byte>, begin: int, sh: Shape, closed: bool, lo: int, hi: int,
                              decode: seq<byte> -> Option<R>, m: map<int, seq<R>>)
    requires WellFormed(b, begin, sh)
    ensures Walkable(b, begin)
    ensures Window(b, begin, closed, lo, hi, decode, m)
         == if hi >= begin && lo < begin + TimelineLengthOfDay
            then (m + Entries(b, begin, sh, closed, lo, hi, decode), Ok(()))
            else (m, Err(BeyondScope))
  {
    WalkableOf(b, begin, sh);
    if hi >= begin && lo < begin + TimelineLengthOfDay {
      var s, last := Max(lo, begin), Min(hi, begin + TimelineLengthOfDay - 1);
      BetweenOfWellFormed(b, begin, sh, closed, s, last, decode, m);
      assert Entries(b, begin, sh, closed, s, last, decode) == Entries(b, begin, sh, closed, lo, hi, decode);
    }
  }

  // ------------------------------------------------------------ writes

  /** What Write(t, data) returns, in the order the Go code checks. */
  function WriteResult<D>(begin: int, closed: bool, t: int, data: seq<D>, encode: D -> Option<seq<byte>>): Result<()> {
    if data == [] then Ok(())
    else if !InDay(begin, t) then Err(BeyondScope)
    else if closed then Err(FileClosed)
    else if EncodeAll(encode, data).None? then Err(EncodeFailed)
    else Ok(())
  }

  /** The uint32 arithmetic of the write loop's next link:
      uint32(position) + DataHeaderLen + uint32(len(outdata)). */
  lemma NextAddress(pos: int, size: nat, len: nat)
    ensures ((pos + size) % TWO32 + DataHeaderLen + (len % TWO32)) % TWO32 == (pos + size + DataHeaderLen + len) % TWO32
  {
    var x := pos + size;
    assert x == TWO32 * (x / TWO32) + x % TWO32;
    assert len == TWO32 * (len / TWO32) + len % TWO32;
    ModShift(x % TWO32 + DataHeaderLen + len % TWO32, x / TWO32 + len / TWO32);
  }

  /** One more frame of the write buffer. */
  lemma BatchGrows(pos: int, t: int, ps: seq<seq<byte>>, p: seq<byte>, final: bool, next: u32)
    requires next == if final then 0 else (pos + BatchSize(ps) + DataHeaderLen + |p|) % TWO32
    ensures BatchSize(ps + [p]) == BatchSize(ps) + DataHeaderLen + |p|
    ensures Batch(pos, t, ps + [p], final) == Batch(pos, t, ps, false) + FrameBytes(t, next, p)
  {
    assert (ps + [p])[..|ps|] == ps;
  }

  /** One step of the walk along a link to a frame not yet read: the frame
      at off is kept (if it decodes) and the walk goes on at its next link. */
  lemma WalkStep<R>(b: seq<byte>, t: int, off: nat, seen: set<nat>, decode: seq<byte> -> Option<R>, acc: seq<R>)
    requires off !in seen && off != 0 && off + DataHeaderLen <= |b| && TsLo(b, off) == t
    requires NextOf(b, off) != 0 && NextOf(b, off) !in seen + {off}
    ensures Prepend(acc, GuardedWalk(b, t, off, seen, decode))
         == Prepend(acc + Keep(decode, PayloadAt(b, off)), GuardedWalk(b, t, NextOf(b, off), seen + {off}, decode))
  {
    var k := Keep(decode, PayloadAt(b, off));
    match GuardedWalk(b, t, NextOf(b, off), seen + {off}, decode)
    case Ok(ys) => assert acc + (k + ys) == acc + k + ys;
    case Err(e) =>
  }

  /** The last step of the walk: a link to 0, back to a frame already read
      or to the frame itself ends it after the frame at off. */
  lemma WalkStops<R>(b: seq<byte>, t: int, off: nat, seen: set<nat>, decode: seq<byte> -> Option<R>, acc: seq<R>)
    requires off !in seen && off != 0 && off + DataHeaderLen <= |b| && TsLo(b, off) == t
    requires NextOf(b, off) == 0 || NextOf(b, off) in seen + {off}
    ensures Prepend(acc, GuardedWalk(b, t, off, seen, decode)) == Ok(acc + Keep(decode, PayloadAt(b, off)))
  {
  }

  /** The words of a frame header read into its own buffer. */
  lemma ReadHeaderWords(b: seq<byte>, o: nat)
    requires o + DataHeaderLen <= |b|
    ensures U32(b[o..o + DataHeaderLen], 0) == TsLo(b, o)
    ensures U32(b[o..o + DataHeaderLen], 8) == NextOf(b, o)
    ensures U32(b[o..o + DataHeaderLen], 12) == LenOf(b, o)
  {
    var h := b[o..o + DataHeaderLen];
    assert h[0..4] == b[o..o + 4] && h[8..12] == b[o + 8..o + 12] && h[12..16] == b[o + 12..o + 16];
    U32OfAgreeing(h, b, 0, o);
    U32OfAgreeing(h, b, 8, o + 8);
    U32OfAgreeing(h, b, 12, o + 12);
  }

  /** queryByTimeline's loop: from first, read each frame header, stop at
      a short read (with its error) or at a frame stamped with another
      second, keep the payload if it decodes, and follow its next link
      until it is 0. The loop also remembers the frames it has read and
      stops at a link back to one of them, a cycle the Go loop follows for
      ever (see Findings); wherever the Go loop leaves, forward links or
      not, it returns what the Go loop returns. */
  method WalkChain<R>(b: seq<byte>, t: int, first: nat, decode: seq<byte> -> Option<R>) returns (r: Result<seq<R>>)
    ensures r == GuardedWalk(b, t, first, {}, decode)
    ensures forall n: nat :: LoopRun(b, t, first, n, decode).Some? ==> r == LoopRun(b, t, first, n, decode).value
    ensures ChainOk(b, t, first) ==> r == Walk(b, t, first, decode)
  {
    forall n: nat | LoopRun(b, t, first, n, decode).Some?
      ensures GuardedWalk(b, t, first, {}, decode) == LoopRun(b, t, first, n, decode).value
    {
      GuardedWalkWhereLoopEnds(b, t, first, n, decode);
    }
    if ChainOk(b, t, first) {
      GuardedWalkAgrees(b, t, first, decode);
    }
    var next: nat := first;
    var seen: set<nat> := {};
    var acc: seq<R> := [];
    assert GuardedWalk(b, t, first, {}, decode) == Prepend(acc, GuardedWalk(b, t, next, seen, decode)) by {
      match GuardedWalk(b, t, first, {}, decode)
      case Ok(ys) => assert [] + ys == ys;
      case Err(e) =>
    }
    while next != 0
      invariant next !in seen
      invariant GuardedWalk(b, t, first, {}, decode) == Prepend(acc, GuardedWalk(b, t, next, seen, decode))
      decreases Offsets(b) - seen
    {
      if next + DataHeaderLen > |b| {
        return Err(ReadEOF);
      }
      var header := b[next..next + DataHeaderLen];
      ReadHeaderWords(b, next);
      if U32(header, 0) != t {
        break;
      }
      var payload := ReadZ(b, next + DataHeaderLen, U32(header, 12));
      var nextdata := U32(header, 8);
      if nextdata == 0 || nextdata in seen || nextdata == next {
        WalkStops(b, t, next, seen, decode, acc);
        return Ok(acc + Keep(decode, payload));
      }
      WalkStep(b, t, next, seen, decode, acc);
      InPositions(|b|, next);
      acc := acc + Keep(decode, payload);
      seen := seen + {next};
      next := nextdata;
    }
    assert acc + [] == acc;
    return Ok(acc);
  }

  lemma EncodeStep<D>(encode: D -> Option<seq<byte>>, data: seq<D>, i: nat, ps: seq<seq<byte>>, p: seq<byte>)
    requires i < |data| && EncodeAll(encode, data[..i]) == Some(ps) && encode(data[i]) == Some(p)
    ensures EncodeAll(encode, data[..i + 1]) == Some(ps + [p])
  {
    assert data[..i + 1][..i] == data[..i];
  }

  lemma EncodeStepFails<D>(encode: D -> Option<seq<byte>>, data: seq<D>, i: nat)
    requires i < |data| && EncodeAll(encode, data[..i]).Some? && encode(data[i]).None?
    ensures EncodeAll(encode, data).None?
  {
    assert data[..i + 1][..i] == data[..i];
    EncodePrefixFails(encode, data, i + 1);
  }

  /** The buffer holds the frames of ps laid out from pos, and last is the
      position of the last of them. */
  ghost predicate Built(pos: nat, t: int, ps: seq<seq<byte>>, final: bool, out: seq<byte>, last: u32) {
    && out == Batch(pos, t, ps, final) && |out| == BatchSize(ps)
    && (ps != [] ==> last == (pos + BatchSize(ps[..|ps| - 1])) % TWO32)
  }

  /** Appending the frame the loop lays out for payload p extends the
      buffer of the earlier frames to the buffer of the longer batch. */
  lemma BuildStep(pos: nat, t: int, ps: seq<seq<byte>>, p: seq<byte>, final: bool, out: seq<byte>, last: u32, next: u32)
    requires Built(pos, t, ps, false, out, last)
    requires next == if final then 0 else ((pos + |out|) % TWO32 + DataHeaderLen + (|p| % TWO32)) % TWO32
    ensures Built(pos, t, ps + [p], final, out + FrameBytes(t, next, p), (pos + |out|) % TWO32)
  {
    BuildBytes(pos, t, ps, p, final, out, next);
    FrameBytesLength(t, next, p);
    BuildLength(pos, ps, p, out, FrameBytes(t, next, p));
  }

  lemma BuildBytes(pos: nat, t: int, ps: seq<seq<byte>>, p: seq<byte>, final: bool, out: seq<byte>, next: u32)
    requires out == Batch(pos, t, ps, false) && |out| == BatchSize(ps)
    requires next == if final then 0 else ((pos + |out|) % TWO32 + DataHeaderLen + (|p| % TWO32)) % TWO32
    ensures out + FrameBytes(t, next, p) == Batch(pos, t, ps + [p], final)
  {
    NextAddress(pos, |out|, |p|);
    BatchGrows(pos, t, ps, p, final, next);
  }

  lemma BuildLength(pos: nat, ps: seq<seq<byte>>, p: seq<byte>, out: seq<byte>, frame: seq<byte>)
    requires |out| == BatchSize(ps) && |frame| == DataHeaderLen + |p|
    ensures |out + frame| == BatchSize(ps + [p])
    ensures (pos + |out|) % TWO32 == (pos + BatchSize((ps + [p])[..|ps + [p]| - 1])) % TWO32
  {
    assert (ps + [p])[..|ps|] == ps;
  }

  /** Lay out one frame behind the buffer: it points at the frame that
      follows it, or at 0 when it is the batch's last, and becomes the
      batch's new tail. */
  method AddFrame(pos: nat, t: int, ghost ps: seq<seq<byte>>, p: seq<byte>, final: bool, out: seq<byte>, ghost last: u32)
    returns (out': seq<byte>, last': u32)
    requires Built(pos, t, ps, false, out, last)
    ensures Built(pos, t, ps + [p], final, out', last')
  {
    var position := pos + |out|;
    var next: u32 := 0;
    if !final {
      next := ((position % TWO32) + DataHeaderLen + (|p| % TWO32)) % TWO32;
    }
    BuildStep(pos, t, ps, p, final, out, last, next);
    out' := out + FrameBytes(t, next, p);
    last' := position % TWO32;
  }

  /** Write's encoding loop: marshal each item and lay out its frame at
      the position it will have once the buffer is appended at writePos;
      every frame points at the next one and the last at 0. Also returns
      the position of the last frame (as uint32), which becomes the slot's
      new tail. An item that fails to encode ends the loop with nothing
      built. */
  method EncodeBatch<D>(writePos: nat, t: int, data: seq<D>, encode: D -> Option<seq<byte>>)
    returns (buf: Option<seq<byte>>, last: u32)
    requires data != []
    ensures EncodeAll(encode, data).None? ==> buf.None?
    ensures EncodeAll(encode, data).Some? ==>
              var ps := EncodeAll(encode, data).value;
              buf == Some(Batch(writePos, t, ps, true)) && last == (writePos + BatchSize(ps[..|ps| - 1])) % TWO32
  {
    var out: seq<byte> := [];
    last := 0;
    ghost var ps: seq<seq<byte>> := [];
    var i := 0;
    while i < |data|
      invariant 0 <= i <= |data| && |ps| == i
      invariant EncodeAll(encode, data[..i]) == Some(ps)
      invariant Built(writePos, t, ps, i == |data|, out, last)
    {
      var item := encode(data[i]);
      if item.None? {
        EncodeStepFails(encode, data, i);
        return None, last;
      }
      out, last := AddFrame(writePos, t, ps, item.value, i + 1 == |data|, out, last);
      EncodeStep(encode, data, i, ps, item.value);
      ps := ps + [item.value];
      i := i + 1;
    }
    assert data[..i] == data;
    return Some(out), last;
  }

  /** Write's steps in the Go code's order make up WriteImage: the tail's
      next link patched (when the chain has a tail), the buffer appended
      at the old end of file, the new slot stored. */
  lemma WriteSteps(b: seq<byte>, begin: int, sh: Shape, t: int, ps: seq<seq<byte>>, m: TimelineMateInfo, linkedOfLast: int,
                   linked: seq<byte>, buf: seq<byte>, slot: TimelineMateInfo, w: seq<byte>)
    requires WellFormed(b, begin, sh) && Staged(b, begin, t, ps, m, linkedOfLast, buf, slot)
    requires linked == (if linkedOfLast > 0 then Patch(b, linkedOfLast, Le32(|b| % TWO32)) else b) + buf
    requires w == StoreSlot(linked, begin, t, slot)
    ensures w == WriteImage(b, begin, t, ps)
    ensures WellFormed(w, begin, WriteShape(sh, begin, t, |b|, ps))
  {
    WriteStepsImage(b, begin, t, ps, m, linkedOfLast, linked, buf, slot, w);
    WriteKeepsWellFormed(b, begin, sh, t, ps);
  }

  lemma WriteStepsImage(b: seq<byte>, begin: int, t: int, ps: seq<seq<byte>>, m: TimelineMateInfo, linkedOfLast: int,
                        linked: seq<byte>, buf: seq<byte>, slot: TimelineMateInfo, w: seq<byte>)
    requires Staged(b, begin, t, ps, m, linkedOfLast, buf, slot)
    requires linked == (if linkedOfLast > 0 then Patch(b, linkedOfLast, Le32(|b| % TWO32)) else b) + buf
    requires w == StoreSlot(linked, begin, t, slot)
    ensures w == WriteImage(b, begin, t, ps)
  {
    WriteImageSplit(b, begin, t, ps);
    LinkTailIs(b, m.last, |b|);
    assert TailOf(b, begin, t) == m.last;
  }

  /** What WriteBatch holds after encoding is what Append needs. */
  lemma StagedOf(b: seq<byte>, begin: int, t: int, ps: seq<seq<byte>>, m: TimelineMateInfo,
                 linkedOfLast: int, buf: seq<byte>, slot: TimelineMateInfo)
    requires InDay(begin, t) && ps != [] && |b| + BatchSize(ps) < TWO32 && m == SlotAt(b, begin, t)
    requires linkedOfLast == (if m.last != 0 then m.last + NextDataOffset else 0)
    requires buf == Batch(|b|, t, ps, true)
    requires slot == NewSlot(m, |b|, ps)
    ensures Staged(b, begin, t, ps, m, linkedOfLast, buf, slot)
  {
  }

  lemma SlotIs(m: TimelineMateInfo, eof: nat, ps: seq<seq<byte>>, slot: TimelineMateInfo)
    requires ps != []
    requires slot.first == (if m.first == 0 then eof % TWO32 else m.first)
    requires slot.last == (eof + BatchSize(ps[..|ps| - 1])) % TWO32
    ensures slot == NewSlot(m, eof, ps)
  {
  }

  // ------------------------------------------------------------ the file

  class StoreFile {
    /** TimelineBegin: the day baseline; TimelineEnd = begin + 86400. */
    const begin: int
    const end: int
    /** The contents of the file on disk. */
    var file: seq<byte>
    /** Close has set the os.File to nil. */
    var closed: bool
    /** The frames and chains the file holds. */
    ghost var shape: Shape

    ghost predicate Valid()
      reads this
    {
      end == begin + TimelineLengthOfDay && WellFormed(file, begin, shape)
    }

    /** init: create the file with the magic word, the baseline and 86400
        empty slots. */
    constructor Init(baseline: int)
      ensures Valid() && begin == baseline && !closed
      ensures file == InitImage(baseline) && shape == EmptyShape(baseline)
    {
      begin := baseline;
      end := baseline + TimelineLengthOfDay;
      var img: seq<byte> := Le64(Magic) + Le64(baseline);
      var i := 0;
      while i < TimelineLengthOfDay
        invariant 0 <= i <= TimelineLengthOfDay
        invariant img == Le64(Magic) + Le64(baseline) + seq(MateInfoSize * i, _ => 0)
      {
        assert Le32(0) + Le32(0) == seq(MateInfoSize, _ => 0);
        img := img + Le32(0) + Le32(0);
        i := i + 1;
      }
      file := img;
      closed := false;
      shape := EmptyShape(baseline);
      InitImageEmpty(baseline);
    }

    /** open: an existing file with its contents. */
    constructor Open(baseline: int, contents: seq<byte>, ghost sh: Shape)
      requires WellFormed(contents, baseline, sh)
      ensures Valid() && begin == baseline && !closed
      ensures file == contents && shape == sh
    {
      begin := baseline;
      end := baseline + TimelineLengthOfDay;
      file := contents;
      closed := false;
      shape := sh;
    }

    /** ReadMateInfo: the slot of t, for begin <= t <= end (the bound the Go
        code checks). On a closed file the read fails and leaves the buffer
        zero. */
    method ReadMateInfo(t: int) returns (r: Result<TimelineMateInfo>)
      requires end == begin + TimelineLengthOfDay
      ensures !InMateRange(begin, t) ==> r == Err(BeyondScope)
      ensures InMateRange(begin, t) ==> r == Ok(if closed then EmptySlot else SlotAt(file, begin, t))
    {
      if t < begin || t > end {
        return Err(BeyondScope);
      }
      if closed {
        return Ok(EmptySlot);
      }
      var buf := ReadZ(file, MateInfoSize * (t - begin) + FileHeaderOffset, MateInfoSize);
      return Ok(TimelineMateInfo(U32(buf, 0), U32(buf, 4)));
    }

    /** writeMateInfo: store m as the slot of t, for begin <= t <= end. */
    method WriteMateInfo(t: int, m: TimelineMateInfo) returns (r: Result<()>)
      requires end == begin + TimelineLengthOfDay
      modifies this
      ensures closed == old(closed) && shape == old(shape)
      ensures !InMateRange(begin, t) ==> r == Err(BeyondScope) && file == old(file)
      ensures InMateRange(begin, t) ==> r == Ok(())
      ensures InMateRange(begin, t) ==> file == if closed then old(file) else StoreSlot(old(file), begin, t, m)
    {
      if t < begin || t > end {
        return Err(BeyondScope);
      }
      if !closed {
        file := Patch(file, MateInfoSize * (t - begin) + FileHeaderOffset, Le32(m.first) + Le32(m.last));
      }
      return Ok(());
    }

    /** Write(t, data...): encode the batch into one buffer of linked
        frames, link it behind the chain's old tail, append it at the end of
        the file and update the slot of t. */
    method Write<D>(t: int, data: seq<D>, encode: D -> Option<seq<byte>>) returns (r: Result<()>)
      requires Valid() && Fits(file, encode, data)
      modifies this
      ensures Valid() && closed == old(closed)
      ensures r == WriteResult(begin, closed, t, data, encode)
      ensures r.Ok? && data != [] ==>
                file == WriteImage(old(file), begin, t, EncodeAll(encode, data).value)
                && shape == WriteShape(old(shape), begin, t, |old(file)|, EncodeAll(encode, data).value)
      ensures !(r.Ok? && data != []) ==> file == old(file) && shape == old(shape)
    {
      if |data| == 0 {
        return Ok(());
      }
      if !InDay(begin, t) {
        return Err(BeyondScope);
      }
      var meta := ReadMateInfo(t);
      if closed {
        return Err(FileClosed);
      }
      r := WriteBatch(t, data, encode, meta.value);
    }

    /** Write once the slot of t is read: encode the batch, then Append it. */
    method WriteBatch<D>(t: int, data: seq<D>, encode: D -> Option<seq<byte>>, m: TimelineMateInfo) returns (r: Result<()>)
      requires Valid() && !closed && InDay(begin, t) && data != [] && Fits(file, encode, data)
      requires m == SlotAt(file, begin, t)
      modifies this
      ensures Valid() && closed == old(closed)
      ensures r == if EncodeAll(encode, data).None? then Err(EncodeFailed) else Ok(())
      ensures r.Ok? ==>
                file == WriteImage(old(file), begin, t, EncodeAll(encode, data).value)
                && shape == WriteShape(old(shape), begin, t, |old(file)|, EncodeAll(encode, data).value)
      ensures r.Err? ==> file == old(file) && shape == old(shape)
    {
      var writePos := |file|;
      var linkedOfLast := if m.last != 0 then m.last + NextDataOffset else 0;
      var first: u32 := if m.first == 0 then writePos % TWO32 else m.first;
      var buf, last := EncodeBatch(writePos, t, data, encode);
      if buf.None? {
        return Err(EncodeFailed);
      }
      Stage(t, EncodeAll(encode, data).value, m, linkedOfLast, buf.value, first, last);
      return Ok(());
    }

    /** Write once the batch is encoded and the new slot's ends are known:
        the new slot is the one the write image stores, so Append applies. */
    method Stage(t: int, ghost ps: seq<seq<byte>>, m: TimelineMateInfo, linkedOfLast: int, buf: seq<byte>, first: u32, last: u32)
      requires Valid() && !closed && InDay(begin, t) && ps != [] && |file| + BatchSize(ps) < TWO32
      requires m == SlotAt(file, begin, t) && linkedOfLast == (if m.last != 0 then m.last + NextDataOffset else 0)
      requires first == (if m.first == 0 then |file| % TWO32 else m.first)
      requires buf == Batch(|file|, t, ps, true) && last == (|file| + BatchSize(ps[..|ps| - 1])) % TWO32
      modifies this
      ensures Valid() && closed == old(closed)
      ensures file == WriteImage(old(file), begin, t, ps)
      ensures shape == WriteShape(old(shape), begin, t, |old(file)|, ps)
    {
      var slot := TimelineMateInfo(first, last);
      SlotIs(m, |file|, ps, slot);
      StagedOf(file, begin, t, ps, m, linkedOfLast, buf, slot);
      Append(t, ps, m, linkedOfLast, buf, slot);
    }

    /** Write once the batch is encoded: Commit, which keeps the file well
        formed, with the new frames added to the chain of t. */
    method Append(t: int, ghost ps: seq<seq<byte>>, m: TimelineMateInfo, linkedOfLast: int, buf: seq<byte>, slot: TimelineMateInfo)
      requires Valid() && !closed && Staged(file, begin, t, ps, m, linkedOfLast, buf, slot)
      modifies this
      ensures Valid() && closed == old(closed)
      ensures file == WriteImage(old(file), begin, t, ps)
      ensures shape == WriteShape(old(shape), begin, t, |old(file)|, ps)
    {
      ghost var b, sh := file, shape;
      ghost var linked := (if linkedOfLast > 0 then Patch(b, linkedOfLast, Le32(|b| % TWO32)) else b) + buf;
      WriteSteps(b, begin, sh, t, ps, m, linkedOfLast, linked, buf, slot, StoreSlot(linked, begin, t, slot));
      Commit(t, linkedOfLast, buf, slot, WriteShape(sh, begin, t, |b|, ps));
    }

    /** The second half of Write: link the old tail frame to the end of the
        file (when the second had frames), append the batch there and store
        the new slot of t. */
    method Commit(t: int, linkedOfLast: int, buf: seq<byte>, slot: TimelineMateInfo, ghost sh: Shape)
      requires end == begin + TimelineLengthOfDay && !closed && InDay(begin, t)
      modifies this
      ensures closed == old(closed) && shape == sh
      ensures file == StoreSlot((if linkedOfLast > 0 then Patch(old(file), linkedOfLast, Le32(|old(file)| % TWO32)) else old(file)) + buf, begin, t, slot)
    {
      var writePos := |file|;
      var img := file;
      if linkedOfLast > 0 {
        img := Patch(img, linkedOfLast, Le32(writePos % TWO32));
      }
      img := img + buf;
      file := img;
      var _ := WriteMateInfo(t, slot);
      shape := sh;
    }

    /** queryByTimeline(t): walk the chain of t from the slot's first
        frame; the records that decode are returned in chain order (on a
        well-formed file, every record stored at t: TimelineOfStored). The
        second end is refused here, although ReadMateInfo's inclusive bound
        lets the Go code read the first frame's stamp as its slot (see
        Findings.AsWrittenEndQueryReadsFrame). */
    method QueryByTimeline<R>(t: int, decode: seq<byte> -> Option<R>) returns (r: Result<seq<R>>)
      requires end == begin + TimelineLengthOfDay && Walkable(file, begin)
      ensures r == Timeline(file, begin, closed, t, decode)
    {
      if !InDay(begin, t) {
        return Err(BeyondScope);
      }
      var meta := ReadMateInfo(t);
      if closed {
        return Ok([]);
      }
      assert WalkableAt(file, begin, t);
      r := WalkChain(file, t, meta.value.first, decode);
    }

    /** QueryBetween(lo, hi): refuse a range that misses the day; otherwise
        query every second of [lo, hi] inside [begin, end) and enter its
        result under its second, however many records it has. */
    method QueryBetween<R>(lo: int, hi: int, decode: seq<byte> -> Option<R>, m0: map<int, seq<R>>)
      returns (m: map<int, seq<R>>, r: Result<()>)
      requires Valid()
      ensures Walkable(file, begin)
      ensures (m, r) == Window(file, begin, closed, lo, hi, decode, m0)
      ensures (m, r) == if hi >= begin && lo < end
                        then (m0 + Entries(file, begin, shape, closed, lo, hi, decode), Ok(()))
                        else (m0, Err(BeyondScope))
    {
      WindowOfWellFormed(file, begin, shape, closed, lo, hi, decode, m0);
      m := m0;
      if !(hi >= begin && lo < end) {
        return m, Err(BeyondScope);
      }
      m, r := Scan(Max(lo, begin), Min(hi, end - 1), decode, m0);
    }

    /** The loop of QueryBetween over the seconds s0..last of the day. */
    method Scan<R>(s0: int, last: int, decode: seq<byte> -> Option<R>, m0: map<int, seq<R>>)
      returns (m: map<int, seq<R>>, r: Result<()>)
      requires end == begin + TimelineLengthOfDay && Walkable(file, begin) && begin <= s0
      ensures (m, r) == Between(file, begin, closed, s0, last, decode, m0)
    {
      ghost var goal := Between(file, begin, closed, s0, last, decode, m0);
      m := m0;
      var s := s0;
      while s <= last
        invariant begin <= s
        invariant goal == Between(file, begin, closed, s, last, decode, m)
        decreases last - s
      {
        var m', stop := QuerySecond(s, last, decode, m);
        if stop.Some? {
          return m, Err(stop.value);
        }
        m := m';
        s := s + 1;
      }
      BetweenDone(file, begin, closed, s, last, decode, m);
      return m, Ok(());
    }

    /** One turn of that loop: the query of s, entered under s, or the
        error that stops the loop (a short read enters an empty list). */
    method QuerySecond<R>(s: int, last: int, decode: seq<byte> -> Option<R>, m: map<int, seq<R>>)
      returns (m': map<int, seq<R>>, stop: Option<Error>)
      requires end == begin + TimelineLengthOfDay && Walkable(file, begin) && begin <= s <= last
      ensures stop.Some? ==> Between(file, begin, closed, s, last, decode, m) == (m, Err(stop.value))
      ensures stop.None? ==>
                Between(file, begin, closed, s, last, decode, m) == Between(file, begin, closed, s + 1, last, decode, m')
    {
      var q := QueryByTimeline(s, decode);
      if q.Err? && q.error != ReadEOF {
        BetweenStops(file, begin, closed, s, last, decode, m, q);
        return m, Some(q.error);
      }
      BetweenNext(file, begin, closed, s, last, decode, m, q);
      return m[s := if q.Ok? then q.value else []], None;
    }

    /** Close: the file is released; later reads see zeros and writes fail. */
    method Close()
      modifies this
      ensures closed && file == old(file) && shape == old(shape)
    {
      closed := true;
    }
  }

  /** loadStoreFile: open the file of the day if it exists, create it when
      asked to, and otherwise report ErrorDBFileNotHit. */
  method LoadStoreFile(baseline: int, disk: map<int, seq<byte>>, ghost shapes: map<int, Shape>, autoCreated: bool)
    returns (r: Result<StoreFile>)
    requires baseline in disk ==> baseline in shapes && WellFormed(disk[baseline], baseline, shapes[baseline])
    ensures r.Ok? ==> fresh(r.value) && r.value.Valid() && r.value.begin == baseline && !r.value.closed
    ensures baseline in disk ==> r.Ok? && r.value.file == disk[baseline] && r.value.shape == shapes[baseline]
    ensures baseline !in disk && autoCreated ==>
              r.Ok? && r.value.file == InitImage(baseline) && r.value.shape == EmptyShape(baseline)
    ensures baseline !in disk && !autoCreated ==> r == Err(FileNotHit)
  {
    if baseline !in disk {
      if autoCreated {
        var f := new StoreFile.Init(baseline);
        return Ok(f);
      }
      return Err(FileNotHit);
    }
    var f := new StoreFile.Open(baseline, disk[baseline], shapes[baseline]);
    return Ok(f);
  }
}
