/** The database of snapsdb.go: a directory of day files, one per day
    baseline, and a cache of the day files it has opened. The disk is a map
    from baseline to the bytes of "{baseline}.bin"; the cache maps a
    baseline to its StoreFile object, whose bytes are the file on disk. */
module SnapsDB {
  import opened Bytes
  import opened Layout
  import opened DayImage
  import opened DayProofs
  import opened WriteProofs
  import opened StoreFiles

  // ------------------------------------------------------------ options

  /** dbOptions. The retention is counted in seconds. */
  datatype Options = Options(dataPath: string, retention: int, timeKeyFormat: string)

  /** What InitDB starts from before applying the options (the time key
      format is left empty). */
  const Defaults: Options := Options("./snapdb", TimestampOf7Day, "")

  function WithDataPath(dataPath: string): Options -> Options {
    (o: Options) => o.(dataPath := dataPath)
  }

  function WithDataRetention(value: int): Options -> Options {
    (o: Options) => o.(retention := value)
  }

  function WithTimeKeyFormat(value: string): Options -> Options {
    (o: Options) => o.(timeKeyFormat := value)
  }

  /** The options after applying opts to o, first to last. */
  function Apply(o: Options, opts: seq<Options -> Options>): Options
    decreases |opts|
  {
    if opts == [] then o else opts[|opts| - 1](Apply(o, opts[..|opts| - 1]))
  }

  /** Options are applied in order: a later one sees, and may override,
      what the earlier ones set. */
  lemma {:induction false} ApplyInOrder(o: Options, a: seq<Options -> Options>, b: seq<Options -> Options>)
    ensures Apply(o, a + b) == Apply(Apply(o, a), b)
    decreases |b|
  {
    if b == [] {
      assert a + b == a;
    } else {
      assert (a + b)[..|a + b| - 1] == a + b[..|b| - 1];
      ApplyInOrder(o, a, b[..|b| - 1]);
    }
  }

  /** The last WithDataPath decides the data path, whatever came before; the
      other settings are those of the options before it. */
  lemma LastDataPathWins(o: Options, a: seq<Options -> Options>, p: string, b: seq<Options -> Options>)
    requires forall i :: 0 <= i < |b| ==> forall x :: b[i](x).dataPath == x.dataPath
    ensures Apply(o, a + [WithDataPath(p)] + b).dataPath == p
  {
    ApplyInOrder(o, a + [WithDataPath(p)], b);
    assert (a + [WithDataPath(p)])[..|a|] == a;
    KeepsDataPath(Apply(o, a + [WithDataPath(p)]), b);
  }

  lemma {:induction false} KeepsDataPath(o: Options, b: seq<Options -> Options>)
    requires forall i :: 0 <= i < |b| ==> forall x :: b[i](x).dataPath == x.dataPath
    ensures Apply(o, b).dataPath == o.dataPath
    decreases |b|
  {
    if b != [] {
      KeepsDataPath(o, b[..|b| - 1]);
      assert b[|b| - 1](Apply(o, b[..|b| - 1])).dataPath == Apply(o, b[..|b| - 1]).dataPath;
    }
  }

  // ------------------------------------------------------------ the cache

  /** Baseline c is one of the days QueryBetween's walk from d0 visits
      before it passes hi. */
  predicate OnWalk(d0: int, hi: int, c: int) {
    d0 <= c <= hi && (c - d0) % TimestampOf1Day == 0
  }

  /** The walk's next baseline is the first one past base: whatever lies
      on the walk above base lies at or above it. */
  lemma NextOnWalk(d0: int, hi: int, base: int)
    requires d0 <= base && (base - d0) % TimestampOf1Day == 0
    ensures (base + TimestampOf1Day - d0) % TimestampOf1Day == 0
    ensures forall c :: OnWalk(d0, hi, c) && c < base + TimestampOf1Day ==> c <= base
  {
    forall c | OnWalk(d0, hi, c) && c < base + TimestampOf1Day ensures c <= base {
      var i, j := (c - d0) / TimestampOf1Day, (base - d0) / TimestampOf1Day;
      assert c - d0 == i * TimestampOf1Day && base - d0 == j * TimestampOf1Day;
      assert c - base == (i - j) * TimestampOf1Day;
    }
  }

  /** The cache during QueryBetween's walk from d0, before the day upto:
      what it held at the start c0 is kept, and it holds besides exactly
      the days below upto on the walk that have a file. */
  ghost predicate CacheWalked<V>(c0: map<int, V>, cache: map<int, V>, disk: map<int, seq<byte>>,
                                 d0: int, hi: int, upto: int) {
    && (forall c :: c in c0 ==> c in cache && cache[c] == c0[c])
    && (forall c :: c in cache && c !in c0 ==> OnWalk(d0, hi, c) && c < upto)
    && (forall c :: c in disk && OnWalk(d0, hi, c) && c < upto ==> c in cache)
  }

  /** The cache after one day of the walk: with base cached when it has a
      file, the walk has covered the days below the next baseline. */
  lemma CachedDay<V>(d0: int, hi: int, base: int, c0: map<int, V>, before: map<int, V>,
                     after: map<int, V>, disk: map<int, seq<byte>>)
    requires d0 <= base <= hi && (base - d0) % TimestampOf1Day == 0
    requires CacheWalked(c0, before, disk, d0, hi, base)
    requires base in before || base !in disk ==> after == before
    requires base !in before && base in disk ==> base in after && after == before[base := after[base]]
    ensures CacheWalked(c0, after, disk, d0, hi, base + TimestampOf1Day)
  {
    NextOnWalk(d0, hi, base);
  }

  // ------------------------------------------------------------ the disk

  /** util.GetUnixOfDay on Unix seconds: the baseline of the day holding t
      (local midnight). All the model needs is that t lies in its day; the
      generality is deliberate. It admits functions that are not constant
      on a day (dayOf(t) == t, say), which is sound because every property
      is stated on the baselines the engine itself computes: dayOf(t) for a
      point query, and the walk from dayOf(lo) in steps of a day for a
      range. */
  ghost predicate DayFunction(dayOf: int -> int) {
    forall t :: dayOf(t) <= t < dayOf(t) + TimelineLengthOfDay
  }

  /** Every day file on disk is well formed, with the shape recorded for it. */
  ghost predicate DiskOk(disk: map<int, seq<byte>>, shapes: map<int, Shape>) {
    forall b :: b in disk ==> b in shapes && WellFormed(disk[b], b, shapes[b])
  }

  ghost predicate DiskWalkable(disk: map<int, seq<byte>>) {
    forall b :: b in disk ==> Walkable(disk[b], b)
  }

  lemma DiskWalkableOf(disk: map<int, seq<byte>>, shapes: map<int, Shape>)
    requires DiskOk(disk, shapes)
    ensures DiskWalkable(disk)
  {
    forall b | b in disk ensures Walkable(disk[b], b) {
      WalkableOf(disk[b], b, shapes[b]);
    }
  }

  /** The file loading b with autoCreated = true opens: the one on disk, or
      a freshly initialised one. */
  function DayFile(disk: map<int, seq<byte>>, b: int): seq<byte> {
    if b in disk then disk[b] else InitImage(b)
  }

  ghost function DayShape(disk: map<int, seq<byte>>, shapes: map<int, Shape>, b: int): Shape {
    if b in disk && b in shapes then shapes[b] else EmptyShape(b)
  }

  /** The file of baseline b, when there is one, is well formed. */
  ghost predicate FileOk(disk: map<int, seq<byte>>, shapes: map<int, Shape>, b: int) {
    b in disk ==> b in shapes && WellFormed(disk[b], b, shapes[b])
  }

  lemma DayFileOk(disk: map<int, seq<byte>>, shapes: map<int, Shape>, b: int)
    requires FileOk(disk, shapes, b)
    ensures WellFormed(DayFile(disk, b), b, DayShape(disk, shapes, b))
  {
    if b !in disk {
      InitImageEmpty(b);
    }
  }

  /** Putting a well-formed file in place of (or beside) the others keeps
      the disk well formed. */
  lemma ReplaceKeepsDisk(disk: map<int, seq<byte>>, shapes: map<int, Shape>, b: int, w: seq<byte>, sh: Shape)
    requires DiskOk(disk, shapes) && WellFormed(w, b, sh)
    ensures DiskOk(disk[b := w], shapes[b := sh])
  {
  }

  // ------------------------------------------------------------ queries

  /** What QueryTimeline(t) adds to the caller's list, t's day having
      baseline b: the records stored at t in the file of b, or nothing when
      there is no such file. */
  ghost function TimelineOf<R>(disk: map<int, seq<byte>>, shapes: map<int, Shape>, b: int,
                               t: int, decode: seq<byte> -> Option<R>): seq<R>
    requires InDay(b, t) && FileOk(disk, shapes, b)
  {
    if b in disk then Stored(disk[b], b, shapes[b], t, decode) else []
  }

  /** A freshly initialised file holds nothing for any second. */
  lemma InitStoresNothing<R>(b: int, s: int, decode: seq<byte> -> Option<R>)
    requires InDay(b, s)
    ensures Stored(InitImage(b), b, EmptyShape(b), s, decode) == []
  {
    assert EmptyShape(b).chains[s - b] == [];
    assert Records(InitImage(b), []) == [];
  }

  /** Write keeps the disk well formed: the batch ps written at t into the
      file of t's day b (created when missing) leaves a well-formed file. */
  lemma WriteKeepsDisk(disk: map<int, seq<byte>>, shapes: map<int, Shape>, b: int, t: int, ps: seq<seq<byte>>)
    requires DiskOk(disk, shapes) && InDay(b, t) && ps != []
    requires |DayFile(disk, b)| + BatchSize(ps) < TWO32
    ensures DiskOk(disk[b := WriteImage(DayFile(disk, b), b, t, ps)],
                   shapes[b := WriteShape(DayShape(disk, shapes, b), b, t, |DayFile(disk, b)|, ps)])
  {
    var f, sh := DayFile(disk, b), DayShape(disk, shapes, b);
    DayFileOk(disk, shapes, b);
    WriteKeepsWellFormed(f, b, sh, t, ps);
    ReplaceKeepsDisk(disk, shapes, b, WriteImage(f, b, t, ps), WriteShape(sh, b, t, |f|, ps));
  }

  /** Write then query, through the engine: a batch ps written at t into
      the file of t's day b is, for t in [0, 2^32), appended to what a query
      of t returns; every other second, of any day, returns what it did,
      whether b's file existed before or not. */
  lemma WriteThenQueryTimeline<R>(disk: map<int, seq<byte>>, shapes: map<int, Shape>, b: int,
                                  t: int, ps: seq<seq<byte>>, decode: seq<byte> -> Option<R>, bs: int, s: int)
    requires FileOk(disk, shapes, b) && FileOk(disk, shapes, bs)
    requires InDay(b, t) && InDay(bs, s) && ps != []
    requires |DayFile(disk, b)| + BatchSize(ps) < TWO32
    ensures var disk' := disk[b := WriteImage(DayFile(disk, b), b, t, ps)];
            var shapes' := shapes[b := WriteShape(DayShape(disk, shapes, b), b, t, |DayFile(disk, b)|, ps)];
            && FileOk(disk', shapes', bs)
            && TimelineOf(disk', shapes', bs, s, decode)
               == TimelineOf(disk, shapes, bs, s, decode)
                  + (if bs == b && s == t && 0 <= t < TWO32 then Decoded(decode, ps) else [])
  {
    var f, sh := DayFile(disk, b), DayShape(disk, shapes, b);
    DayFileOk(disk, shapes, b);
    if bs == b {
      WriteThenQuery(f, b, sh, t, ps, decode, s);
      TimelineBefore(disk, shapes, b, s, decode);
      TimelineUpdated(disk, shapes, b, WriteImage(f, b, t, ps), WriteShape(sh, b, t, |f|, ps), bs, s, decode);
    } else {
      WriteKeepsWellFormed(f, b, sh, t, ps);
      TimelineUpdated(disk, shapes, b, WriteImage(f, b, t, ps), WriteShape(sh, b, t, |f|, ps), bs, s, decode);
    }
  }

  /** Replacing the file of b by a well-formed w: the queries of b's day
      read w, the others what they did. */
  lemma TimelineUpdated<R>(disk: map<int, seq<byte>>, shapes: map<int, Shape>,
                           b: int, w: seq<byte>, sh: Shape, bs: int, s: int, decode: seq<byte> -> Option<R>)
    requires FileOk(disk, shapes, bs) && WellFormed(w, b, sh) && InDay(bs, s)
    ensures FileOk(disk[b := w], shapes[b := sh], bs)
    ensures bs == b ==> TimelineOf(disk[b := w], shapes[b := sh], bs, s, decode) == Stored(w, b, sh, s, decode)
    ensures bs != b ==> TimelineOf(disk[b := w], shapes[b := sh], bs, s, decode) == TimelineOf(disk, shapes, bs, s, decode)
  {
  }

  /** The query of a second of b's day reads DayFile (an empty file when
      there is none). */
  lemma TimelineBefore<R>(disk: map<int, seq<byte>>, shapes: map<int, Shape>, b: int,
                          s: int, decode: seq<byte> -> Option<R>)
    requires FileOk(disk, shapes, b) && InDay(b, s)
    ensures TimelineOf(disk, shapes, b, s, decode) == Stored(DayFile(disk, b), b, DayShape(disk, shapes, b), s, decode)
  {
    if b !in disk {
      InitStoresNothing(b, s, decode);
    }
  }

  /** Loading a missing file with autoCreated = true adds an empty file:
      the disk stays well formed and every query returns what it did. */
  lemma CreateKeepsTimeline<R>(disk: map<int, seq<byte>>, shapes: map<int, Shape>,
                               b: int, decode: seq<byte> -> Option<R>, bs: int, s: int)
    requires DiskOk(disk, shapes) && b !in disk && InDay(bs, s)
    ensures DiskOk(disk[b := InitImage(b)], shapes[b := EmptyShape(b)])
    ensures TimelineOf(disk[b := InitImage(b)], shapes[b := EmptyShape(b)], bs, s, decode)
         == TimelineOf(disk, shapes, bs, s, decode)
  {
    InitImageEmpty(b);
    if bs == b {
      InitStoresNothing(b, s, decode);
    }
  }

  /** QueryBetween's day walk from baseline base while base <= hi: a day
      without a file is skipped, the first file-level error ends the walk. */
  function Range<R>(disk: map<int, seq<byte>>, lo: int, hi: int, base: int,
                    decode: seq<byte> -> Option<R>, m: map<int, seq<R>>): (map<int, seq<R>>, Result<()>)
    requires DiskWalkable(disk)
    decreases hi - base
  {
    if base > hi then (m, Ok(()))
    else if base !in disk then Range(disk, lo, hi, base + TimestampOf1Day, decode, m)
    else
      var w := Window(disk[base], base, false, lo, hi, decode, m);
      if w.1.Err? then w else Range(disk, lo, hi, base + TimestampOf1Day, decode, w.0)
  }

  /** One day of the walk. */
  lemma RangeNext<R>(disk: map<int, seq<byte>>, lo: int, hi: int, base: int,
                     decode: seq<byte> -> Option<R>, m: map<int, seq<R>>, m': map<int, seq<R>>)
    requires DiskWalkable(disk) && base <= hi
    requires base !in disk ==> m' == m
    requires base in disk ==> Window(disk[base], base, false, lo, hi, decode, m).0 == m'
                              && Window(disk[base], base, false, lo, hi, decode, m).1.Ok?
    ensures Range(disk, lo, hi, base, decode, m) == Range(disk, lo, hi, base + TimestampOf1Day, decode, m')
  {
  }

  /** The walk stops at the first day whose file's query fails. */
  lemma RangeStops<R>(disk: map<int, seq<byte>>, lo: int, hi: int, base: int,
                      decode: seq<byte> -> Option<R>, m: map<int, seq<R>>)
    requires DiskWalkable(disk) && base <= hi && base in disk
    requires Window(disk[base], base, false, lo, hi, decode, m).1.Err?
    ensures Range(disk, lo, hi, base, decode, m) == Window(disk[base], base, false, lo, hi, decode, m)
  {
  }

  /** The walk past hi adds nothing. */
  lemma RangeEnds<R>(disk: map<int, seq<byte>>, lo: int, hi: int, base: int,
                     decode: seq<byte> -> Option<R>, m: map<int, seq<R>>)
    requires DiskWalkable(disk) && hi < base
    ensures Range(disk, lo, hi, base, decode, m) == (m, Ok(()))
  {
  }

  /** The day on the grid of days from base that holds x >= base. */
  function GridDay(base: int, x: int): int {
    base + TimelineLengthOfDay * ((x - base) / TimelineLengthOfDay)
  }

  lemma GridDayIn(base: int, x: int)
    requires base <= x
    ensures InDay(GridDay(base, x), x)
  {
  }

  /** Every file's shape has a chain per second of its day: all that the
      stored records of a second need. */
  ghost predicate Shaped(disk: map<int, seq<byte>>, shapes: map<int, Shape>) {
    forall b :: b in disk ==> b in shapes && |shapes[b].chains| == TimelineLengthOfDay
  }

  lemma DiskShaped(disk: map<int, seq<byte>>, shapes: map<int, Shape>)
    requires DiskOk(disk, shapes)
    ensures Shaped(disk, shapes)
  {
  }

  /** The seconds of [lo, hi] from base on whose day has a file, each with
      the records stored for it. */
  ghost function Covered<R>(disk: map<int, seq<byte>>, shapes: map<int, Shape>, lo: int, hi: int, base: int,
                            decode: seq<byte> -> Option<R>): map<int, seq<R>>
    requires Shaped(disk, shapes)
  {
    map x | lo <= x <= hi && base <= x && GridDay(base, x) in disk
      :: (GridDayIn(base, x); Stored(disk[GridDay(base, x)], GridDay(base, x), shapes[GridDay(base, x)], x, decode))
  }

  /** The walk from a baseline of lo's day (or any day that can still
      reach lo) gives every second of [lo, hi] whose day has a file its
      stored records, and nothing else, and never fails. */
  lemma {:induction false} RangeCovers<R>(disk: map<int, seq<byte>>, shapes: map<int, Shape>, lo: int, hi: int,
                                          base: int, decode: seq<byte> -> Option<R>, m: map<int, seq<R>>)
    requires DiskOk(disk, shapes) && lo - TimelineLengthOfDay < base
    ensures DiskWalkable(disk) && Shaped(disk, shapes)
    ensures Range(disk, lo, hi, base, decode, m) == (m + Covered(disk, shapes, lo, hi, base, decode), Ok(()))
    decreases hi - base
  {
    DiskWalkableOf(disk, shapes);
    DiskShaped(disk, shapes);
    var next := base + TimestampOf1Day;
    if base > hi {
      assert Covered(disk, shapes, lo, hi, base, decode) == map[];
      assert m + map[] == m;
    } else {
      var e := DayEntries(disk, shapes, lo, hi, base, decode);
      if base in disk {
        WindowOfWellFormed(disk[base], base, shapes[base], false, lo, hi, decode, m);
      }
      RangeNext(disk, lo, hi, base, decode, m, m + e);
      RangeCovers(disk, shapes, lo, hi, next, decode, m + e);
      CoveredStep(disk, shapes, lo, hi, base, decode);
      UnionAssoc(m, e, Covered(disk, shapes, lo, hi, next, decode));
    }
  }

  /** The entries the file of base adds to the walk. */
  ghost function DayEntries<R>(disk: map<int, seq<byte>>, shapes: map<int, Shape>, lo: int, hi: int, base: int,
                               decode: seq<byte> -> Option<R>): map<int, seq<R>>
    requires Shaped(disk, shapes)
  {
    if base in disk then Entries(disk[base], base, shapes[base], false, lo, hi, decode) else map[]
  }

  lemma CoveredStep<R>(disk: map<int, seq<byte>>, shapes: map<int, Shape>, lo: int, hi: int, base: int,
                       decode: seq<byte> -> Option<R>)
    requires Shaped(disk, shapes)
    ensures Covered(disk, shapes, lo, hi, base, decode)
         == DayEntries(disk, shapes, lo, hi, base, decode) + Covered(disk, shapes, lo, hi, base + TimestampOf1Day, decode)
  {
    var next := base + TimestampOf1Day;
    var c, e, c' := Covered(disk, shapes, lo, hi, base, decode), DayEntries(disk, shapes, lo, hi, base, decode),
                    Covered(disk, shapes, lo, hi, next, decode);
    forall x | base <= x < next ensures GridDay(base, x) == base {
      GridHere(base, x);
    }
    forall x | next <= x ensures GridDay(base, x) == GridDay(next, x) {
      GridLater(base, x);
    }
    assert c.Keys == (e + c').Keys;
    forall x | x in c ensures c[x] == (e + c')[x] {
      if x < next {
        GridHere(base, x);
      } else {
        GridLater(base, x);
      }
    }
  }

  lemma GridHere(base: int, x: int)
    requires base <= x < base + TimelineLengthOfDay
    ensures GridDay(base, x) == base
  {
  }

  lemma GridLater(base: int, x: int)
    requires base + TimelineLengthOfDay <= x
    ensures GridDay(base, x) == GridDay(base + TimelineLengthOfDay, x)
  {
    var k := (x - base) / TimelineLengthOfDay;
    assert (x - base - TimelineLengthOfDay) / TimelineLengthOfDay == k - 1;
  }

  lemma UnionAssoc<K, V>(a: map<K, V>, b: map<K, V>, c: map<K, V>)
    ensures a + (b + c) == (a + b) + c
  {
  }

  // ------------------------------------------------------------ answers

  /** What QueryTimeline(t) returns, with t's day b: the caller's list
      unchanged when b has no file (the load error is swallowed), the list
      with the chain's records appended when the file's query succeeds, and
      the unchanged list with the file's error otherwise. */
  function TimelineAnswer<R>(disk: map<int, seq<byte>>, b: int, t: int, decode: seq<byte> -> Option<R>,
                             list: seq<R>): (seq<R>, Result<()>)
    requires DiskWalkable(disk)
  {
    if b !in disk then (list, Ok(()))
    else match Timeline(disk[b], b, false, t, decode)
      case Ok(v) => (list + v, Ok(()))
      case Err(e) => (list, Err(e))
  }

  /** On a well-formed disk the query of t never fails: it appends the
      records stored at t, when t's day has a file. */
  lemma TimelineAnswerOk<R>(disk: map<int, seq<byte>>, shapes: map<int, Shape>, b: int, t: int,
                            decode: seq<byte> -> Option<R>, list: seq<R>)
    requires DiskOk(disk, shapes) && InDay(b, t)
    ensures DiskWalkable(disk)
    ensures TimelineAnswer(disk, b, t, decode, list) == (list + TimelineOf(disk, shapes, b, t, decode), Ok(()))
  {
    DiskWalkableOf(disk, shapes);
    if b in disk {
      TimelineOfStored(disk[b], b, shapes[b], false, t, decode);
    } else {
      assert list + [] == list;
    }
  }

  /** What QueryBetween(lo, hi) returns into the caller's map out: a
      reversed range is refused; otherwise the walk of the days from lo's
      baseline fills a new map, which replaces out only when the walk
      succeeds. */
  function BetweenAnswer<R>(disk: map<int, seq<byte>>, lo: int, hi: int, base: int,
                            decode: seq<byte> -> Option<R>, out: map<int, seq<R>>): (map<int, seq<R>>, Result<()>)
    requires DiskWalkable(disk)
  {
    if hi < lo then (out, Err(InvalidTimeRange))
    else
      var w := Range(disk, lo, hi, base, decode, map[]);
      if w.1.Ok? then w else (out, w.1)
  }

  /** On a well-formed disk, with base the baseline of lo's day, a range
      query that is not reversed succeeds with exactly the seconds of
      [lo, hi] whose day has a file, each mapped to its stored records. */
  lemma BetweenAnswerCovers<R>(disk: map<int, seq<byte>>, shapes: map<int, Shape>, lo: int, hi: int, base: int,
                               decode: seq<byte> -> Option<R>, out: map<int, seq<R>>)
    requires DiskOk(disk, shapes) && InDay(base, lo)
    ensures DiskWalkable(disk) && Shaped(disk, shapes)
    ensures BetweenAnswer(disk, lo, hi, base, decode, out)
         == if hi < lo then (out, Err(InvalidTimeRange)) else (Covered(disk, shapes, lo, hi, base, decode), Ok(()))
  {
    DiskWalkableOf(disk, shapes);
    DiskShaped(disk, shapes);
    if lo <= hi {
      RangeCovers(disk, shapes, lo, hi, base, decode, map[]);
      assert map[] + Covered(disk, shapes, lo, hi, base, decode) == Covered(disk, shapes, lo, hi, base, decode);
    }
  }

  /** Removing the file of b keeps the rest of the disk well formed. */
  lemma RemoveKeepsDisk(disk: map<int, seq<byte>>, shapes: map<int, Shape>, b: int)
    requires DiskOk(disk, shapes)
    ensures DiskOk(disk - {b}, shapes - {b})
  {
  }

  lemma UpdateTwice<K, V>(m: map<K, V>, k: K, x: V, y: V)
    ensures m[k := x][k := y] == m[k := y]
  {
  }

  lemma RemoveAbsent<K, V>(m: map<K, V>, k: K)
    requires k !in m
    ensures m - {k} == m
  {
  }

  /** Deleting the file of day b: its seconds return nothing, the other
      days' what they did. */
  lemma DeleteForgets<R>(disk: map<int, seq<byte>>, shapes: map<int, Shape>, b: int,
                         decode: seq<byte> -> Option<R>, bs: int, s: int)
    requires FileOk(disk, shapes, bs) && InDay(bs, s)
    ensures FileOk(disk - {b}, shapes - {b}, bs)
    ensures TimelineOf(disk - {b}, shapes - {b}, bs, s, decode)
         == if bs == b then [] else TimelineOf(disk, shapes, bs, s, decode)
  {
  }

  // ------------------------------------------------------------ the engine

  /** defaultDB: the data directory, the retention, the day function and
      the cache opendFiles of the day files loaded so far. */
  class DefaultDB {
    const basePath: string
    const retention: int
    /** util.GetUnixOfDay */
    const dayOf: int -> int
    /** The day files in the data directory. */
    var disk: map<int, seq<byte>>
    ghost var shapes: map<int, Shape>
    /** opendFiles */
    var cache: map<int, StoreFile>
    /** The store files this engine has loaded. */
    ghost var Repr: set<StoreFile>

    /** Every day function keeps t in its day, the disk is well formed, and
        every cached file is open, belongs to its baseline and holds the
        bytes of that baseline's file on disk. */
    ghost predicate Valid()
      reads this, Repr
    {
      && DayFunction(dayOf)
      && DiskOk(disk, shapes)
      && (forall b :: b in cache ==> cache[b] in Repr)
      && forall b :: b in cache ==> b in disk && Cached(cache[b], b, disk[b], shapes[b])
    }

    static ghost predicate Cached(f: StoreFile, b: int, contents: seq<byte>, sh: Shape)
      reads f
    {
      f.begin == b && f.end == b + TimelineLengthOfDay && !f.closed && f.file == contents && f.shape == sh
    }

    constructor (path: string, retention: int, dayOf: int -> int, disk: map<int, seq<byte>>, ghost shapes: map<int, Shape>)
      requires DayFunction(dayOf) && DiskOk(disk, shapes)
      ensures Valid()
      ensures basePath == path && this.retention == retention && this.dayOf == dayOf
      ensures this.disk == disk && this.shapes == shapes && cache == map[] && Repr == {}
    {
      Repr := {};
      basePath := path;
      this.retention := retention;
      this.dayOf := dayOf;
      this.disk := disk;
      this.shapes := shapes;
      cache := map[];
    }

    /** loadFile(b, autoCreated): the cached file of b; otherwise the file
        loadStoreFile opens (or creates when autoCreated), which is cached.
        A missing file with autoCreated false is ErrorDBFileNotHit and
        changes nothing. */
    method LoadFile(b: int, autoCreated: bool) returns (r: Result<StoreFile>)
      requires Valid()
      modifies this
      ensures Valid()
      ensures r.Ok? ==> b in cache && r.value == cache[b] && b in disk
      ensures b in old(cache) ==> r == Ok(old(cache)[b]) && cache == old(cache)
      ensures b !in old(cache) && r.Ok? ==> fresh(r.value) && cache == old(cache)[b := r.value]
      ensures b in old(disk) || autoCreated ==> r.Ok?
      ensures b !in old(disk) && !autoCreated ==> r == Err(FileNotHit) && cache == old(cache)
      ensures r.Ok? ==> disk == old(disk)[b := DayFile(old(disk), b)]
                        && shapes == old(shapes)[b := DayShape(old(disk), old(shapes), b)]
      ensures r.Err? || b in old(disk) ==> disk == old(disk) && shapes == old(shapes)
      ensures Repr == old(Repr) || (r.Ok? && fresh(r.value) && Repr == old(Repr) + {r.value})
    {
      if b in cache {
        r := Ok(cache[b]);
        assert disk == disk[b := DayFile(disk, b)] && shapes == shapes[b := DayShape(disk, shapes, b)];
        return;
      }
      r := Open(b, autoCreated);
    }

    /** The load of a day that is not cached. */
    method Open(b: int, autoCreated: bool) returns (r: Result<StoreFile>)
      requires Valid() && b !in cache
      modifies this
      ensures Valid()
      ensures b in old(disk) || autoCreated ==> r.Ok?
      ensures b !in old(disk) && !autoCreated ==> r == Err(FileNotHit)
      ensures r.Ok? ==> && b in disk && fresh(r.value) && cache == old(cache)[b := r.value]
                        && Repr == old(Repr) + {r.value}
                        && disk == old(disk)[b := DayFile(old(disk), b)]
                        && shapes == old(shapes)[b := DayShape(old(disk), old(shapes), b)]
      ensures r.Err? ==> disk == old(disk) && shapes == old(shapes) && cache == old(cache) && Repr == old(Repr)
      ensures b in old(disk) ==> disk == old(disk) && shapes == old(shapes)
    {
      r := LoadStoreFile(b, disk, shapes, autoCreated);
      if r.Err? {
        return;
      }
      if b !in disk {
        InitImageEmpty(b);
        CreateDisk(b);
      } else {
        assert disk == disk[b := DayFile(disk, b)] && shapes == shapes[b := DayShape(disk, shapes, b)];
      }
      cache := cache[b := r.value];
      Repr := Repr + {r.value};
    }

    /** freeFile(b): close the cached file of b, if any, and drop it from
        the cache. */
    method FreeFile(b: int)
      requires Valid()
      modifies this, Repr
      ensures Valid()
      ensures cache == old(cache) - {b} && disk == old(disk) && shapes == old(shapes)
      ensures b in old(cache) ==> old(cache)[b].closed
      ensures forall c :: c in cache ==> cache[c] == old(cache)[c]
      ensures Repr == old(Repr)
    {
      if b in cache {
        var f := cache[b];
        f.Close();
        cache := cache - {b};
      }
    }

    /** DeleteStorageFile(t): when t's day has a file, free its cached copy
        and remove it; otherwise "file not found". */
    method DeleteStorageFile(t: int) returns (r: Result<()>)
      requires Valid()
      modifies this, Repr
      ensures Valid()
      ensures r == if dayOf(t) in old(disk) then Ok(()) else Err(FileNotFound)
      ensures disk == old(disk) - {dayOf(t)} && shapes == old(shapes) - {dayOf(t)}
      ensures cache == old(cache) - {dayOf(t)} && Repr == old(Repr)
    {
      var b := dayOf(t);
      if b !in disk {
        RemoveAbsent(disk, b);
        RemoveAbsent(cache, b);
        RemoveKeepsDisk(disk, shapes, b);
        shapes := shapes - {b};
        return Err(FileNotFound);
      }
      FreeFile(b);
      RemoveKeepsDisk(disk, shapes, b);
      disk := disk - {b};
      shapes := shapes - {b};
      r := Ok(());
    }

    /** QueryTimeline(t): load the file of t's day without creating it and
        append the records stored at t to the caller's list. */
    method QueryTimeline<R>(t: int, decode: seq<byte> -> Option<R>, list: seq<R>) returns (out: seq<R>, r: Result<()>)
      requires Valid()
      modifies this
      ensures Valid() && disk == old(disk) && shapes == old(shapes)
      ensures DiskWalkable(disk)
      ensures (out, r) == TimelineAnswer(disk, dayOf(t), t, decode, list)
      ensures dayOf(t) in old(cache) || dayOf(t) !in disk ==> cache == old(cache)
      ensures dayOf(t) !in old(cache) && dayOf(t) in disk ==>
                dayOf(t) in cache && fresh(cache[dayOf(t)]) && cache == old(cache)[dayOf(t) := cache[dayOf(t)]]
      ensures old(Repr) <= Repr && fresh(Repr - old(Repr))
    {
      DiskWalkableOf(disk, shapes);
      var f := LoadFile(dayOf(t), false);
      if f.Err? {
        return list, Ok(());
      }
      var q := f.value.QueryByTimeline(t, decode);
      if q.Err? {
        return list, Err(q.error);
      }
      return list + q.value, Ok(());
    }

    /** Write(t, data...): load the file of t's day, creating it when it
        is missing, and write the batch into it; the bytes it then holds are
        the file on disk. */
    method Write<D>(t: int, data: seq<D>, encode: D -> Option<seq<byte>>) returns (r: Result<()>)
      requires Valid() && Fits(DayFile(disk, dayOf(t)), encode, data)
      modifies this, Repr
      ensures Valid() && dayOf(t) in cache
      ensures dayOf(t) in old(cache) ==> cache == old(cache) && Repr == old(Repr)
      ensures dayOf(t) !in old(cache) ==>
                && fresh(cache[dayOf(t)]) && cache == old(cache)[dayOf(t) := cache[dayOf(t)]]
                && Repr == old(Repr) + {cache[dayOf(t)]}
      ensures r == if data != [] && EncodeAll(encode, data).None? then Err(EncodeFailed) else Ok(())
      ensures r.Ok? && data != [] ==>
                disk == old(disk)[dayOf(t) := WriteImage(DayFile(old(disk), dayOf(t)), dayOf(t), t, EncodeAll(encode, data).value)]
                && shapes == old(shapes)[dayOf(t) := WriteShape(DayShape(old(disk), old(shapes), dayOf(t)), dayOf(t), t,
                                                                |DayFile(old(disk), dayOf(t))|, EncodeAll(encode, data).value)]
      ensures !(r.Ok? && data != []) ==>
                disk == old(disk)[dayOf(t) := DayFile(old(disk), dayOf(t))]
                && shapes == old(shapes)[dayOf(t) := DayShape(old(disk), old(shapes), dayOf(t))]
    {
      var b := dayOf(t);
      // loading with autoCreated always succeeds here: a failing os.Create is not modelled
      var f := LoadFile(b, true);
      ghost var disk0, shapes0 := old(disk), old(shapes);
      ghost var f0, sh0 := DayFile(disk0, b), DayShape(disk0, shapes0, b);
      assert f.value.file == f0 && f.value.shape == sh0;
      r := Store(f.value, t, data, encode);
      UpdateTwice(disk0, b, f0, f.value.file);
      UpdateTwice(shapes0, b, sh0, f.value.shape);
    }

    /** The write into the loaded file of t's day, whose bytes then
        replace that day's file on disk. */
    method Store<D>(file: StoreFile, t: int, data: seq<D>, encode: D -> Option<seq<byte>>) returns (r: Result<()>)
      requires Valid() && file.begin in cache && cache[file.begin] == file && InDay(file.begin, t)
      requires Fits(file.file, encode, data)
      modifies this, file
      ensures Valid() && cache == old(cache) && Repr == old(Repr)
      ensures r == WriteResult(file.begin, false, t, data, encode)
      ensures disk == old(disk)[file.begin := file.file] && shapes == old(shapes)[file.begin := file.shape]
      ensures r.Ok? && data != [] ==>
                file.file == WriteImage(old(file.file), file.begin, t, EncodeAll(encode, data).value)
                && file.shape == WriteShape(old(file.shape), file.begin, t, |old(file.file)|, EncodeAll(encode, data).value)
      ensures !(r.Ok? && data != []) ==> file.file == old(file.file) && file.shape == old(file.shape)
    {
      r := file.Write(t, data, encode);
      ReplaceKeepsDisk(disk, shapes, file.begin, file.file, file.shape);
      disk := disk[file.begin := file.file];
      shapes := shapes[file.begin := file.shape];
    }

    /** QueryBetween(lo, hi): refuse a reversed range; otherwise walk the
        days from the baseline of lo's day while the baseline is at most
        hi, query each day that has a file, and hand the new map back only
        when no day's query failed. */
    method QueryBetween<R>(lo: int, hi: int, decode: seq<byte> -> Option<R>, out: map<int, seq<R>>)
      returns (res: map<int, seq<R>>, r: Result<()>)
      requires Valid()
      modifies this
      ensures Valid() && disk == old(disk) && shapes == old(shapes)
      ensures DiskWalkable(disk)
      ensures (res, r) == BetweenAnswer(disk, lo, hi, dayOf(lo), decode, out)
      ensures forall c :: c in old(cache) ==> c in cache && cache[c] == old(cache)[c]
      ensures forall c :: c in cache && c !in old(cache) ==> OnWalk(dayOf(lo), hi, c)
      ensures r.Ok? ==> forall c :: c in disk && OnWalk(dayOf(lo), hi, c) ==> c in cache
      ensures old(Repr) <= Repr && fresh(Repr - old(Repr))
    {
      DiskWalkableOf(disk, shapes);
      if hi < lo {
        return out, Err(InvalidTimeRange);
      }
      var base := dayOf(lo);
      var m: map<int, seq<R>> := map[];
      ghost var w := Range(disk, lo, hi, base, decode, m);
      assert BetweenAnswer(disk, lo, hi, base, decode, out) == if w.1.Ok? then w else (out, w.1);
      while base <= hi
        invariant Valid() && disk == old(disk) && shapes == old(shapes)
        invariant DiskWalkable(disk)
        invariant w == Range(disk, lo, hi, base, decode, m)
        invariant dayOf(lo) <= base && (base - dayOf(lo)) % TimestampOf1Day == 0
        invariant CacheWalked(old(cache), cache, disk, dayOf(lo), hi, base)
        invariant old(Repr) <= Repr && fresh(Repr - old(Repr))
        decreases hi - base
      {
        ghost var cache0 := cache;
        var m', e := QueryDay(base, lo, hi, decode, m);
        CachedDay(dayOf(lo), hi, base, old(cache), cache0, cache, disk);
        if e.Err? {
          RangeStops(disk, lo, hi, base, decode, m);
          return out, e;
        }
        RangeNext(disk, lo, hi, base, decode, m, m');
        m := m';
        base := base + TimestampOf1Day;
      }
      RangeEnds(disk, lo, hi, base, decode, m);
      return m, Ok(());
    }

    /** One day of QueryBetween's walk: a day without a file adds nothing,
        otherwise its file answers the window [lo, hi]. */
    method QueryDay<R>(base: int, lo: int, hi: int, decode: seq<byte> -> Option<R>, m: map<int, seq<R>>)
      returns (m': map<int, seq<R>>, e: Result<()>)
      requires Valid() && DiskWalkable(disk)
      modifies this
      ensures Valid() && disk == old(disk) && shapes == old(shapes)
      ensures base !in disk ==> m' == m && e == Ok(())
      ensures base in disk ==> Window(disk[base], base, false, lo, hi, decode, m) == (m', e)
      ensures base in old(cache) || base !in disk ==> cache == old(cache)
      ensures base !in old(cache) && base in disk ==> base in cache && cache == old(cache)[base := cache[base]]
      ensures old(Repr) <= Repr && fresh(Repr - old(Repr))
    {
      var f := LoadFile(base, false);
      if f.Err? {
        return m, Ok(());
      }
      m', e := f.value.QueryBetween(lo, hi, decode, m);
    }

    /** Creating the file of b on disk (loadStoreFile's init). */
    method CreateDisk(b: int)
      requires DiskOk(disk, shapes) && b !in disk
      modifies this
      ensures disk == old(disk)[b := InitImage(b)] && shapes == old(shapes)[b := EmptyShape(b)]
      ensures DiskOk(disk, shapes) && cache == old(cache) && Repr == old(Repr)
    {
      InitImageEmpty(b);
      ReplaceKeepsDisk(disk, shapes, b, InitImage(b), EmptyShape(b));
      disk := disk[b := InitImage(b)];
      shapes := shapes[b := EmptyShape(b)];
    }
  }

  /** InitDB(opts...): apply the options to the defaults in order, make
      the data path absolute and create the directory (abs and mkdir stand
      for filepath.Abs and util.MkDirIfNotExist; disk is what the directory
      holds), and start an engine with an empty cache. */
  method InitDB(opts: seq<Options -> Options>, abs: string -> Option<string>, mkdir: string -> bool,
                dayOf: int -> int, disk: map<int, seq<byte>>, ghost shapes: map<int, Shape>)
    returns (r: Result<DefaultDB>)
    requires DayFunction(dayOf) && DiskOk(disk, shapes)
    ensures var path := abs(Apply(Defaults, opts).dataPath);
            path.None? || !mkdir(path.value) ==> r == Err(PathFailed)
    ensures var path := abs(Apply(Defaults, opts).dataPath);
            path.Some? && mkdir(path.value) ==>
              && r.Ok? && fresh(r.value) && r.value.Valid()
              && r.value.basePath == path.value && r.value.retention == Apply(Defaults, opts).retention
              && r.value.dayOf == dayOf && r.value.disk == disk && r.value.cache == map[] && r.value.Repr == {}
  {
    var options := Defaults;
    var i := 0;
    while i < |opts|
      invariant 0 <= i <= |opts|
      invariant options == Apply(Defaults, opts[..i])
    {
      assert opts[..i + 1][..i] == opts[..i];
      options := opts[i](options);
      i := i + 1;
    }
    assert opts[..|opts|] == opts;
    var bpath := abs(options.dataPath);
    if bpath.None? || !mkdir(bpath.value) {
      return Err(PathFailed);
    }
    var db := new DefaultDB(bpath.value, options.retention, dayOf, disk, shapes);
    return Ok(db);
  }
}
