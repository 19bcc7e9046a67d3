/** The retention sweep and the process-wide registry of open databases
    (tacticscheck.go). The directory walk is a given list of entries, the
    parse of a file name's stamp (strconv.ParseInt with base 0 and bit size
    64) and the engine's expiry test are parameters. */
module TacticsCheck {
  import opened Bytes
  import opened Layout
  import opened SnapsDB
  import opened StoreFiles

  // ------------------------------------------------------------ entries

  /** What filepath.Walk hands the callback for one path: the path, the
      base name, whether it is a directory, and whether the walk reported
      an error for it. */
  datatype Entry = Entry(path: string, name: string, isDir: bool, failed: bool)

  /** strings.HasSuffix */
  predicate HasSuffix(s: string, suffix: string) {
    |suffix| <= |s| && s[|s| - |suffix|..] == suffix
  }

  /** A string ends with suffix exactly when it is something followed by
      suffix. */
  lemma HasSuffixIff(s: string, suffix: string)
    ensures HasSuffix(s, suffix) <==> exists p :: s == p + suffix
  {
    if HasSuffix(s, suffix) {
      var p := s[..|s| - |suffix|];
      assert s == p + suffix;
    }
    if exists p :: s == p + suffix {
      var p :| s == p + suffix;
      assert s[|s| - |suffix|..] == suffix;
    }
  }

  /** strings.Cut(s, [sep]): the text before and after the first sep, and
      whether there was one. */
  function Cut(s: string, sep: char): (r: (string, string, bool))
    ensures r.2 <==> sep in s
    ensures r.2 ==> s == r.0 + [sep] + r.1 && sep !in r.0
    ensures !r.2 ==> r.0 == s && r.1 == ""
  {
    if s == [] then ("", "", false)
    else if s[0] == sep then ("", s[1..], true)
    else
      var rest := Cut(s[1..], sep);
      assert s == [s[0]] + s[1..];
      ([s[0]] + rest.0, rest.1, rest.2)
  }

  /** The number a directory entry names: checkDBStorage only looks at
      files the walk could read, that are not directories, whose path ends
      in ".bin", and whose name before its first "." parses. */
  function Stamp(e: Entry, parse: string -> Option<int>): Option<int> {
    if e.failed || e.isDir || !HasSuffix(e.path, ".bin") then None
    else
      var c := Cut(e.name, '.');
      if !c.2 then None else parse(c.0)
  }

  /** The entries checkDBStorage acts upon, stated without the walk's
      order of tests: a readable non-directory "<stamp>.<rest>" at a path
      ending in ".bin", whose stamp parses. */
  lemma StampIff(e: Entry, parse: string -> Option<int>)
    ensures Stamp(e, parse).Some? <==>
              && !e.failed && !e.isDir && (exists p :: e.path == p + ".bin")
              && exists stem, rest :: e.name == stem + "." + rest && '.' !in stem && parse(stem).Some?
    ensures Stamp(e, parse).Some? ==> Stamp(e, parse) == parse(Cut(e.name, '.').0)
  {
    HasSuffixIff(e.path, ".bin");
    var c := Cut(e.name, '.');
    if c.2 {
      assert e.name == c.0 + "." + c.1;
    }
    if exists stem, rest :: e.name == stem + "." + rest && '.' !in stem && parse(stem).Some? {
      var stem, rest :| e.name == stem + "." + rest && '.' !in stem && parse(stem).Some?;
      assert e.name[|stem|] == '.';
      FirstSep(e.name, stem, rest, '.');
    }
  }

  /** The text before the first sep is determined by the string. */
  lemma {:induction false} FirstSep(s: string, stem: string, rest: string, sep: char)
    requires s == stem + [sep] + rest && sep !in stem
    ensures Cut(s, sep).2 && Cut(s, sep).0 == stem
    decreases |stem|
  {
    if stem != [] {
      assert s[0] == stem[0] && s[1..] == stem[1..] + [sep] + rest;
      FirstSep(s[1..], stem[1..], rest, sep);
      assert stem == [stem[0]] + stem[1..];
    }
  }

  /** The day baselines a sweep of entries deletes: those of the stamps of
      selected entries the engine considers expired at now. */
  function Doomed(dayOf: int -> int, entries: seq<Entry>, parse: string -> Option<int>,
                  isExpired: (int, int) -> bool, now: int): set<int>
    decreases |entries|
  {
    if entries == [] then {}
    else Doomed(dayOf, entries[..|entries| - 1], parse, isExpired, now) + Doom(dayOf, entries[|entries| - 1], parse, isExpired, now)
  }

  /** The day one entry dooms, if any. */
  function Doom(dayOf: int -> int, e: Entry, parse: string -> Option<int>, isExpired: (int, int) -> bool, now: int): set<int> {
    var st := Stamp(e, parse);
    if st.Some? && isExpired(st.value, now) then {dayOf(st.value)} else {}
  }

  /** A day is doomed exactly when some selected, expired entry's stamp
      lies in it. */
  lemma {:induction false} DoomedIff(dayOf: int -> int, entries: seq<Entry>, parse: string -> Option<int>,
                                     isExpired: (int, int) -> bool, now: int, b: int)
    ensures b in Doomed(dayOf, entries, parse, isExpired, now) <==>
              exists i :: 0 <= i < |entries| && Stamp(entries[i], parse).Some?
                          && isExpired(Stamp(entries[i], parse).value, now) && dayOf(Stamp(entries[i], parse).value) == b
    decreases |entries|
  {
    if entries != [] {
      var n := |entries| - 1;
      var front := entries[..n];
      DoomedIff(dayOf, front, parse, isExpired, now, b);
      if b in Doomed(dayOf, front, parse, isExpired, now) {
        var i :| 0 <= i < |front| && Stamp(front[i], parse).Some?
                 && isExpired(Stamp(front[i], parse).value, now) && dayOf(Stamp(front[i], parse).value) == b;
        assert front[i] == entries[i];
      } else if b !in Doom(dayOf, entries[n], parse, isExpired, now) {
        forall i | 0 <= i < |entries| && Stamp(entries[i], parse).Some? && isExpired(Stamp(entries[i], parse).value, now)
          ensures dayOf(Stamp(entries[i], parse).value) != b
        {
          if i < n {
            assert front[i] == entries[i];
          }
        }
      }
    }
  }

  // ------------------------------------------------------------ the sweep

  /** checkDBStorage(db, now): for every entry of the walk of the data
      directory that names a parsable stamp the engine considers expired,
      delete the file of that stamp's day; errors are ignored. */
  method CheckDBStorage(db: DefaultDB, now: int, entries: seq<Entry>, parse: string -> Option<int>,
                        isExpired: (int, int) -> bool)
    requires db.Valid()
    modifies db, db.Repr
    ensures db.Valid() && db.Repr == old(db.Repr)
    ensures db.disk == old(db.disk) - Doomed(db.dayOf, entries, parse, isExpired, now)
    ensures db.cache == old(db.cache) - Doomed(db.dayOf, entries, parse, isExpired, now)
  {
    var i := 0;
    while i < |entries|
      invariant 0 <= i <= |entries|
      invariant db.Valid() && db.Repr == old(db.Repr)
      invariant db.disk == old(db.disk) - Doomed(db.dayOf, entries[..i], parse, isExpired, now)
      invariant db.cache == old(db.cache) - Doomed(db.dayOf, entries[..i], parse, isExpired, now)
    {
      assert entries[..i + 1][..i] == entries[..i];
      ghost var d0 := Doomed(db.dayOf, entries[..i], parse, isExpired, now);
      ghost var d1 := Doom(db.dayOf, entries[i], parse, isExpired, now);
      Expire(db, entries[i], now, parse, isExpired);
      MinusMinus(old(db.disk), d0, d1);
      MinusMinus(old(db.cache), d0, d1);
      i := i + 1;
    }
    assert entries[..i] == entries;
  }

  /** One entry of the walk: a readable file at a path ending in ".bin"
      whose name's stem parses to an expired stamp has that stamp's day
      deleted. */
  method Expire(db: DefaultDB, e: Entry, now: int, parse: string -> Option<int>, isExpired: (int, int) -> bool)
    requires db.Valid()
    modifies db, db.Repr
    ensures db.Valid() && db.Repr == old(db.Repr)
    ensures db.disk == old(db.disk) - Doom(db.dayOf, e, parse, isExpired, now)
    ensures db.cache == old(db.cache) - Doom(db.dayOf, e, parse, isExpired, now)
  {
    if !e.failed && !e.isDir && HasSuffix(e.path, ".bin") {
      var c := Cut(e.name, '.');
      if c.2 {
        var num := parse(c.0);
        if num.Some? && isExpired(num.value, now) {
          var _ := db.DeleteStorageFile(num.value);
          return;
        }
      }
    }
    RemoveNone(db.disk);
    RemoveNone(db.cache);
  }

  lemma RemoveNone<K, V>(m: map<K, V>)
    ensures m - {} == m
  {
  }

  lemma MinusMinus<K, V>(m: map<K, V>, a: set<K>, b: set<K>)
    ensures m - a - b == m - (a + b)
  {
  }

  // ------------------------------------------------------------ the registry

  /** _db_instances and _initcheck: the open databases keyed by their data
      directory, and whether the sweep's monitor has been started. The
      monitor goroutine is counted, not run. */
  class Registry {
    var instances: map<string, DefaultDB>
    var initcheck: bool
    /** The monitors started so far. */
    ghost var monitors: nat
    /** The registered databases and their store files, as of the last
        registry operation or Refresh. */
    ghost var Repr: set<object>

    /** The store files the registered databases have loaded so far; a
        database that loads another day adds it here by itself. */
    ghost function Files(): set<StoreFile>
      reads this, instances.Values
    {
      set dir, f | dir in instances && f in instances[dir].Repr :: f
    }

    /** The monitor is started once the flag is set and never twice; every
        registered database is valid, sits under its own directory, and
        shares no store file with another. */
    ghost predicate Sound()
      reads this, instances.Values, Files()
    {
      && (initcheck <==> monitors == 1) && monitors <= 1
      && (forall dir :: dir in instances ==> instances[dir].basePath == dir && instances[dir].Valid())
      && (forall d, d' :: d in instances && d' in instances && d != d' ==> instances[d].Repr !! instances[d'].Repr)
    }

    /** The registered databases and the store files they hold. */
    ghost function Footprint(): set<object>
      reads this, instances.Values
    {
      var dbs: set<object> := instances.Values;
      var files: set<object> := Files();
      dbs + files
    }

    /** Sound, with Repr covering the registered databases and their
        store files. */
    ghost predicate Valid()
      reads this, Repr
    {
      && this !in Repr
      && (forall dir :: dir in instances ==> instances[dir] in Repr && instances[dir].Repr <= Repr)
      && (initcheck <==> monitors == 1) && monitors <= 1
      && (forall dir :: dir in instances ==> instances[dir].basePath == dir && instances[dir].Valid())
      && (forall d, d' :: d in instances && d' in instances && d != d' ==> instances[d].Repr !! instances[d'].Repr)
    }

    /** Bring Repr up to date once registered databases have loaded more
        days; nothing the Go code sees changes. */
    ghost method Refresh()
      requires Sound()
      modifies this
      ensures Valid() && instances == old(instances) && initcheck == old(initcheck) && monitors == old(monitors)
      ensures Repr == Footprint()
    {
      Repr := Footprint();
      forall dir | dir in instances ensures instances[dir] in Repr && instances[dir].Repr <= Repr {
        assert instances[dir] in instances.Values;
        forall f | f in instances[dir].Repr ensures f in Repr {
          assert f in Files();
        }
      }
    }

    constructor ()
      ensures Valid() && instances == map[] && !initcheck && monitors == 0 && Repr == {}
    {
      instances := map[];
      initcheck := false;
      monitors := 0;
      Repr := {};
    }

    /** registerDB(db): refuse a directory already registered; otherwise
        register db under its directory, sweep its files once at now, and
        start the monitor if it has not been started. */
    method RegisterDB(db: DefaultDB, now: int, entries: seq<Entry>, parse: string -> Option<int>,
                      isExpired: (int, int) -> bool) returns (r: Result<DefaultDB>)
      requires Valid() && db.Valid()
      requires db.basePath !in instances ==> db !in Repr && db.Repr !! Repr
      modifies this, db, db.Repr
      ensures Valid() && db.Repr == old(db.Repr)
      ensures db.basePath in old(instances) ==>
                && r == Err(AlreadyInitialized) && instances == old(instances)
                && initcheck == old(initcheck) && monitors == old(monitors)
                && db.disk == old(db.disk) && db.cache == old(db.cache)
      ensures db.basePath !in old(instances) ==>
                && r == Ok(db) && instances == old(instances)[db.basePath := db]
                && initcheck && monitors == 1
                && db.disk == old(db.disk) - Doomed(db.dayOf, entries, parse, isExpired, now)
                && db.cache == old(db.cache) - Doomed(db.dayOf, entries, parse, isExpired, now)
    {
      if db.basePath in instances {
        return Err(AlreadyInitialized);
      }
      // the sweep reads nothing of the registry, so it may come first
      CheckDBStorage(db, now, entries, parse, isExpired);
      Admit(db);
      return Ok(db);
    }

    /** The registration proper: db under its directory, and the monitor
        started once. */
    method Admit(db: DefaultDB)
      requires Valid() && db.Valid() && db !in Repr && db.Repr !! Repr && db.basePath !in instances
      modifies this
      ensures Valid() && instances == old(instances)[db.basePath := db] && initcheck && monitors == 1
    {
      instances := instances[db.basePath := db];
      if !initcheck {
        monitors := monitors + 1;
        initcheck := true;
      }
      Repr := Repr + {db} + db.Repr;
    }

    /** unRegisterDB(db): drop whatever is registered under db's directory,
        or report "db not open". */
    method UnRegisterDB(db: DefaultDB) returns (r: Result<()>)
      requires Valid()
      modifies this
      ensures Valid() && initcheck == old(initcheck) && monitors == old(monitors)
      ensures r == if db.basePath in old(instances) then Ok(()) else Err(DBNotOpen)
      ensures instances == old(instances) - {db.basePath}
    {
      if db.basePath in instances {
        ghost var gone := instances[db.basePath];
        instances := instances - {db.basePath};
        Repr := Repr - {gone} - gone.Repr;
        return Ok(());
      }
      RemoveKey(instances, db.basePath);
      return Err(DBNotOpen);
    }

    /** systemcheckcall(): sweep every registered database with one shared
        now; order is the order the map iteration happens to take, walk
        the entries of a directory. */
    method SystemCheckCall(now: int, order: seq<string>, walk: string -> seq<Entry>,
                           parse: string -> Option<int>, isExpired: (int, int) -> bool)
      requires Valid()
      requires forall dir :: dir in instances <==> dir in order
      requires forall i, j :: 0 <= i < j < |order| ==> order[i] != order[j]
      modifies Repr
      ensures Valid() && instances == old(instances) && Repr == old(Repr)
      ensures Swept(old(Disks()), old(Caches()), now, walk, parse, isExpired)
      ensures forall dir :: dir in instances ==> instances[dir].Repr == old(instances[dir].Repr)
    {
      ghost var d0, c0, r0 := Disks(), Caches(), Reprs();
      var i := 0;
      while i < |order|
        invariant 0 <= i <= |order|
        invariant Valid() && instances == old(instances) && Repr == old(Repr) && Reprs() == r0
        invariant SweptUpTo(d0, c0, order, i, now, walk, parse, isExpired)
      {
        SweepNext(d0, c0, order, i, now, walk, parse, isExpired);
        i := i + 1;
      }
      SweptAll(d0, c0, order, now, walk, parse, isExpired);
    }

    /** Every registered database has lost exactly its doomed days, from
        its disk d0[dir] and from its cache c0[dir]. */
    ghost predicate Swept(d0: map<string, map<int, seq<byte>>>, c0: map<string, map<int, StoreFile>>, now: int,
                          walk: string -> seq<Entry>, parse: string -> Option<int>, isExpired: (int, int) -> bool)
      reads this, instances.Values
    {
      forall dir :: dir in instances ==>
        && dir in d0 && dir in c0
        && instances[dir].disk == d0[dir] - Doomed(instances[dir].dayOf, walk(dir), parse, isExpired, now)
        && instances[dir].cache == c0[dir] - Doomed(instances[dir].dayOf, walk(dir), parse, isExpired, now)
    }

    /** Once the loop has passed every directory of the registry, all of
        them are swept. */
    lemma SweptAll(d0: map<string, map<int, seq<byte>>>, c0: map<string, map<int, StoreFile>>, order: seq<string>,
                   now: int, walk: string -> seq<Entry>, parse: string -> Option<int>, isExpired: (int, int) -> bool)
      requires SweptUpTo(d0, c0, order, |order|, now, walk, parse, isExpired)
      requires forall dir :: dir in instances <==> dir in order
      ensures Swept(d0, c0, now, walk, parse, isExpired)
    {
      assert order[..|order|] == order;
    }

    /** The data of every registered database, by directory. */
    ghost function Disks(): map<string, map<int, seq<byte>>>
      reads this, instances.Values
    {
      map dir | dir in instances :: instances[dir].disk
    }

    /** The cache of every registered database, by directory. */
    ghost function Caches(): map<string, map<int, StoreFile>>
      reads this, instances.Values
    {
      map dir | dir in instances :: instances[dir].cache
    }

    /** The store files of every registered database, by directory. */
    ghost function Reprs(): map<string, set<StoreFile>>
      reads this, instances.Values
    {
      map dir | dir in instances :: instances[dir].Repr
    }

    /** The databases of order[..i] have been swept, the others not yet. */
    ghost predicate SweptUpTo(d0: map<string, map<int, seq<byte>>>, c0: map<string, map<int, StoreFile>>,
                              order: seq<string>, i: nat, now: int,
                              walk: string -> seq<Entry>, parse: string -> Option<int>, isExpired: (int, int) -> bool)
      requires i <= |order|
      reads this, instances.Values
    {
      forall dir :: dir in instances ==>
        && dir in d0 && dir in c0
        && instances[dir].disk == (if dir in order[..i] then d0[dir] - Doomed(instances[dir].dayOf, walk(dir), parse, isExpired, now)
                                   else d0[dir])
        && instances[dir].cache == (if dir in order[..i] then c0[dir] - Doomed(instances[dir].dayOf, walk(dir), parse, isExpired, now)
                                    else c0[dir])
    }

    /** One turn of the loop over the registry: the database under order[i],
        not swept yet, is swept. */
    method SweepNext(ghost d0: map<string, map<int, seq<byte>>>, ghost c0: map<string, map<int, StoreFile>>,
                     order: seq<string>, i: nat, now: int,
                     walk: string -> seq<Entry>, parse: string -> Option<int>, isExpired: (int, int) -> bool)
      requires Valid() && i < |order| && SweptUpTo(d0, c0, order, i, now, walk, parse, isExpired)
      requires forall dir :: dir in instances <==> dir in order
      requires forall i, j :: 0 <= i < j < |order| ==> order[i] != order[j]
      modifies Repr
      ensures Valid() && instances == old(instances) && Repr == old(Repr) && Reprs() == old(Reprs())
      ensures SweptUpTo(d0, c0, order, i + 1, now, walk, parse, isExpired)
    {
      var dir := order[i];
      assert dir !in order[..i] by {
        forall k | 0 <= k < i ensures order[..i][k] != dir { }
      }
      assert order[..i + 1] == order[..i] + [dir];
      Sweep(dir, now, walk(dir), parse, isExpired);
    }

    /** checkDBStorage of the database registered under dir; the others
        are untouched. */
    method Sweep(dir: string, now: int, entries: seq<Entry>, parse: string -> Option<int>, isExpired: (int, int) -> bool)
      requires Valid() && dir in instances
      modifies Repr
      ensures Valid() && instances == old(instances) && Repr == old(Repr) && Reprs() == old(Reprs())
      ensures instances[dir].disk == old(instances[dir].disk) - Doomed(instances[dir].dayOf, entries, parse, isExpired, now)
      ensures instances[dir].cache == old(instances[dir].cache) - Doomed(instances[dir].dayOf, entries, parse, isExpired, now)
      ensures forall d :: d in instances && d != dir ==> unchanged(instances[d])
    {
      var db := instances[dir];
      CheckDBStorage(db, now, entries, parse, isExpired);
      forall d | d in instances && d != dir ensures instances[d].Valid() && unchanged(instances[d]) {
        KeepValid(instances[d]);
      }
    }
  }

  /** The registry stays sound while a registered database is used: its
      writes and queries keep it valid and add only store files they have
      just loaded, and touch no other database. Refresh then makes it
      valid again. */
  twostate lemma InUse(reg: Registry, dir: string)
    requires old(reg.Valid()) && unchanged(reg) && dir in reg.instances
    requires reg.instances[dir].Valid()
    requires old(reg.instances[dir].Repr) <= reg.instances[dir].Repr
    requires fresh(reg.instances[dir].Repr - old(reg.instances[dir].Repr))
    requires forall d :: d in reg.instances && d != dir ==>
               unchanged(reg.instances[d]) && unchanged(old(reg.instances[d].Repr))
    ensures reg.Sound()
  {
    forall d | d in reg.instances && d != dir ensures reg.instances[d].Valid() {
      KeepValid(reg.instances[d]);
    }
  }

  /** A database none of whose objects changed is as valid as before. */
  twostate lemma KeepValid(db: DefaultDB)
    requires old(db.Valid()) && unchanged(db) && unchanged(old(db.Repr))
    ensures db.Valid()
  {
  }

  lemma RemoveKey<K, V>(m: map<K, V>, k: K)
    requires k !in m
    ensures m - {k} == m
  {
  }
}
