/** `prepare_ranking` as a whole, with its file cache. A request names the
    cache prefix, the cities and the date window; the ranking is computed
    from the score rows, or served from a cache entry younger than ten
    minutes under the same file name. The file system is a map from file
    names to the stored ranking and its modification time; the clock
    (`now`) and the latest tournament date are parameters. */
module Ranking {
  import opened Common
  import opened Text
  import opened Windows
  import opened DataLoader
  import opened Scores
  import opened Results

  /** The ranking's meta data: whether trends are shown, the number of
      tournaments counted, the maximum attainable points and the city
      label. */
  datatype Meta = Meta(hasTrends: bool, ntournaments: nat, pointsMax: int, city: string)

  datatype Ranking = Ranking(meta: Meta, entries: seq<Entry>)

  /** A cache file: the serialised ranking and the file's modification time
      in seconds. */
  datatype CacheEntry = CacheEntry(ranking: Ranking, mtime: int)

  type Cache = map<string, CacheEntry>

  /** A cache file is used while it is at most this many seconds old. */
  const CacheLifetime := 600

  /** What a caller has set on the ranking object before asking for the
      ranking: the name given to `set_cachehash` (before its spaces are
      replaced), `set_cities`, `set_tdates` (either of these two may not
      have been called), the constructor's `points_max` and `cache`. */
  datatype Request = Request(
    cachehash: string,
    cities: Option<Cities>,
    window: Option<Window>,
    pointsMax: int,
    cacheOn: bool)

  /** The database as seen by the two queries: the grouped score rows of
      the selected cities, and the deadman's rows when the deadman login is
      a known user. */
  datatype Store = Store(rows: seq<Row>, deadman: Option<seq<DayRow>>)

  datatype Error = NotPrepared

  /** The ranking handed back, the cache after the call, and whether the
      ranking came out of the cache. */
  datatype Outcome = Outcome(ranking: Ranking, cache: Cache, fromCache: bool)

  /** `set_cachehash`: spaces become underscores. */
  function SetCachehash(name: string): (h: string)
    ensures ' ' !in h
    ensures |h| == |name|
    ensures forall i :: 0 <= i < |name| && name[i] != ' ' ==> h[i] == name[i]
    ensures forall i :: 0 <= i < |name| && name[i] == ' ' ==> h[i] == '_'
  {
    ReplaceSpacesIdempotent(name);
    ReplaceSpaces(name)
  }

  /** `sprintf("%d", x)` on a possibly null bound: null prints as 0. */
  function PrintD(x: Option<Round>): string
  {
    IntToString(if x.None? then 0 else x.value)
  }

  /** A previous bound as the cache file name shows it: `NULL` or the
      number. */
  function Cell(x: Option<Round>): (s: string)
    ensures Field(s)
  {
    match x
    case None => "NULL"
    case Some(v) => IntToStringIsField(v); IntToString(v)
  }

  /** The date part of the cache file name as written: the second field
      tests `from_prev`, not `to_prev`, for null, so a null `to_prev` after
      a non-null `from_prev` prints as 0. */
  function TdateHashAsWritten(w: Window): (s: string)
    ensures w.fromPrev.None? ==> s == "NULL-NULL_" + IntToString(w.from) + "-" + IntToString(w.to)
    ensures w.fromPrev.Some? && w.toPrev.None? ==>
              s == IntToString(w.fromPrev.value) + "-0_" + IntToString(w.from) + "-" + IntToString(w.to)
    ensures (w.fromPrev.Some? <==> w.toPrev.Some?) ==> s == TdateHash(w)
  {
    var second := if w.fromPrev.None? then "NULL" else PrintD(w.toPrev);
    assert w.toPrev.None? ==> PrintD(w.toPrev) == "0";
    Cell(w.fromPrev) + "-" + (second + "_" + (IntToString(w.from) + "-" + IntToString(w.to)))
  }

  /** The date part of the cache file name, each previous bound checked for
      null on its own. */
  function TdateHash(w: Window): (s: string)
    ensures w.fromPrev.Some? && w.toPrev.None? ==>
              s == IntToString(w.fromPrev.value) + "-NULL_" + IntToString(w.from) + "-" + IntToString(w.to)
  {
    Cell(w.fromPrev) + "-" + (Cell(w.toPrev) + "_" + (IntToString(w.from) + "-" + IntToString(w.to)))
  }

  /** The printed ids of a list of cities, in list order. */
  function Ids(list: seq<City>): (ids: seq<string>)
    ensures |ids| == |list| && forall i :: 0 <= i < |list| ==> ids[i] == IntToString(list[i].id)
  {
    seq(|list|, i requires 0 <= i < |list| => IntToString(list[i].id))
  }

  /** The city part of the cache file name: the id, or the ids joined by
      `:`. A single city object and a one-element list of it share the
      name. */
  function CityHash(c: Cities): (h: string)
    ensures c.One? ==> h == IntToString(c.city.id)
    ensures c.Many? && |c.list| == 1 ==> h == IntToString(c.list[0].id)
  {
    match c
    case One(city) => IntToString(city.id)
    case Many(list) => Join(":", Ids(list))
  }

  /** A printed id holds no `:`. */
  lemma NoColonInIds(list: seq<City>)
    ensures forall i :: 0 <= i < |list| ==> ':' !in Ids(list)[i]
  {
    forall i | 0 <= i < |list| ensures ':' !in Ids(list)[i] {
      var s := Ids(list)[i];
      assert forall k :: 0 <= k < |s| ==> s[k] == '-' || IsDigit(s[k]);
    }
  }

  /** Two non-empty city lists share the city part of the cache file name
      only when they list the same ids in the same order. */
  lemma CityHashInjective(l1: seq<City>, l2: seq<City>)
    requires |l1| >= 1 && |l2| >= 1
    requires CityHash(Many(l1)) == CityHash(Many(l2))
    ensures |l1| == |l2|
    ensures forall i :: 0 <= i < |l1| ==> l1[i].id == l2[i].id
  {
    NoColonInIds(l1);
    NoColonInIds(l2);
    JoinSplit(':', Ids(l1));
    JoinSplit(':', Ids(l2));
    assert Ids(l1) == Ids(l2);
    forall i | 0 <= i < |l1| ensures l1[i].id == l2[i].id {
      IntToStringInjective(l1[i].id, l2[i].id);
    }
  }

  /** `_get_cache_file_name`, without the plugin directory. */
  function CacheFileName(cachehash: string, tdateHash: string, cityHash: string): string
  {
    "wt-ranking_" + cachehash + "_" + tdateHash + "_" + cityHash + ".json"
  }

  /** The names of a list of cities, in list order. */
  function Names(list: seq<City>): (names: seq<string>)
    ensures |names| == |list| && forall i :: 0 <= i < |list| ==> names[i] == list[i].name
  {
    seq(|list|, i requires 0 <= i < |list| => list[i].name)
  }

  /** The meta city label: the city's name, or the names joined by a space.
      Names without spaces can be read back from the label in list order. */
  function CityLabel(c: Cities): (s: string)
    ensures c.One? ==> s == c.city.name
    ensures c.Many? && |c.list| == 1 ==> s == c.list[0].name
    ensures c.Many? && |c.list| >= 2 ==>
              s == CityLabel(Many(c.list[..|c.list| - 1])) + " " + c.list[|c.list| - 1].name
    ensures c.Many? && |c.list| >= 1 && (forall i :: 0 <= i < |c.list| ==> ' ' !in c.list[i].name) ==>
              Split(' ', s) == Names(c.list)
    decreases if c.Many? then |c.list| else 0
  {
    match c
    case One(city) => city.name
    case Many(list) =>
      if |list| >= 2 then
        var n := |list| - 1;
        JoinSnoc(" ", Names(list[..n]), list[n].name);
        assert Names(list) == Names(list[..n]) + [list[n].name];
        if forall i :: 0 <= i < |list| ==> ' ' !in list[i].name then JoinSplit(' ', Names(list)); Join(" ", Names(list))
        else Join(" ", Names(list))
      else if |list| == 1 && ' ' !in list[0].name then
        JoinSplit(' ', Names(list));
        Join(" ", Names(list))
      else Join(" ", Names(list))
  }

  /** `_get_data_object(false)` for a request. */
  function Loaded(store: Store, c: Cities, w: Window): UserData
  {
    LoadUserData(store.rows, ResolveWindow(w), CityCount(c))
  }

  /** `_get_data_object(true)` for a request. */
  function Deadman(store: Store, c: Cities, w: Window): Option<map<Round, Points>>
  {
    LoadDeadman(store.deadman, ResolveWindow(w), CityCount(c))
  }

  /** The standings that enter the ranks: one per loaded user, with the
      single-date rule applied. */
  function Standings(store: Store, c: Cities, w: Window, latest: Round): seq<Standing>
  {
    var ud := Loaded(store, c, w);
    ShapeSpec(Select(store.rows, ResolveWindow(w), CityCount(c)));
    DropAbsent(Tally(ud, Deadman(store, c, w), w, latest), w.from == w.to)
  }

  /** The computation of `prepare_ranking` after the cache test. */
  function BuildRanking(pointsMax: int, c: Cities, w: Window, store: Store, latest: Round): (r: Ranking)
    ensures r.meta.hasTrends <==> w.fromPrev.Some? && w.toPrev.Some?
    ensures |r.entries| == |Standings(store, c, w, latest)|
  {
    var nt := NTournaments(Loaded(store, c, w).tdates, w.from, latest);
    var st := Standings(store, c, w, latest);
    Ranking(Meta(ResolveWindow(w).trend, nt, pointsMax * nt * CityCount(c), CityLabel(c)),
            BuildEntries(st, ResolveWindow(w).trend))
  }

  /** The cache file a request reads and writes, named as the source names
      it. */
  function KeyOf(req: Request, c: Cities, w: Window): string
  {
    CacheFileName(SetCachehash(req.cachehash), TdateHashAsWritten(w), CityHash(c))
  }

  /** The cache file name with the corrected date part. */
  function FixedKeyOf(req: Request, c: Cities, w: Window): string
  {
    CacheFileName(SetCachehash(req.cachehash), TdateHash(w), CityHash(c))
  }

  /** The cache holds a file for `key` that is young enough at `now`. */
  predicate Hit(cache: Cache, key: string, now: int)
  {
    key in cache && now - cache[key].mtime <= CacheLifetime
  }

  /** The cache step under the file name `key`: with the cache on and a
      young enough file, its ranking; else the computed ranking, which is
      written to the file when the cache is on and the directory is
      writable. */
  function Serve(req: Request, c: Cities, w: Window, key: string,
                 store: Store, cache: Cache, now: int, latest: Round, writable: bool): (o: Outcome)
    ensures o.fromCache <==> req.cacheOn && Hit(cache, key, now)
    ensures o.fromCache ==> o.ranking == cache[key].ranking && o.cache == cache
    ensures !o.fromCache ==> o.ranking == BuildRanking(req.pointsMax, c, w, store, latest)
    ensures !o.fromCache && req.cacheOn && writable ==> o.cache == cache[key := CacheEntry(o.ranking, now)]
    ensures !(req.cacheOn && writable) ==> o.cache == cache
  {
    if req.cacheOn && Hit(cache, key, now) then Outcome(cache[key].ranking, cache, true)
    else
      var ranking := BuildRanking(req.pointsMax, c, w, store, latest);
      var cache' := if req.cacheOn && writable then cache[key := CacheEntry(ranking, now)] else cache;
      Outcome(ranking, cache', false)
  }

  /** `prepare_ranking`: nothing without cities and dates; otherwise the
      cache step under the file name the source builds. */
  function PrepareRanking(req: Request, store: Store, cache: Cache, now: int, latest: Round, writable: bool)
    : (r: Result<Outcome, Error>)
    ensures r.Failure? <==> req.cities.None? || req.window.None?
    ensures r.Success? ==> (r.value.fromCache <==>
              req.cacheOn && Hit(cache, KeyOf(req, req.cities.value, req.window.value), now))
    ensures r.Success? && !req.cacheOn ==> r.value.cache == cache
  {
    if req.window.None? || req.cities.None? then Failure(NotPrepared)
    else
      var c, w := req.cities.value, req.window.value;
      Success(Serve(req, c, w, KeyOf(req, c, w), store, cache, now, latest, writable))
  }

  /** `prepare_ranking` with the corrected cache file name. */
  function PrepareRankingFixed(req: Request, store: Store, cache: Cache, now: int, latest: Round, writable: bool)
    : (r: Result<Outcome, Error>)
    ensures r.Failure? <==> req.cities.None? || req.window.None?
    ensures r.Success? ==> (r.value.fromCache <==>
              req.cacheOn && Hit(cache, FixedKeyOf(req, req.cities.value, req.window.value), now))
    ensures r.Success? && !req.cacheOn ==> r.value.cache == cache
  {
    if req.window.None? || req.cities.None? then Failure(NotPrepared)
    else
      var c, w := req.cities.value, req.window.value;
      Success(Serve(req, c, w, FixedKeyOf(req, c, w), store, cache, now, latest, writable))
  }

  // ---------------------------------------------------------------------
  // The cache file name

  /** As written, two windows that differ in whether the trend is computed
      get the same cache file: a null `to_prev` prints like `to_prev = 0`. */
  lemma AsWrittenKeyCollides()
    ensures var w1, w2 := Window(17000, 17006, Some(16993), None, None), Window(17000, 17006, Some(16993), Some(0), None);
      && TdateHashAsWritten(w1) == TdateHashAsWritten(w2)
      && ResolveWindow(w1).trend != ResolveWindow(w2).trend
  {
    var w1, w2 := Window(17000, 17006, Some(16993), None, None), Window(17000, 17006, Some(16993), Some(0), None);
    assert IntToString(0) == "0";
  }

  lemma CellInjective(x: Option<Round>, y: Option<Round>)
    requires Cell(x) == Cell(y)
    ensures x == y
  {
    assert Cell(x)[0] == 'N' <==> x.None?;
    assert Cell(y)[0] == 'N' <==> y.None?;
    if x.Some? && y.Some? {
      IntToStringInjective(x.value, y.value);
    }
  }

  /** The corrected date part of the file name determines all four
      bounds. */
  lemma TdateHashInjective(w1: Window, w2: Window)
    requires TdateHash(w1) == TdateHash(w2)
    ensures w1.from == w2.from && w1.to == w2.to
    ensures w1.fromPrev == w2.fromPrev && w1.toPrev == w2.toPrev
  {
    var f1, f2 := IntToString(w1.from), IntToString(w2.from);
    var t1, t2 := IntToString(w1.to), IntToString(w2.to);
    IntToStringIsField(w1.from);
    IntToStringIsField(w2.from);
    var rest1 := Cell(w1.toPrev) + "_" + (f1 + "-" + t1);
    var rest2 := Cell(w2.toPrev) + "_" + (f2 + "-" + t2);
    SplitField(Cell(w1.fromPrev), rest1, Cell(w2.fromPrev), rest2, '-');
    SplitField(Cell(w1.toPrev), f1 + "-" + t1, Cell(w2.toPrev), f2 + "-" + t2, '_');
    SplitField(f1, t1, f2, t2, '-');
    CellInjective(w1.fromPrev, w2.fromPrev);
    CellInjective(w1.toPrev, w2.toPrev);
    IntToStringInjective(w1.from, w2.from);
    IntToStringInjective(w1.to, w2.to);
  }

  /** Two strings with the same prefix and suffix around them are equal. */
  lemma MiddleEqual(p: string, a: string, b: string, q: string)
    requires p + a + q == p + b + q
    ensures a == b
  {
    assert |a| == |b|;
    assert a == (p + a + q)[|p|..|p| + |a|];
    assert b == (p + b + q)[|p|..|p| + |b|];
  }

  /** With the corrected date part, two windows share a cache file under
      one cache prefix and one city selection only when they agree on all
      four bounds. */
  lemma CacheFileNameDeterminesWindow(h: string, c: Cities, w1: Window, w2: Window)
    requires CacheFileName(h, TdateHash(w1), CityHash(c)) == CacheFileName(h, TdateHash(w2), CityHash(c))
    ensures w1.from == w2.from && w1.to == w2.to
    ensures w1.fromPrev == w2.fromPrev && w1.toPrev == w2.toPrev
  {
    var a, b := TdateHash(w1), TdateHash(w2);
    var p, q := "wt-ranking_" + h + "_", "_" + CityHash(c) + ".json";
    assert CacheFileName(h, a, CityHash(c)) == p + a + q;
    assert CacheFileName(h, b, CityHash(c)) == p + b + q;
    MiddleEqual(p, a, b, q);
    TdateHashInjective(w1, w2);
  }

  // ---------------------------------------------------------------------
  // The cache

  /** A young enough cache file is served as stored, whatever the database
      now holds, and the cache is left as it is. */
  lemma CacheHitServesStored(req: Request, store: Store, cache: Cache, now: int, latest: Round, writable: bool)
    requires req.cities.Some? && req.window.Some? && req.cacheOn
    requires Hit(cache, KeyOf(req, req.cities.value, req.window.value), now)
    ensures var r := PrepareRanking(req, store, cache, now, latest, writable);
      r.Success? && r.value.fromCache &&
      r.value.ranking == cache[KeyOf(req, req.cities.value, req.window.value)].ranking &&
      r.value.cache == cache
  {
  }

  /** A computed ranking is the one the database gives, and only its own
      cache file changes: written with the current time when the cache is
      on and the directory writable, every other file untouched. */
  lemma MissComputes(req: Request, store: Store, cache: Cache, now: int, latest: Round, writable: bool)
    requires req.cities.Some? && req.window.Some?
    requires !(req.cacheOn && Hit(cache, KeyOf(req, req.cities.value, req.window.value), now))
    ensures var r, key := PrepareRanking(req, store, cache, now, latest, writable),
                          KeyOf(req, req.cities.value, req.window.value);
      && r.Success? && !r.value.fromCache
      && r.value.ranking == BuildRanking(req.pointsMax, req.cities.value, req.window.value, store, latest)
      && (req.cacheOn && writable ==> key in r.value.cache && r.value.cache[key] == CacheEntry(r.value.ranking, now))
      && (!(req.cacheOn && writable) ==> r.value.cache == cache)
      && (forall k :: k != key ==> (k in r.value.cache <==> k in cache))
      && (forall k :: k != key && k in cache ==> r.value.cache[k] == cache[k])
  {
  }

  /** Asking twice within ten minutes: once a first call has computed and
      written its ranking, the second call returns that ranking from the cache, even if
      the database changed in between. */
  lemma SecondCallServedFromCache(req: Request, store1: Store, store2: Store, cache: Cache,
                                  now1: int, now2: int, latest1: Round, latest2: Round, writable2: bool)
    requires req.cities.Some? && req.window.Some? && req.cacheOn
    requires !Hit(cache, KeyOf(req, req.cities.value, req.window.value), now1)
    requires now2 - now1 <= CacheLifetime
    ensures var r1 := PrepareRanking(req, store1, cache, now1, latest1, true);
            var r2 := PrepareRanking(req, store2, r1.value.cache, now2, latest2, writable2);
      r2.Success? && r2.value.fromCache && r2.value.ranking == r1.value.ranking
  {
    var key := KeyOf(req, req.cities.value, req.window.value);
    var r1 := PrepareRanking(req, store1, cache, now1, latest1, true);
    assert r1.value.cache[key].mtime == now1;
  }

  /** After ten minutes the cache file no longer counts: the ranking is
      computed afresh from the database. */
  lemma StaleFileRecomputed(req: Request, store: Store, cache: Cache, now: int, latest: Round, writable: bool)
    requires req.cities.Some? && req.window.Some?
    requires KeyOf(req, req.cities.value, req.window.value) in cache
    requires now > cache[KeyOf(req, req.cities.value, req.window.value)].mtime + CacheLifetime
    ensures var r := PrepareRanking(req, store, cache, now, latest, writable);
      r.Success? && !r.value.fromCache &&
      r.value.ranking == BuildRanking(req.pointsMax, req.cities.value, req.window.value, store, latest)
  {
  }

  /** As written, a ranking computed for a window without a previous end
      (`to_prev` null) is served from its cache file to a request for the
      same window with `to_prev = 0`, which asks for a trend: the trend
      request gets a ranking without trends. */
  lemma AsWrittenServesTrendless(name: string, c: Cities, pointsMax: int, store1: Store, store2: Store,
                                 cache: Cache, now1: int, now2: int, latest1: Round, latest2: Round, writable2: bool)
    requires var w1 := Window(17000, 17006, Some(16993), None, None);
      !Hit(cache, KeyOf(Request(name, Some(c), Some(w1), pointsMax, true), c, w1), now1)
    requires now2 - now1 <= CacheLifetime
    ensures var w1, w2 := Window(17000, 17006, Some(16993), None, None), Window(17000, 17006, Some(16993), Some(0), None);
            var r1 := PrepareRanking(Request(name, Some(c), Some(w1), pointsMax, true), store1, cache, now1, latest1, true);
            var r2 := PrepareRanking(Request(name, Some(c), Some(w2), pointsMax, true), store2, r1.value.cache, now2, latest2, writable2);
      && ResolveWindow(w2).trend
      && r2.Success? && r2.value.fromCache
      && !r2.value.ranking.meta.hasTrends
  {
    var w1, w2 := Window(17000, 17006, Some(16993), None, None), Window(17000, 17006, Some(16993), Some(0), None);
    var req1, req2 := Request(name, Some(c), Some(w1), pointsMax, true), Request(name, Some(c), Some(w2), pointsMax, true);
    AsWrittenKeyCollides();
    assert KeyOf(req1, c, w1) == KeyOf(req2, c, w2);
    var r1 := PrepareRanking(req1, store1, cache, now1, latest1, true);
    assert r1.value.cache[KeyOf(req1, c, w1)] == CacheEntry(r1.value.ranking, now1);
  }

  /** With the corrected file name, whatever an earlier request under the
      same prefix and cities left in the cache, a later request that finds
      no young enough file of its own beforehand gets a ranking whose trend
      flag matches its own window. */
  lemma FixedKeepsTrend(req1: Request, req2: Request, store1: Store, store2: Store, cache: Cache,
                        now1: int, now2: int, latest1: Round, latest2: Round, writable1: bool, writable2: bool)
    requires req1.cities.Some? && req1.window.Some? && req2.window.Some?
    requires req2.cities == req1.cities && req2.cachehash == req1.cachehash
    requires !Hit(cache, FixedKeyOf(req2, req2.cities.value, req2.window.value), now2)
    ensures var r1 := PrepareRankingFixed(req1, store1, cache, now1, latest1, writable1);
            var r2 := PrepareRankingFixed(req2, store2, r1.value.cache, now2, latest2, writable2);
      r2.Success? && (r2.value.ranking.meta.hasTrends <==> ResolveWindow(req2.window.value).trend)
  {
    var c, w1, w2 := req1.cities.value, req1.window.value, req2.window.value;
    var k1, k2 := FixedKeyOf(req1, c, w1), FixedKeyOf(req2, c, w2);
    var o1 := Serve(req1, c, w1, k1, store1, cache, now1, latest1, writable1);
    var o2 := Serve(req2, c, w2, k2, store2, o1.cache, now2, latest2, writable2);
    assert PrepareRankingFixed(req1, store1, cache, now1, latest1, writable1) == Success(o1);
    assert PrepareRankingFixed(req2, store2, o1.cache, now2, latest2, writable2) == Success(o2);
    if o2.fromCache {
      assert o1.cache != cache;
      assert k1 == k2;
      CacheFileNameDeterminesWindow(SetCachehash(req1.cachehash), c, w1, w2);
      assert o2.ranking == BuildRanking(req1.pointsMax, c, w1, store1, latest1);
    }
  }

  // ---------------------------------------------------------------------
  // The computed ranking

  /** Every standing comes from a loaded user: one standing per user the
      query returned, or, for a single date, one per user who played it. */
  lemma StandingsFromTally(store: Store, c: Cities, w: Window, latest: Round, s: Standing)
    requires s in Standings(store, c, w, latest)
    ensures var ud := Loaded(store, c, w);
      && s.user in ud.data
      && s.now == WindowSum(ud.tdates, NowInterval(w), latest, ud.data[s.user], Deadman(store, c, w))
      && (w.from == w.to ==> s.now.played != 0)
  {
    var ud := Loaded(store, c, w);
    var dead := Deadman(store, c, w);
    ShapeSpec(Select(store.rows, ResolveWindow(w), CityCount(c)));
    var st := Tally(ud, dead, w, latest);
    assert s in st;
    var i :| 0 <= i < |st| && st[i] == s;
    TallySpec(ud, dead, w, latest, i);
  }

  /** Each entry shows a loaded user's current window sum: the points and
      the number of dates played between `from` and `to`, up to the latest
      tournament, counting the deadman's points where the user has none. */
  lemma EntryIsWindowSum(pointsMax: int, c: Cities, w: Window, store: Store, latest: Round, k: int)
    requires 0 <= k < |BuildRanking(pointsMax, c, w, store, latest).entries|
    ensures var e, ud := BuildRanking(pointsMax, c, w, store, latest).entries[k], Loaded(store, c, w);
      && e.user in ud.data
      && e.pointsNow == WindowSum(ud.tdates, NowInterval(w), latest, ud.data[e.user], Deadman(store, c, w)).points
      && e.playedNow == WindowSum(ud.tdates, NowInterval(w), latest, ud.data[e.user], Deadman(store, c, w)).played
  {
    var st := Standings(store, c, w, latest);
    var trend := ResolveWindow(w).trend;
    EntryContents(st, trend, k);
    var s := st[Position(st, k)];
    StandingsFromTally(store, c, w, latest, s);
  }

  /** A single-date ranking lists only users who played that date, and any
      ranking counts no more games per user than tournaments. */
  lemma PlayedBounds(pointsMax: int, c: Cities, w: Window, store: Store, latest: Round, k: int)
    requires 0 <= k < |BuildRanking(pointsMax, c, w, store, latest).entries|
    ensures var r := BuildRanking(pointsMax, c, w, store, latest);
      && 0 <= r.entries[k].playedNow <= r.meta.ntournaments
      && (w.from == w.to ==> r.entries[k].playedNow >= 1)
  {
    var st := Standings(store, c, w, latest);
    var ud := Loaded(store, c, w);
    var e := BuildRanking(pointsMax, c, w, store, latest).entries[k];
    EntryContents(st, ResolveWindow(w).trend, k);
    StandingsFromTally(store, c, w, latest, st[Position(st, k)]);
    var own := ud.data[e.user];
    PlayedAtMostTournaments(ud.tdates, w, latest, own, Deadman(store, c, w));
    WindowPlayed(ud.tdates, NowInterval(w), latest, own, Deadman(store, c, w));
  }

  /** The meta data: the number of tournaments is the number of distinct
      loaded dates from `from` up to the latest tournament, and the maximum
      attainable points are the per-tournament maximum times tournaments
      times cities. */
  lemma MetaSpec(pointsMax: int, c: Cities, w: Window, store: Store, latest: Round)
    ensures var r, ud := BuildRanking(pointsMax, c, w, store, latest), Loaded(store, c, w);
      && r.meta.ntournaments == |set t | t in ud.tdates && w.from <= t <= latest|
      && r.meta.pointsMax == pointsMax * r.meta.ntournaments * CityCount(c)
      && r.meta.city == CityLabel(c)
  {
    var ud := Loaded(store, c, w);
    ShapeSpec(Select(store.rows, ResolveWindow(w), CityCount(c)));
    CountInIsCardinality(ud.tdates, w.from, latest);
  }

  /** The standings have pairwise distinct logins: one per loaded user, of
      which the single-date rule keeps some, in order. */
  lemma StandingsDistinct(store: Store, c: Cities, w: Window, latest: Round)
    ensures var st := Standings(store, c, w, latest);
      forall i, j :: 0 <= i < j < |st| ==> st[i].user != st[j].user
  {
    var ud := Loaded(store, c, w);
    var dead := Deadman(store, c, w);
    ShapeSpec(Select(store.rows, ResolveWindow(w), CityCount(c)));
    assert NoDup(ud.users);
    var tally := Tally(ud, dead, w, latest);
    assert Standings(store, c, w, latest) == DropAbsent(tally, w.from == w.to);
    forall i, j | 0 <= i < j < |tally| ensures tally[i].user != tally[j].user {
      TallySpec(ud, dead, w, latest, i);
      TallySpec(ud, dead, w, latest, j);
    }
    DropAbsentDistinct(tally, w.from == w.to);
  }

  /** The ranking table lists every login at most once. */
  lemma EntriesDistinct(pointsMax: int, c: Cities, w: Window, store: Store, latest: Round)
    ensures var e := BuildRanking(pointsMax, c, w, store, latest).entries;
      forall k, l :: 0 <= k < l < |e| ==> e[k].user != e[l].user
  {
    StandingsDistinct(store, c, w, latest);
    DistinctUsersListed(Standings(store, c, w, latest), ResolveWindow(w).trend);
  }

  /** Without a single-date rule every loaded user is listed. */
  lemma EveryLoadedUserListed(pointsMax: int, c: Cities, w: Window, store: Store, latest: Round)
    requires w.from != w.to
    ensures |BuildRanking(pointsMax, c, w, store, latest).entries| == |Loaded(store, c, w).users|
    ensures forall u :: u in Loaded(store, c, w).users ==>
              exists k :: 0 <= k < |BuildRanking(pointsMax, c, w, store, latest).entries| &&
                BuildRanking(pointsMax, c, w, store, latest).entries[k].user == u
  {
    var ud := Loaded(store, c, w);
    var dead := Deadman(store, c, w);
    ShapeSpec(Select(store.rows, ResolveWindow(w), CityCount(c)));
    var st := Standings(store, c, w, latest);
    var tally := Tally(ud, dead, w, latest);
    assert st == tally;
    var e := BuildRanking(pointsMax, c, w, store, latest).entries;
    assert e == BuildEntries(st, ResolveWindow(w).trend);
    EveryStandingListed(st);
    forall u | u in ud.users ensures exists k :: 0 <= k < |e| && e[k].user == u {
      var i :| 0 <= i < |ud.users| && ud.users[i] == u;
      TallySpec(ud, dead, w, latest, i);
      assert Listed(st, i);
      var k :| 0 <= k < |st| && Position(st, k) == i;
      EntryContents(st, ResolveWindow(w).trend, k);
    }
  }
}
