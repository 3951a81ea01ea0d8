/** The ranking table: each standing's rank (`array_rank` over the current
    totals, and over the previous totals when a trend is computed), the
    standings listed by ascending rank, and per entry the points, the games
    played, the distance to the winner and the trend. */
module Results {
  import opened Common
  import opened Sorting
  import opened Ranks
  import opened Scores

  /** The trend part of an entry: the rank in the previous window and the
      ranks gained since (`rank_pre - rank_now`, positive when the user
      climbed). */
  datatype TrendInfo = TrendInfo(rankPre: int, trend: int)

  /** One line of the ranking table. */
  datatype Entry = Entry(
    user: User,
    rankNow: int,
    pointsNow: Points,
    playedNow: int,
    pointsDiff: Points,
    trend: Option<TrendInfo>)

  /** The current totals, one per standing, in standing order. */
  function NowPoints(st: seq<Standing>): (p: seq<Points>)
    ensures |p| == |st| && forall i :: 0 <= i < |st| ==> p[i] == st[i].now.points
  {
    seq(|st|, i requires 0 <= i < |st| => st[i].now.points)
  }

  /** The previous totals, one per standing, in standing order. */
  function PrePoints(st: seq<Standing>): (p: seq<Points>)
    ensures |p| == |st| && forall i :: 0 <= i < |st| ==> p[i] == st[i].pre.points
  {
    seq(|st|, i requires 0 <= i < |st| => st[i].pre.points)
  }

  /** The current ranks: the competition rank of each standing's current
      total. */
  function NowRanks(st: seq<Standing>): (r: seq<int>)
    ensures |r| == |st|
    ensures forall i :: 0 <= i < |st| ==> r[i] == 1 + CountGreater(NowPoints(st), st[i].now.points)
  {
    ArrayRankSpec(NowPoints(st));
    ArrayRank(NowPoints(st))
  }

  /** The previous ranks: the competition rank of each standing's previous
      total. */
  function PreRanks(st: seq<Standing>): (r: seq<int>)
    ensures |r| == |st|
    ensures forall i :: 0 <= i < |st| ==> r[i] == 1 + CountGreater(PrePoints(st), st[i].pre.points)
  {
    ArrayRankSpec(PrePoints(st));
    ArrayRank(PrePoints(st))
  }

  /** The listing order: a copy of the current ranks sorted ascending, as
      positions with their ranks, tied ranks by position. */
  function ByRank(ranks: seq<int>): (order: seq<Keyed>)
    ensures |order| == |ranks|
    ensures forall k :: 0 <= k < |order| ==> 0 <= order[k].idx < |ranks| && order[k].key == ranks[order[k].idx]
    ensures Sorted(order, false)
  {
    SortedPairs(ranks, false);
    Sort(Pairs(ranks), false)
  }

  /** The position, among the standings, of the `k`-th listed entry. */
  function Position(st: seq<Standing>, k: int): (i: int)
    requires 0 <= k < |st|
    ensures 0 <= i < |st|
  {
    ByRank(NowRanks(st))[k].idx
  }

  /** The entry of standing `i`, given the winner's points. */
  function EntryOf(s: Standing, rankNow: int, rankPre: int, trend: bool, winner: Points): Entry
  {
    Entry(s.user, rankNow, s.now.points, s.now.played, winner - s.now.points,
          if trend then Some(TrendInfo(rankPre, rankPre - rankNow)) else None)
  }

  /** The loop over the listing order: the first listed standing sets the
      winner's points; every listed standing gets its entry. */
  function BuildEntries(st: seq<Standing>, trend: bool): (r: seq<Entry>)
    ensures |r| == |st|
  {
    if |st| == 0 then []
    else
      var rn, rp := NowRanks(st), PreRanks(st);
      var winner := st[Position(st, 0)].now.points;
      seq(|st|, k requires 0 <= k < |st| =>
        EntryOf(st[Position(st, k)], rn[Position(st, k)], rp[Position(st, k)], trend, winner))
  }

  /** The rank of the `k`-th entry is the rank it was listed by. */
  lemma RankAt(st: seq<Standing>, trend: bool, k: int)
    requires 0 <= k < |st|
    ensures BuildEntries(st, trend)[k].rankNow == ByRank(NowRanks(st))[k].key
  {
  }

  /** Each entry carries its standing's login, current points and games,
      its competition rank among the current totals, and, with a trend,
      its rank among the previous totals and the ranks gained. */
  lemma EntryContents(st: seq<Standing>, trend: bool, k: int)
    requires 0 <= k < |st|
    ensures var e, s := BuildEntries(st, trend)[k], st[Position(st, k)];
      && e.user == s.user
      && e.pointsNow == s.now.points
      && e.playedNow == s.now.played
      && e.rankNow == 1 + CountGreater(NowPoints(st), s.now.points)
      && (trend <==> e.trend.Some?)
      && (trend ==> e.trend.value.rankPre == 1 + CountGreater(PrePoints(st), s.pre.points))
      && (trend ==> e.trend.value.trend == e.trend.value.rankPre - e.rankNow)
  {
  }

  /** Standing `i` is listed at some place of the table. */
  predicate Listed(st: seq<Standing>, i: int)
  {
    exists k :: 0 <= k < |st| && Position(st, k) == i
  }

  /** Every standing is listed exactly once. */
  lemma EveryStandingListed(st: seq<Standing>)
    ensures forall i :: 0 <= i < |st| ==> Listed(st, i)
    ensures forall k, l :: 0 <= k < l < |st| ==> Position(st, k) != Position(st, l)
  {
    var rn := NowRanks(st);
    SortedPairs(rn, false);
    SortedPairsDistinct(rn, false);
    forall i | 0 <= i < |st| ensures Listed(st, i) {
      var k :| 0 <= k < |st| && ByRank(rn)[k] == Keyed(i, rn[i]);
      assert Position(st, k) == i;
    }
  }

  /** With distinct logins, the table lists distinct logins. */
  lemma DistinctUsersListed(st: seq<Standing>, trend: bool)
    requires forall i, j :: 0 <= i < j < |st| ==> st[i].user != st[j].user
    ensures forall k, l :: 0 <= k < l < |st| ==>
              BuildEntries(st, trend)[k].user != BuildEntries(st, trend)[l].user
  {
    EveryStandingListed(st);
    forall k, l | 0 <= k < l < |st|
      ensures BuildEntries(st, trend)[k].user != BuildEntries(st, trend)[l].user
    {
      var i, j := Position(st, k), Position(st, l);
      assert i < j || j < i;
      if i < j {
        assert st[i].user != st[j].user;
      } else {
        assert st[j].user != st[i].user;
      }
    }
  }

  /** The table runs by ascending rank; entries with equal rank keep the
      order of the standings. */
  lemma EntriesInRankOrder(st: seq<Standing>, trend: bool, k: int, l: int)
    requires 0 <= k < l < |st|
    ensures BuildEntries(st, trend)[k].rankNow <= BuildEntries(st, trend)[l].rankNow
    ensures BuildEntries(st, trend)[k].rankNow == BuildEntries(st, trend)[l].rankNow ==>
              Position(st, k) < Position(st, l)
  {
    var order := ByRank(NowRanks(st));
    RankAt(st, trend, k);
    RankAt(st, trend, l);
    EveryStandingListed(st);
    assert InOrder(order[k], order[l], false);
  }

  /** A user with more points than another is listed before them. */
  lemma MorePointsListedFirst(st: seq<Standing>, trend: bool, k: int, l: int)
    requires 0 <= k < |st| && 0 <= l < |st|
    requires BuildEntries(st, trend)[k].pointsNow > BuildEntries(st, trend)[l].pointsNow
    ensures k < l
  {
    var i, j := Position(st, k), Position(st, l);
    var order := ByRank(NowRanks(st));
    RankOrder(NowPoints(st), i, j);
    assert l < k ==> InOrder(order[l], order[k], false);
  }

  /** The first listed standing has rank 1. */
  lemma FirstIsLeader(st: seq<Standing>)
    requires |st| > 0
    ensures NowRanks(st)[Position(st, 0)] == 1
  {
    var rn := NowRanks(st);
    var order := ByRank(rn);
    HasLeader(NowPoints(st));
    var i :| 0 <= i < |st| && rn[i] == 1;
    SortedPairs(rn, false);
    var m :| 0 <= m < |st| && order[m] == Keyed(i, rn[i]);
    assert 0 < m ==> InOrder(order[0], order[m], false);
    RankBounds(NowPoints(st), Position(st, 0));
  }

  /** The winner's points are the highest total; every entry's distance to
      the winner is the winner's points minus its own, never negative, and
      zero exactly for the entries of rank 1. */
  lemma PointsBehindLeader(st: seq<Standing>, trend: bool, k: int)
    requires 0 <= k < |st|
    ensures forall j :: 0 <= j < |st| ==> st[j].now.points <= BuildEntries(st, trend)[0].pointsNow
    ensures BuildEntries(st, trend)[k].pointsDiff
         == BuildEntries(st, trend)[0].pointsNow - BuildEntries(st, trend)[k].pointsNow
    ensures BuildEntries(st, trend)[k].pointsDiff >= 0
    ensures BuildEntries(st, trend)[k].pointsDiff == 0 <==> BuildEntries(st, trend)[k].rankNow == 1
  {
    var vals := NowPoints(st);
    FirstIsLeader(st);
    RankOneIsTop(vals, Position(st, 0));
    RankOneIsTop(vals, Position(st, k));
    assert forall j :: 0 <= j < |st| ==> vals[j] <= vals[Position(st, 0)];
  }

  /** The first entry is the winner: rank 1, no distance to itself. */
  lemma WinnerFirst(st: seq<Standing>, trend: bool)
    requires |st| > 0
    ensures BuildEntries(st, trend)[0].rankNow == 1
    ensures BuildEntries(st, trend)[0].pointsDiff == 0
  {
    FirstIsLeader(st);
  }
}
