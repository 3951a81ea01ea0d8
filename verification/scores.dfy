/** Score filling and accumulation (the first half of `prepare_ranking`):
    per user and tournament date the effective score (own points, else the
    deadman's, else nothing), summed into the current window and, with a
    trend, into the previous window; then the single-date rule that drops
    users who did not play. */
module Scores {
  import opened Common
  import opened Windows
  import opened DataLoader

  /** Summed points and the number of dates the user really played. */
  datatype Score = Score(points: Points, played: int)

  const Zero := Score(0, 0)

  function Plus(a: Score, b: Score): Score
  {
    Score(a.points + b.points, a.played + b.played)
  }

  /** The score one user gets for one date: their own points, counted as
      played; else the deadman's points for that date when the deadman is
      known and has some, not counted as played; else nothing. A missing
      deadman is never an error. */
  function Effective(own: map<Round, Points>, dead: Option<map<Round, Points>>, t: Round): (s: Score)
    ensures 0 <= s.played <= 1
    ensures s.played == 1 <==> t in own
    ensures t in own ==> s.points == own[t]
    ensures t !in own && dead.Some? && t in dead.value ==> s.points == dead.value[t]
    ensures t !in own && (dead.None? || t !in dead.value) ==> s == Zero
  {
    if t in own then Score(own[t], 1)
    else if dead.Some? && t in dead.value then Score(dead.value[t], 0)
    else Zero
  }

  /** A date counts for a window when it lies in it and is not in the
      future (after `latest`). */
  predicate Eligible(t: Round, iv: Interval, latest: Round)
  {
    Contains(iv, t) && t <= latest
  }

  /** Reference definition: the sum of the effective scores over the
      eligible dates of one window, taken on its own. */
  function WindowSum(ts: seq<Round>, iv: Interval, latest: Round,
                     own: map<Round, Points>, dead: Option<map<Round, Points>>): Score
    decreases |ts|
  {
    if |ts| == 0 then Zero
    else
      var init := WindowSum(ts[..|ts| - 1], iv, latest, own, dead);
      var t := ts[|ts| - 1];
      if Eligible(t, iv, latest) then Plus(init, Effective(own, dead, t)) else init
  }

  /** The current and previous totals of one user. */
  datatype Totals = Totals(now: Score, pre: Score)

  /** The loop over the tournament dates for one user, as written: a date
      after `latest` is skipped; otherwise its effective score is added to
      the previous total when there is a previous window and the date lies
      in it, and, independently, to the current total when the date lies in
      the current window. */
  function Accumulate(ts: seq<Round>, own: map<Round, Points>, dead: Option<map<Round, Points>>,
                      nowIv: Interval, preIv: Option<Interval>, latest: Round): Totals
    decreases |ts|
  {
    if |ts| == 0 then Totals(Zero, Zero)
    else
      var acc := Accumulate(ts[..|ts| - 1], own, dead, nowIv, preIv, latest);
      var t := ts[|ts| - 1];
      if t > latest then acc
      else
        var s := Effective(own, dead, t);
        var pre := if preIv.Some? && Contains(preIv.value, t) then Plus(acc.pre, s) else acc.pre;
        var now := if Contains(nowIv, t) then Plus(acc.now, s) else acc.now;
        Totals(now, pre)
  }

  lemma {:induction false} WindowSumConcat(xs: seq<Round>, ys: seq<Round>, iv: Interval, latest: Round,
                                          own: map<Round, Points>, dead: Option<map<Round, Points>>)
    ensures WindowSum(xs + ys, iv, latest, own, dead)
         == Plus(WindowSum(xs, iv, latest, own, dead), WindowSum(ys, iv, latest, own, dead))
    decreases |ys|
  {
    if |ys| > 0 {
      var n := |ys| - 1;
      var zs := xs + ys;
      assert zs[..|zs| - 1] == xs + ys[..n];
      assert zs[|zs| - 1] == ys[n];
      WindowSumConcat(xs, ys[..n], iv, latest, own, dead);
      var a, b := WindowSum(xs, iv, latest, own, dead), WindowSum(ys[..n], iv, latest, own, dead);
      if Eligible(ys[n], iv, latest) {
        var e := Effective(own, dead, ys[n]);
        assert WindowSum(zs, iv, latest, own, dead) == Plus(Plus(a, b), e);
        assert WindowSum(ys, iv, latest, own, dead) == Plus(b, e);
      } else {
        assert WindowSum(zs, iv, latest, own, dead) == Plus(a, b);
        assert WindowSum(ys, iv, latest, own, dead) == b;
      }
    } else {
      assert xs + ys == xs;
    }
  }

  lemma {:induction false} AccumulateNow(ts: seq<Round>, own: map<Round, Points>,
                                        dead: Option<map<Round, Points>>,
                                        nowIv: Interval, preIv: Option<Interval>, latest: Round)
    ensures Accumulate(ts, own, dead, nowIv, preIv, latest).now == WindowSum(ts, nowIv, latest, own, dead)
    decreases |ts|
  {
    if |ts| > 0 {
      AccumulateNow(ts[..|ts| - 1], own, dead, nowIv, preIv, latest);
    }
  }

  lemma {:induction false} AccumulatePre(ts: seq<Round>, own: map<Round, Points>,
                                        dead: Option<map<Round, Points>>,
                                        nowIv: Interval, pre: Interval, latest: Round)
    ensures Accumulate(ts, own, dead, nowIv, Some(pre), latest).pre == WindowSum(ts, pre, latest, own, dead)
    decreases |ts|
  {
    if |ts| > 0 {
      AccumulatePre(ts[..|ts| - 1], own, dead, nowIv, pre, latest);
    }
  }

  lemma {:induction false} AccumulateNoPre(ts: seq<Round>, own: map<Round, Points>,
                                          dead: Option<map<Round, Points>>,
                                          nowIv: Interval, latest: Round)
    ensures Accumulate(ts, own, dead, nowIv, None, latest).pre == Zero
    decreases |ts|
  {
    if |ts| > 0 {
      AccumulateNoPre(ts[..|ts| - 1], own, dead, nowIv, latest);
    }
  }

  /** The two windows accumulate independently: the single pass over the
      dates yields, for the current window, exactly the window sum of the
      current window, and for the previous window exactly its own window
      sum, whether or not the windows overlap. A date in both windows
      therefore counts in both. */
  lemma AccumulateIsWindowSums(ts: seq<Round>, own: map<Round, Points>,
                               dead: Option<map<Round, Points>>,
                               nowIv: Interval, preIv: Option<Interval>, latest: Round)
    ensures Accumulate(ts, own, dead, nowIv, preIv, latest).now == WindowSum(ts, nowIv, latest, own, dead)
    ensures Accumulate(ts, own, dead, nowIv, preIv, latest).pre
         == (if preIv.Some? then WindowSum(ts, preIv.value, latest, own, dead) else Zero)
  {
    AccumulateNow(ts, own, dead, nowIv, preIv, latest);
    if preIv.Some? {
      AccumulatePre(ts, own, dead, nowIv, preIv.value, latest);
    } else {
      AccumulateNoPre(ts, own, dead, nowIv, latest);
    }
  }

  /** A date inside a window contributes its effective score to that
      window's sum, wherever it sits among the dates. */
  lemma DateContributes(xs: seq<Round>, t: Round, ys: seq<Round>, iv: Interval, latest: Round,
                        own: map<Round, Points>, dead: Option<map<Round, Points>>)
    requires Eligible(t, iv, latest)
    ensures WindowSum(xs + [t] + ys, iv, latest, own, dead)
         == Plus(Plus(WindowSum(xs, iv, latest, own, dead), Effective(own, dead, t)),
                 WindowSum(ys, iv, latest, own, dead))
  {
    WindowSumConcat(xs + [t], ys, iv, latest, own, dead);
    WindowSumConcat(xs, [t], iv, latest, own, dead);
  }

  /** How many entries of `ts` lie in `[lo, hi]`. */
  function CountIn(ts: seq<Round>, lo: Round, hi: Round): nat
    decreases |ts|
  {
    if |ts| == 0 then 0
    else (if lo <= ts[0] <= hi then 1 else 0) + CountIn(ts[1..], lo, hi)
  }

  lemma {:induction false} CountInLast(ts: seq<Round>, lo: Round, hi: Round)
    requires |ts| > 0
    ensures CountIn(ts, lo, hi) == CountIn(ts[..|ts| - 1], lo, hi) + (if lo <= ts[|ts| - 1] <= hi then 1 else 0)
    decreases |ts|
  {
    if |ts| > 1 {
      assert ts[1..][..|ts| - 2] == ts[..|ts| - 1][1..];
      CountInLast(ts[1..], lo, hi);
    }
  }

  /** The number of dates eligible for a window. */
  function CountEligible(ts: seq<Round>, iv: Interval, latest: Round): nat
  {
    CountIn(ts, iv.lo, Min(iv.hi, latest))
  }

  /** `played` counts only the user's own scores: it never exceeds the
      number of eligible dates of the window, and it is zero exactly when
      the user has no own score on any eligible date (deadman points never
      count as played). */
  lemma {:induction false} WindowPlayed(ts: seq<Round>, iv: Interval, latest: Round,
                                       own: map<Round, Points>, dead: Option<map<Round, Points>>)
    ensures 0 <= WindowSum(ts, iv, latest, own, dead).played <= CountEligible(ts, iv, latest)
    ensures WindowSum(ts, iv, latest, own, dead).played == 0 <==>
              forall i :: 0 <= i < |ts| && Eligible(ts[i], iv, latest) ==> ts[i] !in own
    decreases |ts|
  {
    if |ts| > 0 {
      var n := |ts| - 1;
      WindowPlayed(ts[..n], iv, latest, own, dead);
      CountInLast(ts, iv.lo, Min(iv.hi, latest));
      assert forall i :: 0 <= i < n ==> ts[i] == ts[..n][i];
    }
  }

  /** `ntournaments`: the loaded dates from `from` up to `latest`. */
  function NTournaments(ts: seq<Round>, from: Round, latest: Round): nat
  {
    CountIn(ts, from, latest)
  }

  /** On a duplicate-free date list (as loaded), the count is the number
      of distinct dates in the range. */
  lemma {:induction false} CountInIsCardinality(ts: seq<Round>, lo: Round, hi: Round)
    requires NoDup(ts)
    ensures CountIn(ts, lo, hi) == |set t | t in ts && lo <= t <= hi|
    decreases |ts|
  {
    var s := set t | t in ts && lo <= t <= hi;
    if |ts| == 0 {
      assert s == {};
    } else {
      var rest := ts[1..];
      assert NoDup(rest) by {
        forall i, j | 0 <= i < j < |rest| ensures rest[i] != rest[j] {
          assert rest[i] == ts[i + 1] && rest[j] == ts[j + 1];
        }
      }
      CountInIsCardinality(rest, lo, hi);
      var s' := set t | t in rest && lo <= t <= hi;
      assert ts[0] !in rest by {
        forall i | 0 <= i < |rest| ensures rest[i] != ts[0] {
          assert rest[i] == ts[i + 1];
        }
      }
      assert forall t :: t in ts <==> t == ts[0] || t in rest;
      if lo <= ts[0] <= hi {
        assert s == s' + {ts[0]};
      } else {
        assert s == s';
      }
    }
  }

  lemma {:induction false} CountInMonotone(ts: seq<Round>, lo: Round, hi: Round, hi': Round)
    requires hi <= hi'
    ensures CountIn(ts, lo, hi) <= CountIn(ts, lo, hi')
    decreases |ts|
  {
    if |ts| > 0 {
      CountInMonotone(ts[1..], lo, hi, hi');
    }
  }

  /** No user is credited with more played dates in the current window
      than there are tournaments counted for the ranking. */
  lemma PlayedAtMostTournaments(ts: seq<Round>, w: Window, latest: Round,
                                own: map<Round, Points>, dead: Option<map<Round, Points>>)
    ensures WindowSum(ts, NowInterval(w), latest, own, dead).played <= NTournaments(ts, w.from, latest)
  {
    WindowPlayed(ts, NowInterval(w), latest, own, dead);
    CountInMonotone(ts, w.from, Min(w.to, latest), latest);
  }

  /** One user's standing: login, current and previous totals. The source
      keeps the two totals in two objects with the same keys in the same
      order; here they share one record. */
  datatype Standing = Standing(user: User, now: Score, pre: Score)

  /** One standing per loaded user, in the order of the user list. */
  function Tally(ud: UserData, dead: Option<map<Round, Points>>, w: Window, latest: Round): (r: seq<Standing>)
    requires forall u :: u in ud.users ==> u in ud.data
    ensures |r| == |ud.users|
  {
    seq(|ud.users|, i requires 0 <= i < |ud.users| =>
      var tot := Accumulate(ud.tdates, ud.data[ud.users[i]], dead, NowInterval(w), PrevInterval(w), latest);
      Standing(ud.users[i], tot.now, tot.pre))
  }

  /** Each standing holds the user's window sums: the current window, and
      the previous one when it is present. */
  lemma TallySpec(ud: UserData, dead: Option<map<Round, Points>>, w: Window, latest: Round, i: int)
    requires forall u :: u in ud.users ==> u in ud.data
    requires 0 <= i < |ud.users|
    ensures Tally(ud, dead, w, latest)[i].user == ud.users[i]
    ensures Tally(ud, dead, w, latest)[i].now
         == WindowSum(ud.tdates, NowInterval(w), latest, ud.data[ud.users[i]], dead)
    ensures PrevInterval(w).Some? ==>
              Tally(ud, dead, w, latest)[i].pre
              == WindowSum(ud.tdates, PrevInterval(w).value, latest, ud.data[ud.users[i]], dead)
  {
    AccumulateIsWindowSums(ud.tdates, ud.data[ud.users[i]], dead, NowInterval(w), PrevInterval(w), latest);
  }

  /** The single-date rule: when `from == to`, every user who did not play
      that date is removed (from both totals); nobody else is removed and
      the order is kept. */
  function DropAbsent(st: seq<Standing>, singleRound: bool): (r: seq<Standing>)
    ensures !singleRound ==> r == st
    ensures |r| <= |st|
    ensures forall s :: s in r ==> s in st
    ensures forall s :: s in st ==> (s in r <==> !(singleRound && s.now.played == 0))
    decreases |st|
  {
    if !singleRound || |st| == 0 then st
    else
      var rest := DropAbsent(st[1..], singleRound);
      if st[0].now.played == 0 then rest else [st[0]] + rest
  }

  /** Positions one further on. */
  function Shift(ix: seq<int>): (r: seq<int>)
    ensures |r| == |ix| && forall k :: 0 <= k < |ix| ==> r[k] == ix[k] + 1
  {
    seq(|ix|, k requires 0 <= k < |ix| => ix[k] + 1)
  }

  lemma ShiftMember(ix: seq<int>, i: int)
    requires i - 1 in ix
    ensures i in Shift(ix)
  {
    var k :| 0 <= k < |ix| && ix[k] == i - 1;
    assert Shift(ix)[k] == i;
  }

  /** The positions of the standings the single-date rule keeps, in
      increasing order. */
  function Kept(st: seq<Standing>, singleRound: bool): (ix: seq<int>)
    ensures |ix| == |DropAbsent(st, singleRound)|
    ensures forall k :: 0 <= k < |ix| ==> 0 <= ix[k] < |st|
    decreases |st|
  {
    if !singleRound || |st| == 0 then seq(|st|, i requires 0 <= i < |st| => i)
    else
      var rest := Shift(Kept(st[1..], singleRound));
      if st[0].now.played == 0 then rest else [0] + rest
  }

  /** The kept positions increase. */
  lemma {:induction false} KeptIncreasing(st: seq<Standing>, singleRound: bool)
    ensures forall k, l :: 0 <= k < l < |Kept(st, singleRound)| ==> Kept(st, singleRound)[k] < Kept(st, singleRound)[l]
    decreases |st|
  {
    if singleRound && |st| > 0 {
      var rest := Kept(st[1..], singleRound);
      KeptIncreasing(st[1..], singleRound);
      var shifted := Shift(rest);
      forall k, l | 0 <= k < l < |shifted| ensures shifted[k] < shifted[l] {
        assert shifted[k] == rest[k] + 1 && shifted[l] == rest[l] + 1;
      }
      if st[0].now.played != 0 {
        var ix := Kept(st, singleRound);
        assert ix == [0] + shifted;
        assert forall k :: 1 <= k < |ix| ==> ix[k] == shifted[k - 1] && ix[k] > 0;
      }
    }
  }

  /** Selecting from `tail` at positions `ix` is selecting from `[h] + tail`
      at the positions one further on; a kept head adds position 0. */
  lemma SelectCons(h: Standing, tail: seq<Standing>, rest: seq<Standing>, ix: seq<int>)
    requires |ix| == |rest|
    requires forall k :: 0 <= k < |ix| ==> 0 <= ix[k] < |tail| && rest[k] == tail[ix[k]]
    ensures forall k :: 0 <= k < |ix| ==> rest[k] == ([h] + tail)[Shift(ix)[k]]
    ensures forall k :: 0 <= k < |ix| + 1 ==> ([h] + rest)[k] == ([h] + tail)[([0] + Shift(ix))[k]]
  {
    var st := [h] + tail;
    forall k | 0 <= k < |ix| ensures rest[k] == st[Shift(ix)[k]] {
      assert st[ix[k] + 1] == tail[ix[k]];
    }
    forall k | 0 <= k < |ix| + 1 ensures ([h] + rest)[k] == st[([0] + Shift(ix))[k]] {
      if k > 0 {
        assert ([h] + rest)[k] == rest[k - 1] && ([0] + Shift(ix))[k] == Shift(ix)[k - 1];
      }
    }
  }

  /** One step of the single-date rule, in terms of the rule on the tail. */
  lemma DropAbsentCons(st: seq<Standing>, singleRound: bool)
    requires singleRound && |st| > 0
    ensures DropAbsent(st, singleRound) ==
              if st[0].now.played == 0 then DropAbsent(st[1..], singleRound)
              else [st[0]] + DropAbsent(st[1..], singleRound)
    ensures Kept(st, singleRound) ==
              if st[0].now.played == 0 then Shift(Kept(st[1..], singleRound))
              else [0] + Shift(Kept(st[1..], singleRound))
  {
  }

  /** What the single-date rule keeps is an order-preserving selection of
      the standings: the `k`-th kept standing is the standing at the `k`-th
      kept position, and the positions increase. */
  lemma {:induction false} DropAbsentKeepsOrder(st: seq<Standing>, singleRound: bool)
    ensures forall k :: 0 <= k < |Kept(st, singleRound)| ==>
              DropAbsent(st, singleRound)[k] == st[Kept(st, singleRound)[k]]
    ensures forall k, l :: 0 <= k < l < |Kept(st, singleRound)| ==> Kept(st, singleRound)[k] < Kept(st, singleRound)[l]
    decreases |st|
  {
    KeptIncreasing(st, singleRound);
    if singleRound && |st| > 0 {
      var tail := st[1..];
      DropAbsentKeepsOrder(tail, singleRound);
      DropAbsentCons(st, singleRound);
      SelectCons(st[0], tail, DropAbsent(tail, singleRound), Kept(tail, singleRound));
      assert [st[0]] + tail == st;
    }
  }

  /** Every standing that played, or every standing at all for a period,
      is at a kept position. */
  lemma {:induction false} KeptComplete(st: seq<Standing>, singleRound: bool)
    ensures forall i :: 0 <= i < |st| && !(singleRound && st[i].now.played == 0) ==> i in Kept(st, singleRound)
    decreases |st|
  {
    var ix := Kept(st, singleRound);
    if !singleRound || |st| == 0 {
      forall i | 0 <= i < |st| ensures i in ix {
        assert ix[i] == i;
      }
    } else {
      var tail := st[1..];
      KeptComplete(tail, singleRound);
      forall i | 0 <= i < |st| && st[i].now.played != 0 ensures i in ix {
        if i == 0 {
          assert ix[0] == 0;
        } else {
          assert tail[i - 1] == st[i];
          ShiftMember(Kept(tail, singleRound), i);
        }
      }
    }
  }

  /** The single-date rule keeps logins pairwise distinct. */
  lemma DropAbsentDistinct(st: seq<Standing>, singleRound: bool)
    requires forall i, j :: 0 <= i < j < |st| ==> st[i].user != st[j].user
    ensures var r := DropAbsent(st, singleRound);
      forall k, l :: 0 <= k < l < |r| ==> r[k].user != r[l].user
  {
    var r, ix := DropAbsent(st, singleRound), Kept(st, singleRound);
    DropAbsentKeepsOrder(st, singleRound);
    forall k, l | 0 <= k < l < |r| ensures r[k].user != r[l].user {
      assert r[k] == st[ix[k]] && r[l] == st[ix[l]] && ix[k] < ix[l];
    }
  }
}
