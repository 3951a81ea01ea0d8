/** `array_rank`: competition ranking. The values are sorted descending;
    walking them in that order, a running position counts every entry, and
    an entry whose value is below the value held so far takes the position
    as its rank and becomes the new held value; an entry equal to the held
    value shares its rank. The main result characterises the outcome:
    every rank is one plus the number of entries with a strictly greater
    value, whatever order the sort left tied entries in. */
module Ranks {
  import opened Common
  import opened Sorting

  /** How many entries of `s` are strictly greater than `v`. */
  function CountGreater(s: seq<int>, v: int): nat
    decreases |s|
  {
    if |s| == 0 then 0 else (if s[0] > v then 1 else 0) + CountGreater(s[1..], v)
  }

  /** The loop of `array_rank` over the sorted entries `sp`, from position
      `k` on: `k + 1` is the hidden rank, `rank` and `hold` the current
      rank and held value, `out` the input array being overwritten. */
  function Walk(sp: seq<Keyed>, k: nat, rank: int, hold: Option<int>, out: seq<int>): (r: seq<int>)
    requires k <= |sp|
    requires forall m :: 0 <= m < |sp| ==> 0 <= sp[m].idx < |out|
    ensures |r| == |out|
    decreases |sp| - k
  {
    if k == |sp| then out
    else
      var v := sp[k].key;
      var lower := hold.None? || v < hold.value;
      var rank' := if lower then k + 1 else rank;
      var hold' := if lower then Some(v) else hold;
      Walk(sp, k + 1, rank', hold', out[sp[k].idx := rank'])
  }

  /** `array_rank`: sort a copy by descending value, then walk it. */
  function ArrayRank(vals: seq<int>): (r: seq<int>)
    ensures |r| == |vals|
  {
    SortedPairs(vals, true);
    Walk(Sort(Pairs(vals), true), 0, 0, None, vals)
  }

  lemma {:induction false} CountGreaterConcat(a: seq<int>, b: seq<int>, v: int)
    ensures CountGreater(a + b, v) == CountGreater(a, v) + CountGreater(b, v)
    decreases |a|
  {
    if |a| == 0 {
      assert a + b == b;
    } else {
      assert (a + b)[1..] == a[1..] + b;
      CountGreaterConcat(a[1..], b, v);
    }
  }

  lemma {:induction false} CountGreaterAtMost(s: seq<int>, v: int)
    ensures CountGreater(s, v) <= |s|
    ensures CountGreater(s, v) == 0 <==> forall i :: 0 <= i < |s| ==> s[i] <= v
    decreases |s|
  {
    if |s| > 0 {
      CountGreaterAtMost(s[1..], v);
      assert forall i :: 1 <= i < |s| ==> s[i] == s[1..][i - 1];
    }
  }

  lemma {:induction false} CountGreaterAll(s: seq<int>, v: int)
    requires forall i :: 0 <= i < |s| ==> s[i] > v
    ensures CountGreater(s, v) == |s|
    decreases |s|
  {
    if |s| > 0 {
      CountGreaterAll(s[1..], v);
    }
  }

  lemma CountGreaterNone(s: seq<int>, v: int)
    requires forall i :: 0 <= i < |s| ==> s[i] <= v
    ensures CountGreater(s, v) == 0
  {
    CountGreaterAtMost(s, v);
  }

  lemma {:induction false} CountGreaterMonotone(s: seq<int>, v: int, w: int)
    requires w <= v
    ensures CountGreater(s, v) <= CountGreater(s, w)
    decreases |s|
  {
    if |s| > 0 {
      CountGreaterMonotone(s[1..], v, w);
    }
  }

  /** Entries sorted descending by value, with duplicate indices carrying
      the same value. */
  predicate Descending(ks: seq<int>)
  {
    forall i, j :: 0 <= i < j < |ks| ==> ks[i] >= ks[j]
  }

  /** In a descending sequence, the first entry of a run of equal values
      has exactly as many strictly greater entries as positions before it. */
  lemma CountAtRunStart(ks: seq<int>, k: int)
    requires Descending(ks)
    requires 0 <= k < |ks|
    requires k == 0 || ks[k - 1] > ks[k]
    ensures CountGreater(ks, ks[k]) == k
  {
    var v := ks[k];
    var a, b := ks[..k], ks[k..];
    assert ks == a + b;
    CountGreaterConcat(a, b, v);
    forall i | 0 <= i < |a| ensures a[i] > v {
      assert a[i] == ks[i];
      assert ks[i] >= ks[k - 1];
    }
    CountGreaterAll(a, v);
    forall i | 0 <= i < |b| ensures b[i] <= v {
      assert b[i] == ks[k + i];
    }
    CountGreaterNone(b, v);
  }

  /** Taking one entry out of a sequence of entries leaves the others. */
  lemma RemoveAtMultiset(b: seq<Keyed>, i: int)
    requires 0 <= i < |b|
    ensures multiset(b[..i] + b[i + 1..]) == multiset(b) - multiset{b[i]}
  {
    assert b == b[..i] + [b[i]] + b[i + 1..];
  }

  /** Taking one entry out of a sequence of entries removes its share of
      the greater values. */
  lemma RemoveAtCount(b: seq<Keyed>, i: int, v: int)
    requires 0 <= i < |b|
    ensures CountGreater(Keys(b), v) ==
              (if b[i].key > v then 1 else 0) + CountGreater(Keys(b[..i] + b[i + 1..]), v)
  {
    var k1, k2 := Keys(b[..i]), Keys(b[i + 1..]);
    assert Keys(b) == k1 + [b[i].key] + k2;
    assert Keys(b[..i] + b[i + 1..]) == k1 + k2;
    CountGreaterConcat(k1 + [b[i].key], k2, v);
    CountGreaterConcat(k1, [b[i].key], v);
    CountGreaterConcat(k1, k2, v);
  }

  /** A position at which an entry occurs. */
  lemma Locate(x: Keyed, b: seq<Keyed>) returns (i: int)
    requires x in multiset(b)
    ensures 0 <= i < |b| && b[i] == x
  {
    i :| 0 <= i < |b| && b[i] == x;
  }

  /** The counts of greater values agree on any two orderings of the same
      entries. */
  lemma {:induction false} CountGreaterPermutation(a: seq<Keyed>, b: seq<Keyed>, v: int)
    requires multiset(a) == multiset(b)
    ensures CountGreater(Keys(a), v) == CountGreater(Keys(b), v)
    decreases |a|
  {
    if |a| == 0 {
      assert |b| == |multiset(b)|;
    } else {
      var i := Locate(a[0], b);
      RemoveAtMultiset(b, i);
      RemoveAtCount(b, i, v);
      RemoveAtMultiset(a, 0);
      RemoveAtCount(a, 0, v);
      CountGreaterPermutation(a[..0] + a[1..], b[..i] + b[i + 1..], v);
    }
  }

  /** The walk's invariant carried to its end: every entry it visits gets
      one plus the number of strictly greater values. */
  lemma {:induction false} WalkAssigns(vals: seq<int>, sp: seq<Keyed>, k: nat, rank: int, hold: Option<int>,
                                      out: seq<int>)
    requires Sorted(sp, true)
    requires |out| == |vals|
    requires forall m :: 0 <= m < |sp| ==> 0 <= sp[m].idx < |vals| && sp[m].key == vals[sp[m].idx]
    requires k <= |sp|
    requires k == 0 ==> hold.None?
    requires k > 0 ==> hold == Some(sp[k - 1].key) && rank == 1 + CountGreater(Keys(sp), sp[k - 1].key)
    requires forall m :: 0 <= m < k ==> out[sp[m].idx] == 1 + CountGreater(Keys(sp), vals[sp[m].idx])
    ensures forall m :: 0 <= m < |sp| ==>
              Walk(sp, k, rank, hold, out)[sp[m].idx] == 1 + CountGreater(Keys(sp), vals[sp[m].idx])
    decreases |sp| - k
  {
    if k < |sp| {
      var ks := Keys(sp);
      assert Descending(ks) by {
        forall i, j | 0 <= i < j < |ks| ensures ks[i] >= ks[j] {
          assert InOrder(sp[i], sp[j], true);
        }
      }
      var v := sp[k].key;
      var lower := hold.None? || v < hold.value;
      var rank' := if lower then k + 1 else rank;
      var hold' := if lower then Some(v) else hold;
      if lower {
        CountAtRunStart(ks, k);
      } else {
        assert ks[k - 1] >= ks[k];
      }
      assert rank' == 1 + CountGreater(ks, v);
      var out' := out[sp[k].idx := rank'];
      WalkAssigns(vals, sp, k + 1, rank', hold', out');
    }
  }

  /** The characterisation of `array_rank`: the result has one rank per
      input entry, and each rank is one plus the number of entries with a
      strictly greater value. */
  lemma ArrayRankSpec(vals: seq<int>)
    ensures |ArrayRank(vals)| == |vals|
    ensures forall i :: 0 <= i < |vals| ==> ArrayRank(vals)[i] == 1 + CountGreater(vals, vals[i])
  {
    SortedPairs(vals, true);
    var ps := Pairs(vals);
    var sp := Sort(ps, true);
    WalkAssigns(vals, sp, 0, 0, None, vals);
    assert Keys(ps) == vals;
    forall i | 0 <= i < |vals| ensures ArrayRank(vals)[i] == 1 + CountGreater(vals, vals[i]) {
      var m :| 0 <= m < |sp| && sp[m] == Keyed(i, vals[i]);
      CountGreaterPermutation(sp, ps, vals[i]);
    }
  }

  /** Every rank lies between 1 and the number of entries. */
  lemma RankBounds(vals: seq<int>, i: int)
    requires 0 <= i < |vals|
    ensures 1 <= ArrayRank(vals)[i] <= |vals|
  {
    ArrayRankSpec(vals);
    var a, b := vals[..i], vals[i + 1..];
    assert vals == a + [vals[i]] + b;
    CountGreaterConcat(a + [vals[i]], b, vals[i]);
    CountGreaterConcat(a, [vals[i]], vals[i]);
    assert [vals[i]][1..] == [];
    CountGreaterAtMost(a, vals[i]);
    CountGreaterAtMost(b, vals[i]);
  }

  /** Equal values share a rank; a strictly greater value gets a strictly
      smaller (better) rank. */
  lemma RankOrder(vals: seq<int>, i: int, j: int)
    requires 0 <= i < |vals| && 0 <= j < |vals|
    ensures vals[i] == vals[j] ==> ArrayRank(vals)[i] == ArrayRank(vals)[j]
    ensures vals[i] > vals[j] ==> ArrayRank(vals)[i] < ArrayRank(vals)[j]
  {
    ArrayRankSpec(vals);
    if vals[i] > vals[j] {
      var a, b := vals[..i], vals[i + 1..];
      assert vals == a + [vals[i]] + b;
      CountGreaterConcat(a + [vals[i]], b, vals[i]);
      CountGreaterConcat(a, [vals[i]], vals[i]);
      CountGreaterConcat(a + [vals[i]], b, vals[j]);
      CountGreaterConcat(a, [vals[i]], vals[j]);
      assert [vals[i]][1..] == [];
      CountGreaterMonotone(a, vals[i], vals[j]);
      CountGreaterMonotone(b, vals[i], vals[j]);
    }
  }

  /** Rank 1 goes exactly to the entries holding the greatest value. */
  lemma RankOneIsTop(vals: seq<int>, i: int)
    requires 0 <= i < |vals|
    ensures ArrayRank(vals)[i] == 1 <==> forall j :: 0 <= j < |vals| ==> vals[j] <= vals[i]
  {
    ArrayRankSpec(vals);
    CountGreaterAtMost(vals, vals[i]);
  }

  /** A non-empty ranking has a leader: some entry has rank 1. */
  lemma {:induction false} HasLeader(vals: seq<int>)
    requires |vals| > 0
    ensures exists i :: 0 <= i < |vals| && ArrayRank(vals)[i] == 1
  {
    var best := 0;
    var k := 1;
    while k < |vals|
      invariant 1 <= k <= |vals| && 0 <= best < k
      invariant forall j :: 0 <= j < k ==> vals[j] <= vals[best]
    {
      if vals[k] > vals[best] {
        best := k;
      }
      k := k + 1;
    }
    RankOneIsTop(vals, best);
  }

  /** Three users with 100, 100 and 80 points rank 1, 1 and 3. */
  lemma TieLeavesGap()
    ensures ArrayRank([10000, 10000, 8000]) == [1, 1, 3]
  {
    var vals := [10000, 10000, 8000];
    ArrayRankSpec(vals);
    assert CountGreater(vals, 10000) == 0;
    assert CountGreater(vals, 8000) == 2;
  }
}
