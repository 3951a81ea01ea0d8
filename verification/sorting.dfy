/** PHP's `arsort` and `asort` on a list array: the entries (index and
    value) are reordered by value, descending or ascending, keeping each
    value with its index. PHP's sort is stable, so entries with equal values
    keep their index order; the model sorts by value, then by index. */
module Sorting {
  import opened Common

  /** An entry of a PHP list array: its index and its value. */
  datatype Keyed = Keyed(idx: int, key: int)

  /** The entries of a list array, in index order. */
  function Pairs(vals: seq<int>): (ps: seq<Keyed>)
    ensures |ps| == |vals|
    ensures forall i :: 0 <= i < |vals| ==> ps[i] == Keyed(i, vals[i])
  {
    seq(|vals|, i requires 0 <= i < |vals| => Keyed(i, vals[i]))
  }

  /** The values of a sequence of entries, in order. */
  function Keys(ps: seq<Keyed>): (ks: seq<int>)
    ensures |ks| == |ps|
    ensures forall i :: 0 <= i < |ps| ==> ks[i] == ps[i].key
  {
    seq(|ps|, i requires 0 <= i < |ps| => ps[i].key)
  }

  /** `a` may stand before `b`: a larger value first when `desc` (arsort),
      a smaller one first otherwise (asort); equal values by index. */
  predicate InOrder(a: Keyed, b: Keyed, desc: bool)
  {
    if a.key != b.key then (if desc then a.key > b.key else a.key < b.key)
    else a.idx <= b.idx
  }

  predicate Sorted(s: seq<Keyed>, desc: bool)
  {
    forall i, j :: 0 <= i < j < |s| ==> InOrder(s[i], s[j], desc)
  }

  function Insert(x: Keyed, s: seq<Keyed>, desc: bool): (r: seq<Keyed>)
    requires Sorted(s, desc)
    ensures Sorted(r, desc)
    ensures multiset(r) == multiset(s) + multiset{x}
    decreases |s|
  {
    if |s| == 0 then [x]
    else if InOrder(x, s[0], desc) then [x] + s
    else
      var rest := Insert(x, s[1..], desc);
      InsertBehindHead(x, s, rest, desc);
      [s[0]] + rest
  }

  lemma InsertBehindHead(x: Keyed, s: seq<Keyed>, rest: seq<Keyed>, desc: bool)
    requires |s| > 0 && Sorted(s, desc) && !InOrder(x, s[0], desc)
    requires Sorted(rest, desc) && multiset(rest) == multiset(s[1..]) + multiset{x}
    ensures Sorted([s[0]] + rest, desc)
    ensures multiset([s[0]] + rest) == multiset(s) + multiset{x}
  {
    assert s == [s[0]] + s[1..];
    forall j | 0 <= j < |rest| ensures InOrder(s[0], rest[j], desc) {
      assert rest[j] in multiset(rest);
      if rest[j] != x {
        assert rest[j] in multiset(s[1..]);
        var k :| 0 <= k < |s[1..]| && s[1..][k] == rest[j];
        assert s[k + 1] == rest[j];
      }
    }
    var r := [s[0]] + rest;
    forall i, j | 0 <= i < j < |r| ensures InOrder(r[i], r[j], desc) {
      if i > 0 {
        assert r[i] == rest[i - 1] && r[j] == rest[j - 1];
      } else {
        assert r[j] == rest[j - 1];
      }
    }
  }

  /** Insertion sort of the entries. */
  function Sort(s: seq<Keyed>, desc: bool): (r: seq<Keyed>)
    ensures Sorted(r, desc)
    ensures multiset(r) == multiset(s)
    decreases |s|
  {
    if |s| == 0 then []
    else
      assert s == [s[0]] + s[1..];
      Insert(s[0], Sort(s[1..], desc), desc)
  }

  /** The sorted entries of a list array are exactly its entries: every
      index appears, with its own value, and nothing else appears. */
  lemma SortedPairs(vals: seq<int>, desc: bool)
    ensures |Sort(Pairs(vals), desc)| == |vals|
    ensures forall k :: 0 <= k < |vals| ==>
              0 <= Sort(Pairs(vals), desc)[k].idx < |vals| &&
              Sort(Pairs(vals), desc)[k].key == vals[Sort(Pairs(vals), desc)[k].idx]
    ensures forall i :: 0 <= i < |vals| ==> Keyed(i, vals[i]) in Sort(Pairs(vals), desc)
  {
    var ps := Pairs(vals);
    var r := Sort(ps, desc);
    assert |r| == |multiset(r)| == |multiset(ps)| == |ps|;
    forall k | 0 <= k < |r|
      ensures 0 <= r[k].idx < |vals| && r[k].key == vals[r[k].idx]
    {
      assert r[k] in multiset(r);
      assert r[k] in multiset(ps);
      var i :| 0 <= i < |ps| && ps[i] == r[k];
    }
    forall i | 0 <= i < |vals| ensures Keyed(i, vals[i]) in r {
      assert ps[i] in multiset(ps);
      assert ps[i] in multiset(r);
    }
  }

  /** An element at two positions occurs at least twice. */
  lemma TwiceInMultiset<T>(s: seq<T>, a: int, b: int)
    requires 0 <= a < b < |s|
    ensures s[a] == s[b] ==> multiset(s)[s[a]] >= 2
  {
    var x := s[b];
    assert s == s[..b] + [x] + s[b + 1..];
    assert s[..b][a] == s[a];
  }

  /** In a duplicate-free sequence nothing occurs twice. */
  lemma {:induction false} NoDupOnce<T>(t: seq<T>, x: T)
    requires NoDup(t)
    ensures multiset(t)[x] <= 1
    decreases |t|
  {
    if |t| > 0 {
      var rest := t[1..];
      assert t == [t[0]] + rest;
      assert NoDup(rest) by {
        forall i, j | 0 <= i < j < |rest| ensures rest[i] != rest[j] {
          assert rest[i] == t[i + 1] && rest[j] == t[j + 1];
        }
      }
      NoDupOnce(rest, x);
      if x == t[0] {
        assert forall i :: 0 <= i < |rest| ==> rest[i] == t[i + 1] != t[0];
        assert x !in rest;
      }
    }
  }

  /** A reordering of a duplicate-free sequence is duplicate-free. */
  lemma NoDupPermutation<T>(s: seq<T>, t: seq<T>)
    requires multiset(s) == multiset(t) && NoDup(t)
    ensures NoDup(s)
  {
    forall a, b | 0 <= a < b < |s| ensures s[a] != s[b] {
      TwiceInMultiset(s, a, b);
      NoDupOnce(t, s[a]);
    }
  }

  /** The sorted entries of a list array name every index once. */
  lemma SortedPairsDistinct(vals: seq<int>, desc: bool)
    ensures forall a, b :: 0 <= a < b < |Sort(Pairs(vals), desc)| ==>
              Sort(Pairs(vals), desc)[a].idx != Sort(Pairs(vals), desc)[b].idx
  {
    var ps := Pairs(vals);
    var r := Sort(ps, desc);
    SortedPairs(vals, desc);
    assert NoDup(ps);
    NoDupPermutation(r, ps);
  }
}
