/** Vocabulary shared by every stage of the ranking pipeline: the domain
    types, an optional value, an outcome with an error, and facts about
    duplicate-free sequences kept in first-seen order (appending a value
    only when the array does not yet hold it). */
module Common {

  /** A participant, identified by login name. */
  type User = string

  /** A tournament date, in days since 1970-01-01. */
  type Round = int

  /** Points in hundredths, so that the two-decimal rounding of the source
      is exact and ties compare exactly. */
  type Points = int

  /** A city: its numeric id and its display name. */
  datatype City = City(id: int, name: string)

  /** The city selection of a ranking: one city object, or an array of them
      (the multi-city ranking, where a user must have played every city). */
  datatype Cities = One(city: City) | Many(list: seq<City>)

  /** The number of selected cities: 1 for a single city object. */
  function CityCount(c: Cities): nat
  {
    match c
    case One(_) => 1
    case Many(list) => |list|
  }

  datatype Option<+T> = None | Some(value: T)

  datatype Result<+T, +E> = Success(value: T) | Failure(error: E)

  /** No element occurs twice. */
  predicate NoDup<T(==)>(s: seq<T>)
  {
    forall i, j :: 0 <= i < j < |s| ==> s[i] != s[j]
  }

  /** Position of the first occurrence of `x` in `s`. */
  function FirstIndex<T(==)>(s: seq<T>, x: T): (i: nat)
    requires x in s
    ensures i < |s| && s[i] == x
    ensures forall j :: 0 <= j < i ==> s[j] != x
  {
    if s[0] == x then 0 else 1 + FirstIndex(s[1..], x)
  }

  lemma FirstIndexUnique<T>(s: seq<T>, x: T, i: nat)
    requires i < |s| && s[i] == x
    requires forall j :: 0 <= j < i ==> s[j] != x
    ensures FirstIndex(s, x) == i
  {
  }

  /** Appends `x` unless it is already present. */
  function AppendNew<T(==)>(s: seq<T>, x: T): seq<T>
  {
    if x in s then s else s + [x]
  }

  /** The distinct elements of `xs`, in order of first appearance, built
      exactly as the source builds its user and date lists: one
      `AppendNew` per element, left to right. */
  function Distinct<T(==)>(xs: seq<T>): seq<T>
    decreases |xs|
  {
    if |xs| == 0 then [] else AppendNew(Distinct(xs[..|xs| - 1]), xs[|xs| - 1])
  }

  /** The first-seen list holds every element once, nothing else, and lists
      elements in the order in which they first occur in the input. */
  lemma {:induction false} DistinctSpec<T>(xs: seq<T>)
    ensures NoDup(Distinct(xs))
    ensures forall y :: y in Distinct(xs) <==> y in xs
    ensures forall i, j :: 0 <= i < j < |Distinct(xs)| ==>
              FirstIndex(xs, Distinct(xs)[i]) < FirstIndex(xs, Distinct(xs)[j])
    decreases |xs|
  {
    if |xs| > 0 {
      var n := |xs| - 1;
      var init := xs[..n];
      var x := xs[n];
      assert xs == init + [x];
      DistinctSpec(init);
      var p := Distinct(init);
      forall y | y in init
        ensures FirstIndex(xs, y) == FirstIndex(init, y)
      {
        var k := FirstIndex(init, y);
        FirstIndexUnique(xs, y, k);
      }
      if x !in p {
        assert x !in init;
        FirstIndexUnique(xs, x, n);
        var r := Distinct(xs);
        assert r == p + [x];
        forall i, j | 0 <= i < j < |r|
          ensures FirstIndex(xs, r[i]) < FirstIndex(xs, r[j])
        {
          if j < |p| {
            assert r[i] == p[i] && r[j] == p[j];
          } else {
            assert r[i] == p[i] && p[i] in p;
          }
        }
      }
    }
  }

  /** The elements of `xs` that satisfy `p`, in order (a `WHERE` clause). */
  function Filter<T(!new)>(xs: seq<T>, p: T -> bool): (r: seq<T>)
    ensures |r| <= |xs|
    ensures forall x :: x in r <==> x in xs && p(x)
    decreases |xs|
  {
    if |xs| == 0 then []
    else (if p(xs[0]) then [xs[0]] else []) + Filter(xs[1..], p)
  }
}
