/** Window resolution (`set_tdates`): which tournament dates the ranking
    covers, which span the database is asked for, and whether a trend
    (rank change against a previous window) is computed. */
module Windows {
  import opened Common

  /** The four bounds a caller sets, plus the optional `latest` property
      the caller may put on the dates object. */
  datatype Window = Window(
    from: Round,
    to: Round,
    fromPrev: Option<Round>,
    toPrev: Option<Round>,
    latest: Option<Round>)

  /** A closed range of tournament dates. */
  datatype Interval = Interval(lo: Round, hi: Round)

  /** The resolved query span `[lo, hi]` and the trend flag. */
  datatype Span = Span(lo: Round, hi: Round, trend: bool)

  function Min(a: int, b: int): int { if a <= b then a else b }
  function Max(a: int, b: int): int { if a >= b then a else b }

  predicate Contains(iv: Interval, t: Round)
  {
    iv.lo <= t <= iv.hi
  }

  /** The current window `[from, to]`. */
  function NowInterval(w: Window): Interval
  {
    Interval(w.from, w.to)
  }

  /** The previous window, present only when both of its bounds are set. */
  function PrevInterval(w: Window): (p: Option<Interval>)
    ensures p.Some? <==> w.fromPrev.Some? && w.toPrev.Some?
    ensures p.Some? ==> p.value == Interval(w.fromPrev.value, w.toPrev.value)
  {
    if w.fromPrev.None? || w.toPrev.None? then None
    else Some(Interval(w.fromPrev.value, w.toPrev.value))
  }

  /** The bounds that take part in the span: the current pair, and the
      previous pair as well when both of its bounds are present. */
  function Bounds(w: Window): seq<Round>
  {
    match PrevInterval(w)
    case None => [w.from, w.to]
    case Some(p) => [w.from, w.to, p.lo, p.hi]
  }

  predicate IsLeast(m: int, b: seq<int>)
  {
    m in b && forall x :: x in b ==> m <= x
  }

  predicate IsGreatest(m: int, b: seq<int>)
  {
    m in b && forall x :: x in b ==> x <= m
  }

  /** `set_tdates`: the trend is on exactly when both previous bounds are
      non-null; the span runs from the least to the greatest bound taking
      part, and its upper end is lowered to `latest` when it lies beyond. */
  function ResolveWindow(w: Window): (s: Span)
    ensures s.trend <==> w.fromPrev.Some? && w.toPrev.Some?
    ensures IsLeast(s.lo, Bounds(w))
    ensures w.latest.None? ==> IsGreatest(s.hi, Bounds(w))
    ensures w.latest.Some? ==> s.hi <= w.latest.value
    ensures w.latest.Some? && (forall x :: x in Bounds(w) ==> x <= w.latest.value) ==>
              IsGreatest(s.hi, Bounds(w))
    ensures w.latest.Some? && (exists x :: x in Bounds(w) && x > w.latest.value) ==>
              s.hi == w.latest.value
  {
    var trend := !(w.fromPrev.None? || w.toPrev.None?);
    var lo :=
      if trend then Min(Min(w.from, w.to), Min(w.fromPrev.value, w.toPrev.value))
      else Min(w.from, w.to);
    var hi :=
      if trend then Max(Max(w.from, w.to), Max(w.fromPrev.value, w.toPrev.value))
      else Max(w.from, w.to);
    assert hi in Bounds(w);
    var hi' := if w.latest.Some? && hi > w.latest.value then w.latest.value else hi;
    Span(lo, hi', trend)
  }

  /** Both windows lie inside the span, up to the clamp at `latest`: every
      date of the current window (and of the previous one, with a trend)
      that does not lie beyond `latest` lies in the span. */
  lemma WindowsInsideSpan(w: Window, t: Round)
    requires Contains(NowInterval(w), t) || (PrevInterval(w).Some? && Contains(PrevInterval(w).value, t))
    requires w.latest.None? || t <= w.latest.value
    ensures ResolveWindow(w).lo <= t <= ResolveWindow(w).hi
  {
    var b := Bounds(w);
    assert w.from in b && w.to in b;
    if PrevInterval(w).Some? {
      assert PrevInterval(w).value.lo in b && PrevInterval(w).value.hi in b;
    }
  }
}
