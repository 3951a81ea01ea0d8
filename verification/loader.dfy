/** Data shaping (`_get_data_object`): the rows the score query returns are
    an input here; this module applies the query's date span and the
    multi-city participation filter, and shapes the surviving rows into the
    per-user score table, the user list and the date list, or, for the
    deadman, into one date-to-points table. */
module DataLoader {
  import opened Common
  import opened Windows

  /** One row of the grouped score query: a user's summed points for one
      tournament date, and in how many of the selected cities the user
      played that date. */
  datatype Row = Row(user: User, tdate: Round, points: Points, played: int)

  /** One row of the deadman's query, which has no user column. */
  datatype DayRow = DayRow(tdate: Round, points: Points, played: int)

  /** The shaped scores: points per user and date, and the users and dates
      in the order in which the query first returned them. */
  datatype UserData = UserData(
    data: map<User, map<Round, Points>>,
    users: seq<User>,
    tdates: seq<Round>)

  /** The query's WHERE clause on the date (`b.tdate = max` when the span is
      one date, `between min and max` otherwise) and, for more than one
      city, the outer `X.played = count(cities)`. */
  predicate Keep(tdate: Round, played: int, span: Span, ncities: nat)
  {
    && span.lo <= tdate <= span.hi
    && (ncities > 1 ==> played == ncities)
  }

  function Select(rows: seq<Row>, span: Span, ncities: nat): (r: seq<Row>)
    ensures forall x :: x in r <==> x in rows && Keep(x.tdate, x.played, span, ncities)
  {
    Filter(rows, (x: Row) => Keep(x.tdate, x.played, span, ncities))
  }

  function UsersOf(rows: seq<Row>): (r: seq<User>)
    ensures |r| == |rows| && forall i :: 0 <= i < |rows| ==> r[i] == rows[i].user
  {
    seq(|rows|, i requires 0 <= i < |rows| => rows[i].user)
  }

  function TdatesOf(rows: seq<Row>): (r: seq<Round>)
    ensures |r| == |rows| && forall i :: 0 <= i < |rows| ==> r[i] == rows[i].tdate
  {
    seq(|rows|, i requires 0 <= i < |rows| => rows[i].tdate)
  }

  /** The score table, filled row by row: each row sets its user's points
      for its date, so a later row for the same user and date overwrites an
      earlier one. */
  function ScoreTable(rows: seq<Row>): map<User, map<Round, Points>>
    decreases |rows|
  {
    if |rows| == 0 then map[]
    else
      var m := ScoreTable(rows[..|rows| - 1]);
      var x := rows[|rows| - 1];
      var own := if x.user in m then m[x.user] else map[];
      m[x.user := own[x.tdate := x.points]]
  }

  /** The user's shaped data, for the rows the query already filtered. */
  function Shape(rows: seq<Row>): UserData
  {
    UserData(ScoreTable(rows), Distinct(UsersOf(rows)), Distinct(TdatesOf(rows)))
  }

  /** `_get_data_object(false)`. */
  function LoadUserData(rows: seq<Row>, span: Span, ncities: nat): UserData
  {
    Shape(Select(rows, span, ncities))
  }

  /** The deadman's table, filled row by row: each row sets the points for
      its date, a later row overwriting an earlier one. */
  function DayTable(rows: seq<DayRow>): map<Round, Points>
    decreases |rows|
  {
    if |rows| == 0 then map[]
    else DayTable(rows[..|rows| - 1])[rows[|rows| - 1].tdate := rows[|rows| - 1].points]
  }

  /** `_get_data_object(true)`: `None` when the deadman login is not a known
      user (`known` is then `None` too), else the deadman's points per date.
      The span and the multi-city filter apply to the deadman's rows just as
      to everyone else's. */
  function LoadDeadman(known: Option<seq<DayRow>>, span: Span, ncities: nat): (d: Option<map<Round, Points>>)
    ensures d.None? <==> known.None?
    ensures d.Some? ==> forall t :: t in d.value <==>
              exists x :: x in known.value && x.tdate == t && Keep(t, x.played, span, ncities)
    ensures d.Some? ==> forall t :: t in d.value ==>
              exists x :: x in known.value && x.tdate == t && Keep(t, x.played, span, ncities) && d.value[t] == x.points
  {
    match known
    case None => None
    case Some(rows) =>
      var kept := Filter(rows, (x: DayRow) => Keep(x.tdate, x.played, span, ncities));
      DayTableSpec(kept);
      DayTableDates(kept);
      DayTableValues(kept);
      Some(DayTable(kept))
  }

  /** No later row than `i` carries the same user and date. */
  predicate LastFor(rows: seq<Row>, i: int)
    requires 0 <= i < |rows|
  {
    forall j :: i < j < |rows| ==> !(rows[j].user == rows[i].user && rows[j].tdate == rows[i].tdate)
  }

  /** The score table holds a user exactly when a row names the user. */
  lemma {:induction false} ScoreTableUsers(rows: seq<Row>)
    ensures forall u :: u in ScoreTable(rows) <==> u in UsersOf(rows)
    decreases |rows|
  {
    if |rows| > 0 {
      var n := |rows| - 1;
      ScoreTableUsers(rows[..n]);
      assert UsersOf(rows) == UsersOf(rows[..n]) + [rows[n].user];
    }
  }

  /** Every row's user and date pair has an entry in the score table. */
  lemma {:induction false} ScoreTableHasRows(rows: seq<Row>)
    ensures forall i :: 0 <= i < |rows| ==>
              rows[i].user in ScoreTable(rows) && rows[i].tdate in ScoreTable(rows)[rows[i].user]
    decreases |rows|
  {
    if |rows| > 0 {
      var n := |rows| - 1;
      var init := rows[..n];
      ScoreTableHasRows(init);
      assert forall i :: 0 <= i < n ==> rows[i] == init[i];
    }
  }

  /** Every entry of the score table comes from a row. */
  lemma {:induction false} ScoreTableOnlyRows(rows: seq<Row>)
    ensures forall u, t :: u in ScoreTable(rows) && t in ScoreTable(rows)[u] ==>
              exists i :: 0 <= i < |rows| && rows[i].user == u && rows[i].tdate == t
    decreases |rows|
  {
    if |rows| > 0 {
      var n := |rows| - 1;
      var init := rows[..n];
      ScoreTableOnlyRows(init);
      var m, r, x := ScoreTable(init), ScoreTable(rows), rows[n];
      forall u, t | u in r && t in r[u]
        ensures exists i :: 0 <= i < |rows| && rows[i].user == u && rows[i].tdate == t
      {
        if !(u == x.user && t == x.tdate) {
          assert u in m && t in m[u];
          var i :| 0 <= i < n && init[i].user == u && init[i].tdate == t;
          assert rows[i].user == u && rows[i].tdate == t;
        }
      }
    }
  }

  /** For each user and date the score table keeps the points of the last
      row that carries them. */
  lemma {:induction false} ScoreTableLastWins(rows: seq<Row>)
    ensures forall i :: 0 <= i < |rows| && LastFor(rows, i) ==>
              rows[i].user in ScoreTable(rows) && rows[i].tdate in ScoreTable(rows)[rows[i].user] &&
              ScoreTable(rows)[rows[i].user][rows[i].tdate] == rows[i].points
    decreases |rows|
  {
    if |rows| > 0 {
      var n := |rows| - 1;
      var init := rows[..n];
      ScoreTableLastWins(init);
      var r, x := ScoreTable(rows), rows[n];
      forall i | 0 <= i < |rows| && LastFor(rows, i)
        ensures rows[i].user in r && rows[i].tdate in r[rows[i].user]
        ensures r[rows[i].user][rows[i].tdate] == rows[i].points
      {
        if i < n {
          assert rows[i] == init[i];
          assert LastFor(init, i);
          assert !(x.user == rows[i].user && x.tdate == rows[i].tdate);
        }
      }
    }
  }

  /** The shaped user data: the user and date lists are duplicate-free,
      hold exactly the users and dates of the rows, in first-seen order, and
      the listed users are exactly the users with a score table. */
  lemma ShapeSpec(rows: seq<Row>)
    ensures NoDup(Shape(rows).users) && NoDup(Shape(rows).tdates)
    ensures forall u :: u in Shape(rows).users <==> u in Shape(rows).data
    ensures forall u :: u in Shape(rows).users <==> u in UsersOf(rows)
    ensures forall t :: t in Shape(rows).tdates <==> t in TdatesOf(rows)
    ensures forall i, j :: 0 <= i < j < |Shape(rows).users| ==>
              FirstIndex(UsersOf(rows), Shape(rows).users[i]) < FirstIndex(UsersOf(rows), Shape(rows).users[j])
    ensures forall i, j :: 0 <= i < j < |Shape(rows).tdates| ==>
              FirstIndex(TdatesOf(rows), Shape(rows).tdates[i]) < FirstIndex(TdatesOf(rows), Shape(rows).tdates[j])
  {
    DistinctSpec(UsersOf(rows));
    DistinctSpec(TdatesOf(rows));
    ScoreTableUsers(rows);
  }

  /** Every date of every user's table is a date the query returned inside
      the span, and with more than one city every table entry comes from a
      row in which the user played all of them: a user who played only some
      of the cities on a date has no entry for that date. */
  lemma LoadUserDataFilters(rows: seq<Row>, span: Span, ncities: nat, u: User, t: Round)
    requires u in LoadUserData(rows, span, ncities).data
    requires t in LoadUserData(rows, span, ncities).data[u]
    ensures span.lo <= t <= span.hi
    ensures exists x :: x in rows && x.user == u && x.tdate == t && (ncities > 1 ==> x.played == ncities)
  {
    var sel := Select(rows, span, ncities);
    ScoreTableOnlyRows(sel);
    var i :| 0 <= i < |sel| && sel[i].user == u && sel[i].tdate == t;
    assert sel[i] in sel;
  }

  /** The dates of the deadman's table are the dates of his rows. */
  lemma DayTableDates(rows: seq<DayRow>)
    requires forall t :: t in DayTable(rows) <==> exists i :: 0 <= i < |rows| && rows[i].tdate == t
    ensures forall t :: t in DayTable(rows) <==> exists x :: x in rows && x.tdate == t
  {
  }

  /** Every point value of the deadman's table is the points of one of his
      rows for that date. */
  lemma {:induction false} DayTableValues(rows: seq<DayRow>)
    ensures forall t :: t in DayTable(rows) ==>
              exists x :: x in rows && x.tdate == t && DayTable(rows)[t] == x.points
    decreases |rows|
  {
    if |rows| > 0 {
      var n := |rows| - 1;
      var init := rows[..n];
      DayTableValues(init);
      forall t | t in DayTable(rows)
        ensures exists x :: x in rows && x.tdate == t && DayTable(rows)[t] == x.points
      {
        assert DayTable(rows) == DayTable(init)[rows[n].tdate := rows[n].points];
        if t != rows[n].tdate {
          assert t in DayTable(init);
          var x :| x in init && x.tdate == t && DayTable(init)[t] == x.points;
          assert x in rows;
        } else {
          assert rows[n] in rows;
        }
      }
    }
  }

  /** The deadman's table holds exactly the dates of his surviving rows,
      each with the points of the last such row. */
  lemma {:induction false} DayTableSpec(rows: seq<DayRow>)
    ensures forall t :: t in DayTable(rows) <==> exists i :: 0 <= i < |rows| && rows[i].tdate == t
    ensures forall i :: 0 <= i < |rows| && (forall j :: i < j < |rows| ==> rows[j].tdate != rows[i].tdate) ==>
              DayTable(rows)[rows[i].tdate] == rows[i].points
    decreases |rows|
  {
    if |rows| > 0 {
      var n := |rows| - 1;
      var init := rows[..n];
      DayTableSpec(init);
      assert forall i :: 0 <= i < n ==> rows[i] == init[i];
      forall t | t in DayTable(rows) ensures exists i :: 0 <= i < |rows| && rows[i].tdate == t {
        if t != rows[n].tdate {
          var i :| 0 <= i < n && init[i].tdate == t;
          assert rows[i].tdate == t;
        }
      }
    }
  }
}
