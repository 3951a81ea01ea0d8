# Wetterturnier ranking engine in Dafny

This project models the ranking engine of the wp-wetterturnier WordPress
plugin, class `wetterturnier_rankingObject` in `rankingclass.php`. Players
forecast the weather for one or more cities on every tournament weekend.
The engine turns their per-date points into a ranking table for one date or
a period. It works in these steps:

- **Window resolution** (`set_tdates`) fixes the current window
  `[from, to]` and an optional previous window `[from_prev, to_prev]`. It
  also gives the date span to query and whether a trend is shown.
- **Loading** (`_get_data_object`) takes the grouped score rows and keeps
  those inside the span. For a multi-city ranking it keeps only the rows of
  users who played every city. From them it builds per-user score tables
  and the user and date lists, both in first-seen order. It also loads the
  score table of the substitute player (the "deadman").
- **Filling and accumulation** (`prepare_ranking`): for each user and
  date, the score is the user's own points, otherwise the deadman's,
  otherwise nothing. Dates after the latest tournament are skipped. The
  scores are summed into the current window and, with a trend, into the
  previous one. For a single date, users who did not play are dropped.
- **`array_rank`** assigns competition ranks: ties share a rank, and gaps
  follow them.
- **Result building** lists the entries by rank. Each entry gets the
  distance to the winner and the trend (ranks gained). The meta data holds
  the tournament count, the maximum attainable points and the city label.
- **The file cache** stores a ranking under a name built from the cache
  prefix, the four window bounds and the city ids. A file at most 600
  seconds old is served instead of recomputing.

Modules, one file each:

- `Common`: domain types, `Option`, `Result` and first-seen lists.
- `Text`: `sprintf("%d")`, `join`, `str_replace` and cutting a file name
  back into its fields.
- `Windows`: window resolution.
- `DataLoader`: loading.
- `Scores`: filling and accumulation.
- `Sorting`: `arsort` and `asort`.
- `Ranks`: `array_rank`.
- `Results`: the ranking table.
- `Ranking`: `prepare_ranking` with its cache.

Points are integers in hundredths, so `round(points, 2)` is the identity
and ties compare exactly. The SQL result is an input: a sequence of rows
(user, date, summed points, number of selected cities played). The clock
(`time()`), the latest tournament date derived from it, and whether the
cache directory is writable are all parameters. The cache directory is a
map from file name to (ranking, modification time).

The deadman's query is wrapped in the same `played = count(cities)`
filter as everyone else's (`rankingclass.php:257-259`), and `LoadDeadman`
applies that filter.

The cache file name is modelled as the source builds it, including the
slip described under "## Findings". The corrected name and a
`prepare_ranking` that uses it are modelled alongside.

## Model

| member | source | states |
|---|---|---|
| Common.DistinctSpec | rankingclass.php:279-280 | The user and date lists built with `in_array`/`array_push` hold every value once, nothing else, and in order of first appearance. |
| Text.IntToString | rankingclass.php:386-396 | `%d` prints at least one character: a leading `-` exactly for negative numbers, and only digits after it. |
| Text.IntToStringInjective | rankingclass.php:393-396 | Different numbers print differently. |
| Text.SplitField | rankingclass.php:393-400 | A name built as field, separator, rest can be cut back uniquely when the field contains no `_` and no `-` after its first character. |
| Text.ReplaceSpaces | rankingclass.php:115 | Every space becomes `_` and every other character is kept. |
| Text.ReplaceSpacesIdempotent | rankingclass.php:115 | The result has no spaces, and replacing again changes nothing. |
| Text.JoinSnoc | rankingclass.php:682-683 | Joining a non-empty list with one more part appends the separator and that part. |
| Text.JoinSplit | rankingclass.php:682-683 | Splitting a joined non-empty list at the separator gives the list back when no part holds the separator. |
| Windows.PrevInterval | rankingclass.php:149-159 | The previous window exists exactly when both of its bounds are non-null. |
| Windows.ResolveWindow | rankingclass.php:143-167 | The trend is on iff both previous bounds are set. The span's lower end is the least bound taking part. Without `latest`, the upper end is the greatest bound. With `latest` it never exceeds `latest`: it is the greatest bound when all bounds are at most `latest`, and `latest` otherwise. |
| Windows.WindowsInsideSpan | rankingclass.php:149-166 | Every date of the current window, and of the previous window when there is one, lies in the span unless it is after `latest`. |
| DataLoader.Select | rankingclass.php:232-259 | A row survives the query exactly when its date lies in the span and, for several cities, the user played all of them that date. |
| DataLoader.LoadDeadman | rankingclass.php:214-274 | The deadman's table is absent exactly when the deadman login is unknown. Otherwise its dates are exactly the dates of the deadman's rows that pass the same span and multi-city filter as everyone else's, and each date holds the points of one such row for that date. |
| DataLoader.ScoreTableUsers | rankingclass.php:283-284 | The score table has an entry for a user exactly when some surviving row names that user. |
| DataLoader.ScoreTableHasRows | rankingclass.php:286-288 | Every surviving row's user and date appear in the score table. |
| DataLoader.ScoreTableOnlyRows | rankingclass.php:286-288 | Every score-table entry comes from a surviving row. |
| DataLoader.ScoreTableLastWins | rankingclass.php:286-288 | For each user and date the table keeps the points of the last row carrying that pair. |
| DataLoader.ShapeSpec | rankingclass.php:276-290 | Both lists are duplicate-free and in first-seen order, and the user list and the table's users coincide. |
| DataLoader.LoadUserDataFilters | rankingclass.php:232-260 | Every loaded date lies in the span. With several cities, every entry comes from a row in which the user played all of them. |
| DataLoader.DayTableSpec | rankingclass.php:268-274 | The deadman's table holds exactly the dates of his rows, each with the points of the last such row. |
| DataLoader.DayTableValues | rankingclass.php:268-273 | Every value in the deadman's table is the points of one of his rows for that date. |
| Scores.Effective | rankingclass.php:490-505 | Own points count as played. Otherwise the deadman's points for that date apply, not counted as played. Otherwise the score is zero. A missing deadman is no error. |
| Scores.AccumulateIsWindowSums | rankingclass.php:471-536 | The per-user loop yields for the current window the sum over its eligible dates (inside it and not after `latest`). It yields the same for the previous window when there is one. The two windows are independent, so they may overlap. |
| Scores.AccumulateNoPre | rankingclass.php:522-528 | Without a trend the previous total stays zero. |
| Scores.DateContributes | rankingclass.php:522-533 | An eligible date adds its score to the window's sum wherever it stands in the date list. |
| Scores.WindowPlayed | rankingclass.php:482-533 | `played` never exceeds the number of eligible dates. It is zero exactly when the user has no own score on any eligible date. |
| Scores.CountInIsCardinality | rankingclass.php:464-468 | On the duplicate-free date list, the tournament count is the number of distinct loaded dates between `from` and `latest`. |
| Scores.PlayedAtMostTournaments | rankingclass.php:464-468 | Nobody has played more dates than the tournament count. |
| Scores.TallySpec | rankingclass.php:471-536 | Each user's standing holds that user's current window sum, plus the previous window sum when there is one. |
| Scores.DropAbsent | rankingclass.php:542-551 | For a single date, exactly the users with zero games are removed. Otherwise nothing changes. |
| Scores.DropAbsentKeepsOrder | rankingclass.php:542-551 | Removing absent users keeps the others in their order: the k-th remaining standing is the standing at the k-th kept position, and kept positions increase. |
| Scores.KeptComplete | rankingclass.php:542-551 | Every user who played that date, and for a period every user, is at a kept position. |
| Scores.DropAbsentDistinct | rankingclass.php:542-551 | Removing absent users keeps the logins pairwise distinct. |
| Sorting.Sort | rankingclass.php:570 | `arsort`/`asort` yields a permutation of the entries, ordered by value and then by index. |
| Sorting.SortedPairs | rankingclass.php:570 | The sorted copy holds every index of the array with its own value, and nothing else. |
| Sorting.SortedPairsDistinct | rankingclass.php:612 | The sorted copy names every index only once. |
| Ranks.CountGreaterPermutation | rankingclass.php:570-575 | Reordering entries does not change how many of them exceed a value, so ranks do not depend on how the sort orders ties. |
| Ranks.ArrayRankSpec | rankingclass.php:566-587 | Every rank equals one plus the number of entries with a strictly greater value, and the output has one rank per input entry. |
| Ranks.RankBounds | rankingclass.php:566-587 | Every rank lies between 1 and the number of entries. |
| Ranks.RankOrder | rankingclass.php:566-587 | Equal values share a rank, and a greater value gets a strictly smaller rank. |
| Ranks.RankOneIsTop | rankingclass.php:580-584 | Rank 1 goes exactly to the entries holding the greatest value. |
| Ranks.HasLeader | rankingclass.php:580-584 | A non-empty input has an entry of rank 1. |
| Ranks.TieLeavesGap | rankingclass.php:560-564 | Values 100, 100 and 80 get ranks 1, 1 and 3. |
| Results.NowRanks | rankingclass.php:592-596 | The current rank of each standing is one plus the number of standings with more current points. |
| Results.PreRanks | rankingclass.php:598-605 | The previous rank of each standing is one plus the number of standings with more previous points. |
| Results.ByRank | rankingclass.php:612 | The listing order has one element per standing, each a position with its rank, sorted by ascending rank and tied ranks by position. |
| Results.EntryContents | rankingclass.php:618-638 | Each entry shows its standing's user, points, games and current rank. With a trend it also shows the previous rank and `rank_pre - rank_now`. |
| Results.EveryStandingListed | rankingclass.php:618-627 | Every standing is listed exactly once. |
| Results.DistinctUsersListed | rankingclass.php:621-627 | Distinct logins give a table with distinct logins. |
| Results.EntriesInRankOrder | rankingclass.php:612-628 | Ranks never decrease down the table, and entries of equal rank keep the order of the standings. |
| Results.MorePointsListedFirst | rankingclass.php:612-630 | A user with more points is listed before a user with fewer. |
| Results.PointsBehindLeader | rankingclass.php:623-633 | The first entry holds the highest total. Each entry's distance is that total minus its own: never negative, and zero exactly for rank 1. |
| Results.WinnerFirst | rankingclass.php:618-633 | A non-empty table starts with a rank-1 entry at distance zero. |
| Ranking.SetCachehash | rankingclass.php:115 | The cache prefix has no spaces. Spaces become `_` and every other character is kept. |
| Ranking.TdateHashAsWritten | rankingclass.php:393-396 | The date part as written: a null `from_prev` gives `NULL-NULL`, and a null `to_prev` after a set `from_prev` prints as `0`. When both previous bounds are set or both are null, it is the corrected date part, so on such windows it determines all four bounds. |
| Ranking.AsWrittenKeyCollides | rankingclass.php:393-396 | As written, two windows with different trend flags get the same date part of the file name. |
| Ranking.TdateHashInjective | rankingclass.php:393-396 | The corrected date part (each bound checked for null on its own) determines all four bounds. |
| Ranking.CacheFileNameDeterminesWindow | rankingclass.php:393-400 | With the corrected date part, two windows share a cache file under one prefix and one city selection only when all four bounds agree. The file name as written does not have this property. |
| Ranking.CityHash | rankingclass.php:384-390 | The city part of the cache file name is the printed id of a single city. A one-element list gives the same name as that city on its own; both compute with the same single city. |
| Ranking.CityHashInjective | rankingclass.php:384-390 | Two non-empty city lists share the city part of the name only when they list the same ids in the same order. |
| Ranking.CityLabel | rankingclass.php:678-684 | The label of a single city is its name. For a list, the label is the names joined by single spaces: one city gives its name, and each further city appends a space and its name. When no name holds a space, splitting the label at the spaces gives the names back in list order. |
| Ranking.BuildRanking | rankingclass.php:454-687 | Trends are shown exactly when both previous bounds are set, and there is one entry per standing. |
| Ranking.PrepareRanking | rankingclass.php:429-452 | There is no ranking without cities and dates. The result comes from the cache exactly when caching is on and the file named as the source names it, with the `from_prev` test for the second field, is at most 600 seconds old. With caching off the cache is untouched. |
| Ranking.Serve | rankingclass.php:441-450 | Under a given file name, a young enough file is returned as stored. Otherwise the ranking is computed and, with caching on and a writable directory, written under that name with the current time. |
| Ranking.PrepareRankingFixed | rankingclass.php:393-396 | The same as `prepare_ranking`, but under the corrected file name: the result comes from the cache exactly when caching is on and that file is at most 600 seconds old. |
| Ranking.CacheHitServesStored | rankingclass.php:443-450 | A fresh cache file is returned as stored, whatever the database holds, and the cache is unchanged. |
| Ranking.MissComputes | rankingclass.php:454-698 | Otherwise the ranking is computed from the database. Only its own file is written, with the current time, and only when caching is on and the directory is writable. |
| Ranking.SecondCallServedFromCache | rankingclass.php:443-450 | Within 600 seconds of a computed and written ranking, the same request gets that ranking back, even if the database changed. |
| Ranking.StaleFileRecomputed | rankingclass.php:447 | A file older than 600 seconds is ignored and the ranking is recomputed. |
| Ranking.AsWrittenServesTrendless | rankingclass.php:393-396 | As written, a ranking computed for `from_prev = 16993` with a null `to_prev` is served within 600 seconds to the request with `to_prev = 0`. That request asks for a trend but gets a ranking without trends. |
| Ranking.FixedKeepsTrend | rankingclass.php:393-396 | With the corrected file name, whatever an earlier request under the same prefix and cities wrote, a later request whose own file was not young enough beforehand gets a ranking whose trend flag matches its window. |
| Ranking.StandingsFromTally | rankingclass.php:471-551 | Every standing belongs to a loaded user and holds that user's current window sum. For a single date, the user played it. |
| Ranking.EntryIsWindowSum | rankingclass.php:482-533 | Each entry's points and games are its user's sums over the current window up to the latest tournament, with deadman points where the user has none. |
| Ranking.PlayedBounds | rankingclass.php:464-468 | Games played lie between 0 and the tournament count. A single-date ranking lists only users who played. |
| Ranking.MetaSpec | rankingclass.php:617 | The tournament count is the number of distinct loaded dates from `from` up to the latest tournament. The maximum points are the per-weekend maximum times tournaments times cities. |
| Ranking.EveryLoadedUserListed | rankingclass.php:471-479 | For a period, every loaded user has an entry, and there are exactly as many entries as loaded users. |
| Ranking.StandingsDistinct | rankingclass.php:471-551 | The standings have pairwise distinct logins. |
| Ranking.EntriesDistinct | rankingclass.php:618-628 | The ranking table lists every login at most once. |

## Left out

- The SQL text and its execution are not modelled. The grouped rows are an input, already restricted to the selected cities. This covers the city part of the `WHERE` clause, the `GROUP BY` and the `RIGHT OUTER JOIN`; rows without a login are not modelled.
- A city list of length zero: the source then builds the SQL clause `IN ()`, which the database rejects. The model instead computes a ranking from the rows it is given, with a city count of 0, so the maximum points are 0 and the city label is empty.
- Ranking.PrepareRanking: `array_rank` is declared inside `prepare_ranking` (line 566) without a `function_exists` guard. A second computation in the same PHP process therefore stops with the fatal error "Cannot redeclare array_rank()"; a cache hit returns before line 566 and does not. The model treats every call as a pure function, so the lemmas about two calls (`SecondCallServedFromCache`, `StaleFileRecomputed`, `AsWrittenServesTrendless`, `FixedKeepsTrend`) describe calls from separate PHP requests that share the cache directory.
- Results.PointsBehindLeader: points are modelled as exact integers in hundredths. The source ranks on `round(points, 2)` (lines 592-605) but computes `points_diff` from the unrounded total (lines 623-633). With float points that carry more than two decimals, an entry could therefore have rank 1 and a tiny non-zero distance. "Zero exactly for rank 1" holds for the model's integer points only.
- The model assumes PHP 8.0 or later, whose `asort` is stable: tied ranks are listed by position. Rank values do not depend on this (`Ranks.CountGreaterPermutation`); only the listing order of tied entries does.
- `count()` on a single city object is modelled as 1. The city class is not part of this model. Under PHP 8 that count is 1 only if the class is `Countable` with a count of 1; otherwise line 257 throws a `TypeError`, which is not modelled.
- Common.DistinctSpec: `in_array` at lines 279-280 compares loosely, so a login such as `01` is not appended after `1`. The model compares strictly. The ranking itself loops over the score table (line 471), not over the user list, so it is not affected.
- These WordPress calls are left out: `get_user_by` for display data, `get_user_display_class_and_name`, the avatar, the profile and avatar links, and the user id. They are foreign calls with no visible source. The deadman lookup is modelled only as present or absent.
- The edit and detail buttons (`_get_edit_button`, `_get_detail_button`) are HTML for display and are left out.
- `number_format` and `date_format` are display formatting, so `points_now` and `points_diff` stay plain integers.
- The meta fields `older`, `newer`, `from`, `to` and `lang`, and the `dict` strings, are display labels and are left out.
- `points_relative` is left out: it is a floating-point division (line 631).
- Ranking.MissComputes: line 631 divides by `points_max`, which is 0 when no tournament date lies between `from` and the latest tournament, when the per-weekend maximum is 0, or when the city list is empty. Under PHP 8 that division throws `DivisionByZeroError` as soon as the ranking has an entry, so `prepare_ranking` aborts and writes no cache file (lines 694-697). The model leaves the division out, so it computes a ranking with `pointsMax = 0` and, on a miss with caching on, writes it to the cache. Example: `from=17007, to=17013, from_prev=16993, to_prev=16999`, latest tournament 17000, one row for user `a` on 16993.
- File I/O, `serialize`/`unserialize`, `LOCK_EX` and the plugin directory prefix are left out. The cache is a map from file name to (ranking, modification time). Old files are never deleted, which the model reflects.
- `latest_tournament(floor(time() / 86400))` is replaced by a `latest` parameter. `time()` is replaced by a `now` parameter.
- `_get_previous_tournament_date`, `_get_later_tournament_date`, the output methods, `autosubmit.php`, the JavaScript table rendering and the observation-table view are I/O or display code outside the engine.

## Findings

| source | as written | input that shows it | evidently intended | confidence | as-written member | corrected member |
|---|---|---|---|---|---|---|
| rankingclass.php:395 | The second field of the cache file's date part tests `from_prev` for null, not `to_prev`. When `to_prev` is null and `from_prev` is not, `sprintf("%d", null)` prints `0`. | `from=17000, to=17006, from_prev=16993, to_prev=null` (no trend) and the same with `to_prev=0` (trend on) both give `16993-0_17000-17006`. The second request is then served the first one's ranking, which has no trend column. | Test `to_prev` for null, so the four bounds determine the file name. | medium, not executed | Ranking.TdateHashAsWritten, Ranking.AsWrittenKeyCollides, Ranking.AsWrittenServesTrendless | Ranking.TdateHash, Ranking.TdateHashInjective, Ranking.PrepareRankingFixed, Ranking.FixedKeepsTrend |

