# Sparkify data-lake ETL, modelled in Dafny

This project models the transformation core of `etl.py`, a PySpark job that
turns a song catalog (song_data) and an activity log (log_data) into a star
schema: the songs, artists, users and time dimension tables and the
songplays fact table.

Each DataFrame operation the job uses is given its relational meaning over
finite sequences of rows (module `Relational`): `filter` and `na.drop` are
`Filter`, `select` and `withColumn` are `Project`, `distinct` is `Distinct`
(whole-row), the join is `Join` (inner join on a predicate), and
`row_number().over(orderBy('session_id'))` numbers the joined rows in an
order the engine chooses. SQL null is `Options.None`, and a comparison with
null never holds (`Options.SqlEquals`).

- `SongData` models `process_song_data`. The songs and artists tables are
  built by select, then whole-row distinct, then empty key to null, then
  dropping null keys (`SongData.KeyedTable`).
- `LogData` models `process_log_data`. It covers the `NextSong` filter, the
  users table, the `ts` null drop with `start_time`, the time table, the
  event side of the join, the join with the catalog, `songplay_id`
  numbering and the `month`/`year` partition columns.
- `Records` holds the record and row types. It also holds `Calendar`, the
  engine's timestamp functions passed in as values.

A reader of the code might expect key-unique dimension tables, users
without a blank `userId`, and one time row per distinct `start_time`. The
code does none of these, and this model follows the code:
- Deduplication is by whole row and happens before the key filter. So a
  `song_id`, `artist_id` or `user_id` can appear on several rows with
  different payloads (`SongData.SongIdMayRepeat`,
  `SongData.ArtistIdMayRepeat`, `LogData.UserIdMayRepeat`).
- The empty-string-to-null and integer cast of `userId` at etl.py:72-74 is
  never assigned back. So a play with `userId == ""` still gets a
  users-table row (`LogData.UsersKeepBlankUserId`), and `user_id` stays a
  string.
- The time table is not deduplicated. It has one row per play event with a
  timestamp, repeats included (`LogData.TimeTableAppend`,
  `LogData.TimeTableKeepsRepeats`).
- The songplays join does not exclude catalog rows with an empty or null
  `song_id`. One play matching k catalog rows yields k songplays rows.

## Model

| member | source | states |
|---|---|---|
| `SongData.BlankToNull` | etl.py:31-33 | the key becomes null exactly when it was null or `''`, and is otherwise unchanged |
| `SongData.KeyedTable` | etl.py:29-34 | distinct, then blank-key-to-null, then drop null keys: no duplicate rows, and a row is kept iff it was an input row with a present non-empty key |
| `SongData.SongsTable` | etl.py:26-34 | songs rows are pairwise distinct, every `song_id` is present and non-empty, and a row is in the table iff it is the song columns of a catalog record with such a `song_id` |
| `SongData.ArtistsTable` | etl.py:43-52 | artists rows are pairwise distinct, every `artist_id` is present and non-empty, and a row is in the table iff it is the artist columns of a catalog record with such an `artist_id` |
| `SongData.SongIdMayRepeat` | etl.py:29-34 | two catalog records sharing a valid `song_id` with different song columns both appear, so `song_id` is not unique |
| `SongData.ArtistIdMayRepeat` | etl.py:47-52 | two catalog records sharing a valid `artist_id` with different artist columns both appear, so `artist_id` is not unique |
| `SongData.ProcessSongData` | etl.py:16-58 | both tables are row-distinct with present non-empty keys, and every catalog record with a valid key is represented |
| `LogData.UsersTable` | etl.py:77-88 | users rows are pairwise distinct, `user_id` is never null, and a row is in the table iff it is the user columns of a `NextSong` event with a non-null `userId` |
| `LogData.UsersKeepBlankUserId` | etl.py:72-88 | a `NextSong` event whose `userId` is `""` still has its row in the users table, because the cleanup is discarded |
| `LogData.UserIdMayRepeat` | etl.py:83-88 | two plays of one user at different levels give two distinct rows with the same `user_id` |
| `LogData.TimedPlays` | etl.py:77-97 | the `NextSong` filter followed by the `ts` null drop keeps exactly the events that are `NextSong` and have a `ts` |
| `LogData.TimeTable` | etl.py:97-108 | the time table has exactly as many rows as there are `NextSong` events with non-null `ts`; every row's `start_time` is non-null, and a row is present iff it is the calendar row of such an event's `start_time` |
| `LogData.TimeTableAppend` | etl.py:102-108 | appending an event adds exactly one time row if it is a timed play, even when an equal row is already present, and none otherwise |
| `LogData.TimeTableKeepsRepeats` | etl.py:102-108 | a timed play logged twice gives two equal time rows |
| `LogData.PlayRows` | etl.py:123-128 | a row reaches the join iff it is the projection of a `NextSong` event with non-null `ts`, `song` and `artist` |
| `LogData.SessionOrderExists` | etl.py:139-140 | for every join result there is a session-ordered permutation of it to number, so `row_number` is always defined |
| `LogData.Songplays` | etl.py:136-141 | one row per arranged joined row, each `songplay_id` is in 1..n, and the ids are pairwise distinct, so they are exactly 1..n |
| `LogData.SongplaysSessionOrder` | etl.py:139-140 | for any tie-break, a smaller `songplay_id` never has a larger `session_id` (nulls first) |
| `LogData.SongplaysSound` | etl.py:123-141 | every songplays row comes from a catalog record and a `NextSong` event with non-null `ts`, `song` and `artist` whose `artist_name`/`title` equal the event's `artist`/`song`; `song_id`, `artist_id` are copied from the record and the other columns from the event |
| `LogData.SongplaysComplete` | etl.py:136-138 | every matching pair of a catalog record and such an event has a songplays row copied from them |
| `LogData.SongplaysCount` | etl.py:136-141 | the number of songplays rows equals the number of matching (catalog row, play row) index pairs, counted independently of the join |
| `LogData.SongplaysPairMultiplicity` | etl.py:136-140 | a matching catalog row and play row are numbered once per occurrence of each (the product of their multiplicities), and a non-matching pair never |
| `LogData.SongplaysPerPlay` | etl.py:136-140 | each occurrence of a play row that matches k catalog rows is numbered k times, whatever the tie-break; a play row that matches none is not numbered |
| `LogData.TimeRowCalendar` | etl.py:102-108 | every time row's `month` and `year` are those of its own `start_time` |
| `LogData.SongplayRowCalendar` | etl.py:144-146 | every songplays row's `month` and `year` are those of its own `start_time` |
| `LogData.SongplaysAgreeWithTimeTable` | etl.py:102-146 | every songplays `start_time` has a time row, and every time row with that `start_time` has the same `month` and `year` as the songplays row |
| `LogData.ProcessLogData` | etl.py:61-151 | users rows distinct with non-null `user_id`; time rows counted per timed play; songplays rows counted per matching pair with ids in 1..n |
| `Relational.Filter` | etl.py:77 | a row is kept iff it was in the input and satisfies the condition |
| `Relational.Project` | etl.py:29 | one output row per input row, in place; a value is in the output iff it is the image of an input row |
| `Relational.Distinct` | etl.py:30 | no duplicate rows, and the same set of rows as the input |
| `Relational.FilterKeepsNoDuplicates` | etl.py:30-34 | dropping rows from a duplicate-free table leaves it duplicate-free |
| `Relational.FilterAfterProject` | etl.py:31-34 | rewriting the key then dropping nulls equals dropping the rows whose original key was null or blank |
| `Relational.Join` | etl.py:136-138 | a pair is in the inner join iff its left row is in the left input, its right row is in the right input, and they match |
| `Relational.JoinLength` | etl.py:136-138 | the join has exactly as many rows as there are matching index pairs, counted independently of how the join lays out its rows |
| `Relational.JoinMultiplicity` | etl.py:136-138 | a matching pair occurs as often as the product of its two sides' multiplicities, and a non-matching pair does not occur |
| `Relational.JoinFanOut` | etl.py:136-138 | the join holds, for each occurrence of a right row, one row per left row it matches |
| `Relational.CountPermutation` | etl.py:139-140 | reordering rows, as the window sort does, changes no count |
| `Relational.SortBy` | etl.py:139-140 | the result is a permutation of the input in ascending, nulls-first key order |

## Left out

- Spark session creation (etl.py:7-13) and `main` with its fixed bucket locations (etl.py:154-161): runtime configuration.
- Input path building and `spark.read.json` (etl.py:19, 23, 64-69, 131): the catalog and the log are sequence parameters. The second catalog read is the same catalog sequence.
- Parquet writes, `partitionBy`, overwrite mode and every `print`: storage and logging side effects. The `month`/`year` partition values are modelled as columns.
- Timestamp semantics: `ts / 1000` is floating-point and `to_timestamp` depends on the session time zone (etl.py:98). `hour`, `dayofmonth`, `weekofyear`, `month`, `year` and `dayofweek` are engine functions (etl.py:103-108). All of them are uninterpreted function values in `Calendar`, so the day-of-week numbering is not fixed. The model also assumes `to_timestamp` of a non-null `ts` is non-null.
- The integer cast of `userId` (etl.py:74): its result is discarded, so it has no effect and its failure behaviour is not modelled.
- Row order: the engine gives `distinct`, the join and the persisted tables no order. `Distinct` keeps first occurrences and `Join` lists rows event by event; every property is stated as membership, counts or multiplicities, which do not depend on that choice.
- `row_number` tie-break: the engine's order is the `arranged` parameter of `LogData.Songplays`, required to be a session-ordered permutation of the join. `Relational.SortBy` is one such order.
- Floating-point columns (`duration`, `artist_latitude`, `artist_longitude`) are `real`: only equality between them is used (by `distinct`), and NaN is not modelled.
- Log columns the job never selects (`auth`, `itemInSession`, `length`, `method`, `registration`, `status`) are not in `EventRecord`.
- Parallel, distributed execution: the model is sequential and pure. For the same catalog, log and `arranged` order it gives the same tables. Across engine runs only the multiset of joined rows is reproducible (`IsSessionOrder` fixes it); plays sharing a `session_id` may be numbered in either order, so their `songplay_id`s are not.
- LogData.Songplays: `songplay_id` is an unbounded integer, while `row_number()` yields a 32-bit INT. So "ids are 1..n and pairwise distinct" holds in the engine only for fewer than 2^31 joined rows. Beyond that the engine wraps (non-ANSI mode) or fails (ANSI mode), and the model does not cover either.
