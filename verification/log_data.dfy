/** `process_log_data`: the users and time dimension tables and the songplays
    fact table, built from the activity log and the song catalog. */
module LogData {
  import opened Options
  import opened Records
  import opened Relational

  /** `filter(page == "NextSong")`: the events that are song plays. */
  predicate IsNextSong(e: EventRecord)
  {
    SqlEquals(e.page, Some("NextSong"))
  }

  // ---------------------------------------------------------------------
  // Users table

  /** `userId, firstName, lastName` renamed and selected with `gender, level`. */
  function UserColumns(e: EventRecord): UserRow
  {
    UserRow(e.userId, e.firstName, e.lastName, e.gender, e.level)
  }

  predicate HasUserId(u: UserRow)
  {
    u.userId.Some?
  }

  /** The users table: whole-row distinct, no null `user_id`, and holding
      exactly the user columns of the play events that carry a `userId`. The
      blank-to-null and integer cast of `userId` are computed on a copy that
      is never used, so an empty-string `userId` is not removed. */
  function UsersTable(events: seq<EventRecord>): (r: seq<UserRow>)
    ensures NoDuplicates(r)
    ensures forall u :: u in r ==> u.userId.Some?
    ensures forall u :: u in r <==> exists e :: e in events && IsNextSong(e) && e.userId.Some? && UserColumns(e) == u
  {
    var rows := Distinct(Project(Filter(events, IsNextSong), UserColumns));
    FilterKeepsNoDuplicates(rows, HasUserId);
    Filter(rows, HasUserId)
  }

  /** A logged-out play (empty-string `userId`) still gets a users-table row. */
  lemma UsersKeepBlankUserId(events: seq<EventRecord>, e: EventRecord)
    requires e in events && IsNextSong(e) && e.userId == Some("")
    ensures UserColumns(e) in UsersTable(events)
  {
  }

  /** Nothing deduplicates by key: two plays of one user at different levels
      give two users-table rows with that `user_id`. */
  lemma UserIdMayRepeat(events: seq<EventRecord>, e1: EventRecord, e2: EventRecord)
    requires e1 in events && e2 in events && IsNextSong(e1) && IsNextSong(e2)
    requires e1.userId.Some? && e1.userId == e2.userId && e1.level != e2.level
    ensures UserColumns(e1) in UsersTable(events) && UserColumns(e2) in UsersTable(events)
    ensures UserColumns(e1) != UserColumns(e2)
  {
  }

  // ---------------------------------------------------------------------
  // Time table

  /** `to_timestamp(ts / 1000)`; null when `ts` is null. */
  function StartTime(cal: Calendar, e: EventRecord): Option<int>
  {
    Lift(cal.toStartTime, e.ts)
  }

  predicate HasTs(e: EventRecord)
  {
    e.ts.Some?
  }

  /** A play event that survives `na.drop(subset=['ts'])`. */
  predicate IsTimedPlay(e: EventRecord)
  {
    IsNextSong(e) && HasTs(e)
  }

  /** The event rows after the `NextSong` filter and the `ts` null drop. */
  function TimedPlays(events: seq<EventRecord>): (r: seq<EventRecord>)
    ensures r == Filter(events, IsTimedPlay)
  {
    FilterTwice(events, IsNextSong, HasTs, IsTimedPlay);
    Filter(Filter(events, IsNextSong), HasTs)
  }

  /** `start_time` with its derived calendar columns. */
  function TimeColumns(cal: Calendar, start: Option<int>): TimeRow
  {
    TimeRow(start, Lift(cal.hour, start), Lift(cal.dayOfMonth, start), Lift(cal.weekOfYear, start),
            Lift(cal.month, start), Lift(cal.year, start), Lift(cal.dayOfWeek, start))
  }

  /** The time table: one row per play event with a timestamp (no
      deduplication), each holding a non-null `start_time` derived from such
      an event. */
  function TimeTable(cal: Calendar, events: seq<EventRecord>): (r: seq<TimeRow>)
    ensures |r| == Count(events, IsTimedPlay)
    ensures forall t :: t in r <==> exists e :: e in events && IsTimedPlay(e) && TimeColumns(cal, StartTime(cal, e)) == t
    ensures forall t :: t in r ==> t.startTime.Some?
  {
    FilterLength(events, IsTimedPlay);
    Project(TimedPlays(events), (e: EventRecord) => TimeColumns(cal, StartTime(cal, e)))
  }

  /** Each further timed play adds exactly one row, even when an equal row is
      already there; any other event adds none. */
  lemma {:induction false} TimeTableAppend(cal: Calendar, events: seq<EventRecord>, e: EventRecord)
    ensures TimeTable(cal, events + [e]) ==
            TimeTable(cal, events) + (if IsTimedPlay(e) then [TimeColumns(cal, StartTime(cal, e))] else [])
  {
    FilterAppend(events, e, IsTimedPlay);
    var before := TimedPlays(events);
    assert TimedPlays(events + [e]) == before + (if IsTimedPlay(e) then [e] else []);
  }

  /** The time table is not deduplicated: a play logged twice gives two equal rows. */
  lemma TimeTableKeepsRepeats(cal: Calendar, e: EventRecord)
    requires IsTimedPlay(e)
    ensures TimeTable(cal, [e, e]) == [TimeColumns(cal, StartTime(cal, e)), TimeColumns(cal, StartTime(cal, e))]
  {
    TimeTableAppend(cal, [], e);
    assert [e] == [] + [e];
    TimeTableAppend(cal, [e], e);
    assert [e, e] == [e] + [e];
  }

  // ---------------------------------------------------------------------
  // Songplays table

  predicate HasSongAndArtist(e: EventRecord)
  {
    e.song.Some? && e.artist.Some?
  }

  /** An event that reaches the join: a timed play with song and artist. */
  predicate IsJoinablePlay(e: EventRecord)
  {
    IsTimedPlay(e) && HasSongAndArtist(e)
  }

  /** The renamed and selected columns of `df_songplays`. */
  function PlayColumns(cal: Calendar, e: EventRecord): PlayRow
  {
    PlayRow(StartTime(cal, e), e.userId, e.level, e.song, e.artist, e.sessionId, e.location, e.userAgent)
  }

  /** `df_songplays`: timed plays with song and artist, projected. */
  function PlayRows(cal: Calendar, events: seq<EventRecord>): (r: seq<PlayRow>)
    ensures forall p :: p in r <==> exists e :: e in events && IsJoinablePlay(e) && PlayColumns(cal, e) == p
  {
    Project(Filter(TimedPlays(events), HasSongAndArtist), (e: EventRecord) => PlayColumns(cal, e))
  }

  /** The join condition `artist_name == artist && title == song`, in SQL
      semantics: a null on either side never matches. */
  predicate SongMatches(c: CatalogRecord, p: PlayRow)
  {
    SqlEquals(c.artistName, p.artist) && SqlEquals(c.title, p.song)
  }

  /** The inner join of the catalog with `df_songplays`. */
  function JoinedPlays(cal: Calendar, catalog: seq<CatalogRecord>, events: seq<EventRecord>): seq<(CatalogRecord, PlayRow)>
  {
    Join(catalog, PlayRows(cal, events), SongMatches)
  }

  function SessionOf(j: (CatalogRecord, PlayRow)): Option<int>
  {
    j.1.sessionId
  }

  /** The orders `row_number().over(orderBy('session_id'))` may number the
      joined rows in: a permutation of them, ascending by `session_id` with
      nulls first, in any order among equal `session_id`s. */
  predicate IsSessionOrder(joined: seq<(CatalogRecord, PlayRow)>, arranged: seq<(CatalogRecord, PlayRow)>)
  {
    multiset(arranged) == multiset(joined) && SortedBy(arranged, SessionOf)
  }

  /** Whatever the join produced, some session order of it exists. */
  lemma SessionOrderExists(joined: seq<(CatalogRecord, PlayRow)>)
    ensures IsSessionOrder(joined, SortBy(joined, SessionOf))
  {
  }

  /** A songplays row built from the joined row `j` numbered `id`. */
  function SongplayColumns(cal: Calendar, id: int, j: (CatalogRecord, PlayRow)): SongplayRow
  {
    var (c, p) := j;
    SongplayRow(id, p.startTime, p.userId, p.level, c.songId, c.artistId, p.sessionId, p.location, p.userAgent,
                Lift(cal.month, p.startTime), Lift(cal.year, p.startTime))
  }

  /** `row` carries the catalog columns of `c` and the event columns of `e`. */
  predicate CopiedFrom(cal: Calendar, row: SongplayRow, c: CatalogRecord, e: EventRecord)
  {
    && row.songId == c.songId
    && row.artistId == c.artistId
    && row.startTime == StartTime(cal, e)
    && row.userId == e.userId
    && row.level == e.level
    && row.sessionId == e.sessionId
    && row.location == e.location
    && row.userAgent == e.userAgent
  }

  /** `row_number()` over rows already in the engine's order: the row at
      position i gets `songplay_id` i + 1. */
  function NumberRows(cal: Calendar, arranged: seq<(CatalogRecord, PlayRow)>): seq<SongplayRow>
  {
    seq(|arranged|, i requires 0 <= i < |arranged| => SongplayColumns(cal, i + 1, arranged[i]))
  }

  /** The songplays table for the order `arranged` the engine chose: the
      `songplay_id`s are exactly 1 .. n, one per row. */
  function Songplays(cal: Calendar, catalog: seq<CatalogRecord>, events: seq<EventRecord>,
                     arranged: seq<(CatalogRecord, PlayRow)>): (r: seq<SongplayRow>)
    requires IsSessionOrder(JoinedPlays(cal, catalog, events), arranged)
    ensures |r| == |arranged|
    ensures forall i :: 0 <= i < |r| ==> 1 <= r[i].songplayId <= |r|
    ensures forall i, j :: 0 <= i < |r| && 0 <= j < |r| && i != j ==> r[i].songplayId != r[j].songplayId
  {
    NumberRows(cal, arranged)
  }

  /** Higher `songplay_id` never means lower `session_id` (nulls first). */
  lemma SongplaysSessionOrder(cal: Calendar, catalog: seq<CatalogRecord>, events: seq<EventRecord>,
                              arranged: seq<(CatalogRecord, PlayRow)>, a: SongplayRow, b: SongplayRow)
    requires IsSessionOrder(JoinedPlays(cal, catalog, events), arranged)
    requires a in Songplays(cal, catalog, events, arranged) && b in Songplays(cal, catalog, events, arranged)
    requires a.songplayId < b.songplayId
    ensures NullsFirstLe(a.sessionId, b.sessionId)
  {
    var r := Songplays(cal, catalog, events, arranged);
    var i :| 0 <= i < |r| && r[i] == a;
    var j :| 0 <= j < |r| && r[j] == b;
    assert i < j;
  }

  /** The row numbered from position `i` copies the columns of the record
      and event joined there. */
  lemma NumberedRowCopied(cal: Calendar, arranged: seq<(CatalogRecord, PlayRow)>, i: nat,
                          c: CatalogRecord, e: EventRecord)
    requires i < |arranged| && arranged[i] == (c, PlayColumns(cal, e))
    ensures i < |NumberRows(cal, arranged)| && CopiedFrom(cal, NumberRows(cal, arranged)[i], c, e)
  {
  }

  /** Soundness: every songplays row comes from a catalog record and a play
      event with timestamp, song and artist whose artist name and title match,
      and copies its columns from them. */
  lemma SongplaysSound(cal: Calendar, catalog: seq<CatalogRecord>, events: seq<EventRecord>,
                       arranged: seq<(CatalogRecord, PlayRow)>, row: SongplayRow)
    requires IsSessionOrder(JoinedPlays(cal, catalog, events), arranged)
    requires row in Songplays(cal, catalog, events, arranged)
    ensures exists c, e :: && c in catalog && e in events && IsJoinablePlay(e)
                           && SqlEquals(c.artistName, e.artist) && SqlEquals(c.title, e.song)
                           && CopiedFrom(cal, row, c, e)
  {
    var r := Songplays(cal, catalog, events, arranged);
    var i :| 0 <= i < |r| && r[i] == row;
    var j := arranged[i];
    assert j in multiset(JoinedPlays(cal, catalog, events));
    assert j in JoinedPlays(cal, catalog, events);
    var e :| e in events && IsJoinablePlay(e) && PlayColumns(cal, e) == j.1;
    NumberedRowCopied(cal, arranged, i, j.0, e);
  }

  /** Completeness: every matching pair of a catalog record and a joinable
      play has a songplays row. */
  lemma SongplaysComplete(cal: Calendar, catalog: seq<CatalogRecord>, events: seq<EventRecord>,
                          arranged: seq<(CatalogRecord, PlayRow)>, c: CatalogRecord, e: EventRecord)
    requires IsSessionOrder(JoinedPlays(cal, catalog, events), arranged)
    requires c in catalog && e in events && IsJoinablePlay(e)
    requires SqlEquals(c.artistName, e.artist) && SqlEquals(c.title, e.song)
    ensures exists row :: row in Songplays(cal, catalog, events, arranged) && CopiedFrom(cal, row, c, e)
  {
    var j := (c, PlayColumns(cal, e));
    assert j in JoinedPlays(cal, catalog, events);
    assert j in multiset(arranged);
    var i :| 0 <= i < |arranged| && arranged[i] == j;
    NumberedRowCopied(cal, arranged, i, c, e);
    assert Songplays(cal, catalog, events, arranged)[i] == NumberRows(cal, arranged)[i];
  }

  /** The songplays table has one row per matching pair of a catalog
      record and a play row, counted independently of the join's layout. */
  lemma SongplaysCount(cal: Calendar, catalog: seq<CatalogRecord>, events: seq<EventRecord>,
                       arranged: seq<(CatalogRecord, PlayRow)>)
    requires IsSessionOrder(JoinedPlays(cal, catalog, events), arranged)
    ensures |Songplays(cal, catalog, events, arranged)| == PairCount(catalog, PlayRows(cal, events), SongMatches)
  {
    var joined := JoinedPlays(cal, catalog, events);
    JoinLength(catalog, PlayRows(cal, events), SongMatches);
    assert |arranged| == |multiset(arranged)| == |multiset(joined)| == |joined|;
  }

  /** A catalog record and a play row are numbered once per occurrence of
      each when they match, and never when they do not. */
  lemma SongplaysPairMultiplicity(cal: Calendar, catalog: seq<CatalogRecord>, events: seq<EventRecord>,
                                  arranged: seq<(CatalogRecord, PlayRow)>, c: CatalogRecord, p: PlayRow)
    requires IsSessionOrder(JoinedPlays(cal, catalog, events), arranged)
    ensures multiset(arranged)[(c, p)] ==
            if SongMatches(c, p) then multiset(catalog)[c] * multiset(PlayRows(cal, events))[p] else 0
  {
    JoinMultiplicity(catalog, PlayRows(cal, events), SongMatches, c, p);
  }

  /** Fan-out per play: each occurrence of a play row matching k catalog
      records is numbered k times, and a play row matching none is not
      numbered. `isPlay` tells whether a joined row's event side is `p`. */
  lemma SongplaysPerPlay(cal: Calendar, catalog: seq<CatalogRecord>, events: seq<EventRecord>,
                         arranged: seq<(CatalogRecord, PlayRow)>, p: PlayRow,
                         isPlay: ((CatalogRecord, PlayRow)) -> bool)
    requires IsSessionOrder(JoinedPlays(cal, catalog, events), arranged)
    requires forall x :: isPlay(x) == (x.1 == p)
    ensures Count(arranged, isPlay) == multiset(PlayRows(cal, events))[p] * PartnerCount(catalog, p, SongMatches)
  {
    JoinFanOut(catalog, PlayRows(cal, events), SongMatches, p, isPlay);
    CountPermutation(arranged, JoinedPlays(cal, catalog, events), isPlay);
  }

  /** Every time-table row carries the month and year of its own `start_time`. */
  lemma TimeRowCalendar(cal: Calendar, events: seq<EventRecord>, t: TimeRow)
    requires t in TimeTable(cal, events)
    ensures t.month == Lift(cal.month, t.startTime) && t.year == Lift(cal.year, t.startTime)
  {
    var e :| e in events && IsTimedPlay(e) && TimeColumns(cal, StartTime(cal, e)) == t;
  }

  /** Every songplays row carries the month and year of its own `start_time`. */
  lemma SongplayRowCalendar(cal: Calendar, catalog: seq<CatalogRecord>, events: seq<EventRecord>,
                            arranged: seq<(CatalogRecord, PlayRow)>, row: SongplayRow)
    requires IsSessionOrder(JoinedPlays(cal, catalog, events), arranged)
    requires row in Songplays(cal, catalog, events, arranged)
    ensures row.month == Lift(cal.month, row.startTime) && row.year == Lift(cal.year, row.startTime)
  {
    var r := Songplays(cal, catalog, events, arranged);
    var i :| 0 <= i < |r| && r[i] == row;
  }

  /** Partition agreement: a songplays row's `month` and `year` are those the
      time table gives its `start_time`, and the time table has that
      `start_time`. */
  lemma SongplaysAgreeWithTimeTable(cal: Calendar, catalog: seq<CatalogRecord>, events: seq<EventRecord>,
                                    arranged: seq<(CatalogRecord, PlayRow)>, row: SongplayRow)
    requires IsSessionOrder(JoinedPlays(cal, catalog, events), arranged)
    requires row in Songplays(cal, catalog, events, arranged)
    ensures exists t :: t in TimeTable(cal, events) && t.startTime == row.startTime
    ensures forall t :: t in TimeTable(cal, events) && t.startTime == row.startTime ==>
                          t.month == row.month && t.year == row.year
  {
    SongplaysSound(cal, catalog, events, arranged, row);
    var c, e :| && c in catalog && e in events && IsJoinablePlay(e)
                && SqlEquals(c.artistName, e.artist) && SqlEquals(c.title, e.song)
                && CopiedFrom(cal, row, c, e);
    assert TimeColumns(cal, StartTime(cal, e)) in TimeTable(cal, events);
    SongplayRowCalendar(cal, catalog, events, arranged, row);
    forall t | t in TimeTable(cal, events) && t.startTime == row.startTime
      ensures t.month == row.month && t.year == row.year
    {
      TimeRowCalendar(cal, events, t);
    }
  }

  /** The three tables `process_log_data` writes. */
  datatype LogTables = LogTables(users: seq<UserRow>, time: seq<TimeRow>, songplays: seq<SongplayRow>)

  /** `process_log_data` without its reads and writes, for the row order
      `arranged` the engine chose for `row_number`. */
  function ProcessLogData(cal: Calendar, catalog: seq<CatalogRecord>, events: seq<EventRecord>,
                          arranged: seq<(CatalogRecord, PlayRow)>): (r: LogTables)
    requires IsSessionOrder(JoinedPlays(cal, catalog, events), arranged)
    ensures NoDuplicates(r.users)
    ensures forall u :: u in r.users ==> u.userId.Some?
    ensures |r.time| == Count(events, IsTimedPlay)
    ensures |r.songplays| == PairCount(catalog, PlayRows(cal, events), SongMatches)
    ensures forall i :: 0 <= i < |r.songplays| ==> 1 <= r.songplays[i].songplayId <= |r.songplays|
  {
    SongplaysCount(cal, catalog, events, arranged);
    LogTables(UsersTable(events), TimeTable(cal, events), Songplays(cal, catalog, events, arranged))
  }
}
