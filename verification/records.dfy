/** Input records and output rows of the pipeline. Every column is nullable,
    as in the schema the engine infers from JSON; SQL null is `None`. */
module Records {
  import opened Options

  /** One song-catalog record (song_data). */
  datatype CatalogRecord = CatalogRecord(
    songId: Option<string>,
    title: Option<string>,
    artistId: Option<string>,
    artistName: Option<string>,
    artistLocation: Option<string>,
    artistLatitude: Option<real>,
    artistLongitude: Option<real>,
    year: Option<int>,
    duration: Option<real>)

  /** One activity-log record (log_data), restricted to the columns the
      pipeline reads. `userId` is the string the log carries (logged-out
      events carry the empty string); `ts` is epoch milliseconds. */
  datatype EventRecord = EventRecord(
    userId: Option<string>,
    firstName: Option<string>,
    lastName: Option<string>,
    gender: Option<string>,
    level: Option<string>,
    page: Option<string>,
    sessionId: Option<int>,
    userAgent: Option<string>,
    location: Option<string>,
    song: Option<string>,
    artist: Option<string>,
    ts: Option<int>)

  /** Row of the songs table: `song_id, title, artist_id, year, duration`. */
  datatype SongRow = SongRow(
    songId: Option<string>,
    title: Option<string>,
    artistId: Option<string>,
    year: Option<int>,
    duration: Option<real>)

  /** Row of the artists table: `artist_id, artist_name, artist_location,
      artist_latitude, artist_longitude`. */
  datatype ArtistRow = ArtistRow(
    artistId: Option<string>,
    artistName: Option<string>,
    artistLocation: Option<string>,
    artistLatitude: Option<real>,
    artistLongitude: Option<real>)

  /** Row of the users table: `user_id, first_name, last_name, gender, level`. */
  datatype UserRow = UserRow(
    userId: Option<string>,
    firstName: Option<string>,
    lastName: Option<string>,
    gender: Option<string>,
    level: Option<string>)

  /** Row of the time table: `start_time, hour, day, week, month, year, weekday`. */
  datatype TimeRow = TimeRow(
    startTime: Option<int>,
    hour: Option<int>,
    day: Option<int>,
    week: Option<int>,
    month: Option<int>,
    year: Option<int>,
    weekday: Option<int>)

  /** The event side of the songplays join: `start_time, user_id, level, song,
      artist, session_id, location, user_agent`. */
  datatype PlayRow = PlayRow(
    startTime: Option<int>,
    userId: Option<string>,
    level: Option<string>,
    song: Option<string>,
    artist: Option<string>,
    sessionId: Option<int>,
    location: Option<string>,
    userAgent: Option<string>)

  /** Row of the songplays table, with its `month` and `year` partition columns. */
  datatype SongplayRow = SongplayRow(
    songplayId: int,
    startTime: Option<int>,
    userId: Option<string>,
    level: Option<string>,
    songId: Option<string>,
    artistId: Option<string>,
    sessionId: Option<int>,
    location: Option<string>,
    userAgent: Option<string>,
    month: Option<int>,
    year: Option<int>)

  /** The engine's timestamp functions, left uninterpreted: `toStartTime` is
      `to_timestamp(ts / 1000)` on epoch milliseconds (its value is the
      engine's timestamp), and the others are `hour`, `dayofmonth`,
      `weekofyear`, `month`, `year` and `dayofweek` of a timestamp. */
  datatype Calendar = Calendar(
    toStartTime: int -> int,
    hour: int -> int,
    dayOfMonth: int -> int,
    weekOfYear: int -> int,
    month: int -> int,
    year: int -> int,
    dayOfWeek: int -> int)
}
