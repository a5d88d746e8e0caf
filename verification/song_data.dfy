/** `process_song_data`: the songs and artists dimension tables built from
    the song catalog. */
module SongData {
  import opened Options
  import opened Records
  import opened Relational

  /** A usable primary key: present and not the empty string. */
  predicate IsKey(v: Option<string>)
  {
    v.Some? && v.value != ""
  }

  /** `when(col == '', None).otherwise(col)`. For a null key the comparison is
      null, so `when` falls through to `otherwise` and the key stays null. */
  function BlankToNull(v: Option<string>): (r: Option<string>)
    ensures r.Some? <==> IsKey(v)
    ensures r.Some? ==> r == v
  {
    if SqlEquals(v, Some("")) then None else v
  }

  /** `distinct()`, then blank-key-to-null, then `na.drop(subset=[key])`, on
      already projected rows whose key column is read by `key` and written by
      `withKey`. Deduplication is by whole row and comes before the key is
      looked at, so two rows with one key and different payloads both stay. */
  function KeyedTable<R(==,!new)>(rows: seq<R>, key: R -> Option<string>, withKey: (R, Option<string>) -> R): (r: seq<R>)
    requires forall x, k :: key(withKey(x, k)) == k
    requires forall x :: withKey(x, key(x)) == x
    ensures NoDuplicates(r)
    ensures forall x :: x in r <==> x in rows && IsKey(key(x))
  {
    var distinctRows := Distinct(rows);
    var blankToNull := (x: R) => withKey(x, BlankToNull(key(x)));
    var keyNotNull := (x: R) => key(x).Some?;
    var hasKey := (x: R) => IsKey(key(x));
    FilterAfterProject(distinctRows, blankToNull, keyNotNull, hasKey);
    FilterKeepsNoDuplicates(distinctRows, hasKey);
    Filter(Project(distinctRows, blankToNull), keyNotNull)
  }

  /** `select(song_cols)`. */
  function SongColumns(c: CatalogRecord): SongRow
  {
    SongRow(c.songId, c.title, c.artistId, c.year, c.duration)
  }

  /** `select(artist_cols)`. */
  function ArtistColumns(c: CatalogRecord): ArtistRow
  {
    ArtistRow(c.artistId, c.artistName, c.artistLocation, c.artistLatitude, c.artistLongitude)
  }

  /** The songs table: whole-row distinct, every `song_id` present and
      non-empty, and holding exactly the song columns of the catalog records
      that have such a `song_id`. */
  function SongsTable(catalog: seq<CatalogRecord>): (r: seq<SongRow>)
    ensures NoDuplicates(r)
    ensures forall row :: row in r ==> IsKey(row.songId)
    ensures forall row :: row in r <==> exists c :: c in catalog && IsKey(c.songId) && SongColumns(c) == row
  {
    KeyedTable(Project(catalog, SongColumns), (s: SongRow) => s.songId, (s: SongRow, k: Option<string>) => s.(songId := k))
  }

  /** The artists table: whole-row distinct, every `artist_id` present and
      non-empty, and holding exactly the artist columns of the catalog
      records that have such an `artist_id`. */
  function ArtistsTable(catalog: seq<CatalogRecord>): (r: seq<ArtistRow>)
    ensures NoDuplicates(r)
    ensures forall row :: row in r ==> IsKey(row.artistId)
    ensures forall row :: row in r <==> exists c :: c in catalog && IsKey(c.artistId) && ArtistColumns(c) == row
  {
    KeyedTable(Project(catalog, ArtistColumns), (a: ArtistRow) => a.artistId, (a: ArtistRow, k: Option<string>) => a.(artistId := k))
  }

  /** Nothing deduplicates by key: two catalog records with one `song_id` and
      different song columns give two songs-table rows with that `song_id`. */
  lemma SongIdMayRepeat(catalog: seq<CatalogRecord>, c1: CatalogRecord, c2: CatalogRecord)
    requires c1 in catalog && c2 in catalog
    requires IsKey(c1.songId) && c1.songId == c2.songId
    requires SongColumns(c1) != SongColumns(c2)
    ensures SongColumns(c1) in SongsTable(catalog) && SongColumns(c2) in SongsTable(catalog)
  {
  }

  /** Likewise for `artist_id` in the artists table. */
  lemma ArtistIdMayRepeat(catalog: seq<CatalogRecord>, c1: CatalogRecord, c2: CatalogRecord)
    requires c1 in catalog && c2 in catalog
    requires IsKey(c1.artistId) && c1.artistId == c2.artistId
    requires ArtistColumns(c1) != ArtistColumns(c2)
    ensures ArtistColumns(c1) in ArtistsTable(catalog) && ArtistColumns(c2) in ArtistsTable(catalog)
  {
  }

  /** The two tables `process_song_data` writes. */
  datatype SongTables = SongTables(songs: seq<SongRow>, artists: seq<ArtistRow>)

  /** `process_song_data` without its reads and writes: both tables carry only
      present, non-empty keys and no duplicate rows. */
  function ProcessSongData(catalog: seq<CatalogRecord>): (r: SongTables)
    ensures NoDuplicates(r.songs) && NoDuplicates(r.artists)
    ensures forall row :: row in r.songs ==> IsKey(row.songId)
    ensures forall row :: row in r.artists ==> IsKey(row.artistId)
    ensures forall c :: c in catalog && IsKey(c.songId) ==> SongColumns(c) in r.songs
    ensures forall c :: c in catalog && IsKey(c.artistId) ==> ArtistColumns(c) in r.artists
  {
    SongTables(SongsTable(catalog), ArtistsTable(catalog))
  }
}
