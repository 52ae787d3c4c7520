/** The account, ingestion and administration write paths as functions from
    the store before to the reply and the store after. A failing statement is
    named by a `Fault` in the `faults` argument; a statement whose outcome the
    code does not check is skipped when its fault is present and otherwise
    takes effect. */
module Writes {
  import opened Options
  import opened Text
  import opened Seqs
  import opened Store
  import MediaFiles

  datatype Fault =
    | DatabaseUnavailable
    | GenreInsertFails
    | TitleInsertFails
    | LinkInsertFails
    | MediaInsertFails
    | ProfileInsertFails
    | ListInsertFails
    | DeactivateFails
    | SubscriptionInsertFails
    | HistoryInsertFails

  /** The `success` and `message` entries of a reply. */
  datatype OpResult = OpResult(success: bool, message: string)

  function Fail(message: string): OpResult { OpResult(false, message) }

  const DatabaseUnavailableMessage := "Database unavailable"

  // ---------------------------------------------------------------------------
  // addGenre

  /** The store with one more genre, numbered after the last. */
  function AppendGenre(s: Store, name: string): (r: Store)
    ensures Valid(s) ==> Valid(r)
    ensures r.genres == s.genres + [Genre(|s.genres| + 1, name)]
  {
    s.(genres := s.genres + [Genre(|s.genres| + 1, name)])
  }

  /** `addGenre`. */
  function AddGenreOn(s: Store, name: string, faults: set<Fault>): (r: (OpResult, Store))
    ensures r.0.success <==>
              DatabaseUnavailable !in faults && !IsQtBlank(name)
              && !GenreExistsCaseless(s, Trim(name)) && GenreInsertFails !in faults
    ensures !r.0.success ==> r.1 == s
    ensures r.0.success ==> r.1 == AppendGenre(s, Trim(name)) && r.0.message == "Genre added"
    ensures DatabaseUnavailable in faults ==> r.0 == Fail(DatabaseUnavailableMessage)
    ensures DatabaseUnavailable !in faults && IsQtBlank(name) ==> r.0 == Fail("Genre name is required")
    ensures DatabaseUnavailable !in faults && !IsQtBlank(name) && GenreExistsCaseless(s, Trim(name)) ==>
              r.0 == Fail("Genre already exists")
    ensures DatabaseUnavailable !in faults && !IsQtBlank(name) && !GenreExistsCaseless(s, Trim(name))
              && GenreInsertFails in faults ==>
              r.0 == Fail("Failed to add genre")
  {
    if DatabaseUnavailable in faults then (Fail(DatabaseUnavailableMessage), s)
    else
      var trimmed := Trim(name);
      if trimmed == [] then (Fail("Genre name is required"), s)
      else if GenreExistsCaseless(s, trimmed) then (Fail("Genre already exists"), s)
      else if GenreInsertFails in faults then (Fail("Failed to add genre"), s)
      else (OpResult(true, "Genre added"), AppendGenre(s, trimmed))
  }

  /** No two genres share a name up to ASCII case. */
  predicate CaselessDistinctGenres(genres: seq<Genre>) {
    forall i, j :: 0 <= i < j < |genres| ==> !SameNameCaseless(genres[i].name, genres[j].name)
  }

  /** `addGenre` keeps the store consistent and never adds a genre whose
      name differs only in case from an existing one. */
  lemma AddGenreKeepsGenresDistinct(s: Store, name: string, faults: set<Fault>)
    requires Valid(s) && CaselessDistinctGenres(s.genres)
    ensures Valid(AddGenreOn(s, name, faults).1)
    ensures CaselessDistinctGenres(AddGenreOn(s, name, faults).1.genres)
  {
    var r := AddGenreOn(s, name, faults);
    if r.0.success {
      var n := |s.genres|;
      var g := r.1.genres;
      forall i, j | 0 <= i < j < |g| ensures !SameNameCaseless(g[i].name, g[j].name) {
        if j == n {
          assert g[i] == s.genres[i];
          assert g[j].name == Trim(name);
        } else {
          assert g[i] == s.genres[i] && g[j] == s.genres[j];
        }
      }
    }
  }

  // ---------------------------------------------------------------------------
  // addMovie

  /** What one media copy sees: whether its target directory is there or
      can be made, the stamp read from the clock for it, and whether the
      copy succeeds. */
  datatype CopyEnv = CopyEnv(dirReady: bool, stamp: string, copyOk: bool)

  /** What the two media copies of `addMovie` see: the project root, the
      regular files that exist, and each copy's own directory, stamp and
      outcome (the video is copied first, then the thumbnail). */
  datatype MediaEnv = MediaEnv(root: string, files: set<string>, video: CopyEnv, thumbnail: CopyEnv)

  function StoredVideo(path: string, env: MediaEnv): string {
    MediaFiles.CopyMediaFile(path, "videos", "video", env.root, env.files,
                             env.video.dirReady, env.video.stamp, env.video.copyOk)
  }

  function StoredThumbnail(path: string, env: MediaEnv): string {
    MediaFiles.CopyMediaFile(path, "images", "thumb", env.root, env.files,
                             env.thumbnail.dirReady, env.thumbnail.stamp, env.thumbnail.copyOk)
  }

  /** The genre `addMovie` files the title under: the first genre with
      exactly that name, else a new genre, else -1 when the insert fails. */
  function ResolveGenre(s: Store, name: string, faults: set<Fault>): (r: (int, Store))
    ensures GenreIdByName(s, name).Some? ==> r == (GenreIdByName(s, name).value, s)
    ensures GenreIdByName(s, name).None? && GenreInsertFails in faults ==> r == (-1, s)
    ensures GenreIdByName(s, name).None? && GenreInsertFails !in faults ==>
              r == (|s.genres| + 1, AppendGenre(s, name))
  {
    match GenreIdByName(s, name)
    case Some(id) => (id, s)
    case None =>
      if GenreInsertFails in faults then (-1, s)
      else (|s.genres| + 1, AppendGenre(s, name))
  }

  /** The row `addMovie` inserts into `titles`. */
  function MovieTitle(id: int, name: string, description: string, runtimeMinutes: int): Title {
    Title(id, "movie", Trim(name), Trim(description), "PG", runtimeMinutes, "#4F46E5")
  }

  /** `addMovie` (the cache reload is the caller's). Only the catalog
      tables change, and a title is appended exactly when the call reports
      success. */
  function AddMovieOn(s: Store, name: string, description: string, genre: string, runtimeMinutes: int,
                      thumbnailPath: string, videoPath: string, env: MediaEnv, faults: set<Fault>)
    : (r: (OpResult, Store))
    ensures r.1.users == s.users && r.1.profiles == s.profiles && r.1.plans == s.plans
    ensures r.1.subscriptions == s.subscriptions && r.1.myList == s.myList && r.1.watchHistory == s.watchHistory
    ensures r.0.success ==> |r.1.titles| == |s.titles| + 1 && r.1.titles[..|s.titles|] == s.titles
    ensures !r.0.success ==> r.1.titles == s.titles
  {
    if DatabaseUnavailable in faults then (Fail(DatabaseUnavailableMessage), s)
    else if IsQtBlank(name) then (Fail("Name is required"), s)
    else if IsQtBlank(genre) then (Fail("Genre is required"), s)
    else
      var resolved := ResolveGenre(s, Trim(genre), faults);
      if TitleInsertFails in faults then (Fail("Failed to insert title"), resolved.1)
      else
        var title := MovieTitle(|resolved.1.titles| + 1, name, description, runtimeMinutes);
        (OpResult(true, "Movie added"), InsertMovie(resolved.1, title, resolved.0, thumbnailPath, videoPath, env, faults))
  }

  /** The writes after the genre is resolved: the title, its genre link
      when there is a genre and the link insert succeeds, and its media row
      unless that insert fails. The last two are not checked. */
  function InsertMovie(s: Store, title: Title, genreId: int, thumbnailPath: string, videoPath: string,
                       env: MediaEnv, faults: set<Fault>): (r: Store)
    ensures r.titles == s.titles + [title]
    ensures genreId > 0 && LinkInsertFails !in faults ==>
              r.titleGenres == s.titleGenres + [TitleGenre(title.id, genreId)]
    ensures !(genreId > 0 && LinkInsertFails !in faults) ==> r.titleGenres == s.titleGenres
    ensures MediaInsertFails !in faults ==>
              r.mediaFiles == s.mediaFiles + [MediaFile(title.id, StoredVideo(videoPath, env),
                                                        StoredThumbnail(thumbnailPath, env))]
    ensures MediaInsertFails in faults ==> r.mediaFiles == s.mediaFiles
    ensures r.users == s.users && r.profiles == s.profiles && r.genres == s.genres && r.plans == s.plans
    ensures r.subscriptions == s.subscriptions && r.myList == s.myList && r.watchHistory == s.watchHistory
  {
    var s1 := s.(titles := s.titles + [title]);
    var s2 := if genreId > 0 && LinkInsertFails !in faults
              then s1.(titleGenres := s1.titleGenres + [TitleGenre(title.id, genreId)]) else s1;
    var media := MediaFile(title.id, StoredVideo(videoPath, env), StoredThumbnail(thumbnailPath, env));
    if MediaInsertFails !in faults then s2.(mediaFiles := s2.mediaFiles + [media]) else s2
  }

  /** Past validation, `addMovie` is the genre resolution followed by the
      title insert and, when that succeeds, the remaining inserts. */
  lemma AddMovieSteps(s: Store, name: string, description: string, genre: string, runtimeMinutes: int,
                      thumbnailPath: string, videoPath: string, env: MediaEnv, faults: set<Fault>)
    requires DatabaseUnavailable !in faults && !IsQtBlank(name) && !IsQtBlank(genre)
    ensures var g := ResolveGenre(s, Trim(genre), faults);
            AddMovieOn(s, name, description, genre, runtimeMinutes, thumbnailPath, videoPath, env, faults)
              == if TitleInsertFails in faults then (Fail("Failed to insert title"), g.1)
                 else (OpResult(true, "Movie added"),
                       InsertMovie(g.1, MovieTitle(|g.1.titles| + 1, name, description, runtimeMinutes), g.0,
                                   thumbnailPath, videoPath, env, faults))
  {
  }

  /** A blank name or genre, or no database, writes nothing. */
  lemma AddMovieValidation(s: Store, name: string, description: string, genre: string, runtimeMinutes: int,
                           thumbnailPath: string, videoPath: string, env: MediaEnv, faults: set<Fault>)
    requires DatabaseUnavailable in faults || IsQtBlank(name) || IsQtBlank(genre)
    ensures var r := AddMovieOn(s, name, description, genre, runtimeMinutes, thumbnailPath, videoPath, env, faults);
            !r.0.success && r.1 == s
    ensures DatabaseUnavailable !in faults && IsQtBlank(name) ==>
              AddMovieOn(s, name, description, genre, runtimeMinutes, thumbnailPath, videoPath, env, faults).0
              == Fail("Name is required")
    ensures DatabaseUnavailable !in faults && !IsQtBlank(name) && IsQtBlank(genre) ==>
              AddMovieOn(s, name, description, genre, runtimeMinutes, thumbnailPath, videoPath, env, faults).0
              == Fail("Genre is required")
  {
  }

  /** The genre resolved for a movie is, in the store after resolution,
      the first genre of that name, unless its insert failed (-1); only a
      new genre is ever added. */
  lemma ResolveGenreFinds(s: Store, name: string, faults: set<Fault>)
    requires Valid(s)
    ensures var g := ResolveGenre(s, name, faults);
            Valid(g.1) && g.1.titles == s.titles && g.1.titleGenres == s.titleGenres
            && (g.0 > 0 <==> GenreIdByName(g.1, name) == Some(g.0))
            && (g.0 <= 0 ==> g.0 == -1 && GenreInsertFails in faults && g.1 == s)
  {
    var g := ResolveGenre(s, name, faults);
    if GenreIdByName(s, name).Some? {
      var i :| 0 <= i < |s.genres| && s.genres[i].name == name && s.genres[i].id == g.0;
    } else if GenreInsertFails !in faults {
      assert g.1.genres[|s.genres|].name == name;
      assert forall k :: 0 <= k < |s.genres| ==> g.1.genres[k] == s.genres[k];
    }
  }

  /** Inserting a title with the next id keeps the store consistent. */
  lemma InsertMovieValid(s: Store, title: Title, genreId: int, thumbnailPath: string, videoPath: string,
                         env: MediaEnv, faults: set<Fault>)
    requires Valid(s) && title.id == |s.titles| + 1
    ensures Valid(InsertMovie(s, title, genreId, thumbnailPath, videoPath, env, faults))
  {
  }

  /** `addMovie` succeeds exactly when the database is there, name and genre
      are not blank and the title insert succeeds; then it resolves the
      genre of that exact name and inserts the title with the next id, the
      link and the media row. */
  lemma AddMovieSucceeds(s: Store, name: string, description: string, genre: string, runtimeMinutes: int,
                         thumbnailPath: string, videoPath: string, env: MediaEnv, faults: set<Fault>)
    ensures var r := AddMovieOn(s, name, description, genre, runtimeMinutes, thumbnailPath, videoPath, env, faults);
            r.0.success <==> (DatabaseUnavailable !in faults && !IsQtBlank(name) && !IsQtBlank(genre)
                              && TitleInsertFails !in faults)
    ensures var r := AddMovieOn(s, name, description, genre, runtimeMinutes, thumbnailPath, videoPath, env, faults);
            r.0.success ==>
              var g := ResolveGenre(s, Trim(genre), faults);
              r.0.message == "Movie added"
              && r.1 == InsertMovie(g.1, MovieTitle(|g.1.titles| + 1, name, description, runtimeMinutes), g.0,
                                    thumbnailPath, videoPath, env, faults)
  {
    var r := AddMovieOn(s, name, description, genre, runtimeMinutes, thumbnailPath, videoPath, env, faults);
    if DatabaseUnavailable in faults || IsQtBlank(name) || IsQtBlank(genre) {
      assert !r.0.success;
    } else {
      var g := ResolveGenre(s, Trim(genre), faults);
      if TitleInsertFails in faults {
        assert r.0 == Fail("Failed to insert title");
      } else {
        var t := MovieTitle(|g.1.titles| + 1, name, description, runtimeMinutes);
        assert r == (OpResult(true, "Movie added"), InsertMovie(g.1, t, g.0, thumbnailPath, videoPath, env, faults));
      }
    }
  }

  /** Every outcome of `addMovie` keeps the store consistent, and after a
      success the title is linked to the genre of its name whenever that
      genre exists and the link insert succeeded. */
  lemma AddMovieKeepsValid(s: Store, name: string, description: string, genre: string, runtimeMinutes: int,
                           thumbnailPath: string, videoPath: string, env: MediaEnv, faults: set<Fault>)
    requires Valid(s)
    ensures var r := AddMovieOn(s, name, description, genre, runtimeMinutes, thumbnailPath, videoPath, env, faults);
            Valid(r.1)
            && (r.0.success && LinkInsertFails !in faults && GenreIdByName(r.1, Trim(genre)).Some? ==>
                  TitleGenre(|s.titles| + 1, GenreIdByName(r.1, Trim(genre)).value) in r.1.titleGenres)
  {
    var r := AddMovieOn(s, name, description, genre, runtimeMinutes, thumbnailPath, videoPath, env, faults);
    AddMovieSucceeds(s, name, description, genre, runtimeMinutes, thumbnailPath, videoPath, env, faults);
    if !(DatabaseUnavailable in faults || IsQtBlank(name) || IsQtBlank(genre)) {
      var g := ResolveGenre(s, Trim(genre), faults);
      ResolveGenreFinds(s, Trim(genre), faults);
      if r.0.success {
        var t := MovieTitle(|g.1.titles| + 1, name, description, runtimeMinutes);
        InsertMovieValid(g.1, t, g.0, thumbnailPath, videoPath, env, faults);
        assert r.1.genres == g.1.genres;
        assert GenreIdByName(r.1, Trim(genre)) == GenreIdByName(g.1, Trim(genre));
        if LinkInsertFails !in faults && GenreIdByName(r.1, Trim(genre)).Some? {
          assert TitleGenre(t.id, g.0) == r.1.titleGenres[|g.1.titleGenres|];
        }
      }
    }
  }

  /** A title insert that fails after the genre was created leaves the new
      genre behind. */
  lemma AddMovieTitleFailureKeepsGenre(s: Store, name: string, description: string, genre: string,
                                       runtimeMinutes: int, thumbnailPath: string, videoPath: string,
                                       env: MediaEnv, faults: set<Fault>)
    requires DatabaseUnavailable !in faults && !IsQtBlank(name) && !IsQtBlank(genre)
    requires TitleInsertFails in faults && GenreInsertFails !in faults
    requires GenreIdByName(s, Trim(genre)).None?
    ensures var r := AddMovieOn(s, name, description, genre, runtimeMinutes, thumbnailPath, videoPath, env, faults);
            r.0 == Fail("Failed to insert title") && r.1 == AppendGenre(s, Trim(genre))
  {
  }

  /** As written, `addMovie` looks the genre up by exact name while
      `addGenre` refuses a name that exists in any case. A genre spelled in
      another case than the stored one is therefore added a second time,
      and the genres are no longer distinct up to case. */
  lemma AddMovieSplitsGenreCase(s: Store, name: string, description: string, genre: string, runtimeMinutes: int,
                                thumbnailPath: string, videoPath: string, env: MediaEnv, faults: set<Fault>)
    requires DatabaseUnavailable !in faults && GenreInsertFails !in faults && TitleInsertFails !in faults
    requires !IsQtBlank(name) && !IsQtBlank(genre)
    requires GenreExistsCaseless(s, Trim(genre)) && GenreIdByName(s, Trim(genre)).None?
    ensures var r := AddMovieOn(s, name, description, genre, runtimeMinutes, thumbnailPath, videoPath, env, faults);
            r.0.success && r.1.genres == s.genres + [Genre(|s.genres| + 1, Trim(genre))]
            && !CaselessDistinctGenres(r.1.genres)
  {
    var n := Trim(genre);
    ResolveGenreSplitsCase(s, n, faults);
    var g := ResolveGenre(s, n, faults);
    assert AddMovieOn(s, name, description, genre, runtimeMinutes, thumbnailPath, videoPath, env, faults).1.genres
           == g.1.genres;
  }

  /** The exact-name lookup misses a genre stored in another case, and the
      genre it adds duplicates that one up to case. */
  lemma ResolveGenreSplitsCase(s: Store, name: string, faults: set<Fault>)
    requires GenreInsertFails !in faults
    requires GenreExistsCaseless(s, name) && GenreIdByName(s, name).None?
    ensures ResolveGenre(s, name, faults).1.genres == s.genres + [Genre(|s.genres| + 1, name)]
    ensures !CaselessDistinctGenres(ResolveGenre(s, name, faults).1.genres)
  {
    var g := ResolveGenre(s, name, faults).1.genres;
    var i :| 0 <= i < |s.genres| && SameNameCaseless(s.genres[i].name, name);
    assert g[i] == s.genres[i] && g[|s.genres|].name == name;
  }

  /** The store holds just the genre "Drama"; a movie filed under "drama"
      creates the genre "drama" beside it. */
  lemma DramaFiledTwice(s: Store, name: string, genre: string, env: MediaEnv)
    requires s.genres == [Genre(1, "Drama")] && name == "Film" && genre == "drama"
    ensures CaselessDistinctGenres(s.genres)
    ensures AddMovieOn(s, name, "", genre, 90, "", "", env, {}).1.genres == s.genres + [Genre(2, genre)]
    ensures !CaselessDistinctGenres(AddMovieOn(s, name, "", genre, 90, "", "", env, {}).1.genres)
  {
    DramaInputs(s, name, genre);
    AddMovieSplitsGenreCase(s, name, "", genre, 90, "", "", env, {});
    var g := AddMovieOn(s, name, "", genre, 90, "", "", env, {}).1.genres;
    assert Genre(|s.genres| + 1, Trim(genre)) == Genre(2, genre);
    assert !CaselessDistinctGenres(g);
  }

  /** On the same input the corrected `addMovie` files the movie under the
      stored "Drama" and adds no genre. */
  lemma DramaFiledOnce(s: Store, name: string, genre: string, env: MediaEnv)
    requires s.genres == [Genre(1, "Drama")] && name == "Film" && genre == "drama"
    ensures AddMovieCaseless(s, name, "", genre, 90, "", "", env, {}).1.genres == s.genres
    ensures AddMovieCaseless(s, name, "", genre, 90, "", "", env, {}).0.success
  {
    DramaInputs(s, name, genre);
  }

  /** The facts about the inputs of `DramaFiledTwice`. */
  lemma DramaInputs(s: Store, name: string, genre: string)
    requires s.genres == [Genre(1, "Drama")] && name == "Film" && genre == "drama"
    ensures CaselessDistinctGenres(s.genres)
    ensures !IsQtBlank(name) && !IsQtBlank(genre) && Trim(genre) == genre
    ensures GenreExistsCaseless(s, genre) && GenreIdByName(s, genre).None?
  {
    assert name[0] == 'F' && !IsQtSpace('F');
    assert genre[0] == 'd' && !IsQtSpace('d');
    assert genre[4] == 'a' && !IsQtSpace('a');
    TrimUnpadded(genre);
    assert SqlLower(s.genres[0].name) == genre;
    assert SameNameCaseless(s.genres[0].name, genre);
    assert s.genres[0].name[0] != genre[0];
  }

  /** The lookup `addMovie` evidently intends, the one `addGenre` makes: by
      name up to ASCII case. A genre is added only when no genre has the
      name in any case. */
  function ResolveGenreCaseless(s: Store, name: string, faults: set<Fault>): (r: (int, Store))
    ensures GenreExistsCaseless(s, name) ==>
              r.1 == s && exists i :: 0 <= i < |s.genres| && SameNameCaseless(s.genres[i].name, name)
                                      && s.genres[i].id == r.0
    ensures !GenreExistsCaseless(s, name) && GenreInsertFails in faults ==> r == (-1, s)
    ensures !GenreExistsCaseless(s, name) && GenreInsertFails !in faults ==>
              r == (|s.genres| + 1, AppendGenre(s, name))
  {
    match GenreIdCaseless(s, name)
    case Some(id) => (id, s)
    case None =>
      if GenreInsertFails in faults then (-1, s)
      else (|s.genres| + 1, AppendGenre(s, name))
  }

  /** `addMovie` with the corrected genre lookup and otherwise the same
      steps. The genres grow only by a name new in every case. */
  function AddMovieCaseless(s: Store, name: string, description: string, genre: string, runtimeMinutes: int,
                            thumbnailPath: string, videoPath: string, env: MediaEnv, faults: set<Fault>)
    : (r: (OpResult, Store))
    ensures r.1.genres == s.genres
            || (r.1.genres == s.genres + [Genre(|s.genres| + 1, Trim(genre))] && !GenreExistsCaseless(s, Trim(genre)))
    ensures r.0.success <==> (DatabaseUnavailable !in faults && !IsQtBlank(name) && !IsQtBlank(genre)
                              && TitleInsertFails !in faults)
  {
    if DatabaseUnavailable in faults then (Fail(DatabaseUnavailableMessage), s)
    else if IsQtBlank(name) then (Fail("Name is required"), s)
    else if IsQtBlank(genre) then (Fail("Genre is required"), s)
    else
      var n := Trim(genre);
      var resolved := ResolveGenreCaseless(s, n, faults);
      assert resolved.1.genres == s.genres
             || (resolved.1.genres == s.genres + [Genre(|s.genres| + 1, n)] && !GenreExistsCaseless(s, n));
      if TitleInsertFails in faults then (Fail("Failed to insert title"), resolved.1)
      else
        var title := MovieTitle(|resolved.1.titles| + 1, name, description, runtimeMinutes);
        (OpResult(true, "Movie added"), InsertMovie(resolved.1, title, resolved.0, thumbnailPath, videoPath, env, faults))
  }

  /** With the corrected lookup, `addMovie` keeps genre names distinct up to
      case, as `addGenre` does. */
  lemma AddMovieCaselessKeepsGenresDistinct(s: Store, name: string, description: string, genre: string,
                                            runtimeMinutes: int, thumbnailPath: string, videoPath: string,
                                            env: MediaEnv, faults: set<Fault>)
    requires CaselessDistinctGenres(s.genres)
    ensures CaselessDistinctGenres(
              AddMovieCaseless(s, name, description, genre, runtimeMinutes, thumbnailPath, videoPath, env, faults).1.genres)
  {
    var g := AddMovieCaseless(s, name, description, genre, runtimeMinutes, thumbnailPath, videoPath, env, faults).1.genres;
    if g != s.genres {
      var n := |s.genres|;
      forall i, j | 0 <= i < j < |g| ensures !SameNameCaseless(g[i].name, g[j].name) {
        if j == n {
          assert g[i] == s.genres[i];
          assert g[j].name == Trim(genre);
        } else {
          assert g[i] == s.genres[i] && g[j] == s.genres[j];
        }
      }
    }
  }

  /** The correction changes nothing when the genre is given as stored or
      is new in every case. */
  lemma ResolveGenreCaselessAgrees(s: Store, name: string, faults: set<Fault>)
    requires CaselessDistinctGenres(s.genres)
    requires GenreIdByName(s, name).Some? || !GenreExistsCaseless(s, name)
    ensures ResolveGenreCaseless(s, name, faults) == ResolveGenre(s, name, faults)
  {
    if GenreIdByName(s, name).Some? {
      var i :| 0 <= i < |s.genres| && s.genres[i].name == name && s.genres[i].id == GenreIdByName(s, name).value;
      var r := ResolveGenreCaseless(s, name, faults);
      var j :| 0 <= j < |s.genres| && SameNameCaseless(s.genres[j].name, name) && s.genres[j].id == r.0;
      assert SameNameCaseless(s.genres[i].name, s.genres[j].name);
      assert i == j;
    }
  }

  /** Hence the corrected `addMovie` is the written one on every such
      input. */
  lemma AddMovieCaselessAgrees(s: Store, name: string, description: string, genre: string, runtimeMinutes: int,
                               thumbnailPath: string, videoPath: string, env: MediaEnv, faults: set<Fault>)
    requires CaselessDistinctGenres(s.genres)
    requires GenreIdByName(s, Trim(genre)).Some? || !GenreExistsCaseless(s, Trim(genre))
    ensures AddMovieCaseless(s, name, description, genre, runtimeMinutes, thumbnailPath, videoPath, env, faults)
            == AddMovieOn(s, name, description, genre, runtimeMinutes, thumbnailPath, videoPath, env, faults)
  {
    ResolveGenreCaselessAgrees(s, Trim(genre), faults);
  }

  // ---------------------------------------------------------------------------
  // Profiles

  /** The profile created lazily for a user without one. */
  function DefaultProfile(id: int, userId: int): Profile {
    Profile(id, userId, "Profile 1", "", false)
  }

  /** The user's oldest profile, else a new default one; None when that
      insert fails. */
  function ResolveProfile(s: Store, userId: int, faults: set<Fault>): (r: Option<(int, Store)>)
    ensures OldestProfileId(s, userId).Some? ==> r == Some((OldestProfileId(s, userId).value, s))
    ensures OldestProfileId(s, userId).None? && ProfileInsertFails in faults ==> r.None?
    ensures OldestProfileId(s, userId).None? && ProfileInsertFails !in faults ==>
              r == Some((|s.profiles| + 1,
                         s.(profiles := s.profiles + [DefaultProfile(|s.profiles| + 1, userId)])))
  {
    match OldestProfileId(s, userId)
    case Some(id) => Some((id, s))
    case None =>
      if ProfileInsertFails in faults then None
      else
        var id := |s.profiles| + 1;
        Some((id, s.(profiles := s.profiles + [DefaultProfile(id, userId)])))
  }

  /** Resolution hands back the user's oldest profile in the resulting store,
      adds at most one profile (a default one, and only when the user had
      none), keeps the store consistent, and resolving again changes
      nothing. */
  lemma ResolveProfileSettles(s: Store, userId: int, faults: set<Fault>)
    requires Valid(s)
    requires ResolveProfile(s, userId, faults).Some?
    ensures var r := ResolveProfile(s, userId, faults).value;
            OldestProfileId(r.1, userId) == Some(r.0)
            && ResolveProfile(r.1, userId, faults) == Some(r)
            && Valid(r.1)
            && (r.1 == s || (OldestProfileId(s, userId).None?
                             && r.1.profiles == s.profiles + [DefaultProfile(r.0, userId)]))
  {
    var r := ResolveProfile(s, userId, faults).value;
    if OldestProfileId(s, userId).None? {
      var n := |s.profiles|;
      assert r.1.profiles[n].userId == userId;
      assert forall k :: 0 <= k < n ==> r.1.profiles[k] == s.profiles[k];
      var hit := FirstIndex(r.1.profiles, (p: Profile) => p.userId == userId);
      assert hit == Some(n);
    }
  }

  // ---------------------------------------------------------------------------
  // addToMyList

  /** `addToMyList`. Only profiles and the list change, and the list grows
      by one entry exactly when the call reports success. */
  function AddToMyListOn(s: Store, identifier: string, title: string, faults: set<Fault>): (r: (OpResult, Store))
    ensures r.1 == s.(profiles := r.1.profiles, myList := r.1.myList)
    ensures r.0.success ==> |r.1.myList| == |s.myList| + 1 && r.1.myList[..|s.myList|] == s.myList
    ensures !r.0.success ==> r.1.myList == s.myList
  {
    if DatabaseUnavailable in faults then (Fail(DatabaseUnavailableMessage), s)
    else if IsQtBlank(identifier) || IsQtBlank(title) then (Fail("User and title are required"), s)
    else match UserIdByEmail(s, Trim(identifier))
      case None => (Fail("User not found"), s)
      case Some(userId) => AddToMyListFor(s, userId, Trim(title), faults)
  }

  /** `addToMyList` once the user is known: resolve the profile, then the
      title, then save the pair. */
  function AddToMyListFor(s: Store, userId: int, title: string, faults: set<Fault>): (r: (OpResult, Store))
    ensures r.1 == s.(profiles := r.1.profiles, myList := r.1.myList)
    ensures r.0.success ==> |r.1.myList| == |s.myList| + 1 && r.1.myList[..|s.myList|] == s.myList
    ensures !r.0.success ==> r.1.myList == s.myList
  {
    match ResolveProfile(s, userId, faults)
    case None => (Fail("Failed to create profile"), s)
    case Some(resolved) =>
      match NewestTitleIdByName(resolved.1, title)
      case None => (Fail("Title not found"), resolved.1)
      case Some(titleId) => SavePair(resolved.1, resolved.0, titleId, faults)
  }

  /** The existence check and the insert of a (profile, title) pair. */
  function SavePair(s: Store, profileId: int, titleId: int, faults: set<Fault>): (r: (OpResult, Store))
    ensures r.0.success <==> !InMyList(s, profileId, titleId) && ListInsertFails !in faults
    ensures InMyList(s, profileId, titleId) ==> r == (Fail("Already in My List"), s)
    ensures !r.0.success ==> r.1 == s
    ensures r.0.success ==> r.1 == s.(myList := s.myList + [MyListEntry(profileId, titleId)])
    ensures Valid(s) ==> Valid(r.1)
  {
    if InMyList(s, profileId, titleId) then (Fail("Already in My List"), s)
    else if ListInsertFails in faults then (Fail("Failed to add to My List"), s)
    else
      var l := s.myList + [MyListEntry(profileId, titleId)];
      assert UniqueListPairs(s.myList) ==> UniqueListPairs(l) by {
        if UniqueListPairs(s.myList) {
          forall i, j | 0 <= i < j < |l| ensures l[i] != l[j] {
            if j == |s.myList| {
              assert l[i] == s.myList[i];
            } else {
              assert l[i] == s.myList[i] && l[j] == s.myList[j];
            }
          }
        }
      }
      (OpResult(true, "Added to My List"), s.(myList := l))
  }

  /** Lookups by email see only the users table. */
  lemma UserLookupIgnoresRest(a: Store, b: Store, email: string)
    requires a.users == b.users
    ensures UserIdByEmail(a, email) == UserIdByEmail(b, email)
  {
  }

  /** Lookups by name see only the titles table. */
  lemma TitleLookupIgnoresRest(a: Store, b: Store, name: string)
    requires a.titles == b.titles
    ensures NewestTitleIdByName(a, name) == NewestTitleIdByName(b, name)
  {
  }

  /** Once the user is known, the only writes are the lazy profile and,
      on success, exactly one new pair, which was not saved before; the
      store stays consistent, so no pair is ever saved twice. */
  lemma AddToMyListForEffects(s: Store, userId: int, title: string, faults: set<Fault>)
    requires Valid(s)
    ensures var r := AddToMyListFor(s, userId, title, faults);
            Valid(r.1) && r.1.users == s.users && r.1.titles == s.titles
    ensures var r := AddToMyListFor(s, userId, title, faults);
            !r.0.success ==> r.1.myList == s.myList
    ensures var r := AddToMyListFor(s, userId, title, faults);
            r.0.success <==> (ResolveProfile(s, userId, faults).Some?
                              && NewestTitleIdByName(s, title).Some?
                              && !InMyList(s, ResolveProfile(s, userId, faults).value.0,
                                           NewestTitleIdByName(s, title).value)
                              && ListInsertFails !in faults)
    ensures var r := AddToMyListFor(s, userId, title, faults);
            r.0.success ==>
              var p := ResolveProfile(s, userId, faults).value;
              r.1 == p.1.(myList := s.myList + [MyListEntry(p.0, NewestTitleIdByName(s, title).value)])
  {
    var p := ResolveProfile(s, userId, faults);
    if p.Some? {
      ResolveProfileSettles(s, userId, faults);
      TitleLookupIgnoresRest(s, p.value.1, title);
      assert p.value.1.myList == s.myList;
    }
  }

  /** Blank input, no database or an unknown user writes nothing; otherwise
      the effects are those of `AddToMyListFor`. */
  lemma AddToMyListEffects(s: Store, identifier: string, title: string, faults: set<Fault>)
    requires Valid(s)
    ensures var r := AddToMyListOn(s, identifier, title, faults);
            Valid(r.1) && UniqueListPairs(r.1.myList)
    ensures (DatabaseUnavailable in faults || IsQtBlank(identifier) || IsQtBlank(title)
             || UserIdByEmail(s, Trim(identifier)).None?) ==>
              AddToMyListOn(s, identifier, title, faults).1 == s
              && !AddToMyListOn(s, identifier, title, faults).0.success
    ensures (DatabaseUnavailable !in faults && !IsQtBlank(identifier) && !IsQtBlank(title)
             && UserIdByEmail(s, Trim(identifier)).Some?) ==>
              AddToMyListOn(s, identifier, title, faults)
                == AddToMyListFor(s, UserIdByEmail(s, Trim(identifier)).value, Trim(title), faults)
  {
    if !(DatabaseUnavailable in faults || IsQtBlank(identifier) || IsQtBlank(title)) {
      var userId := UserIdByEmail(s, Trim(identifier));
      if userId.Some? {
        AddToMyListForEffects(s, userId.value, Trim(title), faults);
      }
    }
  }

  /** A second identical request after a successful one is refused with
      "Already in My List" and changes nothing: two calls leave exactly one
      row for the pair. */
  lemma AddToMyListTwice(s: Store, identifier: string, title: string, faults: set<Fault>)
    requires Valid(s)
    requires AddToMyListOn(s, identifier, title, faults).0.success
    ensures var s1 := AddToMyListOn(s, identifier, title, faults).1;
            AddToMyListOn(s1, identifier, title, faults) == (Fail("Already in My List"), s1)
  {
    AddToMyListEffects(s, identifier, title, faults);
    var userId := UserIdByEmail(s, Trim(identifier)).value;
    var t := Trim(title);
    AddToMyListForEffects(s, userId, t, faults);
    ResolveProfileSettles(s, userId, faults);
    var p := ResolveProfile(s, userId, faults).value;
    var titleId := NewestTitleIdByName(s, t).value;
    var s1 := AddToMyListOn(s, identifier, title, faults).1;
    assert s1 == p.1.(myList := s.myList + [MyListEntry(p.0, titleId)]);
    UserLookupIgnoresRest(s, s1, Trim(identifier));
    TitleLookupIgnoresRest(s, s1, t);
    assert s1.profiles == p.1.profiles;
    assert OldestProfileId(s1, userId) == OldestProfileId(p.1, userId);
    assert ResolveProfile(s1, userId, faults) == Some((p.0, s1));
    assert InMyList(s1, p.0, titleId) by {
      assert MyListEntry(p.0, titleId) == s1.myList[|s.myList|];
    }
    AddAgainFails(s1, userId, t, faults, p.0, titleId);
  }

  /** Once the profile resolves without change and the pair is stored, the
      save step turns the call down and leaves the store as it was. */
  lemma AddAgainFails(s: Store, userId: int, title: string, faults: set<Fault>, profileId: int, titleId: int)
    requires ResolveProfile(s, userId, faults) == Some((profileId, s))
    requires NewestTitleIdByName(s, title) == Some(titleId)
    requires InMyList(s, profileId, titleId)
    ensures AddToMyListFor(s, userId, title, faults) == (Fail("Already in My List"), s)
  {
  }

  // ---------------------------------------------------------------------------
  // subscribePlan

  /** `UPDATE user_subscriptions SET is_active = 0 WHERE user_id = ?`. */
  function Deactivate(subs: seq<Subscription>, userId: int): (r: seq<Subscription>)
    ensures |r| == |subs|
    ensures forall k :: 0 <= k < |subs| ==>
              r[k] == (if subs[k].userId == userId then subs[k].(isActive := false) else subs[k])
  {
    seq(|subs|, k requires 0 <= k < |subs| =>
      if subs[k].userId == userId then subs[k].(isActive := false) else subs[k])
  }

  /** The length of a subscription: the plan's days, or 30 when the plan
      has none. */
  function SubscriptionDays(plan: Plan): (r: int)
    ensures r > 0
    ensures plan.durationDays > 0 ==> r == plan.durationDays
  {
    if plan.durationDays > 0 then plan.durationDays else 30
  }

  /** `subscribePlan`, dates as day numbers with `today` the current date. */
  function SubscribePlanOn(s: Store, identifier: string, planId: int, today: int, faults: set<Fault>)
    : (r: (OpResult, Store))
    ensures r.1.users == s.users && r.1.profiles == s.profiles && r.1.titles == s.titles && r.1.plans == s.plans
    ensures r.1.myList == s.myList && r.1.watchHistory == s.watchHistory
    ensures |r.1.subscriptions| == |s.subscriptions| + (if r.0.success then 1 else 0)
    ensures r.0.success ==> r.1.subscriptions[|s.subscriptions|].isActive
  {
    if DatabaseUnavailable in faults then (Fail(DatabaseUnavailableMessage), s)
    else if IsQtBlank(identifier) || planId <= 0 then (Fail("User and plan are required"), s)
    else match UserIdByEmail(s, Trim(identifier))
      case None => (Fail("User not found"), s)
      case Some(userId) =>
        match PlanById(s, planId)
        case None => (Fail("Plan not found"), s)
        case Some(plan) => SubscribeTo(s, userId, plan, today, faults)
  }

  /** The row a successful subscription inserts: the next id, active, from
      today for the plan's days. */
  function NewSubscription(s: Store, userId: int, plan: Plan, today: int): Subscription {
    Subscription(|s.subscriptions| + 1, userId, plan.id, today, today + SubscriptionDays(plan), true)
  }

  /** The writes once user and plan are found: the unchecked deactivation
      of the user's subscriptions, then the insert. */
  function SubscribeTo(s: Store, userId: int, plan: Plan, today: int, faults: set<Fault>): (r: (OpResult, Store))
    ensures r.0.success <==> SubscriptionInsertFails !in faults
    ensures r.1.users == s.users && r.1.profiles == s.profiles && r.1.titles == s.titles && r.1.plans == s.plans
    ensures r.1.myList == s.myList && r.1.watchHistory == s.watchHistory
    ensures |r.1.subscriptions| == |s.subscriptions| + (if r.0.success then 1 else 0)
    ensures r.0.success ==> r.1.subscriptions[|s.subscriptions|].isActive
  {
    InsertSubscription(DeactivateStep(s, userId, faults), userId, plan, today, faults)
  }

  /** The `UPDATE ... SET is_active = 0` whose outcome is not checked. */
  function DeactivateStep(s: Store, userId: int, faults: set<Fault>): (r: Store)
    ensures r == s.(subscriptions := r.subscriptions) && |r.subscriptions| == |s.subscriptions|
  {
    if DeactivateFails in faults then s
    else s.(subscriptions := Deactivate(s.subscriptions, userId))
  }

  /** The insert of the new row. */
  function InsertSubscription(s: Store, userId: int, plan: Plan, today: int, faults: set<Fault>)
    : (OpResult, Store)
  {
    if SubscriptionInsertFails in faults then (Fail("Failed to subscribe"), s)
    else (OpResult(true, "Subscription activated"),
          s.(subscriptions := s.subscriptions + [NewSubscription(s, userId, plan, today)]))
  }

  /** Invalid input, an unknown user or an unknown plan writes nothing;
      otherwise the effects are those of `SubscribeTo`. */
  lemma SubscribeSteps(s: Store, identifier: string, planId: int, today: int, faults: set<Fault>)
    ensures (DatabaseUnavailable in faults || IsQtBlank(identifier) || planId <= 0
             || UserIdByEmail(s, Trim(identifier)).None? || PlanById(s, planId).None?) ==>
              SubscribePlanOn(s, identifier, planId, today, faults).1 == s
              && !SubscribePlanOn(s, identifier, planId, today, faults).0.success
    ensures (DatabaseUnavailable !in faults && !IsQtBlank(identifier) && planId > 0
             && UserIdByEmail(s, Trim(identifier)).Some? && PlanById(s, planId).Some?) ==>
              SubscribePlanOn(s, identifier, planId, today, faults)
                == SubscribeTo(s, UserIdByEmail(s, Trim(identifier)).value, PlanById(s, planId).value, today, faults)
              && PlanById(s, planId).value.id == planId
  {
  }

  lemma DeactivateLeavesNoneActive(subs: seq<Subscription>, userId: int)
    ensures forall k :: 0 <= k < |Deactivate(subs, userId)| ==>
              !(Deactivate(subs, userId)[k].userId == userId && Deactivate(subs, userId)[k].isActive)
  {
  }

  /** With the deactivation in effect, a successful subscription leaves the
      new row as the user's only active subscription. */
  lemma SubscribeLeavesOneActive(s: Store, userId: int, plan: Plan, today: int, faults: set<Fault>)
    requires DeactivateFails !in faults && SubscriptionInsertFails !in faults
    ensures ActiveSubscriptions(SubscribeTo(s, userId, plan, today, faults).1, userId)
              == [NewSubscription(s, userId, plan, today)]
  {
    var subs := Deactivate(s.subscriptions, userId);
    var p := (u: Subscription) => u.userId == userId && u.isActive;
    var sub := NewSubscription(s, userId, plan, today);
    assert SubscribeTo(s, userId, plan, today, faults).1.subscriptions == subs + [sub];
    DeactivateLeavesNoneActive(s.subscriptions, userId);
    FilterNone(subs, p);
    FilterAppend(subs, sub, p);
  }

  /** With the deactivation in effect but the insert failing, the user is
      left with no active subscription at all. */
  lemma SubscribeInsertFailureLeavesNone(s: Store, userId: int, plan: Plan, today: int, faults: set<Fault>)
    requires DeactivateFails !in faults && SubscriptionInsertFails in faults
    ensures SubscribeTo(s, userId, plan, today, faults).0 == Fail("Failed to subscribe")
    ensures ActiveSubscriptions(SubscribeTo(s, userId, plan, today, faults).1, userId) == []
  {
    var subs := Deactivate(s.subscriptions, userId);
    assert SubscribeTo(s, userId, plan, today, faults).1.subscriptions == subs;
    DeactivateLeavesNoneActive(s.subscriptions, userId);
    FilterNone(subs, (u: Subscription) => u.userId == userId && u.isActive);
  }

  /** The deactivation is not checked: when it fails, the new active row is
      added next to the old ones. */
  lemma SubscribeUncheckedDeactivate(s: Store, userId: int, plan: Plan, today: int, faults: set<Fault>)
    requires DeactivateFails in faults && SubscriptionInsertFails !in faults
    ensures ActiveSubscriptions(SubscribeTo(s, userId, plan, today, faults).1, userId)
              == ActiveSubscriptions(s, userId) + [NewSubscription(s, userId, plan, today)]
  {
    var sub := NewSubscription(s, userId, plan, today);
    assert SubscribeTo(s, userId, plan, today, faults).1.subscriptions == s.subscriptions + [sub];
    FilterAppend(s.subscriptions, sub, (u: Subscription) => u.userId == userId && u.isActive);
  }

  /** Subscribing writes only the subscriptions table, keeps the store
      consistent, and a success ends `today` plus the plan's days later
      (30 when the plan has none). */
  lemma SubscribeToEffects(s: Store, userId: int, plan: Plan, today: int, faults: set<Fault>)
    requires Valid(s)
    ensures var r := SubscribeTo(s, userId, plan, today, faults).1;
            Valid(r) && r == s.(subscriptions := r.subscriptions)
            && |r.subscriptions| == |s.subscriptions| + (if SubscriptionInsertFails in faults then 0 else 1)
    ensures var r := SubscribeTo(s, userId, plan, today, faults).1;
            SubscriptionInsertFails !in faults ==>
              var last := r.subscriptions[|s.subscriptions|];
              last.userId == userId && last.planId == plan.id && last.isActive && last.startDate == today
              && last.endDate == today + (if plan.durationDays > 0 then plan.durationDays else 30)
  {
    var r := SubscribeTo(s, userId, plan, today, faults).1;
    var s1 := DeactivateStep(s, userId, faults);
    assert SubscriptionIds(s1.subscriptions);
    if SubscriptionInsertFails !in faults {
      assert r.subscriptions == s1.subscriptions + [NewSubscription(s1, userId, plan, today)];
    }
  }

  // ---------------------------------------------------------------------------
  // logPlayback

  /** `logPlayback`: the store after the call. */
  function LogPlaybackOn(s: Store, identifier: string, title: string, positionSec: int, finished: bool,
                         faults: set<Fault>): (r: Store)
    ensures r == s.(profiles := r.profiles, watchHistory := r.watchHistory)
    ensures |s.watchHistory| <= |r.watchHistory| <= |s.watchHistory| + 1
    ensures r.watchHistory[..|s.watchHistory|] == s.watchHistory
  {
    if DatabaseUnavailable in faults || IsQtBlank(identifier) || IsQtBlank(title) then s
    else match UserIdByEmail(s, Trim(identifier))
      case None => s
      case Some(userId) => LogPlaybackFor(s, userId, Trim(title), positionSec, finished, faults)
  }

  /** `logPlayback` once the user is known: the profile, then the row. */
  function LogPlaybackFor(s: Store, userId: int, title: string, positionSec: int, finished: bool,
                          faults: set<Fault>): (r: Store)
    ensures r == s.(profiles := r.profiles, watchHistory := r.watchHistory)
    ensures |s.watchHistory| <= |r.watchHistory| <= |s.watchHistory| + 1
    ensures r.watchHistory[..|s.watchHistory|] == s.watchHistory
  {
    match ResolveProfile(s, userId, faults)
    case None => s
    case Some(resolved) => SaveWatch(resolved.1, resolved.0, title, positionSec, finished, faults)
  }

  /** The title lookup and the history insert for a known profile. */
  function SaveWatch(s: Store, profileId: int, title: string, positionSec: int, finished: bool,
                     faults: set<Fault>): (r: Store)
    ensures r == s.(watchHistory := r.watchHistory)
    ensures |s.watchHistory| <= |r.watchHistory| <= |s.watchHistory| + 1
    ensures r.watchHistory[..|s.watchHistory|] == s.watchHistory
  {
    match NewestTitleIdByName(s, title)
    case None => s
    case Some(titleId) =>
      if HistoryInsertFails in faults then s
      else s.(watchHistory := s.watchHistory + [WatchEntry(profileId, titleId, positionSec, finished)])
  }

  /** Saving a row touches only the history, keeps the store consistent,
      and appends the one row exactly when the title is found and the
      insert succeeds. */
  lemma SaveWatchEffects(s: Store, profileId: int, title: string, positionSec: int, finished: bool,
                         faults: set<Fault>)
    requires Valid(s)
    ensures var r := SaveWatch(s, profileId, title, positionSec, finished, faults);
            Valid(r) && r == s.(watchHistory := r.watchHistory)
    ensures var r := SaveWatch(s, profileId, title, positionSec, finished, faults);
            r.watchHistory
              == s.watchHistory
                 + (if NewestTitleIdByName(s, title).Some? && HistoryInsertFails !in faults
                    then [WatchEntry(profileId, NewestTitleIdByName(s, title).value, positionSec, finished)]
                    else [])
  {
  }

  /** Once the user is known, the only writes are the lazy profile and at
      most one history row, for the user's oldest profile. */
  lemma LogPlaybackForEffects(s: Store, userId: int, title: string, positionSec: int, finished: bool,
                              faults: set<Fault>)
    requires Valid(s)
    ensures var r := LogPlaybackFor(s, userId, title, positionSec, finished, faults);
            Valid(r) && r.users == s.users && r.titles == s.titles && r.myList == s.myList
            && r.subscriptions == s.subscriptions && |r.watchHistory| <= |s.watchHistory| + 1
    ensures var r := LogPlaybackFor(s, userId, title, positionSec, finished, faults);
            ResolveProfile(s, userId, faults).Some? && NewestTitleIdByName(s, title).Some?
            && HistoryInsertFails !in faults ==>
              var p := ResolveProfile(s, userId, faults).value;
              r.watchHistory == s.watchHistory + [WatchEntry(p.0, NewestTitleIdByName(s, title).value, positionSec, finished)]
              && OldestProfileId(r, userId) == Some(p.0)
  {
    var p := ResolveProfile(s, userId, faults);
    if p.Some? {
      ResolveProfileSettles(s, userId, faults);
      TitleLookupIgnoresRest(s, p.value.1, title);
      SaveWatchEffects(p.value.1, p.value.0, title, positionSec, finished, faults);
    }
  }

  /** Blank input or an unknown user changes nothing; once user, profile and
      title are found, exactly one history row with the given position and
      flag is appended for the user's oldest profile; nothing but the lazy
      profile and that row is ever written. */
  lemma LogPlaybackEffects(s: Store, identifier: string, title: string, positionSec: int, finished: bool,
                           faults: set<Fault>)
    requires Valid(s)
    ensures DatabaseUnavailable in faults || IsQtBlank(identifier) || IsQtBlank(title)
            || UserIdByEmail(s, Trim(identifier)).None? ==>
              LogPlaybackOn(s, identifier, title, positionSec, finished, faults) == s
    ensures var r := LogPlaybackOn(s, identifier, title, positionSec, finished, faults);
            DatabaseUnavailable !in faults && !IsQtBlank(identifier) && !IsQtBlank(title)
            && UserIdByEmail(s, Trim(identifier)).Some?
            && ResolveProfile(s, UserIdByEmail(s, Trim(identifier)).value, faults).Some?
            && NewestTitleIdByName(s, Trim(title)).Some? && HistoryInsertFails !in faults ==>
              var p := ResolveProfile(s, UserIdByEmail(s, Trim(identifier)).value, faults).value;
              r.watchHistory == s.watchHistory
                                + [WatchEntry(p.0, NewestTitleIdByName(s, Trim(title)).value, positionSec, finished)]
              && OldestProfileId(r, UserIdByEmail(s, Trim(identifier)).value) == Some(p.0)
    ensures var r := LogPlaybackOn(s, identifier, title, positionSec, finished, faults);
            Valid(r) && r.users == s.users && r.titles == s.titles && r.myList == s.myList
            && r.subscriptions == s.subscriptions && |r.watchHistory| <= |s.watchHistory| + 1
  {
    if !(DatabaseUnavailable in faults || IsQtBlank(identifier) || IsQtBlank(title)) {
      var userId := UserIdByEmail(s, Trim(identifier));
      if userId.Some? {
        LogPlaybackForEffects(s, userId.value, Trim(title), positionSec, finished, faults);
      }
    }
  }

  // ---------------------------------------------------------------------------
  // Backend::authenticate

  /** The role `Backend::authenticate` reports: the service's, or "user"
      when the service gave none. */
  function ReportedRole(role: string): (r: string)
    ensures r != []
    ensures role != [] ==> r == role
    ensures role == [] ==> r == "user"
  {
    if role == [] then "user" else role
  }
}
