/** The QML-facing `Backend`: the catalog cache over the SQL provider, the
    authentication service over its repository, and the account and
    administration requests, all over one store that its methods update in
    place. Each request opens its own connection; whether that succeeds and
    which write statements fail are the `faults` argument. */
module App {
  import opened Options
  import opened Text
  import opened Seqs
  import opened Store
  import opened Catalog
  import SqlProvider
  import AuthRepository
  import Auth
  import Writes
  import Pages = UserProfile

  /** What `Backend::authenticate` hands to QML. */
  datatype AuthReply = AuthReply(success: bool, message: string, role: string)

  /** The administrator account the repository seeds. */
  const AdminPassword := "admin1234"

  /** The store after the repository's constructor seeds the administrator. */
  function SeededStore(db: Store, repoOpen: bool, adminInsertOk: bool): Store {
    var repo := AuthRepository.EnsureAdminUser(AuthRepository.Repository(repoOpen, db.users),
                                               AuthRepository.AdminIdentifier, AdminPassword, adminInsertOk).1;
    db.(users := repo.users)
  }

  /** `Backend::authenticate`: the service's answer over the repository's
      users, with an empty role reported as "user". */
  function AuthenticateOn(db: Store, repoOpen: bool, mode: string, role: string, identifier: string,
                          password: string, confirmPassword: string, insertOk: bool): (r: (AuthReply, Store))
    ensures r.0.role != []
  {
    var answer := Auth.Authenticate(mode, role, identifier, password, confirmPassword,
                                    Some(AuthRepository.Repository(repoOpen, db.users)), insertOk);
    (AuthReply(answer.0.success, answer.0.message, Writes.ReportedRole(answer.0.role)),
     db.(users := answer.1.value.users))
  }

  /** A failed authentication is reported with role "user", and it writes
      nothing. */
  lemma FailedAuthenticationReportsUser(db: Store, repoOpen: bool, mode: string, role: string, identifier: string,
                                        password: string, confirmPassword: string, insertOk: bool)
    requires !AuthenticateOn(db, repoOpen, mode, role, identifier, password, confirmPassword, insertOk).0.success
    ensures AuthenticateOn(db, repoOpen, mode, role, identifier, password, confirmPassword, insertOk).0.role == "user"
  {
  }

  class Backend {
    /** The tables every request reads and writes. */
    var db: Store
    /** The catalog cache. */
    const service: StreamingService
    /** Where stored media paths resolve. */
    const root: string
    /** Whether the SQL provider's connection is open. */
    const providerOpen: bool
    /** Whether the authentication repository's connection is open. */
    const repoOpen: bool

    /** The service loads once from the store as it is, then the repository
        seeds the administrator account. */
    constructor (db0: Store, root: string, providerOpen: bool, repoOpen: bool, adminInsertOk: bool)
      ensures this.root == root && this.providerOpen == providerOpen && this.repoOpen == repoOpen
      ensures db == SeededStore(db0, repoOpen, adminInsertOk)
      ensures service.hasProvider
      ensures Snapshot(service.featured, service.categories)
              == SnapshotOf(true, SqlProvider.SqlOutput(db0, providerOpen, root))
      ensures fresh(service)
    {
      this.root := root;
      this.providerOpen := providerOpen;
      this.repoOpen := repoOpen;
      service := new StreamingService(true, SqlProvider.SqlOutput(db0, providerOpen, root));
      db := SeededStore(db0, repoOpen, adminInsertOk);
    }

    /** `reload`: the cache is rebuilt from the store as it is now. */
    method Reload()
      requires service.hasProvider
      modifies service
      ensures Snapshot(service.featured, service.categories)
              == SnapshotOf(true, SqlProvider.SqlOutput(db, providerOpen, root))
    {
      service.Reload(SqlProvider.SqlOutput(db, providerOpen, root));
    }

    /** `heroItem`. */
    method HeroItem() returns (item: MediaItem)
      ensures item == service.featured
    {
      item := service.FeaturedItem();
    }

    /** `categories`. */
    method Categories() returns (list: seq<MediaCategory>)
      ensures list == service.categories
    {
      list := service.Categories();
    }

    /** `authenticate`. */
    method Authenticate(mode: string, role: string, identifier: string, password: string,
                        confirmPassword: string, insertOk: bool) returns (reply: AuthReply)
      modifies this
      ensures (reply, db) == AuthenticateOn(old(db), repoOpen, mode, role, identifier, password,
                                            confirmPassword, insertOk)
    {
      var answer := Auth.Authenticate(mode, role, identifier, password, confirmPassword,
                                      Some(AuthRepository.Repository(repoOpen, db.users)), insertOk);
      var reported := if answer.0.role == [] then "user" else answer.0.role;
      reply := AuthReply(answer.0.success, answer.0.message, reported);
      db := db.(users := answer.1.value.users);
    }

    /** `addGenre`. */
    method AddGenre(name: string, faults: set<Writes.Fault>) returns (result: Writes.OpResult)
      modifies this
      ensures (result, db) == Writes.AddGenreOn(old(db), name, faults)
    {
      if Writes.DatabaseUnavailable in faults {
        return Writes.Fail(Writes.DatabaseUnavailableMessage);
      }
      var trimmed := Trim(name);
      if trimmed == [] {
        return Writes.Fail("Genre name is required");
      }
      if GenreExistsCaseless(db, trimmed) {
        return Writes.Fail("Genre already exists");
      }
      if Writes.GenreInsertFails in faults {
        return Writes.Fail("Failed to add genre");
      }
      db := db.(genres := db.genres + [Genre(|db.genres| + 1, trimmed)]);
      result := Writes.OpResult(true, "Genre added");
    }

    /** `addMovie`: on success the catalog cache is reloaded. */
    method AddMovie(name: string, description: string, genre: string, runtimeMinutes: int,
                    thumbnailPath: string, videoPath: string, env: Writes.MediaEnv, faults: set<Writes.Fault>)
      returns (result: Writes.OpResult)
      requires service.hasProvider
      modifies this, service
      ensures (result, db) == Writes.AddMovieOn(old(db), name, description, genre, runtimeMinutes,
                                                thumbnailPath, videoPath, env, faults)
      ensures result.success ==>
                Snapshot(service.featured, service.categories)
                == SnapshotOf(true, SqlProvider.SqlOutput(db, providerOpen, root))
      ensures !result.success ==> unchanged(service)
    {
      result := WriteMovie(name, description, genre, runtimeMinutes, thumbnailPath, videoPath, env, faults);
      if result.success {
        Reload();
      }
    }

    /** The database side of `addMovie`: checks, genre, title, link, media. */
    method WriteMovie(name: string, description: string, genre: string, runtimeMinutes: int,
                      thumbnailPath: string, videoPath: string, env: Writes.MediaEnv, faults: set<Writes.Fault>)
      returns (result: Writes.OpResult)
      modifies this
      ensures (result, db) == Writes.AddMovieOn(old(db), name, description, genre, runtimeMinutes,
                                                thumbnailPath, videoPath, env, faults)
    {
      if Writes.DatabaseUnavailable in faults {
        Writes.AddMovieValidation(db, name, description, genre, runtimeMinutes, thumbnailPath, videoPath, env, faults);
        return Writes.Fail(Writes.DatabaseUnavailableMessage);
      }
      var trimmedName := Trim(name);
      if trimmedName == [] {
        Writes.AddMovieValidation(db, name, description, genre, runtimeMinutes, thumbnailPath, videoPath, env, faults);
        return Writes.Fail("Name is required");
      }
      var trimmedGenre := Trim(genre);
      if trimmedGenre == [] {
        Writes.AddMovieValidation(db, name, description, genre, runtimeMinutes, thumbnailPath, videoPath, env, faults);
        return Writes.Fail("Genre is required");
      }
      result := WriteCheckedMovie(name, description, trimmedGenre, genre, runtimeMinutes,
                                  thumbnailPath, videoPath, env, faults);
    }

    /** `addMovie` past its input checks: genre, title, link, media. */
    method WriteCheckedMovie(name: string, description: string, trimmedGenre: string, genre: string,
                             runtimeMinutes: int, thumbnailPath: string, videoPath: string,
                             env: Writes.MediaEnv, faults: set<Writes.Fault>)
      returns (result: Writes.OpResult)
      requires Writes.DatabaseUnavailable !in faults && !IsQtBlank(name) && !IsQtBlank(genre)
      requires trimmedGenre == Trim(genre)
      modifies this
      ensures (result, db) == Writes.AddMovieOn(old(db), name, description, genre, runtimeMinutes,
                                                thumbnailPath, videoPath, env, faults)
    {
      Writes.AddMovieSteps(db, name, description, genre, runtimeMinutes, thumbnailPath, videoPath, env, faults);
      var genreId := ResolveGenre(trimmedGenre, faults);
      if Writes.TitleInsertFails in faults {
        return Writes.Fail("Failed to insert title");
      }
      var title := Writes.MovieTitle(|db.titles| + 1, name, description, runtimeMinutes);
      InsertMovieRows(title, genreId, thumbnailPath, videoPath, env, faults);
      result := Writes.OpResult(true, "Movie added");
    }

    /** The genre `addMovie` files the title under, inserted when missing. */
    method ResolveGenre(name: string, faults: set<Writes.Fault>) returns (genreId: int)
      modifies this
      ensures (genreId, db) == Writes.ResolveGenre(old(db), name, faults)
    {
      genreId := -1;
      match GenreIdByName(db, name) {
        case Some(id) =>
          genreId := id;
        case None =>
          if Writes.GenreInsertFails !in faults {
            genreId := |db.genres| + 1;
            db := db.(genres := db.genres + [Genre(genreId, name)]);
          }
      }
    }

    /** The inserts of `addMovie` after the genre: the title, the unchecked
        link and the unchecked media row. */
    method InsertMovieRows(title: Title, genreId: int, thumbnailPath: string, videoPath: string,
                           env: Writes.MediaEnv, faults: set<Writes.Fault>)
      modifies this
      ensures db == Writes.InsertMovie(old(db), title, genreId, thumbnailPath, videoPath, env, faults)
    {
      db := db.(titles := db.titles + [title]);
      if genreId > 0 && Writes.LinkInsertFails !in faults {
        db := db.(titleGenres := db.titleGenres + [TitleGenre(title.id, genreId)]);
      }
      var storedVideo := Writes.StoredVideo(videoPath, env);
      var storedThumbnail := Writes.StoredThumbnail(thumbnailPath, env);
      if Writes.MediaInsertFails !in faults {
        db := db.(mediaFiles := db.mediaFiles + [MediaFile(title.id, storedVideo, storedThumbnail)]);
      }
    }

    /** `addToMyList`. */
    method AddToMyList(identifier: string, title: string, faults: set<Writes.Fault>)
      returns (result: Writes.OpResult)
      modifies this
      ensures (result, db) == Writes.AddToMyListOn(old(db), identifier, title, faults)
    {
      if Writes.DatabaseUnavailable in faults {
        return Writes.Fail(Writes.DatabaseUnavailableMessage);
      }
      var email := Trim(identifier);
      var titleName := Trim(title);
      if email == [] || titleName == [] {
        return Writes.Fail("User and title are required");
      }
      var userId := UserIdByEmail(db, email);
      if userId.None? {
        return Writes.Fail("User not found");
      }
      result := AddToMyListFor(userId.value, titleName, faults);
    }

    /** `addToMyList` once the user is known. */
    method AddToMyListFor(userId: int, titleName: string, faults: set<Writes.Fault>)
      returns (result: Writes.OpResult)
      modifies this
      ensures (result, db) == Writes.AddToMyListFor(old(db), userId, titleName, faults)
    {
      var profileId := ResolveProfile(userId, faults);
      if profileId.None? {
        return Writes.Fail("Failed to create profile");
      }
      var titleId := NewestTitleIdByName(db, titleName);
      if titleId.None? {
        return Writes.Fail("Title not found");
      }
      if InMyList(db, profileId.value, titleId.value) {
        return Writes.Fail("Already in My List");
      }
      if Writes.ListInsertFails in faults {
        return Writes.Fail("Failed to add to My List");
      }
      db := db.(myList := db.myList + [MyListEntry(profileId.value, titleId.value)]);
      result := Writes.OpResult(true, "Added to My List");
    }

    /** The oldest profile of the user, created when there is none. */
    method ResolveProfile(userId: int, faults: set<Writes.Fault>) returns (profileId: Option<int>)
      modifies this
      ensures var r := Writes.ResolveProfile(old(db), userId, faults);
              (r.None? ==> profileId.None? && db == old(db))
              && (r.Some? ==> profileId == Some(r.value.0) && db == r.value.1)
    {
      profileId := OldestProfileId(db, userId);
      if profileId.None? {
        if Writes.ProfileInsertFails in faults {
          return;
        }
        var id := |db.profiles| + 1;
        db := db.(profiles := db.profiles + [Writes.DefaultProfile(id, userId)]);
        profileId := Some(id);
      }
    }

    /** `subscribePlan`, `today` being the current day number. */
    method SubscribePlan(identifier: string, planId: int, today: int, faults: set<Writes.Fault>)
      returns (result: Writes.OpResult)
      modifies this
      ensures (result, db) == Writes.SubscribePlanOn(old(db), identifier, planId, today, faults)
    {
      Writes.SubscribeSteps(db, identifier, planId, today, faults);
      if Writes.DatabaseUnavailable in faults {
        return Writes.Fail(Writes.DatabaseUnavailableMessage);
      }
      var email := Trim(identifier);
      if email == [] || planId <= 0 {
        return Writes.Fail("User and plan are required");
      }
      var userId := UserIdByEmail(db, email);
      if userId.None? {
        return Writes.Fail("User not found");
      }
      var plan := PlanById(db, planId);
      if plan.None? {
        return Writes.Fail("Plan not found");
      }
      result := SubscribeTo(userId.value, plan.value, today, faults);
    }

    /** The two writes once user and plan are found. */
    method SubscribeTo(userId: int, plan: Plan, today: int, faults: set<Writes.Fault>)
      returns (result: Writes.OpResult)
      modifies this
      ensures (result, db) == Writes.SubscribeTo(old(db), userId, plan, today, faults)
    {
      if Writes.DeactivateFails !in faults {
        db := db.(subscriptions := Writes.Deactivate(db.subscriptions, userId));
      }
      assert db == Writes.DeactivateStep(old(db), userId, faults);
      if Writes.SubscriptionInsertFails in faults {
        return Writes.Fail("Failed to subscribe");
      }
      var days := if plan.durationDays > 0 then plan.durationDays else 30;
      var sub := Subscription(|db.subscriptions| + 1, userId, plan.id, today, today + days, true);
      db := db.(subscriptions := db.subscriptions + [sub]);
      result := Writes.OpResult(true, "Subscription activated");
    }

    /** `logPlayback`. */
    method LogPlayback(identifier: string, title: string, positionSec: int, finished: bool,
                       faults: set<Writes.Fault>)
      modifies this
      ensures db == Writes.LogPlaybackOn(old(db), identifier, title, positionSec, finished, faults)
    {
      if Writes.DatabaseUnavailable in faults {
        return;
      }
      var email := Trim(identifier);
      var titleName := Trim(title);
      if email == [] || titleName == [] {
        return;
      }
      var userId := UserIdByEmail(db, email);
      if userId.None? {
        return;
      }
      var profileId := ResolveProfile(userId.value, faults);
      if profileId.None? {
        return;
      }
      var titleId := NewestTitleIdByName(db, titleName);
      if titleId.None? {
        return;
      }
      if Writes.HistoryInsertFails !in faults {
        db := db.(watchHistory := db.watchHistory
                                  + [WatchEntry(profileId.value, titleId.value, positionSec, finished)]);
      }
    }

    /** `userProfile`, its three lists read row by row. */
    method UserProfile(open: bool, identifier: string) returns (reply: Pages.ProfileReply)
      ensures reply == Pages.UserProfileOf(db, open, identifier, root)
    {
      if !open {
        return Pages.ProfileFailure("Database unavailable");
      }
      var email := Trim(identifier);
      if email == [] {
        return Pages.ProfileFailure("Identifier is required");
      }
      var user := Pages.UserByEmail(db, email);
      if user.None? {
        return Pages.ProfileFailure("User not found");
      }
      var u := user.value;
      var profiles := ProfileRows(db, u.id, root);
      var history := HistoryRows(db, u.id, root);
      var myList := ListRows(db, u.id, root);
      var page := Pages.ProfilePage(u.email, u.role, Pages.LatestSubscription(db, u.id),
                                          profiles, history, myList,
                                          Pages.Counts(|profiles|, |history|, |myList|));
      reply := Pages.ProfileSuccess(page);
    }

    /** The profiles query, newest first. */
    static method ProfileRows(db: Store, userId: int, root: string) returns (views: seq<Pages.ProfileView>)
      ensures views == Pages.ProfileViews(db, userId, root)
    {
      var rows := Pages.ProfileRows(db, userId);
      views := [];
      var k := 0;
      while k < |rows|
        invariant 0 <= k <= |rows| && |views| == k
        invariant forall j :: 0 <= j < k ==> views[j] == Pages.ProfileViewOf(rows[j], root)
      {
        views := views + [Pages.ProfileViewOf(rows[k], root)];
        k := k + 1;
      }
      Pages.ProfileViewsAre(db, userId, root, views);
    }

    /** The history query, newest first, at most 15 rows. */
    static method HistoryRows(db: Store, userId: int, root: string) returns (views: seq<Pages.HistoryView>)
      ensures views == Pages.HistoryViews(db, userId, root)
    {
      var joined := Pages.JoinHistory(db, Pages.HistoryRows(db, userId));
      views := HistoryViewRows(db, joined, root);
    }

    /** The `while (query.next())` loop over the joined history rows. */
    static method HistoryViewRows(db: Store, joined: seq<(WatchEntry, Title)>, root: string)
      returns (views: seq<Pages.HistoryView>)
      ensures views == Pages.HistoryViewsFrom(db, joined, root)
    {
      views := [];
      var k := 0;
      while k < |joined|
        invariant 0 <= k <= |joined| && |views| == k
        invariant forall j :: 0 <= j < k ==> views[j] == Pages.HistoryViewOf(db, joined[j].0, joined[j].1, root)
      {
        views := views + [Pages.HistoryViewOf(db, joined[k].0, joined[k].1, root)];
        k := k + 1;
      }
    }

    /** The list query, newest first, at most 20 rows. */
    static method ListRows(db: Store, userId: int, root: string) returns (views: seq<Pages.ListView>)
      ensures views == Pages.ListViews(db, userId, root)
    {
      var joined := Pages.JoinList(db, Pages.ListRows(db, userId));
      views := ListViewRows(db, joined, root);
    }

    /** The `while (query.next())` loop over the joined list rows. */
    static method ListViewRows(db: Store, joined: seq<Title>, root: string) returns (views: seq<Pages.ListView>)
      ensures views == Pages.ListViewsFrom(db, joined, root)
    {
      views := [];
      var k := 0;
      while k < |joined|
        invariant 0 <= k <= |joined| && |views| == k
        invariant forall j :: 0 <= j < k ==> views[j] == Pages.ListViewOf(db, joined[j], root)
      {
        views := views + [Pages.ListViewOf(db, joined[k], root)];
        k := k + 1;
      }
    }
  }
}
