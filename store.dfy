/** The relational store as in-memory tables. Every table is a sequence kept
    in creation order, so "ORDER BY created_at" is table order and the newest
    row is the last one; row ids are assigned 1, 2, 3, ... like SQLite's
    rowids when nothing is deleted. Each query the services issue is a
    function below. */
module Store {
  import opened Options
  import opened Text
  import opened Seqs
  import Collation

  datatype User = User(id: int, email: string, password: string, role: string)
  datatype Profile = Profile(id: int, userId: int, name: string, avatarUrl: string, isKid: bool)
  datatype Genre = Genre(id: int, name: string)
  /** A title; `kind` is the `type` column. */
  datatype Title = Title(id: int, kind: string, name: string, description: string,
                         ageRating: string, runtimeMin: int, accentColor: string)
  datatype TitleGenre = TitleGenre(titleId: int, genreId: int)
  datatype MediaFile = MediaFile(titleId: int, videoUrl: string, thumbnailUrl: string)
  /** A subscription plan; its price is not modelled. */
  datatype Plan = Plan(id: int, name: string, durationDays: int, maxQuality: string)
  /** A user's subscription; dates are day numbers. */
  datatype Subscription = Subscription(id: int, userId: int, planId: int,
                                       startDate: int, endDate: int, isActive: bool)
  datatype MyListEntry = MyListEntry(profileId: int, titleId: int)
  datatype WatchEntry = WatchEntry(profileId: int, titleId: int, positionSec: int, isFinished: bool)

  datatype Store = Store(
    users: seq<User>,
    profiles: seq<Profile>,
    genres: seq<Genre>,
    titles: seq<Title>,
    titleGenres: seq<TitleGenre>,
    mediaFiles: seq<MediaFile>,
    plans: seq<Plan>,
    subscriptions: seq<Subscription>,
    myList: seq<MyListEntry>,
    watchHistory: seq<WatchEntry>)

  const EmptyStore := Store([], [], [], [], [], [], [], [], [], [])

  // ---------------------------------------------------------------------------
  // Integrity

  predicate UserIds(t: seq<User>) { forall i :: 0 <= i < |t| ==> t[i].id == i + 1 }
  predicate ProfileIds(t: seq<Profile>) { forall i :: 0 <= i < |t| ==> t[i].id == i + 1 }
  predicate GenreIds(t: seq<Genre>) { forall i :: 0 <= i < |t| ==> t[i].id == i + 1 }
  predicate TitleIds(t: seq<Title>) { forall i :: 0 <= i < |t| ==> t[i].id == i + 1 }
  predicate SubscriptionIds(t: seq<Subscription>) { forall i :: 0 <= i < |t| ==> t[i].id == i + 1 }

  /** No (profile, title) pair is saved twice. */
  predicate UniqueListPairs(l: seq<MyListEntry>) {
    forall i, j :: 0 <= i < j < |l| ==> l[i] != l[j]
  }

  predicate Valid(s: Store) {
    UserIds(s.users) && ProfileIds(s.profiles) && GenreIds(s.genres)
    && TitleIds(s.titles) && SubscriptionIds(s.subscriptions)
    && UniqueListPairs(s.myList)
  }

  // ---------------------------------------------------------------------------
  // Lookups (`SELECT id ... LIMIT 1`)

  /** `SELECT id FROM users WHERE email = ? LIMIT 1`. */
  function UserIdByEmail(s: Store, email: string): (r: Option<int>)
    ensures r.Some? ==> exists i :: 0 <= i < |s.users| && s.users[i].email == email && s.users[i].id == r.value
    ensures r.None? <==> forall i :: 0 <= i < |s.users| ==> s.users[i].email != email
  {
    match FirstIndex(s.users, (u: User) => u.email == email)
    case None => None
    case Some(i) => Some(s.users[i].id)
  }

  /** `SELECT id FROM profiles WHERE user_id = ? ORDER BY created_at LIMIT 1`:
      the user's oldest profile. */
  function OldestProfileId(s: Store, userId: int): (r: Option<int>)
    ensures r.Some? ==> exists i :: (0 <= i < |s.profiles| && s.profiles[i].userId == userId
                                     && s.profiles[i].id == r.value
                                     && forall k :: 0 <= k < i ==> s.profiles[k].userId != userId)
    ensures r.None? <==> forall i :: 0 <= i < |s.profiles| ==> s.profiles[i].userId != userId
  {
    match FirstIndex(s.profiles, (p: Profile) => p.userId == userId)
    case None => None
    case Some(i) => Some(s.profiles[i].id)
  }

  /** Case-insensitive (ASCII only, as SQLite's `lower`) equality of names. */
  predicate SameNameCaseless(a: string, b: string) {
    SqlLower(a) == SqlLower(b)
  }

  /** `SELECT id FROM titles WHERE lower(name) = lower(?) ORDER BY created_at
      DESC LIMIT 1`: the newest title of that name. */
  function NewestTitleIdByName(s: Store, name: string): (r: Option<int>)
    ensures r.Some? ==> exists i :: (0 <= i < |s.titles| && SameNameCaseless(s.titles[i].name, name)
                                     && s.titles[i].id == r.value
                                     && forall k :: i < k < |s.titles| ==> !SameNameCaseless(s.titles[k].name, name))
    ensures r.None? <==> forall i :: 0 <= i < |s.titles| ==> !SameNameCaseless(s.titles[i].name, name)
  {
    match LastIndex(s.titles, (t: Title) => SameNameCaseless(t.name, name))
    case None => None
    case Some(i) => Some(s.titles[i].id)
  }

  /** `SELECT id FROM genres WHERE name = ? LIMIT 1` (exact match). */
  function GenreIdByName(s: Store, name: string): (r: Option<int>)
    ensures r.Some? ==> exists i :: 0 <= i < |s.genres| && s.genres[i].name == name && s.genres[i].id == r.value
    ensures r.None? <==> forall i :: 0 <= i < |s.genres| ==> s.genres[i].name != name
  {
    match FirstIndex(s.genres, (g: Genre) => g.name == name)
    case None => None
    case Some(i) => Some(s.genres[i].id)
  }

  /** `SELECT id FROM genres WHERE lower(name) = lower(?) LIMIT 1` finds a row. */
  predicate GenreExistsCaseless(s: Store, name: string) {
    exists i :: 0 <= i < |s.genres| && SameNameCaseless(s.genres[i].name, name)
  }

  /** `SELECT id FROM genres WHERE lower(name) = lower(?) LIMIT 1`: the
      first genre of that name up to ASCII case. */
  function GenreIdCaseless(s: Store, name: string): (r: Option<int>)
    ensures r.Some? ==> exists i :: 0 <= i < |s.genres| && SameNameCaseless(s.genres[i].name, name)
                                    && s.genres[i].id == r.value
    ensures r.None? <==> !GenreExistsCaseless(s, name)
  {
    match FirstIndex(s.genres, (g: Genre) => SameNameCaseless(g.name, name))
    case None => None
    case Some(i) => Some(s.genres[i].id)
  }

  /** `SELECT id, duration_days FROM subscription_plans WHERE id = ? LIMIT 1`. */
  function PlanById(s: Store, planId: int): (r: Option<Plan>)
    ensures r.Some? ==> r.value in s.plans && r.value.id == planId
    ensures r.None? <==> forall i :: 0 <= i < |s.plans| ==> s.plans[i].id != planId
  {
    match FirstIndex(s.plans, (p: Plan) => p.id == planId)
    case None => None
    case Some(i) => Some(s.plans[i])
  }

  /** `SELECT 1 FROM my_list WHERE profile_id = ? AND title_id = ? LIMIT 1` finds a row. */
  predicate InMyList(s: Store, profileId: int, titleId: int) {
    MyListEntry(profileId, titleId) in s.myList
  }

  /** Subscriptions of a user that are flagged active. */
  function ActiveSubscriptions(s: Store, userId: int): seq<Subscription> {
    Filter(s.subscriptions, (u: Subscription) => u.userId == userId && u.isActive)
  }

  // ---------------------------------------------------------------------------
  // Catalog rows (the columns 0..8 both catalog readers select)

  /** `t.id, t.type, t.name, t.description, t.age_rating, t.runtime_min,
      t.accent_color, IFNULL(m.thumbnail_url, ''), IFNULL(m.video_url, '')`. */
  datatype TitleRow = TitleRow(id: int, kind: string, name: string, description: string,
                               ageRating: string, runtimeMin: int, accentColor: string,
                               thumbnailUrl: string, videoUrl: string)

  /** The `LEFT JOIN media_files`: the title's first media row, or none. */
  function MediaOf(s: Store, titleId: int): Option<MediaFile> {
    match FirstIndex(s.mediaFiles, (m: MediaFile) => m.titleId == titleId)
    case None => None
    case Some(i) => Some(s.mediaFiles[i])
  }

  function RowOf(s: Store, t: Title): (r: TitleRow)
    ensures MediaOf(s, t.id).None? ==> r.thumbnailUrl == "" && r.videoUrl == ""
    ensures MediaOf(s, t.id).Some? ==>
              r.videoUrl == MediaOf(s, t.id).value.videoUrl && r.thumbnailUrl == MediaOf(s, t.id).value.thumbnailUrl
    ensures r.id == t.id && r.kind == t.kind && r.name == t.name && r.description == t.description
    ensures r.ageRating == t.ageRating && r.runtimeMin == t.runtimeMin && r.accentColor == t.accentColor
  {
    var m := MediaOf(s, t.id);
    TitleRow(t.id, t.kind, t.name, t.description, t.ageRating, t.runtimeMin, t.accentColor,
             if m.Some? then m.value.thumbnailUrl else "", if m.Some? then m.value.videoUrl else "")
  }

  /** The hero query `... ORDER BY t.created_at DESC LIMIT 1`: the newest title. */
  function HeroRow(s: Store): (r: Option<TitleRow>)
    ensures r.None? <==> s.titles == []
  {
    if s.titles == [] then None else Some(RowOf(s, s.titles[|s.titles| - 1]))
  }

  function GenreName(g: Genre): string { g.name }

  /** `SELECT id, name FROM genres ORDER BY name`. */
  function GenresByName(s: Store): seq<Genre> {
    Collation.SortBy(s.genres, GenreName)
  }

  /** The genre listing is sorted by name and holds every genre once. */
  lemma GenresByNameProperties(s: Store)
    ensures Collation.SortedBy(GenresByName(s), GenreName)
    ensures multiset(GenresByName(s)) == multiset(s.genres)
    ensures forall g :: g in s.genres <==> g in GenresByName(s)
  {
    Collation.SortByProperties(s.genres, GenreName);
    var sorted := GenresByName(s);
    forall g ensures g in s.genres <==> g in sorted {
      calc {
        g in s.genres;
        g in multiset(s.genres);
        g in multiset(sorted);
        g in sorted;
      }
    }
  }

  predicate Linked(s: Store, titleId: int, genreId: int) {
    TitleGenre(titleId, genreId) in s.titleGenres
  }

  /** `... JOIN title_genres tg ... WHERE tg.genre_id = ? ORDER BY t.created_at
      DESC`: the titles linked to the genre, newest first. */
  function GenreTitleRows(s: Store, genreId: int): seq<TitleRow> {
    var newest := Reverse(Filter(s.titles, (t: Title) => Linked(s, t.id, genreId)));
    seq(|newest|, k requires 0 <= k < |newest| => RowOf(s, newest[k]))
  }

  /** The genre query lists exactly the linked titles: each row is the row
      of a linked title, and every linked title has its row. */
  lemma GenreTitleRowsLinked(s: Store, genreId: int)
    ensures forall row :: row in GenreTitleRows(s, genreId) ==>
              exists t :: t in s.titles && Linked(s, t.id, genreId) && row == RowOf(s, t)
    ensures forall t :: t in s.titles && Linked(s, t.id, genreId) ==> RowOf(s, t) in GenreTitleRows(s, genreId)
  {
    var linked := Filter(s.titles, (t: Title) => Linked(s, t.id, genreId));
    var newest := Reverse(linked);
    var r := GenreTitleRows(s, genreId);
    forall row | row in r
      ensures exists t :: t in s.titles && Linked(s, t.id, genreId) && row == RowOf(s, t)
    {
      var k :| 0 <= k < |r| && r[k] == row;
      assert newest[k] == linked[|linked| - 1 - k];
      assert newest[k] in linked;
    }
    forall t | t in s.titles && Linked(s, t.id, genreId)
      ensures RowOf(s, t) in r
    {
      assert t in linked;
      var i :| 0 <= i < |linked| && linked[i] == t;
      var k := |linked| - 1 - i;
      assert newest[k] == t;
      assert r[k] == RowOf(s, t);
    }
  }
}
