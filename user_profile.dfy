/** The account page's read side, `userProfile`: the user, their newest
    subscription, their profiles, their recent history and their list, each
    read from the store. `open` says whether the database opens; `root` is
    the project root media paths resolve against. */
module UserProfile {
  import opened Options
  import opened Text
  import opened Seqs
  import opened Store
  import opened DatabaseUtils
  import Writes

  datatype SubscriptionView = SubscriptionView(
    planName: string, durationDays: int, maxQuality: string, startDate: int, endDate: int, active: bool)

  datatype ProfileView = ProfileView(id: int, name: string, avatarUrl: string, isKid: bool)

  datatype HistoryView = HistoryView(
    title: string, runtime: int, thumbnailUrl: string, videoUrl: string, positionSec: int, finished: bool)

  datatype ListView = ListView(
    title: string, thumbnailUrl: string, videoUrl: string, runtime: int, accentColor: string)

  datatype Counts = Counts(profiles: int, history: int, myList: int)

  datatype ProfilePage = ProfilePage(
    email: string, role: string, subscription: Option<SubscriptionView>,
    profiles: seq<ProfileView>, history: seq<HistoryView>, myList: seq<ListView>, counts: Counts)

  datatype ProfileReply = ProfileFailure(message: string) | ProfileSuccess(page: ProfilePage)

  /** The history rows the page shows at most. */
  const HistoryLimit: nat := 15
  /** The list rows the page shows at most. */
  const ListLimit: nat := 20

  // ---------------------------------------------------------------------------
  // The joins

  /** `profile_id IN (SELECT id FROM profiles WHERE user_id = ?)`. */
  predicate OwnsProfile(s: Store, userId: int, profileId: int) {
    exists k :: 0 <= k < |s.profiles| && s.profiles[k].id == profileId && s.profiles[k].userId == userId
  }

  /** `JOIN titles t ON t.id = ...`: the title with that id. */
  function TitleById(s: Store, titleId: int): (r: Option<Title>)
    ensures r.Some? ==> r.value in s.titles && r.value.id == titleId
  {
    match FirstIndex(s.titles, (t: Title) => t.id == titleId)
    case None => None
    case Some(i) => Some(s.titles[i])
  }

  /** The join drops a row exactly when no title has its id. */
  lemma TitleByIdMisses(s: Store, titleId: int)
    ensures TitleById(s, titleId).None? <==> forall k :: 0 <= k < |s.titles| ==> s.titles[k].id != titleId
  {
  }

  /** In a consistent store a title is found by its id. */
  lemma TitleByIdFinds(s: Store, i: nat)
    requires Valid(s) && i < |s.titles|
    ensures TitleById(s, s.titles[i].id) == Some(s.titles[i])
  {
    var hit := FirstIndex(s.titles, (t: Title) => t.id == s.titles[i].id);
    assert hit.Some?;
    assert s.titles[hit.value].id == hit.value + 1;
  }

  /** The rows a user's subscription query joins: their subscriptions
      whose plan exists. */
  function SubscriptionFilter(s: Store, userId: int): Subscription -> bool {
    (u: Subscription) => u.userId == userId && PlanById(s, u.planId).Some?
  }

  /** A history row the history query selects: one of the user's profiles,
      a title that exists. */
  function HistoryFilter(s: Store, userId: int): WatchEntry -> bool {
    (e: WatchEntry) => OwnsProfile(s, userId, e.profileId) && TitleById(s, e.titleId).Some?
  }

  /** A list row the list query selects, likewise. */
  function ListFilter(s: Store, userId: int): MyListEntry -> bool {
    (e: MyListEntry) => OwnsProfile(s, userId, e.profileId) && TitleById(s, e.titleId).Some?
  }

  /** The subscription query: the user's newest subscription with a plan,
      shown with that plan's columns. */
  function LatestSubscription(s: Store, userId: int): (r: Option<SubscriptionView>)
    ensures r.None? <==> Filter(s.subscriptions, SubscriptionFilter(s, userId)) == []
  {
    var rows := Filter(s.subscriptions, SubscriptionFilter(s, userId));
    if rows == [] then None
    else
      var u := rows[|rows| - 1];
      assert u in rows;
      var plan := PlanById(s, u.planId).value;
      Some(SubscriptionView(plan.name, plan.durationDays, plan.maxQuality, u.startDate, u.endDate, u.isActive))
  }

  function ProfileViewOf(p: Profile, root: string): ProfileView {
    ProfileView(p.id, p.name, ToFileUrl(p.avatarUrl, root), p.isKid)
  }

  /** The user's profiles, newest first. */
  function ProfileRows(s: Store, userId: int): (r: seq<Profile>)
    ensures |r| == |Filter(s.profiles, (p: Profile) => p.userId == userId)|
  {
    Reverse(Filter(s.profiles, (p: Profile) => p.userId == userId))
  }

  /** The profiles query: the user's profiles, newest first. */
  function ProfileViews(s: Store, userId: int, root: string): (r: seq<ProfileView>)
    ensures |r| == |ProfileRows(s, userId)|
  {
    var rows := ProfileRows(s, userId);
    seq(|rows|, k requires 0 <= k < |rows| => ProfileViewOf(rows[k], root))
  }

  /** Views built row by row are the profiles query's answer. */
  lemma ProfileViewsAre(s: Store, userId: int, root: string, views: seq<ProfileView>)
    requires |views| == |ProfileRows(s, userId)|
    requires forall j :: 0 <= j < |views| ==> views[j] == ProfileViewOf(ProfileRows(s, userId)[j], root)
    ensures views == ProfileViews(s, userId, root)
  {
  }

  /** A history row joined with its title: the title's columns and its
      media as file URLs, then the row's own position and flag. */
  function HistoryViewOf(s: Store, e: WatchEntry, t: Title, root: string): HistoryView {
    var row := RowOf(s, t);
    HistoryView(t.name, t.runtimeMin, ToFileUrl(row.thumbnailUrl, root), ToFileUrl(row.videoUrl, root),
                e.positionSec, e.isFinished)
  }

  /** A list row joined with its title. */
  function ListViewOf(s: Store, t: Title, root: string): ListView {
    var row := RowOf(s, t);
    ListView(t.name, ToFileUrl(row.thumbnailUrl, root), ToFileUrl(row.videoUrl, root), t.runtimeMin, t.accentColor)
  }

  /** The history rows shown: the newest 15 the query selects. */
  function HistoryRows(s: Store, userId: int): (r: seq<WatchEntry>)
    ensures forall k :: 0 <= k < |r| ==> HistoryFilter(s, userId)(r[k])
  {
    var rows := Filter(s.watchHistory, HistoryFilter(s, userId));
    var r := NewestFirst(rows, HistoryLimit);
    assert forall k :: 0 <= k < |r| ==> r[k] in rows;
    r
  }

  /** The list rows shown: the newest 20 the query selects. */
  function ListRows(s: Store, userId: int): (r: seq<MyListEntry>)
    ensures forall k :: 0 <= k < |r| ==> ListFilter(s, userId)(r[k])
  {
    var rows := Filter(s.myList, ListFilter(s, userId));
    var r := NewestFirst(rows, ListLimit);
    assert forall k :: 0 <= k < |r| ==> r[k] in rows;
    r
  }

  function HistoryViews(s: Store, userId: int, root: string): (r: seq<HistoryView>)
    ensures |r| == |HistoryRows(s, userId)|
  {
    HistoryViewsFrom(s, JoinHistory(s, HistoryRows(s, userId)), root)
  }

  function ListViews(s: Store, userId: int, root: string): (r: seq<ListView>)
    ensures |r| == |ListRows(s, userId)|
  {
    ListViewsFrom(s, JoinList(s, ListRows(s, userId)), root)
  }

  /** `JOIN titles t ON t.id = h.title_id` over rows whose title exists. */
  function JoinHistory(s: Store, rows: seq<WatchEntry>): (r: seq<(WatchEntry, Title)>)
    requires forall k :: 0 <= k < |rows| ==> TitleById(s, rows[k].titleId).Some?
    ensures |r| == |rows|
  {
    seq(|rows|, k requires 0 <= k < |rows| => (rows[k], TitleById(s, rows[k].titleId).value))
  }

  /** `JOIN titles t ON t.id = ml.title_id` over rows whose title exists. */
  function JoinList(s: Store, rows: seq<MyListEntry>): (r: seq<Title>)
    requires forall k :: 0 <= k < |rows| ==> TitleById(s, rows[k].titleId).Some?
    ensures |r| == |rows|
  {
    seq(|rows|, k requires 0 <= k < |rows| => TitleById(s, rows[k].titleId).value)
  }

  /** One history view per joined row, in the rows' order. */
  function HistoryViewsFrom(s: Store, joined: seq<(WatchEntry, Title)>, root: string): (r: seq<HistoryView>)
    ensures |r| == |joined|
  {
    seq(|joined|, k requires 0 <= k < |joined| => HistoryViewOf(s, joined[k].0, joined[k].1, root))
  }

  /** One list view per joined title, in the rows' order. */
  function ListViewsFrom(s: Store, joined: seq<Title>, root: string): (r: seq<ListView>)
    ensures |r| == |joined|
  {
    seq(|joined|, k requires 0 <= k < |joined| => ListViewOf(s, joined[k], root))
  }

  /** The page of a known user. */
  function PageOf(s: Store, u: User, root: string): ProfilePage {
    var profiles := ProfileViews(s, u.id, root);
    var history := HistoryViews(s, u.id, root);
    var myList := ListViews(s, u.id, root);
    ProfilePage(u.email, u.role, LatestSubscription(s, u.id), profiles, history, myList,
                Counts(|profiles|, |history|, |myList|))
  }

  /** The user row `SELECT ... FROM users WHERE email = ? LIMIT 1` finds. */
  function UserByEmail(s: Store, email: string): (r: Option<User>)
    ensures r.Some? ==> r.value in s.users && r.value.email == email
    ensures r.None? <==> UserIdByEmail(s, email).None?
    ensures r.Some? ==> r.value.id == UserIdByEmail(s, email).value
  {
    match FirstIndex(s.users, (u: User) => u.email == email)
    case None => None
    case Some(i) => Some(s.users[i])
  }

  /** `userProfile`. */
  function UserProfileOf(s: Store, open: bool, identifier: string, root: string): (r: ProfileReply)
    ensures r.ProfileSuccess? ==> open && r.page.email == Trim(identifier)
    ensures r.ProfileSuccess? ==>
              r.page.counts == Counts(|r.page.profiles|, |r.page.history|, |r.page.myList|)
  {
    if !open then ProfileFailure("Database unavailable")
    else if IsQtBlank(identifier) then ProfileFailure("Identifier is required")
    else match UserByEmail(s, Trim(identifier))
      case None => ProfileFailure("User not found")
      case Some(u) => ProfileSuccess(PageOf(s, u, root))
  }

  // ---------------------------------------------------------------------------
  // What the page promises

  /** The page fails exactly when the database is closed, the identifier is
      blank or no user has that email, with those messages in that order. */
  lemma ProfileFailures(s: Store, open: bool, identifier: string, root: string)
    ensures UserProfileOf(s, open, identifier, root).ProfileFailure? <==>
              !open || IsQtBlank(identifier) || UserIdByEmail(s, Trim(identifier)).None?
    ensures !open ==> UserProfileOf(s, open, identifier, root) == ProfileFailure("Database unavailable")
    ensures open && IsQtBlank(identifier) ==>
              UserProfileOf(s, open, identifier, root) == ProfileFailure("Identifier is required")
    ensures open && !IsQtBlank(identifier) && UserIdByEmail(s, Trim(identifier)).None? ==>
              UserProfileOf(s, open, identifier, root) == ProfileFailure("User not found")
  {
  }

  /** The counts are the lengths of the lists shown, history is at most 15
      rows and the list at most 20, and with fewer matching rows than that
      all of them are shown. */
  lemma PageBounds(s: Store, u: User, root: string)
    ensures var p := PageOf(s, u, root);
            p.counts == Counts(|p.profiles|, |p.history|, |p.myList|)
            && |p.history| <= HistoryLimit && |p.myList| <= ListLimit
            && |p.profiles| == |ProfileRows(s, u.id)|
    ensures var rows := Filter(s.watchHistory, HistoryFilter(s, u.id));
            |rows| <= HistoryLimit ==> |PageOf(s, u, root).history| == |rows|
    ensures var rows := Filter(s.myList, ListFilter(s, u.id));
            |rows| <= ListLimit ==> |PageOf(s, u, root).myList| == |rows|
  {
  }

  /** History is shown newest first: row k of the page is the k-th newest
      row the query selects. */
  lemma HistoryNewestFirst(s: Store, userId: int, root: string, k: nat)
    requires k < |HistoryRows(s, userId)|
    ensures var rows := Filter(s.watchHistory, HistoryFilter(s, userId));
            k < |rows| && HistoryRows(s, userId)[k] == rows[|rows| - 1 - k]
            && HistoryViews(s, userId, root)[k]
                 == HistoryViewOf(s, rows[|rows| - 1 - k], TitleById(s, rows[|rows| - 1 - k].titleId).value, root)
  {
  }

  /** A page has no subscription exactly when none of the user's
      subscriptions has a plan that exists; otherwise it shows the newest
      such subscription. */
  lemma SubscriptionShown(s: Store, userId: int)
    ensures LatestSubscription(s, userId).None? <==>
              forall k :: 0 <= k < |s.subscriptions| ==>
                !(s.subscriptions[k].userId == userId && PlanById(s, s.subscriptions[k].planId).Some?)
  {
    var rows := Filter(s.subscriptions, SubscriptionFilter(s, userId));
    if rows == [] {
      forall k | 0 <= k < |s.subscriptions|
        ensures !(s.subscriptions[k].userId == userId && PlanById(s, s.subscriptions[k].planId).Some?)
      {
        assert s.subscriptions[k] in s.subscriptions;
        assert !SubscriptionFilter(s, userId)(s.subscriptions[k]);
      }
    } else {
      var u := rows[0];
      assert u in rows;
      var k :| 0 <= k < |s.subscriptions| && s.subscriptions[k] == u;
    }
  }

  // ---------------------------------------------------------------------------
  // What the writes make the page show

  lemma OwnsOldest(s: Store, userId: int, profileId: int)
    requires OldestProfileId(s, userId) == Some(profileId)
    ensures OwnsProfile(s, userId, profileId)
  {
    var i :| 0 <= i < |s.profiles| && s.profiles[i].userId == userId && s.profiles[i].id == profileId
             && forall k :: 0 <= k < i ==> s.profiles[k].userId != userId;
  }

  /** The title a name lookup finds is joined by its id. */
  lemma TitleFound(s: Store, name: string)
    requires Valid(s) && NewestTitleIdByName(s, name).Some?
    ensures var t := TitleById(s, NewestTitleIdByName(s, name).value);
            t.Some? && SameNameCaseless(t.value.name, name)
  {
    var i :| 0 <= i < |s.titles| && SameNameCaseless(s.titles[i].name, name)
             && s.titles[i].id == NewestTitleIdByName(s, name).value
             && forall k :: i < k < |s.titles| ==> !SameNameCaseless(s.titles[k].name, name);
    TitleByIdFinds(s, i);
  }

  /** A page of the user after a successful request of theirs. */
  lemma PageAfter(s: Store, identifier: string, root: string)
    requires !IsQtBlank(identifier) && UserIdByEmail(s, Trim(identifier)).Some?
    ensures UserProfileOf(s, true, identifier, root)
              == ProfileSuccess(PageOf(s, UserByEmail(s, Trim(identifier)).value, root))
    ensures UserByEmail(s, Trim(identifier)).value.id == UserIdByEmail(s, Trim(identifier)).value
  {
  }

  /** After playback is logged, the user's page opens its history with that
      title at that position. */
  lemma LoggedPlaybackShows(s: Store, identifier: string, title: string, positionSec: int, finished: bool,
                            faults: set<Writes.Fault>, root: string)
    requires Valid(s)
    requires Writes.DatabaseUnavailable !in faults && Writes.HistoryInsertFails !in faults
    requires !IsQtBlank(identifier) && !IsQtBlank(title)
    requires UserIdByEmail(s, Trim(identifier)).Some?
    requires Writes.ResolveProfile(s, UserIdByEmail(s, Trim(identifier)).value, faults).Some?
    requires NewestTitleIdByName(s, Trim(title)).Some?
    ensures var r := UserProfileOf(Writes.LogPlaybackOn(s, identifier, title, positionSec, finished, faults),
                                   true, identifier, root);
            r.ProfileSuccess? && |r.page.history| > 0
            && SameNameCaseless(r.page.history[0].title, Trim(title))
            && r.page.history[0].positionSec == positionSec && r.page.history[0].finished == finished
  {
    var userId := UserIdByEmail(s, Trim(identifier)).value;
    var p := Writes.ResolveProfile(s, userId, faults).value;
    var titleId := NewestTitleIdByName(s, Trim(title)).value;
    var entry := WatchEntry(p.0, titleId, positionSec, finished);
    var r := Writes.LogPlaybackOn(s, identifier, title, positionSec, finished, faults);
    Writes.LogPlaybackEffects(s, identifier, title, positionSec, finished, faults);
    assert r.watchHistory == s.watchHistory + [entry];
    OwnsOldest(r, userId, p.0);
    Writes.TitleLookupIgnoresRest(s, r, Trim(title));
    TitleFound(r, Trim(title));
    assert HistoryFilter(r, userId)(entry);
    NewestHistoryRow(r, userId, s.watchHistory, entry);
    UserLookupSame(s, r, Trim(identifier));
    PageAfter(r, identifier, root);
    assert HistoryViews(r, userId, root)[0] == HistoryViewOf(r, entry, TitleById(r, titleId).value, root);
  }

  /** A history row just logged, when the history query selects it, is the
      first row shown. */
  lemma NewestHistoryRow(r: Store, userId: int, before: seq<WatchEntry>, entry: WatchEntry)
    requires r.watchHistory == before + [entry] && HistoryFilter(r, userId)(entry)
    ensures |HistoryRows(r, userId)| > 0 && HistoryRows(r, userId)[0] == entry
  {
    FilterAppend(before, entry, HistoryFilter(r, userId));
  }

  /** After a title is added to My List, the user's page opens its list with
      that title. */
  lemma AddedTitleShows(s: Store, identifier: string, title: string, faults: set<Writes.Fault>, root: string)
    requires Valid(s)
    requires Writes.AddToMyListOn(s, identifier, title, faults).0.success
    ensures var r := UserProfileOf(Writes.AddToMyListOn(s, identifier, title, faults).1, true, identifier, root);
            r.ProfileSuccess? && |r.page.myList| > 0 && SameNameCaseless(r.page.myList[0].title, Trim(title))
  {
    Writes.AddToMyListEffects(s, identifier, title, faults);
    var userId := UserIdByEmail(s, Trim(identifier)).value;
    var r := Writes.AddToMyListFor(s, userId, Trim(title), faults);
    Writes.AddToMyListForEffects(s, userId, Trim(title), faults);
    AddedTitleListed(s, userId, Trim(title), faults, root);
    UserLookupSame(s, r.1, Trim(identifier));
    PageAfter(r.1, identifier, root);
  }

  lemma AddedTitleListed(s: Store, userId: int, title: string, faults: set<Writes.Fault>, root: string)
    requires Valid(s)
    requires Writes.AddToMyListFor(s, userId, title, faults).0.success
    ensures var r := Writes.AddToMyListFor(s, userId, title, faults).1;
            var views := ListViews(r, userId, root);
            |views| > 0 && SameNameCaseless(views[0].title, title)
  {
    Writes.AddToMyListForEffects(s, userId, title, faults);
    Writes.ResolveProfileSettles(s, userId, faults);
    var p := Writes.ResolveProfile(s, userId, faults).value;
    var titleId := NewestTitleIdByName(s, title).value;
    var entry := MyListEntry(p.0, titleId);
    var r := Writes.AddToMyListFor(s, userId, title, faults).1;
    assert r == p.1.(myList := s.myList + [entry]);
    assert r.profiles == p.1.profiles;
    assert OldestProfileId(r, userId) == OldestProfileId(p.1, userId);
    OwnsOldest(r, userId, p.0);
    Writes.TitleLookupIgnoresRest(s, r, title);
    TitleFound(r, title);
    assert ListFilter(r, userId)(entry);
    NewestListRow(r, userId, s.myList, entry);
    assert ListViews(r, userId, root)[0] == ListViewOf(r, TitleById(r, titleId).value, root);
  }

  /** A list row just added, when the list query selects it, is the first
      row shown. */
  lemma NewestListRow(r: Store, userId: int, before: seq<MyListEntry>, entry: MyListEntry)
    requires r.myList == before + [entry] && ListFilter(r, userId)(entry)
    ensures |ListRows(r, userId)| > 0 && ListRows(r, userId)[0] == entry
  {
    FilterAppend(before, entry, ListFilter(r, userId));
  }

  /** After a successful subscription, the user's page shows the new plan,
      active from today for the plan's days (30 when it has none). */
  lemma SubscriptionShowsNewPlan(s: Store, userId: int, plan: Plan, today: int, faults: set<Writes.Fault>)
    requires plan in s.plans && PlanById(s, plan.id) == Some(plan)
    requires Writes.SubscriptionInsertFails !in faults
    ensures LatestSubscription(Writes.SubscribeTo(s, userId, plan, today, faults).1, userId)
              == Some(SubscriptionView(plan.name, plan.durationDays, plan.maxQuality, today,
                                       today + Writes.SubscriptionDays(plan), true))
  {
    var r := Writes.SubscribeTo(s, userId, plan, today, faults).1;
    var s1 := Writes.DeactivateStep(s, userId, faults);
    var sub := Writes.NewSubscription(s1, userId, plan, today);
    assert r == s1.(subscriptions := s1.subscriptions + [sub]);
    PlanLookupSame(s, r, plan.id);
    NewestSubscriptionShown(r, userId, s1.subscriptions, sub);
  }

  /** A subscription just added, when its plan exists, is the one shown. */
  lemma NewestSubscriptionShown(r: Store, userId: int, before: seq<Subscription>, sub: Subscription)
    requires r.subscriptions == before + [sub] && sub.userId == userId && PlanById(r, sub.planId).Some?
    ensures LatestSubscription(r, userId)
              == Some(SubscriptionView(PlanById(r, sub.planId).value.name, PlanById(r, sub.planId).value.durationDays,
                                       PlanById(r, sub.planId).value.maxQuality, sub.startDate, sub.endDate,
                                       sub.isActive))
  {
    FilterAppend(before, sub, SubscriptionFilter(r, userId));
  }

  lemma UserLookupSame(a: Store, b: Store, email: string)
    requires a.users == b.users
    ensures UserIdByEmail(a, email) == UserIdByEmail(b, email)
    ensures UserByEmail(a, email) == UserByEmail(b, email)
  {
  }

  lemma PlanLookupSame(a: Store, b: Store, planId: int)
    requires a.plans == b.plans
    ensures PlanById(a, planId) == PlanById(b, planId)
  {
  }
}
