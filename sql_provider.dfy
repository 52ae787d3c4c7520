/** The SQL-backed catalog provider: the hero query and the per-genre
    queries over the store, turned into the raw items the catalog cache
    converts. `open` says whether the provider's connection is open; `root`
    is the project root the stored media paths resolve against. */
module SqlProvider {
  import opened Options
  import opened Store
  import opened DatabaseUtils
  import opened Catalog
  import Collation

  /** `buildItem`: the columns of a title row, the media paths turned into
      file URLs, and the genre the caller names. */
  function BuildItem(row: TitleRow, genreName: string, root: string): RawMediaItem {
    RawMediaItem(row.kind, row.name, genreName, row.runtimeMin, row.ageRating, row.description,
                 row.accentColor, ToFileUrl(row.thumbnailUrl, root), ToFileUrl(row.videoUrl, root))
  }

  /** `fetchFeatured`: the newest title, with its video path (column 8)
      standing in for the genre. */
  function FetchFeatured(db: Store, open: bool, root: string): (r: Option<RawMediaItem>)
    ensures r.None? <==> !open || db.titles == []
    ensures r.Some? ==>
              var hero := HeroRow(db).value;
              r.value == BuildItem(hero, hero.videoUrl, root)
  {
    if !open then None
    else match HeroRow(db)
      case None => None
      case Some(row) => Some(BuildItem(row, row.videoUrl, root))
  }

  /** The featured item's genre is the stored video path, and its video URL
      is that same path as a file URL. */
  lemma FeaturedGenreIsVideoPath(db: Store, open: bool, root: string)
    requires FetchFeatured(db, open, root).Some?
    ensures var f := FetchFeatured(db, open, root).value;
            var newest := db.titles[|db.titles| - 1];
            f.title == newest.name
            && f.genre == (if MediaOf(db, newest.id).Some? then MediaOf(db, newest.id).value.videoUrl else "")
            && f.videoUrl == ToFileUrl(f.genre, root)
  {
  }

  /** What `itemsForGenre` yields: one item per linked title, newest first. */
  function GenreItems(db: Store, g: Genre, root: string): (r: seq<RawMediaItem>)
    ensures |r| == |GenreTitleRows(db, g.id)|
  {
    BuildItems(GenreTitleRows(db, g.id), g.name, root)
  }

  /** One item per row, in the rows' order. */
  function BuildItems(rows: seq<TitleRow>, genreName: string, root: string): (r: seq<RawMediaItem>)
    ensures |r| == |rows|
  {
    seq(|rows|, k requires 0 <= k < |rows| => BuildItem(rows[k], genreName, root))
  }

  function CategoryOf(db: Store, g: Genre, root: string): CategoryWithItems {
    CategoryWithItems(RawCategory(g.id, g.name), GenreItems(db, g, root))
  }

  /** The categories built from `genres` in order, the empty ones dropped. */
  function CategoriesFor(db: Store, genres: seq<Genre>, root: string): seq<CategoryWithItems> {
    if genres == [] then []
    else
      var g := genres[|genres| - 1];
      CategoriesFor(db, genres[..|genres| - 1], root)
        + (if |GenreItems(db, g, root)| > 0 then [CategoryOf(db, g, root)] else [])
  }

  /** `fetchCategories`: every genre in name order with its items, empty
      genres left out. */
  function ProviderCategories(db: Store, open: bool, root: string): seq<CategoryWithItems> {
    if !open then [] else CategoriesFor(db, GenresByName(db), root)
  }

  /** The categories built from `genres` are in `genres`' order: the last
      one added comes from the last genre. */
  lemma CategoriesForStep(db: Store, genres: seq<Genre>, root: string)
    requires genres != []
    ensures var n := |genres| - 1;
            var g := genres[n];
            CategoriesFor(db, genres, root)
              == CategoriesFor(db, genres[..n], root) + (if |GenreItems(db, g, root)| > 0 then [CategoryOf(db, g, root)] else [])
  {
  }

  /** Each category built from `genres` is the category of one of them and
      has items. */
  lemma {:induction false} CategoriesForSound(db: Store, genres: seq<Genre>, root: string)
    ensures var r := CategoriesFor(db, genres, root);
            forall k :: 0 <= k < |r| ==>
              |r[k].items| > 0 && exists i :: 0 <= i < |genres| && r[k] == CategoryOf(db, genres[i], root)
  {
    if genres != [] {
      var n := |genres| - 1;
      var front := genres[..n];
      CategoriesForSound(db, front, root);
      CategoriesForStep(db, genres, root);
      var prev := CategoriesFor(db, front, root);
      var r := CategoriesFor(db, genres, root);
      forall k | 0 <= k < |r|
        ensures |r[k].items| > 0 && exists i :: 0 <= i < |genres| && r[k] == CategoryOf(db, genres[i], root)
      {
        if k < |prev| {
          assert r[k] == prev[k];
          var i :| 0 <= i < |front| && prev[k] == CategoryOf(db, front[i], root);
          assert front[i] == genres[i];
        } else {
          assert r[k] == CategoryOf(db, genres[n], root);
        }
      }
    }
  }

  /** Every genre with items has its category among those built. */
  lemma {:induction false} CategoriesForComplete(db: Store, genres: seq<Genre>, root: string)
    ensures forall i :: 0 <= i < |genres| && |GenreItems(db, genres[i], root)| > 0 ==>
              CategoryOf(db, genres[i], root) in CategoriesFor(db, genres, root)
  {
    if genres != [] {
      var n := |genres| - 1;
      var front := genres[..n];
      CategoriesForComplete(db, front, root);
      CategoriesForStep(db, genres, root);
      var prev := CategoriesFor(db, front, root);
      var last := if |GenreItems(db, genres[n], root)| > 0 then [CategoryOf(db, genres[n], root)] else [];
      assert CategoriesFor(db, genres, root) == prev + last;
      forall i | 0 <= i < |genres| && |GenreItems(db, genres[i], root)| > 0
        ensures CategoryOf(db, genres[i], root) in prev + last
      {
        if i < n {
          assert front[i] == genres[i];
          assert CategoryOf(db, genres[i], root) in prev;
        } else {
          assert last == [CategoryOf(db, genres[i], root)];
        }
      }
    }
  }

  /** Genres sorted by name give categories sorted by name. */
  lemma {:induction false} CategoriesForSorted(db: Store, genres: seq<Genre>, root: string)
    requires Collation.SortedBy(genres, GenreName)
    ensures var r := CategoriesFor(db, genres, root);
            forall k, l :: 0 <= k < l < |r| ==> Collation.LexLe(r[k].category.name, r[l].category.name)
  {
    if genres != [] {
      var n := |genres| - 1;
      var front := genres[..n];
      assert Collation.SortedBy(front, GenreName);
      CategoriesForSorted(db, front, root);
      CategoriesForSound(db, front, root);
      CategoriesForStep(db, genres, root);
      var prev := CategoriesFor(db, front, root);
      var r := CategoriesFor(db, genres, root);
      forall k, l | 0 <= k < l < |r|
        ensures Collation.LexLe(r[k].category.name, r[l].category.name)
      {
        if l >= |prev| {
          assert r[k] == prev[k];
          var i :| 0 <= i < |front| && prev[k] == CategoryOf(db, front[i], root);
          assert front[i] == genres[i];
          assert r[k].category.name == genres[i].name && r[l].category.name == genres[n].name;
        } else {
          assert r[k] == prev[k] && r[l] == prev[l];
        }
      }
    }
  }

  /** The provider's categories are exactly the genres that have items, each
      once with its items, in name order; none is empty. */
  lemma ProviderCategoriesShape(db: Store, root: string)
    ensures var r := ProviderCategories(db, true, root);
            forall k :: 0 <= k < |r| ==>
              |r[k].items| > 0 && exists g :: g in db.genres && r[k] == CategoryOf(db, g, root)
    ensures forall g :: g in db.genres && |GenreItems(db, g, root)| > 0 ==>
              CategoryOf(db, g, root) in ProviderCategories(db, true, root)
    ensures var r := ProviderCategories(db, true, root);
            forall k, l :: 0 <= k < l < |r| ==> Collation.LexLe(r[k].category.name, r[l].category.name)
  {
    var sorted := GenresByName(db);
    GenresByNameProperties(db);
    CategoriesForComplete(db, sorted, root);
    CategoriesForSorted(db, sorted, root);
    var cats := CategoriesFor(db, sorted, root);
    assert ProviderCategories(db, true, root) == cats;
    forall k | 0 <= k < |cats|
      ensures |cats[k].items| > 0 && exists g :: g in db.genres && cats[k] == CategoryOf(db, g, root)
    {
      var i := CategorySource(db, sorted, root, k);
      assert sorted[i] in sorted;
      assert sorted[i] in db.genres;
    }
    forall g | g in db.genres && |GenreItems(db, g, root)| > 0
      ensures CategoryOf(db, g, root) in cats
    {
      assert g in sorted;
      var i := GenrePosition(sorted, g);
      assert CategoryOf(db, sorted[i], root) in cats;
    }
  }

  /** The genre a built category comes from. */
  lemma CategorySource(db: Store, genres: seq<Genre>, root: string, k: int) returns (i: int)
    requires 0 <= k < |CategoriesFor(db, genres, root)|
    ensures 0 <= i < |genres| && CategoriesFor(db, genres, root)[k] == CategoryOf(db, genres[i], root)
    ensures |CategoriesFor(db, genres, root)[k].items| > 0
  {
    CategoriesForSound(db, genres, root);
    var r := CategoriesFor(db, genres, root);
    assert |r[k].items| > 0 && exists j :: 0 <= j < |genres| && r[k] == CategoryOf(db, genres[j], root);
    i :| 0 <= i < |genres| && r[k] == CategoryOf(db, genres[i], root);
  }

  lemma GenrePosition(genres: seq<Genre>, g: Genre) returns (i: int)
    requires g in genres
    ensures 0 <= i < |genres| && genres[i] == g
  {
    i :| 0 <= i < |genres| && genres[i] == g;
  }

  /** `itemsForGenre`. */
  method ItemsForGenre(db: Store, g: Genre, root: string) returns (items: seq<RawMediaItem>)
    ensures items == GenreItems(db, g, root)
  {
    var rows := GenreTitleRows(db, g.id);
    items := BuildRows(rows, g.name, root);
  }

  /** The `while (query.next())` loop of `itemsForGenre`. */
  method BuildRows(rows: seq<TitleRow>, genreName: string, root: string) returns (items: seq<RawMediaItem>)
    ensures items == BuildItems(rows, genreName, root)
  {
    items := [];
    var k := 0;
    while k < |rows|
      invariant 0 <= k <= |rows| && |items| == k
      invariant forall j :: 0 <= j < k ==> items[j] == BuildItem(rows[j], genreName, root)
    {
      items := items + [BuildItem(rows[k], genreName, root)];
      k := k + 1;
    }
  }

  /** `fetchCategories`, row by row over the genres in name order. */
  method FetchCategories(db: Store, open: bool, root: string) returns (result: seq<CategoryWithItems>)
    ensures result == ProviderCategories(db, open, root)
  {
    result := [];
    if !open {
      return;
    }
    var genres := GenresByName(db);
    var i := 0;
    while i < |genres|
      invariant 0 <= i <= |genres|
      invariant result == CategoriesFor(db, genres[..i], root)
    {
      var g := genres[i];
      var items := ItemsForGenre(db, g, root);
      if |items| > 0 {
        result := result + [CategoryWithItems(RawCategory(g.id, g.name), items)];
      }
      assert genres[..i + 1][..i] == genres[..i];
      i := i + 1;
    }
    assert genres[..i] == genres;
  }

  /** What a wired SQL provider answers. */
  function SqlOutput(db: Store, open: bool, root: string): ProviderOutput {
    ProviderOutput(FetchFeatured(db, open, root), ProviderCategories(db, open, root))
  }

  /** Over a store with titles, the cached featured item's genre is the
      newest title's stored video path rather than a genre name. */
  lemma ServiceFeaturedGenre(db: Store, root: string)
    requires db.titles != []
    ensures var hero := HeroRow(db).value;
            SnapshotOf(true, SqlOutput(db, true, root)).featured.genre == hero.videoUrl
  {
  }
}
