/** The older catalog loader, `StreamingDataModel`: it reads the store
    directly, keeps media paths as stored, and falls back to the first
    category's first item when the featured item has an empty title. Its
    items carry no type. `ready` says whether the database could be prepared
    and opened; `genresOk` whether the genre listing query runs. */
module LegacyModel {
  import opened Text
  import opened QtFormat
  import opened Store
  import Collation
  import Catalog
  import SqlProvider
  import Seqs

  datatype LegacyItem = LegacyItem(
    title: string, genre: string, duration: string, rating: string,
    description: string, accentColor: string, thumbnailUrl: string, videoUrl: string)

  datatype LegacyCategory = LegacyCategory(name: string, items: seq<LegacyItem>)

  const EmptyLegacyItem := LegacyItem("", "", "", "", "", "", "", "")

  /** `StreamingDataModel::formatDuration`, assembled with `QString::arg`;
      an integer argument is its decimal numeral. It agrees with the
      service's formatter on every input. */
  function LegacyFormatDuration(minutes: int): (r: string)
    ensures r == Catalog.FormatDuration(minutes)
  {
    if minutes <= 0 then ""
    else
      var hours := minutes / 60;
      var mins := minutes % 60;
      if hours == 0 then
        ArgUnit('m', NatToString(minutes));
        Arg("%1m", NatToString(minutes))
      else if mins > 0 then
        DigitsPercentFree(NatToString(hours));
        ArgHoursMinutes(NatToString(hours), NatToString(mins));
        Arg(Arg("%1h %2m", NatToString(hours)), NatToString(mins))
      else
        ArgUnit('h', NatToString(hours));
        Arg("%1h", NatToString(hours))
  }

  /** `buildItemFromQuery`: the row's columns as stored, no URL conversion,
      and the genre the caller names. */
  function BuildLegacyItem(row: TitleRow, genreName: string): (r: LegacyItem)
    ensures r.title == row.name && r.genre == genreName
    ensures r.description == row.description && r.rating == row.ageRating
    ensures r.accentColor == row.accentColor
    ensures r.thumbnailUrl == row.thumbnailUrl && r.videoUrl == row.videoUrl
    ensures r.duration == Catalog.FormatDuration(row.runtimeMin)
  {
    LegacyItem(row.name, genreName, LegacyFormatDuration(row.runtimeMin), row.ageRating,
               row.description, row.accentColor, row.thumbnailUrl, row.videoUrl)
  }

  /** `itemsForGenre`: one item per linked title, newest first. */
  function LegacyItems(db: Store, g: Genre): (r: seq<LegacyItem>)
    ensures |r| == |GenreTitleRows(db, g.id)|
  {
    BuildLegacyItems(GenreTitleRows(db, g.id), g.name)
  }

  /** One item per row, in the rows' order. */
  function BuildLegacyItems(rows: seq<TitleRow>, genreName: string): (r: seq<LegacyItem>)
    ensures |r| == |rows|
  {
    Seqs.Map(rows, (row: TitleRow) => BuildLegacyItem(row, genreName))
  }

  /** The categories appended for `genres`, in order, empty ones skipped. */
  function LegacyCategoriesFor(db: Store, genres: seq<Genre>): seq<LegacyCategory> {
    if genres == [] then []
    else
      var g := genres[|genres| - 1];
      LegacyCategoriesFor(db, genres[..|genres| - 1])
        + (if |LegacyItems(db, g)| > 0 then [LegacyCategory(g.name, LegacyItems(db, g))] else [])
  }

  /** The item the hero query yields, genre taken from column 8. */
  function HeroItem(db: Store): LegacyItem {
    match HeroRow(db)
    case None => EmptyLegacyItem
    case Some(row) => BuildLegacyItem(row, row.videoUrl)
  }

  /** The model's state after `loadData`. */
  datatype LegacyState = LegacyState(featured: LegacyItem, categories: seq<LegacyCategory>)

  function LoadedState(db: Store, ready: bool, genresOk: bool): LegacyState {
    if !ready then LegacyState(EmptyLegacyItem, [])
    else if !genresOk then LegacyState(HeroItem(db), [])
    else
      var cats := LegacyCategoriesFor(db, GenresByName(db));
      var hero := HeroItem(db);
      if hero.title == [] && |cats| > 0 && |cats[0].items| > 0
      then LegacyState(cats[0].items[0], cats)
      else LegacyState(hero, cats)
  }

  /** The legacy loader lists the same categories, in the same order and
      with as many items each, as the SQL provider does over the same
      store. */
  lemma {:induction false} LegacyMatchesProvider(db: Store, genres: seq<Genre>, root: string)
    ensures var legacy := LegacyCategoriesFor(db, genres);
            var provided := SqlProvider.CategoriesFor(db, genres, root);
            |legacy| == |provided|
            && forall k :: 0 <= k < |legacy| ==>
                 legacy[k].name == provided[k].category.name && |legacy[k].items| == |provided[k].items|
  {
    if genres != [] {
      var n := |genres| - 1;
      LegacyMatchesProvider(db, genres[..n], root);
      SqlProvider.CategoriesForStep(db, genres, root);
    }
  }

  /** Every category the loader keeps has items, they come in name order,
      and every genre with a linked title is present. */
  lemma LoadedCategories(db: Store, root: string)
    ensures var cats := LoadedState(db, true, true).categories;
            (forall k :: 0 <= k < |cats| ==> |cats[k].items| > 0)
            && (forall k, l :: 0 <= k < l < |cats| ==> Collation.LexLe(cats[k].name, cats[l].name))
            && |cats| == |SqlProvider.ProviderCategories(db, true, root)|
  {
    LegacyMatchesProvider(db, GenresByName(db), root);
    SqlProvider.ProviderCategoriesShape(db, root);
    var cats := LoadedState(db, true, true).categories;
    var provided := SqlProvider.ProviderCategories(db, true, root);
    assert cats == LegacyCategoriesFor(db, GenresByName(db));
    assert provided == SqlProvider.CategoriesFor(db, GenresByName(db), root);
    forall k | 0 <= k < |cats| ensures |cats[k].items| > 0 {
      assert |provided[k].items| > 0;
    }
    forall k, l | 0 <= k < l < |cats| ensures Collation.LexLe(cats[k].name, cats[l].name) {
      assert cats[k].name == provided[k].category.name && cats[l].name == provided[l].category.name;
    }
  }

  /** A database that cannot be prepared or opened leaves the model empty,
      and a failing genre listing leaves no categories. */
  lemma EarlyFailureLeavesEmpty(db: Store, ready: bool, genresOk: bool)
    ensures !ready ==> LoadedState(db, ready, genresOk) == LegacyState(EmptyLegacyItem, [])
    ensures ready && !genresOk ==> LoadedState(db, ready, genresOk).categories == []
  {
  }

  /** The fallback is keyed on an empty title: a newest title whose name is
      empty is replaced by the first listed item, while a named one stays,
      and then its genre is its stored video path. */
  lemma FeaturedFallback(db: Store)
    ensures var s := LoadedState(db, true, true);
            HeroItem(db).title != [] ==> s.featured == HeroItem(db)
    ensures var s := LoadedState(db, true, true);
            HeroItem(db).title == [] && |s.categories| > 0 && |s.categories[0].items| > 0 ==>
              s.featured == s.categories[0].items[0]
    ensures db.titles != [] ==> HeroItem(db).genre == HeroItem(db).videoUrl
  {
  }

  /** Unlike the service, which falls back only when no featured item
      exists, the loader also replaces a newest title that exists but has an
      empty name. */
  lemma FallbackOnEmptyName(db: Store, root: string)
    requires db.titles != [] && db.titles[|db.titles| - 1].name == []
    requires |LoadedState(db, true, true).categories| > 0
    ensures var s := LoadedState(db, true, true);
            |s.categories[0].items| > 0 && s.featured == s.categories[0].items[0]
    ensures Catalog.SnapshotOf(true, SqlProvider.SqlOutput(db, true, root)).featured
            == Catalog.ToMediaItem(SqlProvider.FetchFeatured(db, true, root).value)
  {
    assert HeroRow(db).value == RowOf(db, db.titles[|db.titles| - 1]);
    assert HeroItem(db).title == [];
    LoadedCategories(db, root);
    var cats := LegacyCategoriesFor(db, GenresByName(db));
    assert LoadedState(db, true, true) == LegacyState(cats[0].items[0], cats);
    var out := SqlProvider.SqlOutput(db, true, root);
    assert out.featured.Some?;
    assert Catalog.SnapshotOf(true, out).featured == Catalog.ToMediaItem(out.featured.value);
  }

  class StreamingDataModel {
    var featured: LegacyItem
    var categories: seq<LegacyCategory>

    /** The constructor loads once. */
    constructor (db: Store, ready: bool, genresOk: bool)
      ensures LegacyState(featured, categories) == LoadedState(db, ready, genresOk)
    {
      featured := EmptyLegacyItem;
      categories := [];
      new;
      LoadData(db, ready, genresOk);
    }

    /** `itemsForGenre`, row by row. */
    static method ItemsForGenre(db: Store, g: Genre) returns (items: seq<LegacyItem>)
      ensures items == LegacyItems(db, g)
    {
      var rows := GenreTitleRows(db, g.id);
      items := [];
      var k := 0;
      while k < |rows|
        invariant 0 <= k <= |rows|
        invariant items == BuildLegacyItems(rows[..k], g.name)
      {
        Seqs.MapSnoc(rows, k, (row: TitleRow) => BuildLegacyItem(row, g.name));
        items := items + [BuildLegacyItem(rows[k], g.name)];
        k := k + 1;
      }
      assert rows[..k] == rows;
    }

    /** The genre loop of `loadData`: a category per genre with items, in
        the genres' order. */
    static method CategoriesFor(db: Store, genres: seq<Genre>) returns (cats: seq<LegacyCategory>)
      ensures cats == LegacyCategoriesFor(db, genres)
    {
      cats := [];
      var i := 0;
      while i < |genres|
        invariant 0 <= i <= |genres|
        invariant cats == LegacyCategoriesFor(db, genres[..i])
      {
        var g := genres[i];
        var items := ItemsForGenre(db, g);
        if |items| > 0 {
          cats := cats + [LegacyCategory(g.name, items)];
        }
        assert genres[..i + 1][..i] == genres[..i];
        i := i + 1;
      }
      assert genres[..i] == genres;
    }

    /** `loadData`: resets both fields, then fills them from the store. */
    method LoadData(db: Store, ready: bool, genresOk: bool)
      modifies this
      ensures LegacyState(featured, categories) == LoadedState(db, ready, genresOk)
    {
      categories := [];
      featured := EmptyLegacyItem;
      if !ready {
        return;
      }
      var hero := HeroRow(db);
      if hero.Some? {
        featured := BuildLegacyItem(hero.value, hero.value.videoUrl);
      }
      if !genresOk {
        return;
      }
      categories := CategoriesFor(db, GenresByName(db));
      if featured.title == [] && |categories| > 0 && |categories[0].items| > 0 {
        featured := categories[0].items[0];
      }
    }

    /** `featuredItem()`. */
    method FeaturedItem() returns (item: LegacyItem)
      ensures item == featured
    {
      item := featured;
    }

    /** `categories()`. */
    method Categories() returns (list: seq<LegacyCategory>)
      ensures list == categories
    {
      list := categories;
    }
  }
}
