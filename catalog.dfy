/** The catalog cache: `StreamingService` keeps the featured item and the
    category list computed by its last `reload` from an `IDataProvider`. */
module Catalog {
  import opened Options
  import opened Text

  /** What the provider hands over (`RawMediaItem`); `kind` is the source's `type`. */
  datatype RawMediaItem = RawMediaItem(
    kind: string, title: string, genre: string, durationMinutes: int,
    rating: string, description: string, accentColor: string,
    thumbnailUrl: string, videoUrl: string)

  datatype RawCategory = RawCategory(id: int, name: string)

  datatype CategoryWithItems = CategoryWithItems(category: RawCategory, items: seq<RawMediaItem>)

  /** What the presentation layer receives (`MediaItem`). */
  datatype MediaItem = MediaItem(
    kind: string, title: string, genre: string, duration: string,
    rating: string, description: string, accentColor: string,
    thumbnailUrl: string, videoUrl: string)

  datatype MediaCategory = MediaCategory(name: string, items: seq<MediaItem>)

  /** The value-initialised `MediaItem{}`: every field empty. */
  const EmptyItem := MediaItem("", "", "", "", "", "", "", "", "")

  /** The provider's answers at the moment of a reload: `fetchFeatured()` and
      `fetchCategories()`. */
  datatype ProviderOutput = ProviderOutput(featured: Option<RawMediaItem>, categories: seq<CategoryWithItems>)

  /** The cached pair `(m_featured, m_categories)`. */
  datatype Snapshot = Snapshot(featured: MediaItem, categories: seq<MediaCategory>)

  // ---------------------------------------------------------------------------
  // Duration formatting and its inverse

  /** `StreamingService::formatDuration`. For positive minutes C++'s truncating
      `/` and `%` agree with Dafny's. */
  function FormatDuration(minutes: int): (r: string)
    ensures r == [] <==> minutes <= 0
    ensures r != [] ==> r[|r| - 1] == 'm' || r[|r| - 1] == 'h'
  {
    if minutes <= 0 then ""
    else
      var hours := minutes / 60;
      var mins := minutes % 60;
      if hours == 0 then NatToString(minutes) + "m"
      else if mins > 0 then NatToString(hours) + "h " + NatToString(mins) + "m"
      else NatToString(hours) + "h"
  }

  /** Reads a formatted duration back into minutes: "{m}m", "{h}h" or "{h}h {m}m". */
  function ParseDuration(s: string): (r: Option<int>)
    ensures r.Some? ==> r.value >= 0 && s != []
  {
    match IndexOf(s, 'h')
    case None => ParseMinutes(s)
    case Some(k) =>
      var hours := s[..k];
      if hours == [] || !AllDigits(hours) then None
      else match ParseTail(s[k + 1..])
        case None => None
        case Some(m) => Some(60 * ParseNat(hours) + m)
  }

  /** "{m}m": digits and a final 'm'. */
  function ParseMinutes(s: string): Option<int> {
    if |s| >= 2 && s[|s| - 1] == 'm' && AllDigits(s[..|s| - 1])
    then Some(ParseNat(s[..|s| - 1])) else None
  }

  /** What follows the 'h': nothing, or a space and "{m}m". */
  function ParseTail(rest: string): Option<int> {
    if rest == [] then Some(0)
    else if |rest| >= 3 && rest[0] == ' ' then ParseMinutes(rest[1..])
    else None
  }

  lemma IndexOfAfterDigits(d: string, tail: string)
    requires AllDigits(d) && tail != [] && tail[0] == 'h'
    ensures IndexOf(d + tail, 'h') == Some(|d|)
  {
    var s := d + tail;
    assert s[|d|] == 'h';
    assert forall k :: 0 <= k < |d| ==> s[k] == d[k] && IsDigit(s[k]);
  }

  lemma ParseMinutesOf(d: string)
    requires d != [] && AllDigits(d)
    ensures ParseMinutes(d + "m") == Some(ParseNat(d))
  {
    assert (d + "m")[..|d|] == d;
  }

  lemma ParseTailOf(m: string)
    requires m != [] && AllDigits(m)
    ensures ParseTail(" " + m + "m") == Some(ParseNat(m))
  {
    var rest := " " + m + "m";
    assert rest[1..] == m + "m";
    ParseMinutesOf(m);
  }

  lemma ParseMinutesOnly(minutes: int)
    requires 0 < minutes < 60
    ensures ParseDuration(FormatDuration(minutes)) == Some(minutes)
  {
    var d := NatToString(minutes);
    var s := FormatDuration(minutes);
    assert s == d + "m";
    assert forall k :: 0 <= k < |s| ==> s[k] != 'h' by {
      forall k | 0 <= k < |s| ensures s[k] != 'h' {
        if k < |d| { assert s[k] == d[k]; }
      }
    }
    ParseMinutesOf(d);
    ParseNatToString(minutes);
  }

  lemma ParseWholeHours(minutes: int)
    requires minutes >= 60 && minutes % 60 == 0
    ensures ParseDuration(FormatDuration(minutes)) == Some(minutes)
  {
    var h := NatToString(minutes / 60);
    var s := FormatDuration(minutes);
    assert s == h + "h";
    ParseAtHour(s, h, [], 0);
    ParseNatToString(minutes / 60);
  }

  lemma ParseHoursMinutesText(s: string, h: string, m: string)
    requires h != [] && AllDigits(h) && m != [] && AllDigits(m)
    requires s == h + "h " + m + "m"
    ensures ParseDuration(s) == Some(60 * ParseNat(h) + ParseNat(m))
  {
    var rest := HoursMinutesSplit(s, h, m);
    ParseAtHour(s, h, rest, ParseNat(m));
  }

  /** "{h}h {m}m" is the hours, an 'h' and a tail that reads as `m`. */
  lemma HoursMinutesSplit(s: string, h: string, m: string) returns (rest: string)
    requires m != [] && AllDigits(m)
    requires s == h + "h " + m + "m"
    ensures s == h + ['h'] + rest && ParseTail(rest) == Some(ParseNat(m))
  {
    rest := " " + m + "m";
    ParseTailOf(m);
  }

  /** A string of digits, an 'h' and a tail splits at that 'h'. */
  lemma SplitAtHour(s: string, h: string, rest: string)
    requires AllDigits(h) && s == h + ['h'] + rest
    ensures IndexOf(s, 'h') == Some(|h|) && s[..|h|] == h && s[|h| + 1..] == rest
  {
    assert s == h + (['h'] + rest);
    IndexOfAfterDigits(h, ['h'] + rest);
  }

  /** Hours, an 'h' and a readable tail read as the hours in minutes plus
      the tail's minutes. */
  lemma ParseAtHour(s: string, h: string, rest: string, tail: int)
    requires h != [] && AllDigits(h) && s == h + ['h'] + rest
    requires ParseTail(rest) == Some(tail)
    ensures ParseDuration(s) == Some(60 * ParseNat(h) + tail)
  {
    SplitAtHour(s, h, rest);
  }

  lemma ParseHoursAndMinutes(minutes: int)
    requires minutes >= 60 && minutes % 60 != 0
    ensures ParseDuration(FormatDuration(minutes)) == Some(minutes)
  {
    var hours, mins := minutes / 60, minutes % 60;
    ParseHoursMinutesText(FormatDuration(minutes), NatToString(hours), NatToString(mins));
    ParseNatToString(hours);
    ParseNatToString(mins);
  }

  /** The formatted duration is empty exactly for non-positive minutes, and a
      non-empty one reads back to the minutes it was made from: formatting
      loses nothing and two different running times never look alike. */
  lemma FormatDurationRoundTrip(minutes: int)
    ensures FormatDuration(minutes) == "" <==> minutes <= 0
    ensures minutes > 0 ==> ParseDuration(FormatDuration(minutes)) == Some(minutes)
  {
    if 0 < minutes < 60 {
      ParseMinutesOnly(minutes);
    } else if minutes >= 60 && minutes % 60 == 0 {
      ParseWholeHours(minutes);
    } else if minutes >= 60 {
      ParseHoursAndMinutes(minutes);
    }
  }

  /** The four shapes of a formatted duration. */
  lemma FormatDurationShapes(minutes: int)
    ensures minutes <= 0 ==> FormatDuration(minutes) == ""
    ensures 0 < minutes < 60 ==> FormatDuration(minutes) == NatToString(minutes) + "m"
    ensures minutes > 0 && minutes % 60 == 0 ==> FormatDuration(minutes) == NatToString(minutes / 60) + "h"
    ensures minutes > 60 && minutes % 60 != 0 ==>
      FormatDuration(minutes) == NatToString(minutes / 60) + "h " + NatToString(minutes % 60) + "m"
  {
  }

  /** The examples 45, 60, 90 and 125 minutes. */
  lemma FormatDurationExamples()
    ensures FormatDuration(45) == "45m" && FormatDuration(60) == "1h"
    ensures FormatDuration(90) == "1h 30m" && FormatDuration(125) == "2h 5m"
  {
    assert FormatDuration(45) == "45m" by {
      assert NatToString(45) == NatToString(4) + [DigitChar(5)];
    }
    assert FormatDuration(60) == NatToString(1) + "h";
    assert FormatDuration(90) == "1h 30m" by {
      assert NatToString(30) == NatToString(3) + [DigitChar(0)];
    }
    assert FormatDuration(125) == NatToString(2) + "h " + NatToString(5) + "m";
  }

  // ---------------------------------------------------------------------------
  // Item conversion

  /** `StreamingService::toMediaItem`: every field passes through, the running
      time becomes its formatted duration. */
  function ToMediaItem(raw: RawMediaItem): (r: MediaItem)
    ensures r.kind == raw.kind && r.title == raw.title && r.genre == raw.genre
    ensures r.description == raw.description && r.rating == raw.rating
    ensures r.accentColor == raw.accentColor && r.thumbnailUrl == raw.thumbnailUrl
    ensures r.videoUrl == raw.videoUrl
    ensures r.duration == FormatDuration(raw.durationMinutes)
    ensures raw.durationMinutes > 0 ==> ParseDuration(r.duration) == Some(raw.durationMinutes)
    ensures raw.durationMinutes <= 0 ==> r.duration == ""
  {
    FormatDurationRoundTrip(raw.durationMinutes);
    MediaItem(raw.kind, raw.title, raw.genre, FormatDuration(raw.durationMinutes),
              raw.rating, raw.description, raw.accentColor, raw.thumbnailUrl, raw.videoUrl)
  }

  function ConvertItems(items: seq<RawMediaItem>): seq<MediaItem> {
    seq(|items|, k requires 0 <= k < |items| => ToMediaItem(items[k]))
  }

  function ToMediaCategory(c: CategoryWithItems): MediaCategory {
    MediaCategory(c.category.name, ConvertItems(c.items))
  }

  // ---------------------------------------------------------------------------
  // The snapshot a reload computes

  /** Converted categories, empty ones dropped, in provider order. */
  function CachedCategories(raw: seq<CategoryWithItems>): seq<MediaCategory> {
    if raw == [] then []
    else
      var last := raw[|raw| - 1];
      CachedCategories(raw[..|raw| - 1]) + (if |last.items| > 0 then [ToMediaCategory(last)] else [])
  }

  /** The provider's featured item if any, otherwise the first item of the
      first cached category, otherwise the empty item. */
  function CachedFeatured(featured: Option<RawMediaItem>, cached: seq<MediaCategory>): MediaItem {
    match featured
    case Some(raw) => ToMediaItem(raw)
    case None =>
      if |cached| > 0 && |cached[0].items| > 0 then cached[0].items[0] else EmptyItem
  }

  /** What `reload` leaves behind, given whether a provider is wired and what
      it answers. */
  function SnapshotOf(hasProvider: bool, out: ProviderOutput): Snapshot {
    if !hasProvider then Snapshot(EmptyItem, [])
    else
      var cached := CachedCategories(out.categories);
      Snapshot(CachedFeatured(out.featured, cached), cached)
  }

  /** Positions of the provider's non-empty categories, ascending. */
  function KeptIndices(raw: seq<CategoryWithItems>): (r: seq<nat>)
    ensures forall k :: 0 <= k < |r| ==> r[k] < |raw| && |raw[r[k]].items| > 0
  {
    if raw == [] then []
    else
      var n := |raw| - 1;
      KeptIndices(raw[..n]) + (if |raw[n].items| > 0 then [n] else [])
  }

  /** The kept indices rise strictly and miss no non-empty category. */
  lemma {:induction false} KeptIndicesOrdered(raw: seq<CategoryWithItems>)
    ensures forall k, l :: 0 <= k < l < |KeptIndices(raw)| ==> KeptIndices(raw)[k] < KeptIndices(raw)[l]
    ensures forall i :: 0 <= i < |raw| && |raw[i].items| > 0 ==> i in KeptIndices(raw)
  {
    if raw != [] {
      var n := |raw| - 1;
      KeptIndicesOrdered(raw[..n]);
      var front := KeptIndices(raw[..n]);
      var r := KeptIndices(raw);
      assert r == front + (if |raw[n].items| > 0 then [n] else []);
      forall k, l | 0 <= k < l < |r| ensures r[k] < r[l] {
        if l < |front| {
          assert r[k] == front[k] && r[l] == front[l];
        } else {
          assert l == |front| && r[l] == n;
          assert r[k] == front[k] && front[k] < |raw[..n]|;
        }
      }
      forall i | 0 <= i < |raw| && |raw[i].items| > 0 ensures i in r {
        if i < n {
          assert raw[..n][i] == raw[i];
          assert i in front;
        }
      }
    }
  }

  /** No cached category is empty. */
  lemma {:induction false} CachedCategoriesNonEmpty(raw: seq<CategoryWithItems>)
    ensures forall c :: c in CachedCategories(raw) ==> |c.items| > 0
  {
    if raw != [] {
      CachedCategoriesNonEmpty(raw[..|raw| - 1]);
    }
  }

  /** The cached categories are exactly the provider's non-empty categories,
      in the provider's order, each with its name and one converted item per
      raw item in the same order. */
  lemma {:induction false} CachedCategoriesSelect(raw: seq<CategoryWithItems>)
    ensures |CachedCategories(raw)| == |KeptIndices(raw)|
    ensures forall k :: 0 <= k < |KeptIndices(raw)| ==>
      CachedCategories(raw)[k] == ToMediaCategory(raw[KeptIndices(raw)[k]])
  {
    if raw != [] {
      var n := |raw| - 1;
      CachedCategoriesSelect(raw[..n]);
      var kept := KeptIndices(raw[..n]);
      var cached := CachedCategories(raw[..n]);
      var all, out := KeptIndices(raw), CachedCategories(raw);
      if |raw[n].items| > 0 {
        assert all == kept + [n] && out == cached + [ToMediaCategory(raw[n])];
      } else {
        assert all == kept && out == cached;
      }
      forall k | 0 <= k < |all| ensures out[k] == ToMediaCategory(raw[all[k]]) {
        if k < |kept| {
          assert out[k] == cached[k] && all[k] == kept[k];
          assert raw[..n][kept[k]] == raw[kept[k]];
        }
      }
    }
  }

  /** Without a provider the snapshot is the empty item and no categories. */
  lemma NoProviderSnapshot(out: ProviderOutput)
    ensures SnapshotOf(false, out) == Snapshot(EmptyItem, [])
  {
  }

  /** The featured item is the converted provider item when there is one;
      otherwise the first item of the first cached category, which is the
      first item of the first non-empty provider category; otherwise empty. */
  lemma FeaturedSelection(out: ProviderOutput)
    ensures out.featured.Some? ==> SnapshotOf(true, out).featured == ToMediaItem(out.featured.value)
    ensures out.featured.None? && |KeptIndices(out.categories)| > 0 ==>
      SnapshotOf(true, out).featured
        == ToMediaItem(out.categories[KeptIndices(out.categories)[0]].items[0])
    ensures out.featured.None? && |KeptIndices(out.categories)| == 0 ==>
      SnapshotOf(true, out).featured == EmptyItem
  {
    CachedCategoriesSelect(out.categories);
  }

  // ---------------------------------------------------------------------------
  // The service object

  class StreamingService {
    /** Whether an `IDataProvider` was handed to the constructor. */
    const hasProvider: bool
    var featured: MediaItem
    var categories: seq<MediaCategory>

    /** The constructor stores the provider and performs one reload. */
    constructor (hasProvider: bool, out: ProviderOutput)
      ensures this.hasProvider == hasProvider
      ensures Snapshot(featured, categories) == SnapshotOf(hasProvider, out)
    {
      this.hasProvider := hasProvider;
      featured := EmptyItem;
      categories := [];
      new;
      Reload(out);
    }

    /** `reload`: clears the cache, then rebuilds it from the provider's
        current answers. The new snapshot depends on nothing else, so two
        reloads over unchanged provider answers leave identical snapshots. */
    method Reload(out: ProviderOutput)
      modifies this
      ensures Snapshot(featured, categories) == SnapshotOf(hasProvider, out)
    {
      categories := [];
      featured := EmptyItem;
      if !hasProvider {
        return;
      }

      var raw := out.categories;
      var i := 0;
      while i < |raw|
        invariant 0 <= i <= |raw|
        invariant categories == CachedCategories(raw[..i])
        invariant featured == EmptyItem
      {
        var category := raw[i];
        var items := ConvertRow(category.items);
        if |items| > 0 {
          categories := categories + [MediaCategory(category.category.name, items)];
        }
        assert raw[..i + 1][..i] == raw[..i];
        i := i + 1;
      }
      assert raw[..i] == raw;

      match out.featured {
        case Some(f) =>
          featured := ToMediaItem(f);
        case None =>
          if |categories| > 0 && |categories[0].items| > 0 {
            featured := categories[0].items[0];
          }
      }
    }

    /** The inner loop of `reload`: each raw item converted, in order. */
    static method ConvertRow(raw: seq<RawMediaItem>) returns (items: seq<MediaItem>)
      ensures items == ConvertItems(raw)
    {
      items := [];
      var j := 0;
      while j < |raw|
        invariant 0 <= j <= |raw| && |items| == j
        invariant forall k :: 0 <= k < j ==> items[k] == ToMediaItem(raw[k])
      {
        items := items + [ToMediaItem(raw[j])];
        j := j + 1;
      }
    }

    /** `featuredItem()`: the stored item, the provider is not consulted. */
    method FeaturedItem() returns (item: MediaItem)
      ensures item == featured
    {
      item := featured;
    }

    /** `categories()`: the stored list, the provider is not consulted. */
    method Categories() returns (list: seq<MediaCategory>)
      ensures list == categories
    {
      list := categories;
    }
  }
}
