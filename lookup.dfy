/**
 * `find_level`, `find_year` and `find_hymn` (app/content_loader.py:236-254):
 * a linear scan that returns the first element with the given slug, or None.
 */
module Lookup {
  import opened Wrappers
  import opened Content

  /** The scan the three lookups share: the first element whose slug is `slug`, or None when none has it. */
  method FindFirst<T>(xs: seq<T>, slugOf: T -> string, slug: string) returns (r: Option<T>)
    ensures r.None? <==> forall i :: 0 <= i < |xs| ==> slugOf(xs[i]) != slug
    ensures r.Some? ==> exists i :: 0 <= i < |xs| && xs[i] == r.value && slugOf(xs[i]) == slug
                                    && forall j :: 0 <= j < i ==> slugOf(xs[j]) != slug
  {
    var i := 0;
    while i < |xs|
      invariant 0 <= i <= |xs|
      invariant forall j :: 0 <= j < i ==> slugOf(xs[j]) != slug
    {
      if slugOf(xs[i]) == slug {
        return Some(xs[i]);
      }
      i := i + 1;
    }
    return None;
  }

  /** `find_level(site, slug)`. */
  method FindLevel(site: Site, slug: string) returns (r: Option<Level>)
    ensures r.None? <==> forall i :: 0 <= i < |site.levels| ==> site.levels[i].slug != slug
    ensures r.Some? ==> r.value.slug == slug
    ensures r.Some? ==>
      exists i :: 0 <= i < |site.levels| && site.levels[i] == r.value && forall j :: 0 <= j < i ==> site.levels[j].slug != slug
  {
    r := FindFirst(site.levels, (l: Level) => l.slug, slug);
  }

  /** `find_year(level, slug)`. */
  method FindYear(level: Level, slug: string) returns (r: Option<Year>)
    ensures r.None? <==> forall i :: 0 <= i < |level.years| ==> level.years[i].slug != slug
    ensures r.Some? ==> r.value.slug == slug
    ensures r.Some? ==>
      exists i :: 0 <= i < |level.years| && level.years[i] == r.value && forall j :: 0 <= j < i ==> level.years[j].slug != slug
  {
    r := FindFirst(level.years, (y: Year) => y.slug, slug);
  }

  /** `find_hymn(year, slug)`. */
  method FindHymn(year: Year, slug: string) returns (r: Option<Hymn>)
    ensures r.None? <==> forall i :: 0 <= i < |year.hymns| ==> year.hymns[i].slug != slug
    ensures r.Some? ==> r.value.slug == slug
    ensures r.Some? ==>
      exists i :: 0 <= i < |year.hymns| && year.hymns[i] == r.value && forall j :: 0 <= j < i ==> year.hymns[j].slug != slug
  {
    r := FindFirst(year.hymns, (h: Hymn) => h.slug, slug);
  }
}
