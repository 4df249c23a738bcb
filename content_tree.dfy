/**
 * The end of `_load_xlsx` (app/content_loader.py:206-214): every level's
 * years, every year's hymns and every hymn's segments are sorted, and so are
 * the levels; then the whole load, from workbook to site.
 *
 * The tables the passes built (the Phases module) are read as a tree: a
 * level's years are the year entries that name it, a year's hymns the hymn
 * entries that point at it, a hymn's recordings and segments the entries
 * that point at it, each list in the order the rows were appended before
 * it is sorted.
 */
module Assembly {
  import opened Wrappers
  import opened Sorting
  import opened Cells
  import opened Tables
  import opened Content
  import opened Phases
  import opened Seqs

  /** What the passes leave behind: the level, year and hymn tables, and the recordings and segments. */
  datatype Parts = Parts(levels: LevelTable, years: YearTable, hymns: HymnTable,
                         recordings: seq<RecordingEntry>, segments: seq<SegmentEntry>)

  // ----- sortedness of the tree -----

  ghost predicate HymnSorted(h: Hymn) {
    SortedBy(h.segments, SegmentKey)
  }

  ghost predicate YearSorted(y: Year) {
    SortedBy(y.hymns, HymnKey) && forall h :: h in y.hymns ==> HymnSorted(h)
  }

  ghost predicate LevelSorted(l: Level) {
    SortedBy(l.years, YearKey) && forall y :: y in l.years ==> YearSorted(y)
  }

  /** Languages by code; levels, and at every depth below them, by the keys `_load_xlsx` sorts with. */
  ghost predicate SiteSorted(s: Site) {
    && SortedBy(s.languages, LanguageKey)
    && SortedBy(s.levels, LevelKey)
    && forall l :: l in s.levels ==> LevelSorted(l)
  }

  // ----- the tree -----

  /** A hymn's recordings: those appended to it, in row order. */
  function RecordingsOf(p: Parts, hid: nat): (r: seq<Recording>)
    ensures forall x :: x in r <==> RecordingEntry(hid, x) in p.recordings
  {
    var mine := Filter(p.recordings, (e: RecordingEntry) => e.hymn == hid);
    var r := Map(mine, (e: RecordingEntry) => e.rec);
    assert forall x :: RecordingEntry(hid, x) in p.recordings ==> RecordingEntry(hid, x) in mine;
    r
  }

  /** A hymn's segments: those appended to it, sorted by start time (ties keep row order). */
  function SegmentsOf(p: Parts, hid: nat): (r: seq<Segment>)
    ensures SortedBy(r, SegmentKey)
    ensures forall x :: x in r <==> SegmentEntry(hid, x) in p.segments
  {
    var mine := Filter(p.segments, (e: SegmentEntry) => e.hymn == hid);
    var r := SortBy(Map(mine, (e: SegmentEntry) => e.seg), SegmentKey);
    SortBySorted(Map(mine, (e: SegmentEntry) => e.seg), SegmentKey);
    SortByMembers(Map(mine, (e: SegmentEntry) => e.seg), SegmentKey);
    assert forall x :: SegmentEntry(hid, x) in p.segments ==> SegmentEntry(hid, x) in mine;
    r
  }

  function HymnOf(p: Parts, hid: nat): (h: Hymn)
    requires hid < |p.hymns.entries|
    ensures HymnSorted(h)
  {
    var e := p.hymns.entries[hid];
    Hymn(e.slug, e.head.name, e.head.text, e.head.sort, RecordingsOf(p, hid), SegmentsOf(p, hid))
  }

  /** A year's hymns before sorting: those appended to it, in row order. */
  function HymnList(p: Parts, yid: nat): seq<Hymn> {
    var ids := Positions(p.hymns.entries, (e: HymnEntry) => e.year == yid);
    seq(|ids|, k requires 0 <= k < |ids| => HymnOf(p, ids[k]))
  }

  lemma HymnListMembers(p: Parts, yid: nat)
    ensures forall h :: h in HymnList(p, yid) ==> HymnSorted(h)
    ensures forall h :: h in HymnList(p, yid) <==>
      exists hid :: 0 <= hid < |p.hymns.entries| && p.hymns.entries[hid].year == yid && h == HymnOf(p, hid)
  {
    var ids := Positions(p.hymns.entries, (e: HymnEntry) => e.year == yid);
    var hs := HymnList(p, yid);
    forall hid | 0 <= hid < |p.hymns.entries| && p.hymns.entries[hid].year == yid
      ensures HymnOf(p, hid) in hs
    {
      var k :| 0 <= k < |ids| && ids[k] == hid;
      assert hs[k] == HymnOf(p, hid);
    }
  }

  /** A year's hymns: those appended to it, sorted by (sort, title). */
  function HymnsOf(p: Parts, yid: nat): (r: seq<Hymn>)
    ensures SortedBy(r, HymnKey)
    ensures forall h :: h in r ==> HymnSorted(h)
    ensures forall h :: h in r <==>
      exists hid :: 0 <= hid < |p.hymns.entries| && p.hymns.entries[hid].year == yid && h == HymnOf(p, hid)
  {
    var hs := HymnList(p, yid);
    HymnListMembers(p, yid);
    SortBySorted(hs, HymnKey);
    SortByMembers(hs, HymnKey);
    SortBy(hs, HymnKey)
  }

  function YearOf(p: Parts, yid: nat): (y: Year)
    requires yid < |p.years.entries|
    ensures YearSorted(y)
  {
    var e := p.years.entries[yid];
    Year(e.slug, e.head.name, e.head.text, e.head.sort, HymnsOf(p, yid))
  }

  /** A level's years before sorting: those appended to it, in row order. */
  function YearList(p: Parts, slug: string): seq<Year> {
    var ids := Positions(p.years.entries, (e: YearEntry) => e.level == slug);
    seq(|ids|, k requires 0 <= k < |ids| => YearOf(p, ids[k]))
  }

  lemma YearListMembers(p: Parts, slug: string)
    ensures forall y :: y in YearList(p, slug) ==> YearSorted(y)
    ensures forall y :: y in YearList(p, slug) <==>
      exists yid :: 0 <= yid < |p.years.entries| && p.years.entries[yid].level == slug && y == YearOf(p, yid)
  {
    var ids := Positions(p.years.entries, (e: YearEntry) => e.level == slug);
    var ys := YearList(p, slug);
    forall yid | 0 <= yid < |p.years.entries| && p.years.entries[yid].level == slug
      ensures YearOf(p, yid) in ys
    {
      var k :| 0 <= k < |ids| && ids[k] == yid;
      assert ys[k] == YearOf(p, yid);
    }
  }

  /** A level's years: those appended to it, sorted by (sort, name). */
  function YearsOf(p: Parts, slug: string): (r: seq<Year>)
    ensures SortedBy(r, YearKey)
    ensures forall y :: y in r ==> YearSorted(y)
    ensures forall y :: y in r <==>
      exists yid :: 0 <= yid < |p.years.entries| && p.years.entries[yid].level == slug && y == YearOf(p, yid)
  {
    var ys := YearList(p, slug);
    YearListMembers(p, slug);
    SortBySorted(ys, YearKey);
    SortByMembers(ys, YearKey);
    SortBy(ys, YearKey)
  }

  function LevelOf(p: Parts, slug: string): (l: Level)
    requires slug in p.levels.bySlug
    ensures LevelSorted(l)
  {
    var h := p.levels.bySlug[slug];
    Level(slug, h.name, h.text, h.sort, YearsOf(p, slug))
  }

  /** The levels before sorting, in first-insertion order of their slugs. */
  function LevelList(p: Parts): seq<Level>
    requires forall s :: s in p.levels.order ==> s in p.levels.bySlug
  {
    var order := p.levels.order;
    seq(|order|, k requires 0 <= k < |order| => LevelOf(p, order[k]))
  }

  lemma LevelListMembers(p: Parts)
    requires forall s :: s in p.levels.order ==> s in p.levels.bySlug
    ensures forall l :: l in LevelList(p) ==> LevelSorted(l)
    ensures forall l :: l in LevelList(p) <==> exists s :: s in p.levels.order && l == LevelOf(p, s)
  {
    var order := p.levels.order;
    var ls := LevelList(p);
    forall s | s in order ensures LevelOf(p, s) in ls {
      var k :| 0 <= k < |order| && order[k] == s;
      assert ls[k] == LevelOf(p, s);
    }
  }

  /** The levels, one per slug, sorted by (sort, name). */
  function LevelsOf(p: Parts): (r: seq<Level>)
    requires LevelsValid(p.levels)
    ensures SortedBy(r, LevelKey)
    ensures forall l :: l in r ==> LevelSorted(l)
    ensures forall l :: l in r <==> exists s :: s in p.levels.order && l == LevelOf(p, s)
    ensures forall a, b :: 0 <= a < b < |r| ==> r[a].slug != r[b].slug
  {
    var ls := LevelList(p);
    LevelListMembers(p);
    SortBySorted(ls, LevelKey);
    SortByMembers(ls, LevelKey);
    var r := SortBy(ls, LevelKey);
    LevelSlugsDistinct(p, r);
    r
  }

  /** No two levels of the sorted list share a slug, since `levels_by_slug` has each slug once. */
  lemma LevelSlugsDistinct(p: Parts, r: seq<Level>)
    requires LevelsValid(p.levels) && r == SortBy(LevelList(p), LevelKey)
    ensures forall a, b :: 0 <= a < b < |r| ==> r[a].slug != r[b].slug
  {
    var ls := LevelList(p);
    var slug := (l: Level) => l.slug;
    forall i, j | 0 <= i < j < |ls| ensures slug(ls[i]) != slug(ls[j]) {
      assert ls[i].slug == p.levels.order[i] && ls[j].slug == p.levels.order[j];
    }
    SortByDistinctBy(ls, LevelKey, slug);
  }

  // ----- the whole load -----

  /** The rows of every sheet, as the loader reads them. */
  function MetaRows(wb: Workbook): seq<MetaRow> { Map(Table(wb, "meta"), MetaRowOf) }
  function LanguageRows(wb: Workbook): seq<Option<Language>> { Map(Table(wb, "languages"), LanguageOf) }
  function LevelRows(wb: Workbook): seq<NodeRow> { Map(Table(wb, "levels"), LevelRowOf) }
  function YearRows(wb: Workbook): seq<NodeRow> { Map(Table(wb, "years"), YearRowOf) }
  function HymnRows(wb: Workbook): seq<NodeRow> { Map(Table(wb, "hymns"), HymnRowOf) }
  function RecordingRows(wb: Workbook): seq<LeafRow<RecordingItem>> { Map(Table(wb, "recordings"), RecordingRowOf) }
  function SegmentRows(wb: Workbook, codes: seq<string>): seq<LeafRow<Option<Segment>>> {
    Map(Table(wb, "segments"), (row: Row) => SegmentRowOf(codes, row))
  }

  /** `[l["code"] for l in site["languages"]]`. */
  function Codes(langs: seq<Language>): seq<string> {
    Map(langs, (l: Language) => l.code)
  }

  /** The keys the loader overwrites after reading the meta sheet. */
  const Overwritten: set<string> := {"languages", "levels"}

  /** The languages of the site: every row with a code, sorted by code. */
  function SiteLanguages(wb: Workbook): seq<Language> {
    SortBy(LanguagesPhase(LanguageRows(wb)), LanguageKey)
  }

  /** The rows of the five content sheets, as the loader reads them. */
  datatype Sheets = Sheets(levels: seq<NodeRow>, years: seq<NodeRow>, hymns: seq<NodeRow>,
                           recordings: seq<LeafRow<RecordingItem>>, segments: seq<LeafRow<Option<Segment>>>)

  /** The rows the passes run over; segment texts are read for the site's language codes. */
  function SheetsOf(wb: Workbook): Sheets {
    Sheets(LevelRows(wb), YearRows(wb), HymnRows(wb), RecordingRows(wb),
           SegmentRows(wb, Codes(SiteLanguages(wb))))
  }

  /** What the passes build from the sheets, in order, or the first ValueError. */
  function Passes(sh: Sheets): (r: Result<Parts, LoadError>)
    ensures r.Success? ==> LevelsValid(r.value.levels)
  {
    var levels :- LevelsPhase(sh.levels);
    var years :- YearsPhase(levels, sh.years);
    var hymns :- HymnsPhase(years, sh.hymns);
    var recordings :- RecordingsPhase(hymns, sh.recordings);
    var segments :- SegmentsPhase(hymns, sh.segments);
    Success(Parts(levels, years, hymns, recordings, segments))
  }

  function BuildParts(wb: Workbook): (r: Result<Parts, LoadError>)
    ensures r.Success? ==> LevelsValid(r.value.levels)
  {
    Passes(SheetsOf(wb))
  }

  /** `_load_xlsx(path)` on the workbook at path. */
  function BuildSite(wb: Workbook): (r: Result<Site, LoadError>)
    ensures r.Success? ==> SiteSorted(r.value)
  {
    var p :- BuildParts(wb);
    var langs := SiteLanguages(wb);
    SortBySorted(LanguagesPhase(LanguageRows(wb)), LanguageKey);
    Success(Site(MetaPhase(MetaRows(wb)) - Overwritten, langs, LevelsOf(p)))
  }

  /** `_load_xlsx`: the passes in order, then the sorting. */
  method LoadXlsx(wb: Workbook) returns (r: Result<Site, LoadError>)
    ensures r == BuildSite(wb)
  {
    var metaRows := ReadTable(wb, "meta");
    var meta := LoadMeta(Map(metaRows, MetaRowOf));
    var langRows := ReadTable(wb, "languages");
    var langs := LoadLanguages(Map(langRows, LanguageOf));
    var languages := SortBy(langs, LanguageKey);

    var levelRows := ReadTable(wb, "levels");
    var levels := LoadLevels(Map(levelRows, LevelRowOf));
    if levels.Failure? {
      return Failure(levels.error);
    }
    var yearRows := ReadTable(wb, "years");
    var years := LoadYears(levels.value, Map(yearRows, YearRowOf));
    if years.Failure? {
      return Failure(years.error);
    }
    var hymnRows := ReadTable(wb, "hymns");
    var hymns := LoadHymns(years.value, Map(hymnRows, HymnRowOf));
    if hymns.Failure? {
      return Failure(hymns.error);
    }
    var recordingRows := ReadTable(wb, "recordings");
    var recordings := LoadRecordings(hymns.value, Map(recordingRows, RecordingRowOf));
    if recordings.Failure? {
      return Failure(recordings.error);
    }
    var codes := Codes(languages);
    var segmentRows := ReadTable(wb, "segments");
    var segments := LoadSegments(hymns.value, Map(segmentRows, (row: Row) => SegmentRowOf(codes, row)));
    if segments.Failure? {
      return Failure(segments.error);
    }
    var p := Parts(levels.value, years.value, hymns.value, recordings.value, segments.value);
    return Success(Site(meta - Overwritten, languages, LevelsOf(p)));
  }

  // ----- where the tree comes from -----

  /** The parts of a successful load are what each pass built from its sheet. */
  lemma PassesParts(sh: Sheets, p: Parts)
    requires Passes(sh) == Success(p)
    ensures LevelsPhase(sh.levels) == Success(p.levels)
    ensures YearsPhase(p.levels, sh.years) == Success(p.years)
    ensures HymnsPhase(p.years, sh.hymns) == Success(p.hymns)
    ensures RecordingsPhase(p.hymns, sh.recordings) == Success(p.recordings)
    ensures SegmentsPhase(p.hymns, sh.segments) == Success(p.segments)
  {
  }

  /** Every level comes from a kept level row with its slug and fields. */
  lemma LevelTraces(sh: Sheets, p: Parts, l: Level)
    requires Passes(sh) == Success(p) && l in LevelsOf(p)
    ensures var vs := sh.levels;
      exists j :: 0 <= j < |vs| && LevelAccepted(vs[j])
        && vs[j].slug == l.slug && vs[j].head == Some(Head(l.name, l.description, l.sort))
  {
    PassesParts(sh, p);
    LevelsFromRows(sh.levels);
    var s :| s in p.levels.order && l == LevelOf(p, s);
  }

  /** Every kept level row gives a level with its slug. */
  lemma LevelRowShown(sh: Sheets, p: Parts, j: nat)
    requires Passes(sh) == Success(p)
    requires j < |sh.levels| && LevelAccepted(sh.levels[j])
    ensures exists l :: l in LevelsOf(p) && l.slug == sh.levels[j].slug
  {
    PassesParts(sh, p);
    LevelsFromRows(sh.levels);
    assert LevelOf(p, sh.levels[j].slug) in LevelsOf(p);
  }

  lemma YearOfIn(p: Parts, yid: nat)
    requires yid < |p.years.entries|
    ensures YearOf(p, yid) in YearsOf(p, p.years.entries[yid].level)
  {
  }

  lemma HymnOfIn(p: Parts, hid: nat)
    requires hid < |p.hymns.entries|
    ensures HymnOf(p, hid) in HymnsOf(p, p.hymns.entries[hid].year)
  {
  }

  /** Every year of a level comes from a kept year row naming that level. */
  lemma YearTraces(sh: Sheets, p: Parts, slug: string, y: Year)
    requires Passes(sh) == Success(p) && y in YearsOf(p, slug)
    ensures var vs := sh.years;
      exists j :: 0 <= j < |vs| && YearAccepted(p.levels, vs[j])
        && vs[j].parent == slug && vs[j].slug == y.slug
        && vs[j].head == Some(Head(y.name, y.description, y.sort))
  {
    PassesParts(sh, p);
    YearsFromRows(p.levels, sh.years);
    var yid :| 0 <= yid < |p.years.entries| && p.years.entries[yid].level == slug && y == YearOf(p, yid);
    assert p.years.entries[yid] in p.years.entries;
  }

  /** Every kept year row gives a year, with its slug, under the level it names. */
  lemma YearRowShown(sh: Sheets, p: Parts, j: nat)
    requires Passes(sh) == Success(p)
    requires j < |sh.years| && YearAccepted(p.levels, sh.years[j])
    ensures exists y :: y in YearsOf(p, sh.years[j].parent) && y.slug == sh.years[j].slug
  {
    PassesParts(sh, p);
    YearRowsKept(p.levels, sh.years);
    var v := sh.years[j];
    var yid :| 0 <= yid < |p.years.entries| && p.years.entries[yid] == YearEntry(v.parent, v.slug, v.head.value);
    YearOfIn(p, yid);
  }

  /** Every hymn of a year comes from a kept hymn row naming that year's slug. */
  lemma HymnTraces(sh: Sheets, p: Parts, yid: nat, h: Hymn)
    requires Passes(sh) == Success(p) && yid < |p.years.entries| && h in HymnsOf(p, yid)
    ensures var vs := sh.hymns;
      exists j :: 0 <= j < |vs| && HymnAccepted(p.years, vs[j])
        && vs[j].parent == p.years.entries[yid].slug && vs[j].slug == h.slug
        && vs[j].head == Some(Head(h.title, h.note, h.sort))
  {
    PassesParts(sh, p);
    HymnsFromRows(p.years, sh.hymns);
    var hid :| 0 <= hid < |p.hymns.entries| && p.hymns.entries[hid].year == yid && h == HymnOf(p, hid);
    assert p.hymns.entries[hid] in p.hymns.entries;
  }

  /**
   * Every kept hymn row gives a hymn, with its slug, under the year
   * `years_by_slug` names for the year slug it gives, which is the last
   * year entry with that slug.
   */
  lemma HymnRowShown(sh: Sheets, p: Parts, j: nat)
    requires Passes(sh) == Success(p)
    requires j < |sh.hymns| && HymnAccepted(p.years, sh.hymns[j])
    ensures LastYearWith(p.years, sh.hymns[j].parent, p.years.bySlug[sh.hymns[j].parent])
    ensures exists h :: h in HymnsOf(p, p.years.bySlug[sh.hymns[j].parent]) && h.slug == sh.hymns[j].slug
  {
    PassesParts(sh, p);
    HymnRowsKept(p.years, sh.hymns);
    var v := sh.hymns[j];
    var yid := p.years.bySlug[v.parent];
    var hid :| 0 <= hid < |p.hymns.entries| && p.hymns.entries[hid] == HymnEntry(yid, v.slug, v.head.value);
    HymnOfIn(p, hid);
  }

  /** A hymn's recordings are those of the kept recording rows naming its slug; each has a url. */
  lemma RecordingTraces(sh: Sheets, p: Parts, hid: nat, x: Recording)
    requires Passes(sh) == Success(p) && hid < |p.hymns.entries| && x in RecordingsOf(p, hid)
    ensures x.url != ""
    ensures var vs := sh.recordings;
      exists j :: 0 <= j < |vs| && RecordingAccepted(p.hymns, vs[j])
        && vs[j].hymn == p.hymns.entries[hid].slug && vs[j].item.rec == x
  {
    PassesParts(sh, p);
    RecordingsFromRows(p.hymns, sh.recordings);
    assert RecordingEntry(hid, x) in p.recordings;
  }

  /** A hymn's segments are those of the kept segment rows naming its slug. */
  lemma SegmentTraces(sh: Sheets, p: Parts, hid: nat, x: Segment)
    requires Passes(sh) == Success(p) && hid < |p.hymns.entries| && x in SegmentsOf(p, hid)
    ensures var vs := sh.segments;
      exists j :: 0 <= j < |vs| && SegmentAccepted(p.hymns, vs[j])
        && vs[j].hymn == p.hymns.entries[hid].slug && vs[j].item == Some(x)
  {
    PassesParts(sh, p);
    SegmentsFromRows(p.hymns, sh.segments);
    assert SegmentEntry(hid, x) in p.segments;
  }
}
