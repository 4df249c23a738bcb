/**
 * The sheet-by-sheet passes of `_load_xlsx` (app/content_loader.py:84-203).
 *
 * Each pass walks the rows of one sheet in order and fills the tables the
 * later passes look parents up in. A pass is specified by a function over
 * the rows read so far, each row taken through the reading of its sheet
 * (MetaRowOf, LanguageOf, LevelRowOf, ... in the Content module), and
 * implemented by a method with the loader's own loop, proved equal to it.
 *
 * The Python dictionaries share their child lists with their parents; here
 * every accepted year, hymn, recording and segment row becomes an entry of
 * an append-only list that records its parent, and a `*_by_slug` dictionary
 * maps a slug to the position of the last entry that had it. A parent's
 * child list is then the entries that name it, in the order they were
 * appended (see the Assembly module).
 */
module Phases {
  import opened Wrappers
  import opened Text
  import opened Cells
  import opened Content

  // ===== meta =====

  /** The meta entries after the given meta rows. */
  function MetaPhase(ms: seq<MetaRow>): map<string, Cell>
    decreases |ms|
  {
    if ms == [] then DefaultMeta()
    else
      var m := MetaPhase(ms[..|ms| - 1]);
      var row := ms[|ms| - 1];
      if row.key == "" then m else m[row.key := row.value]
  }

  /** The meta loop of `_load_xlsx`, over the meta rows as MetaRowOf reads them. */
  method LoadMeta(ms: seq<MetaRow>) returns (meta: map<string, Cell>)
    ensures meta == MetaPhase(ms)
  {
    meta := DefaultMeta();
    var i := 0;
    while i < |ms|
      invariant 0 <= i <= |ms|
      invariant meta == MetaPhase(ms[..i])
    {
      assert ms[..i + 1][..i] == ms[..i];
      if ms[i].key != "" {
        meta := meta[ms[i].key := ms[i].value];
      }
      i := i + 1;
    }
    assert ms[..|ms|] == ms;
  }

  /** The three default keys are always present. */
  lemma {:induction false} MetaKeepsDefaults(ms: seq<MetaRow>)
    ensures forall k :: k in DefaultMeta() ==> k in MetaPhase(ms)
    decreases |ms|
  {
    if ms != [] {
      MetaKeepsDefaults(ms[..|ms| - 1]);
    }
  }

  /** A key set by a meta row holds the value of the last row that sets it. */
  lemma {:induction false} MetaLastWins(ms: seq<MetaRow>, i: nat)
    requires i < |ms| && ms[i].key != ""
    requires forall j :: i < j < |ms| ==> ms[j].key != ms[i].key
    ensures ms[i].key in MetaPhase(ms) && MetaPhase(ms)[ms[i].key] == ms[i].value
    decreases |ms|
  {
    var n := |ms| - 1;
    if i < n {
      MetaLastWins(ms[..n], i);
    }
  }

  /** A default key no meta row sets keeps its default. */
  lemma {:induction false} MetaDefaultStays(ms: seq<MetaRow>, k: string)
    requires k in DefaultMeta()
    requires forall j :: 0 <= j < |ms| ==> ms[j].key != k
    ensures k in MetaPhase(ms) && MetaPhase(ms)[k] == DefaultMeta()[k]
    decreases |ms|
  {
    if ms != [] {
      MetaDefaultStays(ms[..|ms| - 1], k);
    }
  }

  /** Every key comes from the defaults or from a meta row with that key. */
  lemma {:induction false} MetaKeys(ms: seq<MetaRow>)
    ensures forall k :: k in MetaPhase(ms) <==> k in DefaultMeta() || (k != "" && exists j :: 0 <= j < |ms| && ms[j].key == k)
    decreases |ms|
  {
    if ms != [] {
      MetaKeys(ms[..|ms| - 1]);
    }
  }

  // ===== languages =====

  /** The languages of the rows with a code, in row order (before sorting). */
  function LanguagesPhase(ls: seq<Option<Language>>): seq<Language>
    decreases |ls|
  {
    if ls == [] then []
    else
      var init := LanguagesPhase(ls[..|ls| - 1]);
      match ls[|ls| - 1]
      case None => init
      case Some(l) => init + [l]
  }

  /** The languages loop of `_load_xlsx`, over the language rows as LanguageOf reads them. */
  method LoadLanguages(ls: seq<Option<Language>>) returns (langs: seq<Language>)
    ensures langs == LanguagesPhase(ls)
  {
    langs := [];
    var i := 0;
    while i < |ls|
      invariant 0 <= i <= |ls|
      invariant langs == LanguagesPhase(ls[..i])
    {
      assert ls[..i + 1][..i] == ls[..i];
      if ls[i].Some? {
        langs := langs + [ls[i].value];
      }
      i := i + 1;
    }
    assert ls[..|ls|] == ls;
  }

  /** The languages are exactly the rows' languages, in row order. */
  lemma {:induction false} LanguagesKept(ls: seq<Option<Language>>)
    ensures forall l :: l in LanguagesPhase(ls) <==> Some(l) in ls
    ensures |LanguagesPhase(ls)| <= |ls|
    decreases |ls|
  {
    if ls != [] {
      var init := ls[..|ls| - 1];
      LanguagesKept(init);
      assert ls == init + [ls[|ls| - 1]];
    }
  }

  // ===== levels =====

  /** `levels_by_slug`: slug to level fields, and the slugs in first-insertion order (Python dict order). */
  datatype LevelTable = LevelTable(bySlug: map<string, Head>, order: seq<string>)

  ghost predicate LevelsValid(t: LevelTable) {
    && (forall s :: s in t.order <==> s in t.bySlug)
    && (forall i, j :: 0 <= i < j < |t.order| ==> t.order[i] != t.order[j])
  }

  /** A level row the loader keeps: published, with a slug. */
  predicate LevelAccepted(v: NodeRow) {
    v.published && v.slug != ""
  }

  function LevelStep(t: LevelTable, v: NodeRow): (r: Result<LevelTable, LoadError>)
    requires LevelsValid(t)
    ensures r.Success? ==> LevelsValid(r.value)
  {
    if !LevelAccepted(v) then Success(t)
    else match v.head
      case None => Failure(ValueError("levels"))
      case Some(h) =>
        Success(LevelTable(t.bySlug[v.slug := h], if v.slug in t.bySlug then t.order else t.order + [v.slug]))
  }

  /** The level table after the given level rows, or the ValueError of the first bad `sort`. */
  function LevelsPhase(vs: seq<NodeRow>): (r: Result<LevelTable, LoadError>)
    ensures r.Success? ==> LevelsValid(r.value)
    decreases |vs|
  {
    if vs == [] then Success(LevelTable(map[], []))
    else
      var t :- LevelsPhase(vs[..|vs| - 1]);
      LevelStep(t, vs[|vs| - 1])
  }

  lemma {:induction false} LevelsFailureStays(vs: seq<NodeRow>, i: nat)
    requires i <= |vs| && LevelsPhase(vs[..i]).Failure?
    ensures LevelsPhase(vs) == LevelsPhase(vs[..i])
    decreases |vs|
  {
    if i < |vs| {
      var n := |vs| - 1;
      assert vs[..n][..i] == vs[..i];
      LevelsFailureStays(vs[..n], i);
    } else {
      assert vs[..i] == vs;
    }
  }

  /** The levels loop of `_load_xlsx`. */
  method LoadLevels(vs: seq<NodeRow>) returns (r: Result<LevelTable, LoadError>)
    ensures r == LevelsPhase(vs)
  {
    var bySlug: map<string, Head> := map[];
    var order: seq<string> := [];
    var i := 0;
    while i < |vs|
      invariant 0 <= i <= |vs|
      invariant LevelsPhase(vs[..i]) == Success(LevelTable(bySlug, order))
    {
      assert vs[..i + 1][..i] == vs[..i];
      var v := vs[i];
      if v.published && v.slug != "" {
        if v.head.None? {
          LevelsFailureStays(vs, i + 1);
          return Failure(ValueError("levels"));
        }
        if v.slug !in bySlug {
          order := order + [v.slug];
        }
        bySlug := bySlug[v.slug := v.head.value];
      }
      i := i + 1;
    }
    assert vs[..|vs|] == vs;
    return Success(LevelTable(bySlug, order));
  }

  /** The levels pass fails exactly when a kept row has a `sort` int() cannot read. */
  lemma {:induction false} LevelsFailure(vs: seq<NodeRow>)
    ensures LevelsPhase(vs).Failure? <==> exists k :: 0 <= k < |vs| && LevelAccepted(vs[k]) && vs[k].head.None?
    decreases |vs|
  {
    if vs != [] {
      LevelsFailure(vs[..|vs| - 1]);
    }
  }

  /**
   * Every level in the table comes from a kept row, and every kept row's
   * slug is in the table.
   */
  lemma {:induction false} LevelsFromRows(vs: seq<NodeRow>)
    requires LevelsPhase(vs).Success?
    ensures var t := LevelsPhase(vs).value;
      forall s :: s in t.bySlug ==> exists k :: 0 <= k < |vs| && LevelAccepted(vs[k]) && vs[k].slug == s && vs[k].head == Some(t.bySlug[s])
    ensures var t := LevelsPhase(vs).value;
      forall k :: 0 <= k < |vs| && LevelAccepted(vs[k]) ==> vs[k].slug in t.bySlug
    decreases |vs|
  {
    if vs != [] {
      LevelsFromRows(vs[..|vs| - 1]);
    }
  }

  /** The last kept row with a slug gives that level its fields (later rows overwrite earlier ones). */
  lemma {:induction false} LevelsLastWins(vs: seq<NodeRow>, k: nat)
    requires LevelsPhase(vs).Success?
    requires k < |vs| && LevelAccepted(vs[k])
    requires forall j :: k < j < |vs| && LevelAccepted(vs[j]) ==> vs[j].slug != vs[k].slug
    ensures vs[k].slug in LevelsPhase(vs).value.bySlug
    ensures Some(LevelsPhase(vs).value.bySlug[vs[k].slug]) == vs[k].head
    decreases |vs|
  {
    var n := |vs| - 1;
    if k < n {
      LevelsLastWins(vs[..n], k);
    }
  }

  // ===== years =====

  /** An accepted year row: the level it was appended to, and its own fields. */
  datatype YearEntry = YearEntry(level: string, slug: string, head: Head)

  /** The years appended so far, and `years_by_slug` as positions in that list. */
  datatype YearTable = YearTable(entries: seq<YearEntry>, bySlug: map<string, nat>)

  /** Entry y is the last year entry with slug s. */
  ghost predicate LastYearWith(t: YearTable, s: string, y: nat) {
    y < |t.entries| && t.entries[y].slug == s && forall m :: y < m < |t.entries| ==> t.entries[m].slug != s
  }

  /**
   * Every entry is under a known level and its slug is looked up, and
   * `years_by_slug` names the last entry with each slug (a later year with
   * the same slug replaces the earlier one in the dictionary).
   */
  ghost predicate YearsValid(levels: LevelTable, t: YearTable) {
    && (forall k :: 0 <= k < |t.entries| ==> t.entries[k].level in levels.bySlug && t.entries[k].slug in t.bySlug)
    && (forall s :: s in t.bySlug ==> LastYearWith(t, s, t.bySlug[s]))
  }

  /** A year row the loader keeps: published, with a slug, under a known level. */
  predicate YearAccepted(levels: LevelTable, v: NodeRow) {
    v.published && v.slug != "" && v.parent != "" && v.parent in levels.bySlug
  }

  function YearStep(levels: LevelTable, t: YearTable, v: NodeRow): (r: Result<YearTable, LoadError>)
    requires YearsValid(levels, t)
    ensures r.Success? ==> YearsValid(levels, r.value)
  {
    if !YearAccepted(levels, v) then Success(t)
    else match v.head
      case None => Failure(ValueError("years"))
      case Some(h) => Success(YearTable(t.entries + [YearEntry(v.parent, v.slug, h)], t.bySlug[v.slug := |t.entries|]))
  }

  /** The year table after the given year rows, or the ValueError of the first bad `sort`. */
  function YearsPhase(levels: LevelTable, vs: seq<NodeRow>): (r: Result<YearTable, LoadError>)
    ensures r.Success? ==> YearsValid(levels, r.value)
    decreases |vs|
  {
    if vs == [] then Success(YearTable([], map[]))
    else
      var t :- YearsPhase(levels, vs[..|vs| - 1]);
      YearStep(levels, t, vs[|vs| - 1])
  }

  lemma {:induction false} YearsFailureStays(levels: LevelTable, vs: seq<NodeRow>, i: nat)
    requires i <= |vs| && YearsPhase(levels, vs[..i]).Failure?
    ensures YearsPhase(levels, vs) == YearsPhase(levels, vs[..i])
    decreases |vs|
  {
    if i < |vs| {
      var n := |vs| - 1;
      assert vs[..n][..i] == vs[..i];
      YearsFailureStays(levels, vs[..n], i);
    } else {
      assert vs[..i] == vs;
    }
  }

  /** The years loop of `_load_xlsx`. */
  method LoadYears(levels: LevelTable, vs: seq<NodeRow>) returns (r: Result<YearTable, LoadError>)
    ensures r == YearsPhase(levels, vs)
  {
    var entries: seq<YearEntry> := [];
    var bySlug: map<string, nat> := map[];
    var i := 0;
    while i < |vs|
      invariant 0 <= i <= |vs|
      invariant YearsPhase(levels, vs[..i]) == Success(YearTable(entries, bySlug))
    {
      assert vs[..i + 1][..i] == vs[..i];
      var v := vs[i];
      if v.published && v.slug != "" && v.parent != "" && v.parent in levels.bySlug {
        if v.head.None? {
          YearsFailureStays(levels, vs, i + 1);
          return Failure(ValueError("years"));
        }
        bySlug := bySlug[v.slug := |entries|];
        entries := entries + [YearEntry(v.parent, v.slug, v.head.value)];
      }
      i := i + 1;
    }
    assert vs[..|vs|] == vs;
    return Success(YearTable(entries, bySlug));
  }

  /** The years pass fails exactly when a kept row has a `sort` int() cannot read. */
  lemma {:induction false} YearsFailure(levels: LevelTable, vs: seq<NodeRow>)
    ensures YearsPhase(levels, vs).Failure?
        <==> exists k :: 0 <= k < |vs| && YearAccepted(levels, vs[k]) && vs[k].head.None?
    decreases |vs|
  {
    if vs != [] {
      YearsFailure(levels, vs[..|vs| - 1]);
    }
  }

  /** Every year entry comes from a kept row with its level slug, slug and fields. */
  lemma {:induction false} YearsFromRows(levels: LevelTable, vs: seq<NodeRow>)
    requires YearsPhase(levels, vs).Success?
    ensures forall e :: e in YearsPhase(levels, vs).value.entries ==>
      exists j :: 0 <= j < |vs| && YearAccepted(levels, vs[j]) && vs[j].head.Some?
                  && e == YearEntry(vs[j].parent, vs[j].slug, vs[j].head.value)
    decreases |vs|
  {
    if vs != [] {
      var n := |vs| - 1;
      YearsFromRows(levels, vs[..n]);
      forall e | e in YearsPhase(levels, vs).value.entries
        ensures exists j :: 0 <= j < |vs| && YearAccepted(levels, vs[j]) && vs[j].head.Some?
                            && e == YearEntry(vs[j].parent, vs[j].slug, vs[j].head.value)
      {
        if e in YearsPhase(levels, vs[..n]).value.entries {
          var j :| 0 <= j < n && YearAccepted(levels, vs[..n][j]) && vs[..n][j].head.Some?
                   && e == YearEntry(vs[..n][j].parent, vs[..n][j].slug, vs[..n][j].head.value);
          assert vs[..n][j] == vs[j];
        }
      }
    }
  }

  /** Every kept year row is an entry of the table, and its slug is looked up. */
  lemma {:induction false} YearRowsKept(levels: LevelTable, vs: seq<NodeRow>)
    requires YearsPhase(levels, vs).Success?
    ensures var t := YearsPhase(levels, vs).value;
      forall j :: 0 <= j < |vs| && YearAccepted(levels, vs[j]) ==>
        vs[j].head.Some? && YearEntry(vs[j].parent, vs[j].slug, vs[j].head.value) in t.entries && vs[j].slug in t.bySlug
    decreases |vs|
  {
    if vs != [] {
      var n := |vs| - 1;
      YearRowsKept(levels, vs[..n]);
      var t0, t := YearsPhase(levels, vs[..n]).value, YearsPhase(levels, vs).value;
      assert t == YearStep(levels, t0, vs[n]).value;
      assert t0.entries <= t.entries && t0.bySlug.Keys <= t.bySlug.Keys;
      forall j | 0 <= j < |vs| && YearAccepted(levels, vs[j])
        ensures vs[j].head.Some? && YearEntry(vs[j].parent, vs[j].slug, vs[j].head.value) in t.entries
        ensures vs[j].slug in t.bySlug
      {
        if j < n {
          assert vs[..n][j] == vs[j];
        }
      }
    }
  }

  /**
   * The last kept row with a slug is the entry `years_by_slug` names for
   * that slug (later rows with the slug replace earlier ones).
   */
  lemma {:induction false} YearsLastWins(levels: LevelTable, vs: seq<NodeRow>, k: nat)
    requires YearsPhase(levels, vs).Success?
    requires k < |vs| && YearAccepted(levels, vs[k])
    requires forall j :: k < j < |vs| && YearAccepted(levels, vs[j]) ==> vs[j].slug != vs[k].slug
    ensures var t := YearsPhase(levels, vs).value;
      vs[k].slug in t.bySlug && vs[k].head.Some?
      && t.entries[t.bySlug[vs[k].slug]] == YearEntry(vs[k].parent, vs[k].slug, vs[k].head.value)
    decreases |vs|
  {
    var n := |vs| - 1;
    var t := YearsPhase(levels, vs).value;
    if k < n {
      assert vs[..n][k] == vs[k];
      YearsLastWins(levels, vs[..n], k);
      var t0 := YearsPhase(levels, vs[..n]).value;
      assert t == YearStep(levels, t0, vs[n]).value;
      var i := t0.bySlug[vs[k].slug];
      assert t.bySlug[vs[k].slug] == i && t.entries[i] == t0.entries[i];
    }
  }

  // ===== hymns =====

  /** An accepted hymn row: the position of the year it was appended to, and its own fields. */
  datatype HymnEntry = HymnEntry(year: nat, slug: string, head: Head)

  /** The hymns appended so far, and `hymns_by_slug` as positions in that list. */
  datatype HymnTable = HymnTable(entries: seq<HymnEntry>, bySlug: map<string, nat>)

  /** Entry h is the last hymn entry with slug s. */
  ghost predicate LastHymnWith(t: HymnTable, s: string, h: nat) {
    h < |t.entries| && t.entries[h].slug == s && forall m :: h < m < |t.entries| ==> t.entries[m].slug != s
  }

  /**
   * Every entry is under an existing year entry and its slug is looked up,
   * and `hymns_by_slug` names the last entry with each slug.
   */
  ghost predicate HymnsValid(years: YearTable, t: HymnTable) {
    && (forall k :: 0 <= k < |t.entries| ==> t.entries[k].year < |years.entries| && t.entries[k].slug in t.bySlug)
    && (forall s :: s in t.bySlug ==> LastHymnWith(t, s, t.bySlug[s]))
  }

  /** A hymn row the loader keeps: published, with a slug, under a known year. */
  predicate HymnAccepted(years: YearTable, v: NodeRow) {
    v.published && v.slug != "" && v.parent != "" && v.parent in years.bySlug
  }

  function HymnStep(years: YearTable, t: HymnTable, v: NodeRow): (r: Result<HymnTable, LoadError>)
    requires forall s :: s in years.bySlug ==> years.bySlug[s] < |years.entries|
    requires HymnsValid(years, t)
    ensures r.Success? ==> HymnsValid(years, r.value)
  {
    if !HymnAccepted(years, v) then Success(t)
    else match v.head
      case None => Failure(ValueError("hymns"))
      case Some(h) =>
        Success(HymnTable(t.entries + [HymnEntry(years.bySlug[v.parent], v.slug, h)], t.bySlug[v.slug := |t.entries|]))
  }

  /** The hymn table after the given hymn rows, or the ValueError of the first bad `sort`. */
  function HymnsPhase(years: YearTable, vs: seq<NodeRow>): (r: Result<HymnTable, LoadError>)
    requires forall s :: s in years.bySlug ==> years.bySlug[s] < |years.entries|
    ensures r.Success? ==> HymnsValid(years, r.value)
    decreases |vs|
  {
    if vs == [] then Success(HymnTable([], map[]))
    else
      var t :- HymnsPhase(years, vs[..|vs| - 1]);
      HymnStep(years, t, vs[|vs| - 1])
  }

  lemma {:induction false} HymnsFailureStays(years: YearTable, vs: seq<NodeRow>, i: nat)
    requires forall s :: s in years.bySlug ==> years.bySlug[s] < |years.entries|
    requires i <= |vs| && HymnsPhase(years, vs[..i]).Failure?
    ensures HymnsPhase(years, vs) == HymnsPhase(years, vs[..i])
    decreases |vs|
  {
    if i < |vs| {
      var n := |vs| - 1;
      assert vs[..n][..i] == vs[..i];
      HymnsFailureStays(years, vs[..n], i);
    } else {
      assert vs[..i] == vs;
    }
  }

  /** One more row: the pass continues from the table of the rows before it. */
  lemma HymnsPhaseSnoc(years: YearTable, vs: seq<NodeRow>, i: nat)
    requires forall s :: s in years.bySlug ==> years.bySlug[s] < |years.entries|
    requires i < |vs| && HymnsPhase(years, vs[..i]).Success?
    ensures HymnsPhase(years, vs[..i + 1]) == HymnStep(years, HymnsPhase(years, vs[..i]).value, vs[i])
  {
    assert vs[..i + 1][..i] == vs[..i];
  }

  /** The hymns loop of `_load_xlsx`. */
  method LoadHymns(years: YearTable, vs: seq<NodeRow>) returns (r: Result<HymnTable, LoadError>)
    requires forall s :: s in years.bySlug ==> years.bySlug[s] < |years.entries|
    ensures r == HymnsPhase(years, vs)
  {
    var entries: seq<HymnEntry> := [];
    var bySlug: map<string, nat> := map[];
    var i := 0;
    while i < |vs|
      invariant 0 <= i <= |vs|
      invariant HymnsPhase(years, vs[..i]) == Success(HymnTable(entries, bySlug))
    {
      HymnsPhaseSnoc(years, vs, i);
      var v := vs[i];
      if v.published && v.slug != "" && v.parent != "" && v.parent in years.bySlug {
        if v.head.None? {
          HymnsFailureStays(years, vs, i + 1);
          return Failure(ValueError("hymns"));
        }
        bySlug := bySlug[v.slug := |entries|];
        entries := entries + [HymnEntry(years.bySlug[v.parent], v.slug, v.head.value)];
      }
      i := i + 1;
    }
    assert vs[..|vs|] == vs;
    return Success(HymnTable(entries, bySlug));
  }

  /** The hymns pass fails exactly when a kept row has a `sort` int() cannot read. */
  lemma {:induction false} HymnsFailure(years: YearTable, vs: seq<NodeRow>)
    requires forall s :: s in years.bySlug ==> years.bySlug[s] < |years.entries|
    ensures HymnsPhase(years, vs).Failure?
        <==> exists k :: 0 <= k < |vs| && HymnAccepted(years, vs[k]) && vs[k].head.None?
    decreases |vs|
  {
    if vs != [] {
      HymnsFailure(years, vs[..|vs| - 1]);
    }
  }

  /** Every hymn entry comes from a kept row, attached to the last year entry with the row's year slug. */
  lemma {:induction false} HymnsFromRows(years: YearTable, vs: seq<NodeRow>)
    requires forall s :: s in years.bySlug ==> years.bySlug[s] < |years.entries|
    requires HymnsPhase(years, vs).Success?
    ensures forall e :: e in HymnsPhase(years, vs).value.entries ==>
      exists j :: 0 <= j < |vs| && HymnAccepted(years, vs[j]) && vs[j].head.Some?
                  && e == HymnEntry(years.bySlug[vs[j].parent], vs[j].slug, vs[j].head.value)
    decreases |vs|
  {
    if vs != [] {
      var n := |vs| - 1;
      HymnsFromRows(years, vs[..n]);
      forall e | e in HymnsPhase(years, vs).value.entries
        ensures exists j :: 0 <= j < |vs| && HymnAccepted(years, vs[j]) && vs[j].head.Some?
                            && e == HymnEntry(years.bySlug[vs[j].parent], vs[j].slug, vs[j].head.value)
      {
        if e in HymnsPhase(years, vs[..n]).value.entries {
          var j :| 0 <= j < n && HymnAccepted(years, vs[..n][j]) && vs[..n][j].head.Some?
                   && e == HymnEntry(years.bySlug[vs[..n][j].parent], vs[..n][j].slug, vs[..n][j].head.value);
          assert vs[..n][j] == vs[j];
        }
      }
    }
  }

  /** Every kept hymn row is an entry under the last year with its year slug, and its slug is looked up. */
  lemma {:induction false} HymnRowsKept(years: YearTable, vs: seq<NodeRow>)
    requires forall s :: s in years.bySlug ==> years.bySlug[s] < |years.entries|
    requires HymnsPhase(years, vs).Success?
    ensures var t := HymnsPhase(years, vs).value;
      forall j :: 0 <= j < |vs| && HymnAccepted(years, vs[j]) ==>
        vs[j].head.Some? && HymnEntry(years.bySlug[vs[j].parent], vs[j].slug, vs[j].head.value) in t.entries
        && vs[j].slug in t.bySlug
    decreases |vs|
  {
    if vs != [] {
      var n := |vs| - 1;
      HymnRowsKept(years, vs[..n]);
      var t0, t := HymnsPhase(years, vs[..n]).value, HymnsPhase(years, vs).value;
      assert t == HymnStep(years, t0, vs[n]).value;
      assert t0.entries <= t.entries && t0.bySlug.Keys <= t.bySlug.Keys;
      forall j | 0 <= j < |vs| && HymnAccepted(years, vs[j])
        ensures vs[j].head.Some?
        ensures HymnEntry(years.bySlug[vs[j].parent], vs[j].slug, vs[j].head.value) in t.entries
        ensures vs[j].slug in t.bySlug
      {
        if j < n {
          assert vs[..n][j] == vs[j];
        }
      }
    }
  }

  /**
   * The last kept row with a slug is the entry `hymns_by_slug` names for
   * that slug, under the year entry `years_by_slug` names for its year slug.
   */
  lemma {:induction false} HymnsLastWins(years: YearTable, vs: seq<NodeRow>, k: nat)
    requires forall s :: s in years.bySlug ==> years.bySlug[s] < |years.entries|
    requires HymnsPhase(years, vs).Success?
    requires k < |vs| && HymnAccepted(years, vs[k])
    requires forall j :: k < j < |vs| && HymnAccepted(years, vs[j]) ==> vs[j].slug != vs[k].slug
    ensures var t := HymnsPhase(years, vs).value;
      vs[k].slug in t.bySlug && vs[k].head.Some?
      && t.entries[t.bySlug[vs[k].slug]] == HymnEntry(years.bySlug[vs[k].parent], vs[k].slug, vs[k].head.value)
    decreases |vs|
  {
    var n := |vs| - 1;
    var t := HymnsPhase(years, vs).value;
    if k < n {
      assert vs[..n][k] == vs[k];
      HymnsLastWins(years, vs[..n], k);
      var t0 := HymnsPhase(years, vs[..n]).value;
      assert t == HymnStep(years, t0, vs[n]).value;
      var i := t0.bySlug[vs[k].slug];
      assert t.bySlug[vs[k].slug] == i && t.entries[i] == t0.entries[i];
    }
  }

  // ===== recordings =====

  /** An accepted recording row: the position of its hymn, and the recording. */
  datatype RecordingEntry = RecordingEntry(hymn: nat, rec: Recording)

  /**
   * A recording row the loader keeps: published, under a known hymn, with a
   * url. Its `default_rate` is read only then.
   */
  predicate RecordingAccepted(hymns: HymnTable, v: LeafRow<RecordingItem>) {
    v.published && v.hymn in hymns.bySlug && v.item.rec.url != ""
  }

  function RecordingStep(hymns: HymnTable, t: seq<RecordingEntry>, v: LeafRow<RecordingItem>): Result<seq<RecordingEntry>, LoadError> {
    if !RecordingAccepted(hymns, v) then Success(t)
    else if !v.item.rateReadable then Failure(ValueError("recordings"))
    else Success(t + [RecordingEntry(hymns.bySlug[v.hymn], v.item.rec)])
  }

  /** The recordings appended by the given recording rows, or the ValueError of the first unreadable rate. */
  function RecordingsPhase(hymns: HymnTable, vs: seq<LeafRow<RecordingItem>>): Result<seq<RecordingEntry>, LoadError>
    decreases |vs|
  {
    if vs == [] then Success([])
    else
      var t :- RecordingsPhase(hymns, vs[..|vs| - 1]);
      RecordingStep(hymns, t, vs[|vs| - 1])
  }

  lemma {:induction false} RecordingsFailureStays(hymns: HymnTable, vs: seq<LeafRow<RecordingItem>>, i: nat)
    requires i <= |vs| && RecordingsPhase(hymns, vs[..i]).Failure?
    ensures RecordingsPhase(hymns, vs) == RecordingsPhase(hymns, vs[..i])
    decreases |vs|
  {
    if i < |vs| {
      var n := |vs| - 1;
      assert vs[..n][..i] == vs[..i];
      RecordingsFailureStays(hymns, vs[..n], i);
    } else {
      assert vs[..i] == vs;
    }
  }

  /** One more row: the pass continues from the recordings of the rows before it. */
  lemma RecordingsPhaseSnoc(hymns: HymnTable, vs: seq<LeafRow<RecordingItem>>, i: nat)
    requires i < |vs| && RecordingsPhase(hymns, vs[..i]).Success?
    ensures RecordingsPhase(hymns, vs[..i + 1]) == RecordingStep(hymns, RecordingsPhase(hymns, vs[..i]).value, vs[i])
  {
    assert vs[..i + 1][..i] == vs[..i];
  }

  /** The recordings loop of `_load_xlsx`, over the recording rows as RecordingRowOf reads them. */
  method LoadRecordings(hymns: HymnTable, vs: seq<LeafRow<RecordingItem>>) returns (r: Result<seq<RecordingEntry>, LoadError>)
    ensures r == RecordingsPhase(hymns, vs)
  {
    var entries: seq<RecordingEntry> := [];
    var i := 0;
    while i < |vs|
      invariant 0 <= i <= |vs|
      invariant RecordingsPhase(hymns, vs[..i]) == Success(entries)
    {
      RecordingsPhaseSnoc(hymns, vs, i);
      var v := vs[i];
      if v.published && v.hymn in hymns.bySlug && v.item.rec.url != "" {
        if !v.item.rateReadable {
          RecordingsFailureStays(hymns, vs, i + 1);
          return Failure(ValueError("recordings"));
        }
        entries := entries + [RecordingEntry(hymns.bySlug[v.hymn], v.item.rec)];
      }
      i := i + 1;
    }
    assert vs[..|vs|] == vs;
    return Success(entries);
  }

  /** The recordings pass fails exactly when a kept row has a `default_rate` float() rejects. */
  lemma {:induction false} RecordingsFailure(hymns: HymnTable, vs: seq<LeafRow<RecordingItem>>)
    ensures RecordingsPhase(hymns, vs).Failure?
        <==> exists k :: 0 <= k < |vs| && RecordingAccepted(hymns, vs[k]) && !vs[k].item.rateReadable
    decreases |vs|
  {
    if vs != [] {
      RecordingsFailure(hymns, vs[..|vs| - 1]);
    }
  }

  /**
   * The recording entries are the kept rows, one each, each attached to the
   * hymn entry `hymns_by_slug` names for its hymn slug; every url is non-empty.
   */
  lemma {:induction false} RecordingsFromRows(hymns: HymnTable, vs: seq<LeafRow<RecordingItem>>)
    requires RecordingsPhase(hymns, vs).Success?
    ensures forall e :: e in RecordingsPhase(hymns, vs).value ==>
      e.rec.url != "" &&
      exists j :: 0 <= j < |vs| && RecordingAccepted(hymns, vs[j]) && hymns.bySlug[vs[j].hymn] == e.hymn && vs[j].item.rec == e.rec
    ensures forall j :: 0 <= j < |vs| && RecordingAccepted(hymns, vs[j]) ==>
      vs[j].item.rateReadable && RecordingEntry(hymns.bySlug[vs[j].hymn], vs[j].item.rec) in RecordingsPhase(hymns, vs).value
    decreases |vs|
  {
    if vs != [] {
      RecordingsFromRows(hymns, vs[..|vs| - 1]);
    }
  }

  // ===== segments =====

  /** An accepted segment row: the position of its hymn, and the segment. */
  datatype SegmentEntry = SegmentEntry(hymn: nat, seg: Segment)

  /** A segment row the loader keeps: published, under a known hymn. */
  predicate SegmentAccepted(hymns: HymnTable, v: LeafRow<Option<Segment>>) {
    v.published && v.hymn in hymns.bySlug
  }

  function SegmentStep(hymns: HymnTable, t: seq<SegmentEntry>, v: LeafRow<Option<Segment>>): Result<seq<SegmentEntry>, LoadError> {
    if !SegmentAccepted(hymns, v) then Success(t)
    else match v.item
      case None => Failure(ValueError("segments"))
      case Some(s) => Success(t + [SegmentEntry(hymns.bySlug[v.hymn], s)])
  }

  /** The segments appended by the given segment rows, or the ValueError of the first unreadable time. */
  function SegmentsPhase(hymns: HymnTable, vs: seq<LeafRow<Option<Segment>>>): Result<seq<SegmentEntry>, LoadError>
    decreases |vs|
  {
    if vs == [] then Success([])
    else
      var t :- SegmentsPhase(hymns, vs[..|vs| - 1]);
      SegmentStep(hymns, t, vs[|vs| - 1])
  }

  lemma {:induction false} SegmentsFailureStays(hymns: HymnTable, vs: seq<LeafRow<Option<Segment>>>, i: nat)
    requires i <= |vs| && SegmentsPhase(hymns, vs[..i]).Failure?
    ensures SegmentsPhase(hymns, vs) == SegmentsPhase(hymns, vs[..i])
    decreases |vs|
  {
    if i < |vs| {
      var n := |vs| - 1;
      assert vs[..n][..i] == vs[..i];
      SegmentsFailureStays(hymns, vs[..n], i);
    } else {
      assert vs[..i] == vs;
    }
  }

  /** One more row: the pass continues from the segments of the rows before it. */
  lemma SegmentsPhaseSnoc(hymns: HymnTable, vs: seq<LeafRow<Option<Segment>>>, i: nat)
    requires i < |vs| && SegmentsPhase(hymns, vs[..i]).Success?
    ensures SegmentsPhase(hymns, vs[..i + 1]) == SegmentStep(hymns, SegmentsPhase(hymns, vs[..i]).value, vs[i])
  {
    assert vs[..i + 1][..i] == vs[..i];
  }

  /** The segments loop of `_load_xlsx`, over the segment rows as SegmentRowOf reads them. */
  method LoadSegments(hymns: HymnTable, vs: seq<LeafRow<Option<Segment>>>) returns (r: Result<seq<SegmentEntry>, LoadError>)
    ensures r == SegmentsPhase(hymns, vs)
  {
    var entries: seq<SegmentEntry> := [];
    var i := 0;
    while i < |vs|
      invariant 0 <= i <= |vs|
      invariant SegmentsPhase(hymns, vs[..i]) == Success(entries)
    {
      SegmentsPhaseSnoc(hymns, vs, i);
      var v := vs[i];
      if v.published && v.hymn in hymns.bySlug {
        if v.item.None? {
          SegmentsFailureStays(hymns, vs, i + 1);
          return Failure(ValueError("segments"));
        }
        entries := entries + [SegmentEntry(hymns.bySlug[v.hymn], v.item.value)];
      }
      i := i + 1;
    }
    assert vs[..|vs|] == vs;
    return Success(entries);
  }

  /** The segments pass fails exactly when a kept row has a time that cannot be read. */
  lemma {:induction false} SegmentsFailure(hymns: HymnTable, vs: seq<LeafRow<Option<Segment>>>)
    ensures SegmentsPhase(hymns, vs).Failure?
        <==> exists k :: 0 <= k < |vs| && SegmentAccepted(hymns, vs[k]) && vs[k].item.None?
    decreases |vs|
  {
    if vs != [] {
      SegmentsFailure(hymns, vs[..|vs| - 1]);
    }
  }

  /**
   * The segment entries are the kept rows, one each, each attached to the
   * last hymn entry with its hymn slug.
   */
  lemma {:induction false} SegmentsFromRows(hymns: HymnTable, vs: seq<LeafRow<Option<Segment>>>)
    requires SegmentsPhase(hymns, vs).Success?
    ensures forall e :: e in SegmentsPhase(hymns, vs).value ==>
      exists j :: 0 <= j < |vs| && SegmentAccepted(hymns, vs[j]) && hymns.bySlug[vs[j].hymn] == e.hymn
                  && vs[j].item == Some(e.seg)
    ensures forall j :: 0 <= j < |vs| && SegmentAccepted(hymns, vs[j]) ==>
      vs[j].item.Some? && SegmentEntry(hymns.bySlug[vs[j].hymn], vs[j].item.value) in SegmentsPhase(hymns, vs).value
    decreases |vs|
  {
    if vs != [] {
      SegmentsFromRows(hymns, vs[..|vs| - 1]);
    }
  }
}
