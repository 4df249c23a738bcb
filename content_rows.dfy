/**
 * The entities of the content tree (app/content_loader.py, `_load_xlsx`) and
 * how one spreadsheet row is read into each of them.
 */
module Content {
  import opened Wrappers
  import opened Text
  import opened Sorting
  import opened Cells
  import opened Tables
  import opened TimeParse

  datatype Language = Language(code: string, name: string, isRtl: bool, defaultOn: bool)

  /** A recording of a hymn; its playback rate is a float and is not part of the model. */
  datatype Recording = Recording(caption: string, url: string)

  /** One transcript line: its time as written, its start in milliseconds, and its text per language code. */
  datatype Segment = Segment(t: string, startMs: int, texts: map<string, string>)

  datatype Hymn = Hymn(slug: string, title: string, note: string, sort: int,
                       recordings: seq<Recording>, segments: seq<Segment>)

  datatype Year = Year(slug: string, name: string, description: string, sort: int, hymns: seq<Hymn>)

  datatype Level = Level(slug: string, name: string, description: string, sort: int, years: seq<Year>)

  /**
   * The site: the meta entries (site_title, site_subtitle, footer_text and
   * whatever keys the meta sheet adds), the languages and the levels.
   */
  datatype Site = Site(meta: map<string, Cell>, languages: seq<Language>, levels: seq<Level>)

  /** The ValueError the loader raises, with the sheet whose row raised it. */
  datatype LoadError = ValueError(sheet: string)

  /** The fields of a level, year or hymn read from its own row, besides its slug. */
  datatype Head = Head(name: string, text: string, sort: int)

  // ----- sort keys -----

  function LanguageKey(l: Language): Key { Key(0, l.code) }
  function LevelKey(l: Level): Key { Key(l.sort, l.name) }
  function YearKey(y: Year): Key { Key(y.sort, y.name) }
  function HymnKey(h: Hymn): Key { Key(h.sort, h.title) }
  function SegmentKey(s: Segment): Key { Key(s.startMs, "") }

  // ----- reading rows -----

  /** `_truthy(row.get("published"), default=True)`. */
  predicate Published(row: Row) {
    Truthy(Get(row, "published"), true)
  }

  const DefaultTitle: string := "St. Mina Hymns School"

  /** The meta entries before the meta sheet is read. */
  function DefaultMeta(): map<string, Cell> {
    map["site_title" := Str(DefaultTitle), "site_subtitle" := Str(""), "footer_text" := Str("")]
  }

  /** One language row, or None when its code is blank. */
  function LanguageOf(row: Row): (r: Option<Language>)
    ensures r.Some? <==> Field(row, "code") != ""
    ensures r.Some? ==> r.value.code == Field(row, "code")
  {
    var code := Field(row, "code");
    if code == "" then None
    else Some(Language(code, TextOr(row, "name", code),
                       Truthy(Get(row, "is_rtl"), false), Truthy(Get(row, "default_on"), true)))
  }

  /**
   * The fields of a level, year or hymn row with the given slug, given the
   * names of its name and text columns; None when the sort column is not an
   * integer.
   */
  function HeadOf(row: Row, slug: string, nameKey: string, textKey: string): (r: Option<Head>)
    ensures r.None? <==> IntField(row, "sort").None?
    ensures r.Some? ==> r.value.sort == IntField(row, "sort").value
    ensures r.Some? ==> r.value.name == (if Falsy(Get(row, nameKey)) then slug else PyStr(Get(row, nameKey)))
    ensures r.Some? ==> r.value.text == (if Falsy(Get(row, textKey)) then "" else PyStr(Get(row, textKey)))
  {
    match IntField(row, "sort")
    case None => None
    case Some(sort) => Some(Head(TextOr(row, nameKey, slug), TextOr(row, textKey, ""), sort))
  }

  /** A recording row's label (the `label` column) and url. */
  function RecordingOf(row: Row): Recording {
    Recording(TextOr(row, "label", "Recording"), Field(row, "url"))
  }

  /** A recording row read: the recording, and whether float() accepts its `default_rate`. */
  datatype RecordingItem = RecordingItem(rec: Recording, rateReadable: bool)

  function RecordingItemOf(row: Row): RecordingItem {
    RecordingItem(RecordingOf(row), FloatReadable(Get(row, "default_rate")))
  }

  /** A segment row's time as written: `str(row.get("t") or "0:00").strip()`. */
  function TimeText(row: Row): string {
    Strip(TextOr(row, "t", "0:00"))
  }

  /** A cell the segment texts keep: present and not blank. */
  predicate HasText(v: Cell) {
    !v.Missing? && Strip(PyStr(v)) != ""
  }

  /** The texts of a segment row: every configured code whose cell has text, as str() writes it. */
  function TextsOf(row: Row, codes: seq<string>): (texts: map<string, string>)
    ensures forall c :: c in texts <==> c in codes && HasText(Get(row, c))
    ensures forall c :: c in texts ==> texts[c] == PyStr(Get(row, c)) && Strip(texts[c]) != ""
  {
    map c | c in codes && HasText(Get(row, c)) :: PyStr(Get(row, c))
  }

  /** A segment row read, or None when its time is not readable. */
  function SegmentOf(row: Row, codes: seq<string>): (r: Option<Segment>)
    ensures r.None? <==> ParseTimeToMs(TimeText(row)).Failure?
    ensures r.Some? ==> r.value.t == TimeText(row) && Success(r.value.startMs) == ParseTimeToMs(TimeText(row))
    ensures r.Some? ==> r.value.texts == TextsOf(row, codes)
  {
    var t := TimeText(row);
    match ParseTimeToMs(t)
    case Failure(_) => None
    case Success(ms) => Some(Segment(t, ms, TextsOf(row, codes)))
  }

  // ----- one row of each sheet, as the loader reads it -----

  /** The value a meta row stores: the cell itself, or "" for None. */
  function MetaValue(v: Cell): (r: Cell)
    ensures !r.Missing?
    ensures v.Missing? || r == v
  {
    if v.Missing? then Str("") else v
  }

  /** A meta row: its stripped key and the value stored under it. */
  datatype MetaRow = MetaRow(key: string, value: Cell)

  function MetaRowOf(row: Row): MetaRow {
    MetaRow(Field(row, "key"), MetaValue(Get(row, "value")))
  }

  /**
   * A level, year or hymn row: whether it is published, its slug, its
   * parent's slug ("" for a level) and its fields, None when its sort
   * column is not an integer.
   */
  datatype NodeRow = NodeRow(published: bool, slug: string, parent: string, head: Option<Head>)

  function NodeRowOf(row: Row, slugKey: string, parentKey: string, nameKey: string, textKey: string): NodeRow {
    var slug := Field(row, slugKey);
    NodeRow(Published(row), slug, if parentKey == "" then "" else Field(row, parentKey),
            HeadOf(row, slug, nameKey, textKey))
  }

  function LevelRowOf(row: Row): NodeRow {
    NodeRowOf(row, "level_slug", "", "level_name", "level_description")
  }

  function YearRowOf(row: Row): NodeRow {
    NodeRowOf(row, "year_slug", "level_slug", "year_name", "year_description")
  }

  function HymnRowOf(row: Row): NodeRow {
    NodeRowOf(row, "hymn_slug", "year_slug", "hymn_title", "hymn_note")
  }

  /** A recording or segment row: whether it is published, its hymn's slug, and what it holds. */
  datatype LeafRow<T> = LeafRow(published: bool, hymn: string, item: T)

  function RecordingRowOf(row: Row): LeafRow<RecordingItem> {
    LeafRow(Published(row), Field(row, "hymn_slug"), RecordingItemOf(row))
  }

  function SegmentRowOf(codes: seq<string>, row: Row): LeafRow<Option<Segment>> {
    LeafRow(Published(row), Field(row, "hymn_slug"), SegmentOf(row, codes))
  }

  /**
   * The inner loop over the language codes: the result has exactly the
   * codes whose cell has text, each with the cell as str() writes it.
   */
  method SegmentTexts(row: Row, codes: seq<string>) returns (texts: map<string, string>)
    ensures texts == TextsOf(row, codes)
  {
    texts := map[];
    var i := 0;
    while i < |codes|
      invariant 0 <= i <= |codes|
      invariant forall c :: c in texts <==> c in codes[..i] && HasText(Get(row, c))
      invariant forall c :: c in texts ==> texts[c] == PyStr(Get(row, c))
    {
      var code := codes[i];
      var val := if code in row then row[code] else Missing;
      if val != Missing {
        var s := PyStr(val);
        if Strip(s) != "" {
          texts := texts[code := s];
        }
      }
      assert codes[..i + 1] == codes[..i] + [code];
      i := i + 1;
    }
    assert codes[..i] == codes;
  }
}
