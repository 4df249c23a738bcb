# St. Mina Hymns School: content loader and hymn-page script, in Dafny

This project models two parts of the hymn-school web site.

**The content loader** (`app/content_loader.py`) reads the workbook's sheets:

- `meta`, `languages`, `levels`, `years`, `hymns`, `recordings` and `segments`;
- through `_read_table` and `_truthy`;
- with the whole-number branches of `_parse_time_to_ms`.

It builds the site tree: levels → years → hymns → recordings and segments. Unpublished rows and rows with an unknown parent are dropped. A bad `sort`, time or `default_rate` raises ValueError. Every list is sorted the way `_load_xlsx` sorts it. `find_level`, `find_year` and `find_hymn` look entries up by slug.

**The hymn-page script** (`app/static/site.js`) does four things:

- The transcript synchroniser. `findActiveIdx` is a binary search for the last segment already started. `setActive` keeps a single highlighted row. Row clicks seek the audio. `timeupdate` moves the highlight.
- The font-size preference (`setFont`/`loadFont`).
- The per-language visibility preference (`loadLangPrefs`/`saveLangPrefs` and the toggle click).
- The year page's search filter.

The two parts meet in `pipeline.dfy`. The loader sorts every hymn's segments by start time. So the starts the script reads back from a hymn page are non-decreasing, and that is what the binary search needs.

Modules, one per file:

- `Wrappers`: Option and Result.
- `Text`: strip, lower, split, `includes`, decimal rendering, Python `int()`, the strings Python `float()` accepts, and JavaScript `parseInt`.
- `Sorting`: a stable sort on `(int, str)` keys.
- `Cells`: cell values, `str()`, truthiness, `int()` and `float()` of a cell, `_truthy`.
- `Tables`: `_read_table`.
- `TimeParse`: `_parse_time_to_ms`.
- `Seqs`: list comprehensions.
- `Content`: entities and row readers.
- `Phases`: one pass per sheet.
- `Assembly`: the tree, the sorting, `_load_xlsx` as a whole, and where each node comes from.
- `Lookup`: `find_*`.
- `TranscriptSync`, `PagePrefs`, `SearchFilter`: the page script.
- `Pipeline`: loader to page.

Python's shared dictionaries work like this: a year dict is both in `years_by_slug` and in its level's `years` list, and it is mutated through either. The model represents years and hymns with append-only entry lists. Each entry records its parent. `years_by_slug` and `hymns_by_slug` map a slug to the position of the last entry with it, so a later row with the same slug takes over the lookups, as the dict assignment does. `levels_by_slug` maps a slug straight to the level's own fields, which a later row with the same slug replaces, and keeps the slugs in insertion order beside it. Each passing loop is a method, proved equal to a specification function over the rows read so far. The lemmas are stated about those functions.

The script lower-cases the query but not the `data-title` it compares against, so the search ignores case only when the page writes lower-case titles (see `SearchFilter.TitleCaseKept`). The templates are not part of this model.

## Model

| member | source | states |
|---|---|---|
| Cells.Truthy | app/content_loader.py:45-55 | None gives the default; a boolean is itself; any other result that differs from the default comes from a true word (true) or a false word (false) |
| Cells.TruthyWords | app/content_loader.py:50-55 | after trim and lower-casing, "1/true/yes/y/on" read true, "0/false/no/n/off" read false, anything else the default |
| Cells.TruthyIgnoresCaseAndSpace | app/content_loader.py:50 | a text cell reads the same as its trimmed, lower-cased spelling |
| Cells.TruthyOnIntegers | app/content_loader.py:50-55 | an integer cell is true for 1, false for 0, the default otherwise |
| Cells.IntField | app/content_loader.py:123 | `int(v or 0)` fails only on a non-empty text cell int() rejects; a falsy cell is 0, an integer cell itself, True 1 |
| Cells.IntFieldReadsDecimal | app/content_loader.py:123 | a text cell holding str(n) is read as n |
| Cells.FloatReadableInts | app/content_loader.py:179 | every text int() reads, float() reads too |
| Text.PyParseIntIsFloat | app/content_loader.py:179 | float() accepts every string int() accepts |
| Text.PyFloatWhole | app/content_loader.py:179 | float() accepts a digit part, with or without a trailing point |
| Text.PyFloatPoint | app/content_loader.py:179 | float() accepts digit parts on both sides of a point, such as "1.5" |
| Text.PyFloatRejectsWord | app/content_loader.py:179 | float() raises on text starting with a letter other than e, i or n, such as "fast" |
| Text.PyFloatRejectsEmpty | app/content_loader.py:179 | float() raises on the empty string and on a lone point |
| Tables.ReadTable | app/content_loader.py:58-78 | the records are exactly `Table(wb, name)`: none for a missing or empty sheet, one per non-blank data row, in row order |
| Tables.BuildRecord | app/content_loader.py:72-77 | the dict built for a row is the record of its non-empty headers |
| Tables.RecordKeys | app/content_loader.py:73-76 | a record has a key for every non-empty header and no other |
| Tables.RecordValue | app/content_loader.py:76 | a header's value is its column's cell, None past the row's end; with repeated headers the last column wins |
| Tables.RecordsAppend | app/content_loader.py:67-77 | records follow the input row order: rows a then b give a's records then b's |
| Tables.RecordsSingle | app/content_loader.py:68-71 | a blank row gives no record, any other row exactly one |
| Tables.TableOfNothing | app/content_loader.py:59-64 | a missing sheet, an empty sheet or a header-only sheet gives [] |
| TimeParse.ParseTimeToMs | app/content_loader.py:12-42 | a blank time is 0 ms; a time fails exactly when it is not blank and one of its colon-separated parts is unreadable |
| TimeParse.PartsToMs | app/content_loader.py:25-42 | it succeeds exactly when every part is readable, and reports NotWhole exactly when the seconds part is unreadable |
| TimeParse.BlankIsZero | app/content_loader.py:21-23 | a blank time is 0 ms |
| TimeParse.Seconds | app/content_loader.py:26-27 | a numeral s gives s * 1000 |
| TimeParse.MinutesSeconds | app/content_loader.py:29-35 | "m:ss" whose parts int() reads as m and s gives (m*60+s)*1000 |
| TimeParse.HoursMinutesSeconds | app/content_loader.py:37-40 | "h:mm:ss" read as h, m, s gives (h*3600+m*60+s)*1000 |
| TimeParse.MoreThanThreeParts | app/content_loader.py:42 | four or more numeral parts give 0 |
| TimeParse.TimeOfNumerals | app/content_loader.py:25-30 | numerals joined by colons are split back into exactly those parts and read one by one |
| TimeParse.BadSeconds | app/content_loader.py:29 | an unreadable seconds part is an error whatever precedes it |
| TimeParse.BadLeadingPart | app/content_loader.py:30 | with readable seconds, an unreadable hour or minute part is an error |
| Sorting.SortBySorted | app/content_loader.py:207-214 | the sorted list is ordered by the key, as Python compares (int, str) tuples |
| Sorting.SortByMembers | app/content_loader.py:207-214 | sorting loses and adds nothing |
| Sorting.SortByStable | app/content_loader.py:207-214 | among equal keys the sorted list keeps the input order, as Python's sort does |
| Sorting.KeyLeTotalOrder | app/content_loader.py:208 | the key order is reflexive, total, antisymmetric and transitive |
| Content.LanguageOf | app/content_loader.py:100-108 | a language row gives a language exactly when its stripped code is non-empty, with that code |
| Content.MetaValue | app/content_loader.py:94-96 | the stored meta value is never None, and is the cell itself when there is one |
| Content.HeadOf | app/content_loader.py:114-123 | a row's fields fail exactly when its `sort` is unreadable; the name falls back to the slug and the text to "" when their cells are falsy |
| Content.TextsOf | app/content_loader.py:191-199 | a segment's texts hold exactly the configured codes whose cell is present and not blank, each as str() writes it |
| Content.SegmentTexts | app/content_loader.py:191-199 | the inner loop over the language codes computes `TextsOf` |
| Content.SegmentOf | app/content_loader.py:186-203 | a segment row fails exactly when its time cannot be read; otherwise it keeps the time as written, its milliseconds and `TextsOf` |
| Phases.LoadMeta | app/content_loader.py:84-96 | the meta loop computes `MetaPhase` of the meta rows |
| Phases.MetaKeepsDefaults | app/content_loader.py:85-91 | site_title, site_subtitle and footer_text are always present |
| Phases.MetaLastWins | app/content_loader.py:92-96 | a key set by meta rows holds the last such row's value |
| Phases.MetaDefaultStays | app/content_loader.py:85-96 | a default key no row sets keeps its default |
| Phases.MetaKeys | app/content_loader.py:92-96 | the keys are the defaults plus the non-empty keys of the rows, and nothing else |
| Phases.LoadLanguages | app/content_loader.py:98-108 | the languages loop computes `LanguagesPhase` |
| Phases.LanguagesKept | app/content_loader.py:99-108 | the languages are exactly those of the rows with a code |
| Phases.LevelStep | app/content_loader.py:114-125 | one level row keeps the level table well formed (insertion order lists each slug once) |
| Phases.LoadLevels | app/content_loader.py:112-125 | the levels loop computes `LevelsPhase`, stopping at the first ValueError |
| Phases.LevelsFailure | app/content_loader.py:123 | the levels pass fails exactly when a kept row has an unreadable sort |
| Phases.LevelsFromRows | app/content_loader.py:113-125 | every level in the table comes from a kept row with its fields; every kept row's slug is in the table |
| Phases.LevelsLastWins | app/content_loader.py:119 | the last kept row with a slug gives that level its fields |
| Phases.YearStep | app/content_loader.py:130-144 | one year row keeps every year under a known level with its slug in `years_by_slug`, and every slug there naming the last year entry with it |
| Phases.LoadYears | app/content_loader.py:128-144 | the years loop computes `YearsPhase` |
| Phases.YearsFailure | app/content_loader.py:140 | the years pass fails exactly when a kept row has an unreadable sort |
| Phases.YearsFromRows | app/content_loader.py:129-144 | every year entry comes from a kept row (published, slug, known level) with that row's level slug, slug and fields |
| Phases.YearRowsKept | app/content_loader.py:129-144 | every kept year row is an entry of the table and its slug is in `years_by_slug` |
| Phases.YearsLastWins | app/content_loader.py:142-143 | `years_by_slug` names, for the slug of a kept row no later kept row shares, the entry with that row's level slug and fields |
| Phases.HymnStep | app/content_loader.py:149-164 | one hymn row keeps every hymn under an existing year with its slug in `hymns_by_slug`, and every slug there naming the last hymn entry with it |
| Phases.LoadHymns | app/content_loader.py:147-164 | the hymns loop computes `HymnsPhase` |
| Phases.HymnsFailure | app/content_loader.py:159 | the hymns pass fails exactly when a kept row has an unreadable sort |
| Phases.HymnsFromRows | app/content_loader.py:148-164 | every hymn entry comes from a kept row with its slug and fields, attached to the year entry `years_by_slug` names for the row's year slug |
| Phases.HymnRowsKept | app/content_loader.py:148-164 | every kept hymn row is an entry under the year `years_by_slug` names for its year slug, and its slug is in `hymns_by_slug` |
| Phases.HymnsLastWins | app/content_loader.py:163-164 | `hymns_by_slug` names, for the slug of a kept row no later kept row shares, the entry with that row's year and fields |
| Phases.LoadRecordings | app/content_loader.py:167-180 | the recordings loop computes `RecordingsPhase`, stopping at the first unreadable `default_rate` |
| Phases.RecordingsFailure | app/content_loader.py:179 | the recordings pass fails exactly when a kept row has a `default_rate` float() rejects |
| Phases.RecordingsFromRows | app/content_loader.py:167-180 | recordings are exactly the kept rows (published, known hymn, non-empty url), each under the hymn entry `hymns_by_slug` names for its slug |
| Phases.LoadSegments | app/content_loader.py:183-204 | the segments loop computes `SegmentsPhase`, stopping at the first unreadable time |
| Phases.SegmentsFailure | app/content_loader.py:202 | the segments pass fails exactly when a kept row's time cannot be read |
| Phases.SegmentsFromRows | app/content_loader.py:184-204 | segments are exactly the kept rows, each under the hymn entry `hymns_by_slug` names for its slug |
| Assembly.RecordingsOf | app/content_loader.py:176 | a hymn's recordings are exactly those appended to it |
| Assembly.SegmentsOf | app/content_loader.py:212 | a hymn's segments are those appended to it, sorted by start |
| Assembly.HymnsOf | app/content_loader.py:210 | a year's hymns are those appended to it, sorted by (sort, title), each with sorted segments |
| Assembly.YearsOf | app/content_loader.py:208 | a level's years are those appended to it, sorted by (sort, name), sorted below |
| Assembly.LevelsOf | app/content_loader.py:214 | the levels are exactly one per slug of `levels_by_slug`, no slug twice, sorted by (sort, name), sorted below |
| Assembly.BuildSite | app/content_loader.py:84-215 | a loaded site has its languages sorted by code and every list of the tree sorted by its key |
| Assembly.LoadXlsx | app/content_loader.py:84-215 | the loader's passes and sorting compute `BuildSite` of the workbook, including the ValueError of a bad `sort`, time or `default_rate` |
| Assembly.LevelTraces | app/content_loader.py:113-125 | each level of the site comes from a kept level row with its slug, name, description and sort |
| Assembly.LevelRowShown | app/content_loader.py:113-125 | each kept level row gives a level of the site |
| Assembly.YearTraces | app/content_loader.py:129-144 | each year of a level comes from a kept year row naming that level |
| Assembly.YearRowShown | app/content_loader.py:129-144 | each kept year row gives a year under the level it names |
| Assembly.HymnTraces | app/content_loader.py:148-164 | each hymn of a year comes from a kept hymn row naming that year's slug |
| Assembly.HymnRowShown | app/content_loader.py:148-164 | each kept hymn row gives a hymn under the year `years_by_slug` names for its year slug, which is the last year entry with that slug |
| Assembly.RecordingTraces | app/content_loader.py:167-180 | each recording of a hymn has a url and comes from a kept recording row naming that hymn |
| Assembly.SegmentTraces | app/content_loader.py:184-204 | each segment of a hymn comes from a kept segment row naming that hymn |
| Lookup.FindFirst | app/content_loader.py:236-254 | the result is the first element with the slug, or None exactly when no element has it |
| Lookup.FindLevel | app/content_loader.py:236-240 | the first level with the slug, or None exactly when there is none |
| Lookup.FindYear | app/content_loader.py:243-247 | the first year of the level with the slug, or None exactly when there is none |
| Lookup.FindHymn | app/content_loader.py:250-254 | the first hymn of the year with the slug, or None exactly when there is none |
| TranscriptSync.StartOf | app/static/site.js:148 | a row's start is what parseInt reads from `data-start-ms`, and 0 when the attribute is absent or unreadable |
| TranscriptSync.LastAtMost | app/static/site.js:150-158 | the last index whose start is at most t, or None when every start is later |
| TranscriptSync.ActiveIndex | app/static/site.js:150-158 | the rightmost row already started, or 0 when none has; an index when there are rows |
| TranscriptSync.FindActiveIdx | app/static/site.js:150-158 | the result is a row index (0 with no rows); a non-zero result has started; on non-decreasing starts it is `ActiveIndex` |
| TranscriptSync.ActiveIndexMonotone | app/static/site.js:180-183 | as the audio position grows, the highlighted row never moves back |
| TranscriptSync.ActiveAtOwnStart | app/static/site.js:150-158 | at a row's own start the highlight is that row, or the last later row with the same start |
| TranscriptSync.Transcript.constructor | app/static/site.js:147-160 | starts are read from the rows' attributes; nothing is highlighted and `last` is -1 |
| TranscriptSync.Transcript.SetActive | app/static/site.js:160-167 | the same index changes nothing; another one moves the single highlight to it, scrolls it into view and leaves other rows alone |
| TranscriptSync.Transcript.OnRowClick | app/static/site.js:169-177 | without audio nothing changes; otherwise the audio is at the row's start and the row is highlighted, scrolled into view unless it already was the highlighted row |
| TranscriptSync.Transcript.OnTimeUpdate | app/static/site.js:179-184 | with no rows nothing changes; on sorted starts the highlight is `ActiveIndex` of the position; a tick that keeps the row changes nothing, one that moves it scrolls the new row once |
| PagePrefs.ClampFont | app/static/site.js:127 | the size is in [12, 32], unchanged when already there, 12 below and 32 above |
| PagePrefs.ClampIdempotent | app/static/site.js:127 | clamping a clamped size changes nothing |
| PagePrefs.Page.SetFont | app/static/site.js:126-130 | the clamped size is applied and stored as text under `font:<hymn key>` |
| PagePrefs.Page.LoadFont | app/static/site.js:132-135 | the stored size is read with parseInt (18 when missing or NaN) and applied through setFont |
| PagePrefs.StoredFont | app/static/site.js:132-134 | the size is what parseInt reads from the stored text, 18 when nothing is stored or it is NaN |
| PagePrefs.LoadFontAfterSetFont | app/static/site.js:126-135 | what setFont stores, loadFont reads back: a reload keeps the size |
| PagePrefs.LoadFontDefault | app/static/site.js:133-134 | with nothing stored, or nothing readable, the size is 18 |
| PagePrefs.PrefsOf | app/static/site.js:83-84 | the stored object is used when it parses, {} otherwise |
| PagePrefs.LangOn | app/static/site.js:91 | a toggle is on per the stored choice for its code when there is one, per `data-default == "1"` otherwise |
| PagePrefs.SavedPrefs | app/static/site.js:98-104 | every toggle's code is saved, and every saved value is a boolean, as `checked` is |
| PagePrefs.SavedPrefsLast | app/static/site.js:98-104 | the saved object holds each toggle's state under its code, the last toggle of a code winning |
| PagePrefs.SavedPrefsKeys | app/static/site.js:98-104 | the saved object's keys are exactly the toggles' codes |
| PagePrefs.LoadAfterSave | app/static/site.js:82-105 | loading what saveLangPrefs stored gives every toggle (not shadowed by a later one of its code) the state it was saved in |
| PagePrefs.ShowLangs | app/static/site.js:76-80 | no language loses its visibility entry, and every toggle's language gets one |
| PagePrefs.ShowLangsOther | app/static/site.js:76-80 | a language no toggle carries keeps its visibility |
| PagePrefs.ShowLangsLast | app/static/site.js:76-80 | a language is hidden exactly when its last toggle is off |
| PagePrefs.Page.LoadLangPrefs | app/static/site.js:82-96 | every checkbox is `LangOn` of the stored object, every "off" class its negation, and each language shown per its toggles |
| PagePrefs.Page.SaveLangPrefs | app/static/site.js:98-105 | the store gets the toggles' states under `langs:<hymn key>`; nothing else changes |
| PagePrefs.Page.OnToggleClick | app/static/site.js:107-118 | the toggle's class and its language follow its checkbox, and all toggles are saved |
| SearchFilter.Query | app/static/site.js:9 | the query has no whitespace at its ends, is lower-case and is no longer than the input |
| SearchFilter.Shown | app/static/site.js:10-16 | the empty query shows everything; a query longer than the title hides it |
| SearchFilter.ShownIffOccurs | app/static/site.js:9-17 | an element is shown exactly when the query is empty or occurs somewhere in its title |
| SearchFilter.QueryNormalised | app/static/site.js:9 | the query is lower-case and normalising it again changes nothing |
| SearchFilter.TitleCaseKept | app/static/site.js:9-16 | any title with an upper-case letter is not found by typing the title itself as the query |
| SearchFilter.SearchPage.OnSearchInput | app/static/site.js:8-18 | every row and card is displayed exactly when `Shown` holds for its title and the normalised query |
| Pipeline.PageStartsAreSegmentStarts | app/static/site.js:148 | parseInt reads back the start times the loader produced, row by row |
| Pipeline.SortedHymnPageStarts | app/content_loader.py:212 | a hymn with sorted segments gives a page with non-decreasing starts |
| Pipeline.LoadedSitePagesAscending | app/content_loader.py:207-214 | every hymn page of a loaded site meets `findActiveIdx`'s need for non-decreasing starts |

## Left out

- TimeParse.ParseTimeToMs: fractional seconds (`float()` and `round()`) are not modelled. A seconds part that is not an optionally signed run of digits is reported as the NotWhole error. Python accepts "6.5" or "1e3" there, so a segment row with such a time fails the load in the model but not in Python. A seconds part of "inf" fails in both, but Python raises OverflowError from `int(round(...))` where the model reports a ValueError.
- TimeParse.ParseTimeToMs: whole-number times are computed exactly. Python passes them through `float()`, so a time past 2^53 ms may come out rounded.
- Phases.LoadRecordings: only whether float() accepts `default_rate` is modelled, not the rate's value. An integer `default_rate` cell too large for a double makes Python raise OverflowError; the model accepts every integer cell.
- Cells.FloatReadable: Python's float() also accepts non-ASCII digits and whitespace, which the model rejects.
- Floating point elsewhere:
  - float and datetime cells;
  - the player's `currentTime` in seconds: the audio position is an integer number of milliseconds;
  - the playback-speed chips and their stored speed.
- Python `int()` accepts digit underscores and non-ASCII digits and whitespace, and JavaScript's `trim`/`parseInt` skip non-ASCII whitespace. The model knows ASCII spaces, tabs and line breaks and ASCII digits only. Lower-casing is ASCII only.
- `load_site` (file reading, the mtime-keyed cache, `json.load` of a JSON content file) and `app/main.py`, the web routes and templates. The page attributes the script reads (`data-start-ms`, `data-title`, `data-default`) are inputs. Pipeline assumes `data-start-ms` holds the decimal start time.
- `openpyxl.load_workbook`: a workbook is a map from sheet name to its rows of cells.
- Each row is read through its sheet's reader (`MetaRowOf`, `LevelRowOf`, …) before the pass loop. `_load_xlsx` reads the fields inside the loop body. No observable difference results: a ValueError is still raised only for a row the loop keeps.
- Browser effects:
  - `scrollIntoView` is recorded as a log of scrolled rows;
  - `classList` rendering, `getComputedStyle` and the font plus/minus buttons;
  - `setAudioFromSelect`;
  - the `audio.play()` promise, whose rejection is ignored;
  - the `setTimeout` deferral of toggle clicks: the model runs the deferred body at once.
- PagePrefs: localStorage holds the language choices as decoded JSON objects; JSON text is not modelled. Also not modelled:
  - stored JSON that parses to something other than an object, e.g. `null`, which makes `prefs[code]` throw;
  - property names a plain object inherits, such as a language code `constructor`.
- `(lo + hi) >> 1` is the exact halving; transcripts with 2^30 or more rows, where the 32-bit shift would wrap, are not modelled.
- TranscriptSync.Transcript.SetActive: requires an index that names a row. Its callers pass only such indices, except `timeupdate` on a page with no rows, which OnTimeUpdate models as the listener throwing before any change.
- Python's dict sharing is modelled by entry lists with parent positions, and the sort applies to values rather than in place. A level's years, a year's hymns and a hymn's recordings and segments are the entries that name them, in append order. That is the list Python builds.
