/**
 * Where the loader meets the page script: the hymn page lists a hymn's
 * segments in order, each row carrying its start in milliseconds as a
 * decimal `data-start-ms` attribute, and the script reads those back into
 * `starts`. Because the loader sorts every hymn's segments by start
 * (app/content_loader.py:212), the starts the script searches are
 * non-decreasing, which is what `findActiveIdx` needs to find the rightmost
 * started row (app/static/site.js:147-158).
 */
module Pipeline {
  import opened Wrappers
  import opened Text
  import opened Sorting
  import opened Seqs
  import opened Tables
  import opened Content
  import opened Assembly
  import opened TranscriptSync

  /** The `data-start-ms` attribute of each transcript row of the hymn's page. */
  function PageStartAttrs(h: Hymn): seq<Option<string>> {
    Map(h.segments, (s: Segment) => Some(IntToDecimal(s.startMs)))
  }

  /** What the script reads from the page: `rows.map(r => parseInt(r.dataset.startMs, 10) || 0)`. */
  function PageStarts(h: Hymn): seq<int> {
    Map(PageStartAttrs(h), StartOf)
  }

  /** The script reads back exactly the loader's start times. */
  lemma PageStartsAreSegmentStarts(h: Hymn)
    ensures |PageStarts(h)| == |h.segments|
    ensures forall i :: 0 <= i < |h.segments| ==> PageStarts(h)[i] == h.segments[i].startMs
  {
    forall i | 0 <= i < |h.segments| ensures PageStarts(h)[i] == h.segments[i].startMs {
      JsParseIntRoundTrip(h.segments[i].startMs);
    }
  }

  /** A hymn whose segments are sorted by start gives a page whose starts are non-decreasing. */
  lemma SortedHymnPageStarts(h: Hymn)
    requires HymnSorted(h)
    ensures NonDecreasing(PageStarts(h))
  {
    PageStartsAreSegmentStarts(h);
    forall i, j | 0 <= i <= j < |PageStarts(h)| ensures PageStarts(h)[i] <= PageStarts(h)[j] {
      if i < j {
        assert KeyLe(SegmentKey(h.segments[i]), SegmentKey(h.segments[j]));
      }
    }
  }

  /**
   * Every hymn page of a loaded site gives `findActiveIdx` non-decreasing
   * starts, so the highlight follows ActiveIndex: the last row already
   * started.
   */
  lemma LoadedSitePagesAscending(wb: Workbook, l: Level, y: Year, h: Hymn)
    requires BuildSite(wb).Success?
    requires l in BuildSite(wb).value.levels && y in l.years && h in y.hymns
    ensures NonDecreasing(PageStarts(h))
  {
    SortedHymnPageStarts(h);
  }
}
