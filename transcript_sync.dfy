/**
 * The transcript synchroniser of the hymn page (app/static/site.js:146-184):
 * the row whose start time was last reached is highlighted while the audio
 * plays, and clicking a row seeks the audio to that row's start.
 *
 * Times are whole milliseconds. The audio position is kept in milliseconds;
 * the conversions to and from the player's seconds are not modelled.
 */
module TranscriptSync {
  import opened Wrappers
  import opened Text

  /** `parseInt(r.dataset.startMs, 10) || 0`: an absent or unreadable attribute, and zero, give 0. */
  function StartOf(attr: Option<string>): (ms: int)
    ensures attr.Some? && JsParseInt(attr.value).Some? ==> ms == JsParseInt(attr.value).value
    ensures attr.None? || JsParseInt(attr.value).None? ==> ms == 0
  {
    match attr
    case None => 0
    case Some(s) =>
      match JsParseInt(s)
      case None => 0
      case Some(v) => v
  }

  ghost predicate NonDecreasing(s: seq<int>) {
    forall i, j :: 0 <= i <= j < |s| ==> s[i] <= s[j]
  }

  /** The last position whose start is at most t, if there is one. */
  function LastAtMost(starts: seq<int>, t: int): (r: Option<nat>)
    ensures r.Some? ==> r.value < |starts| && starts[r.value] <= t
    ensures r.Some? ==> forall j :: r.value < j < |starts| ==> starts[j] > t
    ensures r.None? ==> forall j :: 0 <= j < |starts| ==> starts[j] > t
    decreases |starts|
  {
    if starts == [] then None
    else if starts[|starts| - 1] <= t then Some(|starts| - 1)
    else LastAtMost(starts[..|starts| - 1], t)
  }

  /** The row to highlight at time t: the last one already started, or row 0 when none has. */
  function ActiveIndex(starts: seq<int>, t: int): (r: nat)
    ensures |starts| > 0 ==> r < |starts|
    ensures (exists i :: 0 <= i < |starts| && starts[i] <= t) ==>
      starts[r] <= t && forall j :: r < j < |starts| ==> starts[j] > t
    ensures (forall i :: 0 <= i < |starts| ==> starts[i] > t) ==> r == 0
  {
    match LastAtMost(starts, t)
    case None => 0
    case Some(i) => i
  }

  /**
   * `findActiveIdx`: binary search for the last start not after tMs. On
   * non-decreasing starts it finds the row ActiveIndex names; on any starts
   * the result is a row index (0 when there is none) whose start, unless it
   * is the fallback 0, has been reached.
   */
  method FindActiveIdx(starts: seq<int>, tMs: int) returns (ans: int)
    ensures 0 <= ans && (|starts| == 0 ==> ans == 0) && (|starts| > 0 ==> ans < |starts|)
    ensures ans > 0 ==> starts[ans] <= tMs
    ensures NonDecreasing(starts) ==> ans == ActiveIndex(starts, tMs)
  {
    var lo, hi := 0, |starts| - 1;
    ans := 0;
    while lo <= hi
      invariant 0 <= lo <= hi + 1 <= |starts|
      invariant lo == 0 ==> ans == 0
      invariant lo > 0 ==> ans == lo - 1 && starts[ans] <= tMs
      invariant NonDecreasing(starts) ==> forall j :: hi < j < |starts| ==> starts[j] > tMs
      decreases hi - lo
    {
      // (lo + hi) >> 1: both are non-negative here, so the shift is the halving
      var mid := (lo + hi) / 2;
      if starts[mid] <= tMs {
        ans := mid;
        lo := mid + 1;
      } else {
        hi := mid - 1;
      }
    }
  }

  /** As playback moves forward, the highlight never moves back. */
  lemma ActiveIndexMonotone(starts: seq<int>, t1: int, t2: int)
    requires NonDecreasing(starts) && t1 <= t2
    ensures ActiveIndex(starts, t1) <= ActiveIndex(starts, t2)
  {
    var r1, r2 := ActiveIndex(starts, t1), ActiveIndex(starts, t2);
    if exists i :: 0 <= i < |starts| && starts[i] <= t1 {
      assert starts[r1] <= t2;
    }
  }

  /**
   * At a row's own start time the highlight is on that row, unless a later
   * row starts at the same time, in which case it is on the last of them.
   */
  lemma ActiveAtOwnStart(starts: seq<int>, i: nat)
    requires NonDecreasing(starts) && i < |starts|
    ensures i + 1 == |starts| || starts[i] < starts[i + 1] ==> ActiveIndex(starts, starts[i]) == i
    ensures i < ActiveIndex(starts, starts[i]) ==> starts[ActiveIndex(starts, starts[i])] == starts[i]
  {
    assert starts[i] <= starts[i];
  }

  /**
   * The rows of a hymn page and their highlight. Row i carries the start
   * attribute attrs[i]; `starts` is what the page reads from them once.
   * `active[i]` is row i's "active" class, `last` the row setActive last
   * highlighted (-1 for none), `scrolls` the rows scrolled into view in order,
   * and `positionMs` the audio position.
   */
  class Transcript {
    const attrs: seq<Option<string>>
    const starts: seq<int>
    const hasAudio: bool
    const active: array<bool>
    var last: int
    var scrolls: seq<nat>
    var positionMs: int

    /** At most one row is highlighted, and it is the one `last` names. */
    ghost predicate Valid()
      reads this, active
    {
      && |starts| == |attrs| == active.Length
      && (forall i :: 0 <= i < |attrs| ==> starts[i] == StartOf(attrs[i]))
      && -1 <= last < |starts|
      && (forall i :: 0 <= i < active.Length ==> (active[i] <==> i == last))
    }

    /** The page as loaded: no row highlighted, the audio at its start. */
    constructor(attrs: seq<Option<string>>, hasAudio: bool)
      ensures Valid() && fresh(active)
      ensures this.attrs == attrs && this.hasAudio == hasAudio
      ensures last == -1 && scrolls == [] && positionMs == 0
    {
      this.attrs := attrs;
      this.starts := seq(|attrs|, i requires 0 <= i < |attrs| => StartOf(attrs[i]));
      this.hasAudio := hasAudio;
      this.active := new bool[|attrs|](i => false);
      this.last := -1;
      this.scrolls := [];
      this.positionMs := 0;
    }

    /**
     * `setActive(idx)`: the same row again changes nothing; another row
     * takes the highlight from the previous one, is scrolled into view,
     * and every other row keeps its class.
     */
    method SetActive(idx: int)
      requires Valid() && 0 <= idx < |starts|
      modifies this, active
      ensures Valid() && last == idx
      ensures idx == old(last) ==> unchanged(this) && unchanged(active)
      ensures idx != old(last) ==> scrolls == old(scrolls) + [idx]
      ensures forall i :: 0 <= i < active.Length && i != idx && i != old(last) ==> active[i] == old(active[i])
      ensures positionMs == old(positionMs)
    {
      if idx == last {
        return;
      }
      if last >= 0 {
        active[last] := false;
      }
      active[idx] := true;
      scrolls := scrolls + [idx];
      last := idx;
    }

    /**
     * A click on row i: without an audio element nothing happens; otherwise
     * the audio seeks to the row's start and the row is highlighted, whether
     * or not playback then starts.
     */
    method OnRowClick(i: int)
      requires Valid() && 0 <= i < |starts|
      modifies this, active
      ensures Valid()
      ensures !hasAudio ==> unchanged(this) && unchanged(active)
      ensures hasAudio ==> positionMs == starts[i] && last == i
      ensures hasAudio && i == old(last) ==> scrolls == old(scrolls)
      ensures hasAudio && i != old(last) ==> scrolls == old(scrolls) + [i]
    {
      if !hasAudio {
        return;
      }
      var ms := StartOf(attrs[i]);
      positionMs := ms;
      SetActive(i);
    }

    /**
     * The `timeupdate` listener at audio position tMs. With no rows,
     * `rows[0]` is undefined and the listener throws before changing
     * anything; otherwise the found row is highlighted. A tick that finds
     * the row already highlighted changes nothing, so repeated ticks at
     * one time neither re-highlight nor re-scroll; a tick that finds
     * another row scrolls to it once.
     */
    method OnTimeUpdate(tMs: int)
      requires Valid()
      modifies this, active
      ensures Valid() && positionMs == old(positionMs)
      ensures |starts| == 0 ==> unchanged(this) && unchanged(active)
      ensures |starts| > 0 && NonDecreasing(starts) ==> last == ActiveIndex(starts, tMs)
      ensures |starts| > 0 ==> 0 <= last < |starts|
      ensures last == old(last) ==> unchanged(this) && unchanged(active)
      ensures last != old(last) ==> scrolls == old(scrolls) + [last]
    {
      if |starts| == 0 {
        return;
      }
      var idx := FindActiveIdx(starts, tMs);
      SetActive(idx);
    }
  }
}
