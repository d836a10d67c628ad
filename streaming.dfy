/**
 * The accumulation loop of `stream_until_marker`: text fragments of a
 * streamed completion are appended one by one until the stop marker occurs
 * in the text accumulated so far.
 *
 * A streamed chunk is `Some(content)` when it carries a first choice with a
 * delta that has a `content` attribute whose value is not `None`, and `None`
 * otherwise. An error raised by the stream after `k` chunks ends the loop
 * exactly as a stream of those `k` chunks would (see `StreamedTruncated`).
 */
module Streaming {
  import opened Wrappers
  import opened Text

  /** A chunk whose content is appended: it has content, and the content is not empty. */
  predicate IsFragment(chunk: Option<string>) {
    chunk.Some? && chunk.value != ""
  }

  /** The text that a chunk adds to the accumulated text. */
  function Piece(chunk: Option<string>): string {
    if IsFragment(chunk) then chunk.value else ""
  }

  /** All the text the chunks carry, in order. */
  function Accumulated(chunks: seq<Option<string>>): (r: string)
    ensures chunks == [] ==> r == ""
  {
    if chunks == [] then ""
    else Accumulated(chunks[..|chunks| - 1]) + Piece(chunks[|chunks| - 1])
  }

  /** The loop stops at chunk `i`: it is a fragment, and after it the accumulated text holds the marker. */
  predicate HitAt(chunks: seq<Option<string>>, marker: string, i: nat) {
    i < |chunks| && IsFragment(chunks[i]) && Contains(Accumulated(chunks[..i + 1]), marker)
  }

  /** The loop does not stop at any of the first `k` chunks. */
  ghost predicate NoHitBefore(chunks: seq<Option<string>>, marker: string, k: nat) {
    forall i: nat :: i < k ==> !HitAt(chunks, marker, i)
  }

  /**
   * How many chunks the loop consumes when it has already consumed `k`
   * without stopping: all of them, or up to and including the first chunk at
   * which it stops.
   */
  function StopPointFrom(chunks: seq<Option<string>>, marker: string, k: nat): (n: nat)
    requires k <= |chunks| && NoHitBefore(chunks, marker, k)
    ensures k <= n <= |chunks|
    ensures (n == |chunks| && NoHitBefore(chunks, marker, n)) ||
            (0 < n && HitAt(chunks, marker, n - 1) && NoHitBefore(chunks, marker, n - 1))
    decreases |chunks| - k
  {
    if k == |chunks| then k
    else if HitAt(chunks, marker, k) then k + 1
    else
      NoHitExtend(chunks, marker, k);
      StopPointFrom(chunks, marker, k + 1)
  }

  /** Not stopping at chunk `k` either extends the run of chunks the loop does not stop at. */
  lemma NoHitExtend(chunks: seq<Option<string>>, marker: string, k: nat)
    requires NoHitBefore(chunks, marker, k) && !HitAt(chunks, marker, k)
    ensures NoHitBefore(chunks, marker, k + 1)
  {
  }

  /** How many chunks the loop consumes. */
  function StopPoint(chunks: seq<Option<string>>, marker: string): (n: nat)
    ensures n <= |chunks|
    ensures (n == |chunks| && NoHitBefore(chunks, marker, n)) ||
            (0 < n && HitAt(chunks, marker, n - 1) && NoHitBefore(chunks, marker, n - 1))
  {
    StopPointFrom(chunks, marker, 0)
  }

  /** The text `stream_until_marker` returns for the chunks a stream delivers. */
  function Streamed(chunks: seq<Option<string>>, marker: string): (r: string)
    ensures r <= Accumulated(chunks)
  {
    AccumulatedPrefix(chunks, StopPoint(chunks, marker), |chunks|);
    assert chunks[..|chunks|] == chunks;
    Accumulated(chunks[..StopPoint(chunks, marker)])
  }

  /** The accumulation loop of `stream_until_marker`. */
  method StreamUntilMarker(chunks: seq<Option<string>>, stopMarker: string) returns (accumulated: string)
    ensures accumulated == Streamed(chunks, stopMarker)
  {
    accumulated := "";
    var i := 0;
    while i < |chunks|
      invariant i <= |chunks|
      invariant accumulated == Accumulated(chunks[..i])
      invariant NoHitBefore(chunks, stopMarker, i)
    {
      var newText := chunks[i];
      AccumulatedStep(chunks, i);
      if newText.Some? && newText.value != "" {
        accumulated := accumulated + newText.value;
        if Contains(accumulated, stopMarker) {
          StopPointOnly(chunks, stopMarker, i + 1);
          return;
        }
      }
      NoHitExtend(chunks, stopMarker, i);
      i := i + 1;
    }
    assert chunks[..i] == chunks;
    StopPointOnly(chunks, stopMarker, |chunks|);
  }

  /** Consuming one more chunk appends its piece. */
  lemma AccumulatedStep(chunks: seq<Option<string>>, i: nat)
    requires i < |chunks|
    ensures Accumulated(chunks[..i + 1]) == Accumulated(chunks[..i]) + Piece(chunks[i])
  {
    assert chunks[..i + 1][..i] == chunks[..i];
  }

  /** The stop point is the only number of chunks that meets its description. */
  lemma StopPointOnly(chunks: seq<Option<string>>, marker: string, n: nat)
    requires n <= |chunks|
    requires (n == |chunks| && NoHitBefore(chunks, marker, n)) ||
             (0 < n && HitAt(chunks, marker, n - 1) && NoHitBefore(chunks, marker, n - 1))
    ensures StopPoint(chunks, marker) == n
  {
  }

  /** The text of fewer chunks is a prefix of the text of more. */
  lemma {:induction false} AccumulatedPrefix(chunks: seq<Option<string>>, a: nat, b: nat)
    requires a <= b <= |chunks|
    ensures Accumulated(chunks[..a]) <= Accumulated(chunks[..b])
    decreases b - a
  {
    if a < b {
      AccumulatedPrefix(chunks, a, b - 1);
      AccumulatedStep(chunks, b - 1);
    }
  }

  /** When the marker occurs anywhere in the full text, the returned text holds it. */
  lemma StreamedHoldsMarker(chunks: seq<Option<string>>, marker: string)
    requires Contains(Accumulated(chunks), marker)
    ensures Contains(Streamed(chunks, marker), marker)
  {
    assert chunks[..|chunks|] == chunks;
  }

  /** When the marker does not occur in the full text, the loop returns all of it. */
  lemma StreamedWithoutMarker(chunks: seq<Option<string>>, marker: string)
    requires !Contains(Accumulated(chunks), marker)
    ensures Streamed(chunks, marker) == Accumulated(chunks)
  {
    assert chunks[..|chunks|] == chunks;
    forall i: nat | i < |chunks|
      ensures !HitAt(chunks, marker, i)
    {
      AccumulatedPrefix(chunks, i + 1, |chunks|);
      if Contains(Accumulated(chunks[..i + 1]), marker) {
        ContainsPrefix(Accumulated(chunks[..i + 1]), Accumulated(chunks), marker);
      }
    }
    StopPointOnly(chunks, marker, |chunks|);
  }

  /**
   * The text of `k` chunks is the text up to and including the last fragment
   * among them.
   */
  lemma {:induction false} LastFragment(chunks: seq<Option<string>>, k: nat) returns (i: nat)
    requires k <= |chunks| && Accumulated(chunks[..k]) != ""
    ensures i < k && IsFragment(chunks[i])
    ensures Accumulated(chunks[..i + 1]) == Accumulated(chunks[..k])
  {
    AccumulatedStep(chunks, k - 1);
    if IsFragment(chunks[k - 1]) {
      i := k - 1;
    } else {
      i := LastFragment(chunks, k - 1);
    }
  }

  /**
   * The loop stops as early as it can: no text of fewer chunks than it
   * consumes holds a non-empty marker.
   */
  lemma StreamedIsShortest(chunks: seq<Option<string>>, marker: string, k: nat)
    requires marker != "" && k < StopPoint(chunks, marker)
    ensures !Contains(Accumulated(chunks[..k]), marker)
  {
    if Contains(Accumulated(chunks[..k]), marker) {
      var w: nat :| OccursAt(Accumulated(chunks[..k]), marker, w);
      var i := LastFragment(chunks, k);
      assert HitAt(chunks, marker, i);
    }
  }

  /** A stream cut after `k` chunks stops where the whole stream stops, or at its cut. */
  lemma StopPointTruncated(chunks: seq<Option<string>>, marker: string, k: nat)
    requires k <= |chunks|
    ensures StopPoint(chunks[..k], marker) == if StopPoint(chunks, marker) < k then StopPoint(chunks, marker) else k
  {
    var part := chunks[..k];
    forall i: nat | i < k
      ensures HitAt(part, marker, i) == HitAt(chunks, marker, i)
    {
      assert part[..i + 1] == chunks[..i + 1];
    }
    var n := StopPoint(chunks, marker);
    StopPointOnly(part, marker, if n < k then n else k);
  }

  /**
   * A stream that fails after `k` chunks returns a prefix of what the
   * uninterrupted stream returns.
   */
  lemma StreamedTruncated(chunks: seq<Option<string>>, marker: string, k: nat)
    requires k <= |chunks|
    ensures Streamed(chunks[..k], marker) <= Streamed(chunks, marker)
  {
    var n := StopPoint(chunks, marker);
    var m := StopPoint(chunks[..k], marker);
    StopPointTruncated(chunks, marker, k);
    assert chunks[..k][..m] == chunks[..m];
    AccumulatedPrefix(chunks, m, n);
  }

  /** A marker split across two fragments is found once the second is appended. */
  lemma StreamedSplitMarker(chunks: seq<Option<string>>, before: string, x: string, y: string, after: string)
    requires chunks == [Some(before + x), Some(y + after)]
    requires y != "" && !Contains(before + x, x + y)
    ensures Streamed(chunks, x + y) == before + x + y + after
  {
    var marker, first, second := x + y, before + x, y + after;
    assert Accumulated(chunks[..1]) == first by {
      assert chunks[..1][..0] == [];
    }
    assert Accumulated(chunks) == first + second by {
      assert chunks[..1] == chunks[..|chunks| - 1];
    }
    assert Contains(first + second, marker) by {
      SplitSeam(before, x, y, after);
    }
    assert !HitAt(chunks, marker, 0);
    assert chunks[..2] == chunks;
    assert HitAt(chunks, marker, 1);
    StopPointOnly(chunks, marker, 2);
    assert first + second == before + x + y + after;
  }

  /** `x + y` occurs in `(before + x) + (y + after)` right after `before`. */
  lemma SplitSeam(before: string, x: string, y: string, after: string)
    ensures OccursAt((before + x) + (y + after), x + y, |before|)
  {
    assert (before + x) + (y + after) == before + (x + y) + after;
    OccursAtSeam(before, x + y, after);
  }
}
