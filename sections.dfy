/**
 * `extract_section`: the text of a completion between a start marker and an
 * optional end marker, trimmed of surrounding white space.
 */
module Sections {
  import opened Wrappers
  import opened Text

  /**
   * The text after the first `sectionStart` in `completion`, up to the first
   * `sectionEnd` found after it (or to the end of the text when `sectionEnd`
   * is `None` or is not found there), stripped; `None` when `sectionStart`
   * does not occur at all.
   */
  function ExtractSection(completion: string, sectionStart: string, sectionEnd: Option<string>): (r: Option<string>)
    ensures r.None? <==> forall i: nat :: !OccursAt(completion, sectionStart, i)
  {
    var found := Find(completion, sectionStart);
    if found == -1 then None
    else
      var startIdx := found + |sectionStart|;
      Some(Strip(completion[startIdx..SectionStop(completion, startIdx, sectionEnd)]))
  }

  /**
   * Where a section that starts at `startIdx` stops: at the first `sectionEnd`
   * found from `startIdx` on, or at the end of the text when there is no end
   * marker or it is not found.
   */
  function SectionStop(completion: string, startIdx: nat, sectionEnd: Option<string>): (e: nat)
    requires startIdx <= |completion|
    ensures startIdx <= e <= |completion|
    ensures sectionEnd.None? ==> e == |completion|
    ensures sectionEnd.Some? ==>
      IsFirstOccurrenceFrom(completion, sectionEnd.value, startIdx, e) ||
      (e == |completion| && forall k: nat :: startIdx <= k ==> !OccursAt(completion, sectionEnd.value, k))
  {
    match sectionEnd
    case None => |completion|
    case Some(marker) =>
      var endIdx := FindFrom(completion, marker, startIdx);
      if endIdx == -1 then |completion| else endIdx
  }

  /** `i` is where `sectionStart` first occurs in `completion`. */
  ghost predicate StartsAt(completion: string, sectionStart: string, i: nat) {
    IsFirstOccurrenceFrom(completion, sectionStart, 0, i)
  }

  /** Without an end marker, the section runs from the start marker to the end of the text. */
  lemma ExtractWithoutEnd(completion: string, sectionStart: string, i: nat)
    requires StartsAt(completion, sectionStart, i)
    ensures i + |sectionStart| <= |completion|
    ensures ExtractSection(completion, sectionStart, None) == Some(Strip(completion[i + |sectionStart|..]))
  {
    FindFromFirst(completion, sectionStart, 0, i);
    ExtractRestAt(completion, sectionStart, i, completion[i + |sectionStart|..]);
  }

  /**
   * The end marker is looked for only after the start marker: when it does not
   * occur there (whether or not it occurs earlier), the result is the one
   * without an end marker.
   */
  lemma ExtractEndMissing(completion: string, sectionStart: string, sectionEnd: string, i: nat)
    requires StartsAt(completion, sectionStart, i)
    requires forall j: nat :: i + |sectionStart| <= j ==> !OccursAt(completion, sectionEnd, j)
    ensures ExtractSection(completion, sectionStart, Some(sectionEnd)) == ExtractSection(completion, sectionStart, None)
  {
    FindFromFirst(completion, sectionStart, 0, i);
  }

  /**
   * When the end marker first occurs after the start marker at `j`, the
   * section is the stripped text between the two markers.
   */
  lemma ExtractEndFound(completion: string, sectionStart: string, sectionEnd: string, i: nat, j: nat)
    requires StartsAt(completion, sectionStart, i)
    requires IsFirstOccurrenceFrom(completion, sectionEnd, i + |sectionStart|, j)
    ensures ExtractSection(completion, sectionStart, Some(sectionEnd)) == Some(Strip(completion[i + |sectionStart|..j]))
  {
    FindFromFirst(completion, sectionStart, 0, i);
    FindFromFirst(completion, sectionEnd, i + |sectionStart|, j);
    ExtractAt(completion, sectionStart, sectionEnd, i, j, completion[i + |sectionStart|..j]);
  }

  /**
   * The text between the start marker and the first end marker after it holds,
   * before stripping, no occurrence of a non-empty end marker.
   */
  lemma EndMarkerNotBetween(completion: string, sectionStart: string, sectionEnd: string, i: nat, j: nat)
    requires StartsAt(completion, sectionStart, i)
    requires IsFirstOccurrenceFrom(completion, sectionEnd, i + |sectionStart|, j)
    ensures sectionEnd != [] ==> !Contains(completion[i + |sectionStart|..j], sectionEnd)
  {
    var startIdx := i + |sectionStart|;
    forall k: nat | sectionEnd != [] && OccursAt(completion[startIdx..j], sectionEnd, k)
      ensures false
    {
      OccursInSlice(completion, sectionEnd, startIdx, j, k);
    }
  }

  /** The value of `ExtractSection` once both searches are known to succeed. */
  lemma ExtractAt(completion: string, sectionStart: string, sectionEnd: string, i: nat, j: nat, body: string)
    requires Find(completion, sectionStart) == i
    requires FindFrom(completion, sectionEnd, i + |sectionStart|) == j
    requires i + |sectionStart| <= j <= |completion| && completion[i + |sectionStart|..j] == body
    ensures ExtractSection(completion, sectionStart, Some(sectionEnd)) == Some(Strip(body))
  {
    ExtractSectionFound(completion, sectionStart, Some(sectionEnd), i);
    assert SectionStop(completion, i + |sectionStart|, Some(sectionEnd)) == j;
  }

  /** `ExtractSection` once the start marker is found at `i`. */
  lemma ExtractSectionFound(completion: string, sectionStart: string, sectionEnd: Option<string>, i: nat)
    requires Find(completion, sectionStart) == i
    ensures i + |sectionStart| <= |completion|
    ensures ExtractSection(completion, sectionStart, sectionEnd) ==
      Some(Strip(completion[i + |sectionStart|..SectionStop(completion, i + |sectionStart|, sectionEnd)]))
  {
    assert OccursAt(completion, sectionStart, i);
  }

  /** The value of `ExtractSection` without an end marker once the start marker is found. */
  lemma ExtractRestAt(completion: string, sectionStart: string, i: nat, body: string)
    requires Find(completion, sectionStart) == i
    requires i + |sectionStart| <= |completion| && completion[i + |sectionStart|..] == body
    ensures ExtractSection(completion, sectionStart, None) == Some(Strip(body))
  {
    ExtractSectionFound(completion, sectionStart, None, i);
    assert completion[i + |sectionStart|..SectionStop(completion, i + |sectionStart|, None)] == body;
  }

  /**
   * The section between a start marker at `i` and an end marker at `j` when no
   * character before `i` starts the start marker and no character between the
   * two markers starts the end marker.
   */
  lemma ExtractBetween(completion: string, sectionStart: string, sectionEnd: string, i: nat, j: nat)
    requires |sectionStart| > 0 && |sectionEnd| > 0
    requires OccursAt(completion, sectionStart, i) && i + |sectionStart| <= j && OccursAt(completion, sectionEnd, j)
    requires forall k :: 0 <= k < i ==> completion[k] != sectionStart[0]
    requires forall k :: i + |sectionStart| <= k < j ==> completion[k] != sectionEnd[0]
    ensures Find(completion, sectionStart) == i
    ensures SectionStop(completion, i + |sectionStart|, Some(sectionEnd)) == j
    ensures ExtractSection(completion, sectionStart, Some(sectionEnd)) == Some(Strip(completion[i + |sectionStart|..j]))
  {
    FindFromAtFirstChar(completion, sectionStart, 0, i);
    FindFromAtFirstChar(completion, sectionEnd, i + |sectionStart|, j);
    ExtractAt(completion, sectionStart, sectionEnd, i, j, completion[i + |sectionStart|..j]);
  }

  /**
   * A line section of a completion laid out as `before + sectionStart + body +
   * sectionEnd + after` is the stripped `body`, provided `before` holds no
   * character that starts `sectionStart` and `body` none that starts
   * `sectionEnd`.
   */
  lemma ExtractFromLayout(completion: string, before: string, sectionStart: string, body: string, sectionEnd: string, after: string)
    requires completion == before + sectionStart + body + sectionEnd + after
    requires |sectionStart| > 0 && |sectionEnd| > 0
    requires sectionStart[0] !in before && sectionEnd[0] !in body
    ensures ExtractSection(completion, sectionStart, Some(sectionEnd)) == Some(Strip(body))
  {
    var i, j := |before|, |before| + |sectionStart| + |body|;
    assert j <= |completion| && completion[i + |sectionStart|..j] == body by {
      LayoutFacts(completion, before, sectionStart, body, sectionEnd, after);
    }
    assert ExtractSection(completion, sectionStart, Some(sectionEnd)) == Some(Strip(completion[i + |sectionStart|..j])) by {
      LayoutFacts(completion, before, sectionStart, body, sectionEnd, after);
      ExtractBetween(completion, sectionStart, sectionEnd, i, j);
    }
  }

  /**
   * A line section of a completion laid out as `before + sectionStart + body +
   * sectionEnd + after`, whose first start marker is the one after `before`,
   * is the stripped `body` when `body` holds no character that starts
   * `sectionEnd`.
   */
  lemma ExtractAfterFound(completion: string, before: string, sectionStart: string, body: string, sectionEnd: string, after: string)
    requires completion == before + sectionStart + body + sectionEnd + after
    requires Find(completion, sectionStart) == |before|
    requires |sectionEnd| > 0 && sectionEnd[0] !in body
    ensures ExtractSection(completion, sectionStart, Some(sectionEnd)) == Some(Strip(body))
  {
    var i, j := |before|, |before| + |sectionStart| + |body|;
    assert j <= |completion| && completion[i + |sectionStart|..j] == body by {
      BodySlice(completion, before, sectionStart, body, sectionEnd + after);
    }
    assert ExtractSection(completion, sectionStart, Some(sectionEnd)) == Some(Strip(completion[i + |sectionStart|..j])) by {
      EndAfterBody(completion, before, sectionStart, body, sectionEnd, after);
      ExtractAt(completion, sectionStart, sectionEnd, i, j, completion[i + |sectionStart|..j]);
    }
  }

  /** In `before + sectionStart + body + sectionEnd + after`, the search for `sectionEnd` from after `sectionStart` stops after `body`. */
  lemma EndAfterBody(completion: string, before: string, sectionStart: string, body: string, sectionEnd: string, after: string)
    requires completion == before + sectionStart + body + sectionEnd + after
    requires |sectionEnd| > 0 && sectionEnd[0] !in body
    ensures FindFrom(completion, sectionEnd, |before| + |sectionStart|) == |before| + |sectionStart| + |body|
  {
    FindFromSeam(before + sectionStart, body, sectionEnd, after);
  }

  /** Where `body` lies in `before + sectionStart + body + rest`. */
  lemma BodySlice(completion: string, before: string, sectionStart: string, body: string, rest: string)
    requires completion == before + sectionStart + body + rest
    ensures |before| + |sectionStart| + |body| <= |completion|
    ensures completion[|before| + |sectionStart|..|before| + |sectionStart| + |body|] == body
  {
    assert completion == (before + sectionStart) + body + rest;
  }

  /** Where the parts of `before + sectionStart + body + sectionEnd + after` lie. */
  lemma LayoutFacts(completion: string, before: string, sectionStart: string, body: string, sectionEnd: string, after: string)
    requires completion == before + sectionStart + body + sectionEnd + after
    requires |sectionStart| > 0 && |sectionEnd| > 0
    requires sectionStart[0] !in before && sectionEnd[0] !in body
    ensures OccursAt(completion, sectionStart, |before|)
    ensures OccursAt(completion, sectionEnd, |before| + |sectionStart| + |body|)
    ensures forall k :: 0 <= k < |before| ==> completion[k] != sectionStart[0]
    ensures forall k :: |before| + |sectionStart| <= k < |before| + |sectionStart| + |body| ==> completion[k] != sectionEnd[0]
    ensures completion[|before| + |sectionStart|..|before| + |sectionStart| + |body|] == body
  {
    var i, j := |before|, |before| + |sectionStart| + |body|;
    assert completion[i..i + |sectionStart|] == sectionStart;
    assert completion[j..j + |sectionEnd|] == sectionEnd;
    assert completion[i + |sectionStart|..j] == body;
    assert forall k :: 0 <= k < i ==> completion[k] == before[k];
    assert forall k :: i + |sectionStart| <= k < j ==> completion[k] == body[k - i - |sectionStart|];
  }

  /**
   * A final section of a completion laid out as `before + sectionStart + body`
   * is the stripped `body`, provided `before` holds no character that starts
   * `sectionStart`.
   */
  lemma ExtractLastFromLayout(before: string, sectionStart: string, body: string)
    requires |sectionStart| > 0 && sectionStart[0] !in before
    ensures ExtractSection(before + sectionStart + body, sectionStart, None) == Some(Strip(body))
  {
    var completion := before + sectionStart + body;
    assert Find(completion, sectionStart) == |before| by {
      FindSeam(before, sectionStart, body);
    }
    assert completion[|before| + |sectionStart|..] == body;
    ExtractRestAt(completion, sectionStart, |before|, body);
  }
}
