/**
 * The Python string operations the text logic of taming_llm.py relies on:
 * `str.find`, the `in` operator on strings, `str.strip()` and `str.lower()`.
 */
module Text {

  /** `sub` occurs in `s` starting at index `i`. */
  predicate OccursAt(s: string, sub: string, i: nat) {
    i + |sub| <= |s| && s[i..i + |sub|] == sub
  }

  /** `i` is the first index at or after `from` where `sub` occurs in `s`. */
  ghost predicate IsFirstOccurrenceFrom(s: string, sub: string, from: nat, i: nat) {
    from <= i && OccursAt(s, sub, i) &&
    forall k: nat :: from <= k < i ==> !OccursAt(s, sub, k)
  }

  /**
   * Python's `s.find(sub, start)`: the lowest index at or after `start` where
   * `sub` occurs, or -1 when there is none. An empty `sub` is found at `start`
   * when `start <= |s|`.
   */
  function FindFrom(s: string, sub: string, start: nat): (r: int)
    ensures r == -1 || (r >= 0 && IsFirstOccurrenceFrom(s, sub, start, r))
    ensures r == -1 <==> forall i: nat :: start <= i ==> !OccursAt(s, sub, i)
    decreases |s| - start
  {
    if start + |sub| > |s| then -1
    else if s[start..start + |sub|] == sub then start
    else FindFrom(s, sub, start + 1)
  }

  /** Python's `s.find(sub)`. */
  function Find(s: string, sub: string): (r: int)
    ensures r == -1 || (r >= 0 && IsFirstOccurrenceFrom(s, sub, 0, r))
    ensures r == -1 <==> forall i: nat :: !OccursAt(s, sub, i)
  {
    FindFrom(s, sub, 0)
  }

  /** Python's `sub in s`. */
  function Contains(s: string, sub: string): (b: bool)
    ensures b <==> exists i: nat :: OccursAt(s, sub, i)
  {
    Find(s, sub) != -1
  }

  /** The first occurrence at or after `from` is the one `FindFrom` reports. */
  lemma FindFromFirst(s: string, sub: string, from: nat, i: nat)
    requires IsFirstOccurrenceFrom(s, sub, from, i)
    ensures FindFrom(s, sub, from) == i
  {
  }

  /**
   * A search that passes no character equal to the first character of a
   * non-empty `sub` before reaching an occurrence at `j` stops at `j`.
   */
  lemma FindFromAtFirstChar(s: string, sub: string, from: nat, j: nat)
    requires |sub| > 0 && from <= j && OccursAt(s, sub, j)
    requires forall k :: from <= k < j ==> s[k] != sub[0]
    ensures FindFrom(s, sub, from) == j
  {
    forall k: nat | from <= k < j
      ensures !OccursAt(s, sub, k)
    {
      assert k + |sub| <= |s| ==> s[k..k + |sub|][0] == s[k];
    }
    FindFromFirst(s, sub, from, j);
  }

  /** `sub` occurs in `a + sub + b` right after `a`. */
  lemma OccursAtSeam(a: string, sub: string, b: string)
    ensures OccursAt(a + sub + b, sub, |a|)
  {
    assert (a + sub + b)[|a|..|a| + |sub|] == sub;
  }

  /**
   * Searching `a + x + sub + b` from the end of `a` stops at the seam before
   * `sub` when `x` holds no character that starts `sub`.
   */
  lemma FindFromSeam(a: string, x: string, sub: string, b: string)
    requires |sub| > 0 && sub[0] !in x
    ensures FindFrom(a + x + sub + b, sub, |a|) == |a| + |x|
  {
    var s := a + x + sub + b;
    assert s == (a + x) + sub + b;
    OccursAtSeam(a + x, sub, b);
    assert forall k :: |a| <= k < |a| + |x| ==> s[k] == x[k - |a|];
    FindFromAtFirstChar(s, sub, |a|, |a| + |x|);
  }

  /** Searching `x + sub + b` stops after `x` when `x` holds no character that starts `sub`. */
  lemma FindSeam(x: string, sub: string, b: string)
    requires |sub| > 0 && sub[0] !in x
    ensures Find(x + sub + b, sub) == |x|
  {
    assert [] + x + sub + b == x + sub + b;
    FindFromSeam([], x, sub, b);
  }

  /** An occurrence inside a slice `s[lo..hi]` is an occurrence in `s`. */
  lemma OccursInSlice(s: string, sub: string, lo: nat, hi: nat, k: nat)
    requires lo <= hi <= |s| && OccursAt(s[lo..hi], sub, k)
    ensures OccursAt(s, sub, lo + k)
  {
    var t := s[lo..hi];
    assert forall m :: k <= m < k + |sub| ==> t[m] == s[lo + m];
    assert t[k..k + |sub|] == s[lo + k..lo + k + |sub|];
  }

  /** An occurrence in `a` is an occurrence in every extension of `a`. */
  lemma ContainsExtend(a: string, b: string, sub: string)
    requires Contains(a, sub)
    ensures Contains(a + b, sub)
  {
    var i: nat :| OccursAt(a, sub, i);
    assert (a + b)[i..i + |sub|] == a[i..i + |sub|];
    assert OccursAt(a + b, sub, i);
  }

  /** An occurrence in `a` is an occurrence in every text that starts with `a`. */
  lemma ContainsPrefix(a: string, b: string, sub: string)
    requires a <= b && Contains(a, sub)
    ensures Contains(b, sub)
  {
    assert b == a + b[|a|..];
    ContainsExtend(a, b[|a|..], sub);
  }

  /** An occurrence in `b` at `k` is an occurrence in `a + b` at `|a| + k`, and conversely. */
  lemma OccursShift(a: string, b: string, sub: string, k: nat)
    ensures OccursAt(a + b, sub, |a| + k) <==> OccursAt(b, sub, k)
  {
    if k + |sub| <= |b| {
      assert (a + b)[|a| + k..|a| + k + |sub|] == b[k..k + |sub|];
    }
  }

  /**
   * In `p + field + [sep] + rest`, a non-empty `sub` that holds no `sep`
   * cannot start in `p` when `p` holds no first character of `sub`, cannot
   * reach across `sep`, and does not occur in `field`: so it starts nowhere
   * before `rest`.
   */
  lemma NoOccurrenceBeforeRest(p: string, field: string, sep: char, rest: string, sub: string)
    requires |sub| > 0 && sub[0] !in p && sep !in sub && !Contains(field, sub)
    ensures forall k: nat :: k <= |p| + |field| ==> !OccursAt(p + field + [sep] + rest, sub, k)
  {
    var s := p + field + [sep] + rest;
    var q := |p| + |field|;
    forall k: nat | k <= q
      ensures !OccursAt(s, sub, k)
    {
      assert k < |p| && k + |sub| <= |s| ==> s[k..k + |sub|][0] == p[k];
      assert k <= q < k + |sub| <= |s| ==> s[k..k + |sub|][q - k] == sep;
      assert |p| <= k && k + |sub| <= q ==>
        s[k..k + |sub|] == field[k - |p|..k - |p| + |sub|] && !OccursAt(field, sub, k - |p|);
    }
  }

  /**
   * Searching `p + field + [sep] + rest`, under the conditions of
   * `NoOccurrenceBeforeRest`, is searching `rest`.
   */
  lemma FindPastField(p: string, field: string, sep: char, rest: string, sub: string)
    requires |sub| > 0 && sub[0] !in p && sep !in sub && !Contains(field, sub)
    ensures var r := Find(rest, sub);
      Find(p + field + [sep] + rest, sub) == if r == -1 then -1 else |p| + |field| + 1 + r
  {
    var a := p + field + [sep];
    assert a + rest == p + field + [sep] + rest;
    NoOccurrenceBeforeRest(p, field, sep, rest, sub);
    forall k: nat
      ensures OccursAt(a + rest, sub, |a| + k) <==> OccursAt(rest, sub, k)
    {
      OccursShift(a, rest, sub, k);
    }
    var r := Find(rest, sub);
    if r == -1 {
      forall k: nat
        ensures !OccursAt(a + rest, sub, k)
      {
        if |a| <= k {
          assert !OccursAt(rest, sub, k - |a|);
        }
      }
    } else {
      forall k: nat | k < |a| + r
        ensures !OccursAt(a + rest, sub, k)
      {
        if |a| <= k {
          assert !OccursAt(rest, sub, k - |a|);
        }
      }
      FindFromFirst(a + rest, sub, 0, |a| + r);
    }
  }

  /**
   * The characters Python's `str.isspace()` accepts, and so the characters
   * `str.strip()` removes: the Unicode white space, line and paragraph
   * separators, and the ASCII information separators U+001C to U+001F.
   */
  predicate IsSpace(c: char) {
    var n := c as int;
    (0x09 <= n <= 0x0D) || (0x1C <= n <= 0x20) || n == 0x85 || n == 0xA0 ||
    n == 0x1680 || (0x2000 <= n <= 0x200A) || n == 0x2028 || n == 0x2029 ||
    n == 0x202F || n == 0x205F || n == 0x3000
  }

  /**
   * `s[lo..hi]` is what remains of `s` once leading and trailing white space
   * are removed: everything outside it is white space, and it neither starts
   * nor ends with white space.
   */
  ghost predicate StripBounds(s: string, lo: nat, hi: nat) {
    lo <= hi <= |s| &&
    (forall i :: 0 <= i < lo ==> IsSpace(s[i])) &&
    (forall i :: hi <= i < |s| ==> IsSpace(s[i])) &&
    (lo < hi ==> !IsSpace(s[lo]) && !IsSpace(s[hi - 1]))
  }

  /**
   * Python's `s.strip()`: white space is removed from the start, one character
   * at a time, and then from the end.
   */
  function Strip(s: string): (r: string)
    ensures |r| <= |s|
    ensures r == [] || (!IsSpace(r[0]) && !IsSpace(r[|r| - 1]))
    decreases |s|
  {
    if s != [] && IsSpace(s[0]) then Strip(s[1..])
    else if s != [] && IsSpace(s[|s| - 1]) then Strip(s[..|s| - 1])
    else s
  }

  /** What `Strip` keeps is a slice of `s` with only white space around it. */
  lemma {:induction false} StripSpan(s: string) returns (lo: nat, hi: nat)
    ensures StripBounds(s, lo, hi) && Strip(s) == s[lo..hi]
    decreases |s|
  {
    if s != [] && IsSpace(s[0]) {
      var lo', hi' := StripSpan(s[1..]);
      lo, hi := lo' + 1, hi' + 1;
      StripBoundsAfterFirst(s, lo', hi');
    } else if s != [] && IsSpace(s[|s| - 1]) {
      lo, hi := StripSpan(s[..|s| - 1]);
      StripBoundsBeforeLast(s, lo, hi);
    } else {
      lo, hi := 0, |s|;
    }
  }

  /** Strip bounds of `s[1..]` shift by one to strip bounds of `s` when `s[0]` is white space. */
  lemma StripBoundsAfterFirst(s: string, lo: nat, hi: nat)
    requires s != [] && IsSpace(s[0]) && StripBounds(s[1..], lo, hi)
    ensures StripBounds(s, lo + 1, hi + 1) && s[1..][lo..hi] == s[lo + 1..hi + 1]
  {
    forall i | 0 < i < lo + 1 ensures IsSpace(s[i]) {
      assert s[i] == s[1..][i - 1];
    }
    forall i | hi + 1 <= i < |s| ensures IsSpace(s[i]) {
      assert s[i] == s[1..][i - 1];
    }
  }

  /** Strip bounds of `s[..|s| - 1]` are strip bounds of `s` when its last character is white space. */
  lemma StripBoundsBeforeLast(s: string, lo: nat, hi: nat)
    requires s != [] && IsSpace(s[|s| - 1]) && StripBounds(s[..|s| - 1], lo, hi)
    ensures StripBounds(s, lo, hi) && s[..|s| - 1][lo..hi] == s[lo..hi]
  {
    forall i | 0 <= i < lo ensures IsSpace(s[i]) {
      assert s[i] == s[..|s| - 1][i];
    }
    forall i | hi <= i < |s| - 1 ensures IsSpace(s[i]) {
      assert s[i] == s[..|s| - 1][i];
    }
  }

  /** The bounds of a strip are determined by the string, so `Strip` is the only strip. */
  lemma StripUnique(s: string, lo: nat, hi: nat)
    requires StripBounds(s, lo, hi)
    ensures Strip(s) == s[lo..hi]
  {
    var lo', hi' := StripSpan(s);
    if lo < hi {
      StripBoundsAgree(s, lo, hi, lo', hi');
    } else if lo' < hi' {
      StripBoundsAgree(s, lo', hi', lo, hi);
    }
  }

  /** Two strips of which the first is not empty have the same bounds. */
  lemma StripBoundsAgree(s: string, lo: nat, hi: nat, lo': nat, hi': nat)
    requires StripBounds(s, lo, hi) && StripBounds(s, lo', hi') && lo < hi
    ensures lo == lo' && hi == hi'
  {
    assert !IsSpace(s[lo]) && !IsSpace(s[hi - 1]);
    assert lo' <= lo < hi';
    assert lo <= lo';
    assert hi' <= hi;
  }

  /** A string that neither starts nor ends with white space is its own strip. */
  lemma StripOfStripped(s: string)
    requires s == [] || (!IsSpace(s[0]) && !IsSpace(s[|s| - 1]))
    ensures Strip(s) == s
  {
    assert StripBounds(s, 0, |s|);
    StripUnique(s, 0, |s|);
  }

  /** Stripping twice is stripping once. */
  lemma StripIdempotent(s: string)
    ensures Strip(Strip(s)) == Strip(s)
  {
    StripOfStripped(Strip(s));
  }

  /** Python's `str.lower()` on one character; only A to Z are changed. */
  function LowerChar(c: char): char {
    if 'A' <= c <= 'Z' then (c as int + 32) as char else c
  }

  /** Python's `s.lower()`, character by character. */
  function ToLower(s: string): (r: string)
    ensures |r| == |s|
    ensures forall i :: 0 <= i < |s| ==> r[i] == LowerChar(s[i])
  {
    seq(|s|, i requires 0 <= i < |s| => LowerChar(s[i]))
  }

  /** `c` and `d` are the same character, or the same letter A to Z in upper and in lower case. */
  predicate SameIgnoringCase(c: char, d: char) {
    c == d ||
    ('A' <= c <= 'Z' && d as int == c as int + 32) ||
    ('A' <= d <= 'Z' && c as int == d as int + 32)
  }

  /** `a` and `b` differ at most in the case of their letters A to Z. */
  ghost predicate EqualIgnoringCase(a: string, b: string) {
    |a| == |b| && forall i :: 0 <= i < |a| ==> SameIgnoringCase(a[i], b[i])
  }

  /** Two characters lower-case to the same character exactly when they differ at most in case. */
  lemma LowerCharIgnoresCase(c: char, d: char)
    ensures LowerChar(c) == LowerChar(d) <==> SameIgnoringCase(c, d)
  {
    if 'A' <= c <= 'Z' {
      assert LowerChar(c) as int == c as int + 32;
    }
    if 'A' <= d <= 'Z' {
      assert LowerChar(d) as int == d as int + 32;
    }
  }

  /** Texts lower-case to the same text exactly when they differ at most in the case of their letters. */
  lemma ToLowerIgnoresCase(a: string, b: string)
    ensures ToLower(a) == ToLower(b) <==> EqualIgnoringCase(a, b)
  {
    if ToLower(a) == ToLower(b) {
      forall i | 0 <= i < |a|
        ensures SameIgnoringCase(a[i], b[i])
      {
        assert ToLower(a)[i] == ToLower(b)[i];
        LowerCharIgnoresCase(a[i], b[i]);
      }
    }
    if EqualIgnoringCase(a, b) {
      forall i | 0 <= i < |a|
        ensures ToLower(a)[i] == ToLower(b)[i]
      {
        LowerCharIgnoresCase(a[i], b[i]);
      }
    }
  }

  /** Lower-casing a lower-cased text changes nothing. */
  lemma ToLowerIdempotent(s: string)
    ensures ToLower(ToLower(s)) == ToLower(s)
  {
    forall i | 0 <= i < |s|
      ensures LowerChar(LowerChar(s[i])) == LowerChar(s[i])
    {
      if 'A' <= s[i] <= 'Z' {
        assert LowerChar(s[i]) as int == s[i] as int + 32;
      }
    }
  }
}
