/** detail::search_substring: the naive substring search behind find. */
module Detail {
  import opened Common
  import CharTraits

  /** needle occurs in hay starting at position i. */
  predicate OccursAt(hay: seq<nat>, needle: seq<nat>, i: nat)
  {
    i + |needle| <= |hay| && hay[i..i + |needle|] == needle
  }

  /** Searches hay[first..] for needle: repeatedly locates the next unit equal
      to the needle's first unit with the traits find, then checks the whole
      needle there with the traits compare, advancing one unit on a mismatch.
      The result is the lowest occurrence at or after first. Unlike the
      source, the remaining length is checked again after the find, so the
      compare never looks past the end of hay. */
  method SearchSubstring(hay: seq<nat>, first: nat, needle: seq<nat>) returns (r: Option<nat>)
    requires first <= |hay| && |needle| > 0
    ensures r.Some? ==> first <= r.value && OccursAt(hay, needle, r.value)
    ensures r.Some? ==> forall j: nat :: first <= j < r.value ==> !OccursAt(hay, needle, j)
    ensures r.None? ==> forall j: nat :: first <= j ==> !OccursAt(hay, needle, j)
  {
    var cur := first;
    while true
      invariant first <= cur <= |hay|
      invariant forall j: nat :: first <= j < cur ==> !OccursAt(hay, needle, j)
      decreases |hay| - cur
    {
      if |hay| - cur < |needle| {
        return None;
      }
      var found := CharTraits.Find(hay[cur..], needle[0]);
      if found.None? {
        assert forall j: nat :: cur <= j ==> !OccursAt(hay, needle, j);
        return None;
      }
      forall j: nat | cur <= j < cur + found.value ensures !OccursAt(hay, needle, j) {
        assert hay[j] == hay[cur..][..found.value][j - cur];
      }
      cur := cur + found.value;
      if |hay| - cur < |needle| {
        return None;
      }
      if CharTraits.Compare(hay[cur..], needle, |needle|) == 0 {
        assert hay[cur..][..|needle|] == hay[cur..cur + |needle|];
        return Some(cur);
      }
      assert hay[cur..][..|needle|] == hay[cur..cur + |needle|];
      cur := cur + 1;
    }
  }

  /** What one run of the source's search can end in: a match at a position,
      no match, or a compare that reads past the end of the buffer. */
  datatype SearchOutcome = Match(at: nat) | NoMatch | PastBuffer

  /** The search exactly as inplace_string.h writes it, over the whole buffer
      `buf` with the haystack being buf[first..last]: after the find moves the
      cursor, the compare of |needle| units starts there without checking that
      they still lie before `last`. */
  function SearchSubstringAsWritten(buf: seq<nat>, first: nat, last: nat, needle: seq<nat>): SearchOutcome
    requires first <= last <= |buf| && |needle| > 0
    decreases last - first
  {
    if last - first < |needle| then NoMatch
    else
      match CharTraits.Find(buf[first..last], needle[0])
      case None => NoMatch
      case Some(k) =>
        var at := first + k;
        if at + |needle| > |buf| then PastBuffer
        else if CharTraits.Compare(buf[at..], needle, |needle|) == 0 then Match(at)
        else SearchSubstringAsWritten(buf, at + 1, last, needle)
  }

  /** The string "ba" in a buffer of capacity 3 (units 2 and 1 for 'b' and
      'a', the terminator 0, the remaining count 1): searching it for the
      two-unit needle "a\0" reports a match at 1, because the compare reads
      the terminator beyond the live contents, yet the needle does not occur
      in "ba". */
  lemma SearchAsWrittenMatchesPastEnd()
    ensures SearchSubstringAsWritten([2, 1, 0, 1], 0, 2, [1, 0]) == Match(1)
    ensures !OccursAt([2, 1], [1, 0], 1)
  {
    var buf: seq<nat> := [2, 1, 0, 1];
    assert CharTraits.Find(buf[0..2], 1) == Some(1) by {
      assert buf[0..2] == [2, 1];
      assert buf[0..2][..1] == [2];
    }
    assert buf[1..][..2] == [1, 0];
  }
}
