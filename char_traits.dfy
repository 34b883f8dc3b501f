/** The character-traits policy both strings call as black-box primitives:
    three-way compare of n units, first-occurrence find, and the assign /
    copy / move range writes. Units are the values of the unsigned
    counterpart of CharT, so they are ordered as naturals. */
module CharTraits {
  import opened Common

  /** traits_type::compare(a, b, count): decides at the first of the first
      `count` positions where the ranges differ. */
  function Compare(a: seq<nat>, b: seq<nat>, count: nat): (r: int)
    requires count <= |a| && count <= |b|
    ensures -1 <= r <= 1
    ensures r == 0 <==> a[..count] == b[..count]
    decreases count
  {
    if count == 0 then 0
    else if a[0] < b[0] then -1
    else if b[0] < a[0] then 1
    else
      assert a[..count] == [a[0]] + a[1..][..count - 1];
      assert b[..count] == [b[0]] + b[1..][..count - 1];
      Compare(a[1..], b[1..], count - 1)
  }

  /** The k-th units are the first difference of a and b, and a's is smaller. */
  ghost predicate DiffersFirstBelow(a: seq<nat>, b: seq<nat>, k: nat)
  {
    k < |a| && k < |b| && a[..k] == b[..k] && a[k] < b[k]
  }

  /** Strict lexicographic order: a proper prefix comes first; otherwise the
      first differing unit decides. */
  ghost predicate LexLess(a: seq<nat>, b: seq<nat>)
  {
    (|a| < |b| && a == b[..|a|]) || exists k: nat :: DiffersFirstBelow(a, b, k)
  }

  /** Past equal first units, a first difference at k is a first difference
      of the tails at k - 1. */
  lemma DiffersFirstBelowShift(a: seq<nat>, b: seq<nat>, k: nat)
    requires 0 < k && 0 < |a| && 0 < |b| && a[0] == b[0]
    ensures DiffersFirstBelow(a, b, k) <==> DiffersFirstBelow(a[1..], b[1..], k - 1)
  {
    if k < |a| && k < |b| {
      assert a[..k] == [a[0]] + a[1..][..k - 1];
      assert b[..k] == [b[0]] + b[1..][..k - 1];
    }
  }

  lemma {:induction false} CompareDecidesAtFirstDifference(a: seq<nat>, b: seq<nat>, count: nat)
    requires count <= |a| && count <= |b|
    ensures Compare(a, b, count) < 0 <==> exists k: nat :: k < count && DiffersFirstBelow(a, b, k)
    ensures Compare(a, b, count) > 0 <==> exists k: nat :: k < count && DiffersFirstBelow(b, a, k)
    decreases count
  {
    if count == 0 {
    } else if a[0] < b[0] {
      assert DiffersFirstBelow(a, b, 0);
      assert forall k: nat :: k < count ==> !DiffersFirstBelow(b, a, k);
    } else if b[0] < a[0] {
      assert DiffersFirstBelow(b, a, 0);
      assert forall k: nat :: k < count ==> !DiffersFirstBelow(a, b, k);
    } else {
      var a', b' := a[1..], b[1..];
      CompareDecidesAtFirstDifference(a', b', count - 1);
      if exists k: nat :: k < count && DiffersFirstBelow(a, b, k) {
        var k: nat :| k < count && DiffersFirstBelow(a, b, k);
        DiffersFirstBelowShift(a, b, k);
      }
      if exists k: nat :: k < count && DiffersFirstBelow(b, a, k) {
        var k: nat :| k < count && DiffersFirstBelow(b, a, k);
        DiffersFirstBelowShift(b, a, k);
      }
      if exists k: nat :: k < count - 1 && DiffersFirstBelow(a', b', k) {
        var k: nat :| k < count - 1 && DiffersFirstBelow(a', b', k);
        DiffersFirstBelowShift(a, b, k + 1);
      }
      if exists k: nat :: k < count - 1 && DiffersFirstBelow(b', a', k) {
        var k: nat :| k < count - 1 && DiffersFirstBelow(b', a', k);
        DiffersFirstBelowShift(b, a, k + 1);
      }
    }
  }

  /** The three-way result of comparing the common prefix of two ranges with
      the traits compare and breaking a tie by length: negative, zero or
      positive exactly as a is lexicographically below, equal to or above b. */
  function LexCompare(a: seq<nat>, b: seq<nat>): (r: int)
    ensures r == 0 <==> a == b
    ensures r < 0 <==> LexLess(a, b)
    ensures r > 0 <==> LexLess(b, a)
  {
    var m := Min(|a|, |b|);
    var c := Compare(a, b, m);
    CompareDecidesAtFirstDifference(a, b, m);
    assert a[..m] == b[..m] && |a| < |b| ==> a == b[..|a|] by {
      if a[..m] == b[..m] && |a| < |b| { assert a == a[..m]; }
    }
    assert a[..m] == b[..m] && |b| < |a| ==> b == a[..|b|] by {
      if a[..m] == b[..m] && |b| < |a| { assert b == b[..m]; }
    }
    assert |a| < |b| && a == b[..|a|] ==> a[..m] == b[..m];
    assert |b| < |a| && b == a[..|b|] ==> a[..m] == b[..m];
    assert a == b ==> a[..m] == b[..m];
    assert (exists k: nat :: DiffersFirstBelow(a, b, k)) ==> exists k: nat :: k < m && DiffersFirstBelow(a, b, k);
    assert (exists k: nat :: DiffersFirstBelow(b, a, k)) ==> exists k: nat :: k < m && DiffersFirstBelow(b, a, k);
    if c != 0 then c else if |a| > |b| then 1 else if |a| == |b| then 0 else -1
  }

  /** The lexicographic order is transitive (with LexCompare's contract it is
      a strict total order on unit sequences). */
  lemma {:induction false} LexLessTransitive(a: seq<nat>, b: seq<nat>, c: seq<nat>)
    requires LexLess(a, b) && LexLess(b, c)
    ensures LexLess(a, c)
  {
    var i := if |a| < |b| && a == b[..|a|] then |a| else var k: nat :| DiffersFirstBelow(a, b, k); k;
    var j := if |b| < |c| && b == c[..|b|] then |b| else var k: nat :| DiffersFirstBelow(b, c, k); k;
    // a and b agree below i, b and c agree below j
    assert a[..Min(i, j)] == c[..Min(i, j)] by {
      assert a[..i] == b[..i];
      assert b[..j] == c[..j];
      assert a[..Min(i, j)] == a[..i][..Min(i, j)];
      assert c[..Min(i, j)] == c[..j][..Min(i, j)];
    }
    if i < j {
      if |a| < |b| && a == b[..|a|] {
        assert a == c[..|a|];
      } else {
        assert DiffersFirstBelow(a, c, i);
      }
    } else if j < i {
      assert DiffersFirstBelow(a, c, j);
    } else if |a| < |b| && a == b[..|a|] {
      assert a == c[..|a|];
    } else {
      assert DiffersFirstBelow(a, c, i);
    }
  }

  /** traits_type::find(s, |s|, c): the first position holding c. */
  function Find(s: seq<nat>, c: nat): (r: Option<nat>)
    ensures r.None? <==> c !in s
    ensures r.Some? ==> r.value < |s| && s[r.value] == c && c !in s[..r.value]
  {
    if |s| == 0 then None
    else if s[0] == c then Some(0)
    else
      match Find(s[1..], c)
      case None => None
      case Some(k) =>
        assert s[..k + 1] == [s[0]] + s[1..][..k];
        Some(k + 1)
  }

  /** The buffer after traits_type::assign(p + at, count, c). */
  function Assigned(buf: seq<nat>, at: nat, count: nat, c: nat): (r: seq<nat>)
    requires at + count <= |buf|
  {
    seq(|buf|, k requires 0 <= k < |buf| => if at <= k < at + count then c else buf[k])
  }

  /** The buffer after traits_type::copy(p + at, src, |src|) from a range
      outside the buffer. */
  function Copied(buf: seq<nat>, at: nat, src: seq<nat>): (r: seq<nat>)
    requires at + |src| <= |buf|
  {
    seq(|buf|, k requires 0 <= k < |buf| => if at <= k < at + |src| then src[k - at] else buf[k])
  }

  /** The buffer after traits_type::move(p + dest, p + src, count): the
      destination receives the source range as it was before the move, even
      when the two ranges overlap. */
  function Moved(buf: seq<nat>, dest: nat, src: nat, count: nat): (r: seq<nat>)
    requires dest + count <= |buf| && src + count <= |buf|
  {
    seq(|buf|, k requires 0 <= k < |buf| => if dest <= k < dest + count then buf[src + (k - dest)] else buf[k])
  }

  method AssignUnits(a: array<nat>, at: nat, count: nat, c: nat)
    requires at + count <= a.Length
    modifies a
    ensures a[..] == Assigned(old(a[..]), at, count, c)
  {
    ghost var was := a[..];
    var i := 0;
    while i != count
      invariant 0 <= i <= count
      invariant forall k :: 0 <= k < a.Length ==> a[k] == if at <= k < at + i then c else was[k]
    {
      a[at + i] := c;
      i := i + 1;
    }
  }

  method CopyUnits(a: array<nat>, at: nat, src: seq<nat>)
    requires at + |src| <= a.Length
    modifies a
    ensures a[..] == Copied(old(a[..]), at, src)
  {
    ghost var was := a[..];
    var i := 0;
    while i != |src|
      invariant 0 <= i <= |src|
      invariant forall k :: 0 <= k < a.Length ==> a[k] == if at <= k < at + i then src[k - at] else was[k]
    {
      a[at + i] := src[i];
      i := i + 1;
    }
  }

  /** Overlap-safe: copies front to back when the destination lies below the
      source and back to front otherwise, so no source unit is overwritten
      before it is read. */
  method MoveUnits(a: array<nat>, dest: nat, src: nat, count: nat)
    requires dest + count <= a.Length && src + count <= a.Length
    modifies a
    ensures a[..] == Moved(old(a[..]), dest, src, count)
  {
    ghost var was := a[..];
    if dest <= src {
      var i := 0;
      while i != count
        invariant 0 <= i <= count
        invariant forall k :: 0 <= k < a.Length && !(dest <= k < dest + i) ==> a[k] == was[k]
        invariant forall k :: dest <= k < dest + i ==> a[k] == was[src + (k - dest)]
      {
        a[dest + i] := a[src + i];
        i := i + 1;
      }
    } else {
      var i := count;
      while i != 0
        invariant 0 <= i <= count
        invariant forall k :: 0 <= k < a.Length && !(dest + i <= k < dest + count) ==> a[k] == was[k]
        invariant forall k :: dest + i <= k < dest + count ==> a[k] == was[src + (k - dest)]
      {
        i := i - 1;
        a[dest + i] := a[src + i];
      }
    }
  }
}
