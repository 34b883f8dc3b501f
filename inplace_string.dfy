/** basic_inplace_string<N, CharT, Traits>: a string of at most N units kept
    entirely in one array of N + 1 units, with no separate length field.
    Slots [0, size) hold the contents, slot size holds the terminator 0, and
    the last slot N holds the remaining capacity N - size. */
module InplaceStrings {
  import opened Common
  import CharTraits
  import Detail

  /** count copies of ch. */
  function Fill(count: nat, ch: nat): seq<nat>
  {
    seq(count, _ => ch)
  }

  /** s with the count units at pos replaced by ins: the shape of every edit. */
  function Spliced(s: seq<nat>, pos: nat, count: nat, ins: seq<nat>): seq<nat>
    requires pos + count <= |s|
  {
    s[..pos] + ins + s[pos + count..]
  }

  lemma SplicedAt(s: seq<nat>, pos: nat, count: nat, ins: seq<nat>, k: nat)
    requires pos + count <= |s| && k < |s| - count + |ins|
    ensures |Spliced(s, pos, count, ins)| == |s| - count + |ins|
    ensures Spliced(s, pos, count, ins)[k] ==
      if k < pos then s[k] else if k < pos + |ins| then ins[k - pos] else s[k - |ins| + count]
  {
  }

  /** s after erase(index, count): count is clamped to what follows index. */
  function Erased(s: seq<nat>, index: nat, count: nat): seq<nat>
    requires index <= |s|
  {
    Spliced(s, index, Min(|s| - index, count), [])
  }

  /** s after resize(newSize, ch). */
  function Resized(s: seq<nat>, newSize: nat, ch: nat): seq<nat>
  {
    if newSize <= |s| then s[..newSize] else s + Fill(newSize - |s|, ch)
  }

  /** resize keeps the common prefix, fills every grown slot with ch and
      makes the size exactly newSize. */
  lemma ResizedShape(s: seq<nat>, newSize: nat, ch: nat)
    ensures |Resized(s, newSize, ch)| == newSize
    ensures Resized(s, newSize, ch)[..Min(|s|, newSize)] == s[..Min(|s|, newSize)]
    ensures forall k :: |s| <= k < newSize ==> Resized(s, newSize, ch)[k] == ch
  {
  }

  /** Growing with resize and shrinking back restores the string. */
  lemma ResizeRoundTrip(s: seq<nat>, newSize: nat, ch: nat)
    requires |s| <= newSize
    ensures Resized(Resized(s, newSize, ch), |s|, ch) == s
  {
    assert (s + Fill(newSize - |s|, ch))[..|s|] == s;
  }

  /** Erasing what was just appended restores the string. */
  lemma EraseUndoesAppend(s: seq<nat>, x: seq<nat>)
    ensures Erased(s + x, |s|, |x|) == s
  {
    assert (s + x)[..|s|] == s;
    assert (s + x)[|s| + |x|..] == [];
  }

  /** Erasing what was just inserted restores the string. */
  lemma EraseUndoesInsert(s: seq<nat>, index: nat, x: seq<nat>)
    requires index <= |s|
    ensures Erased(Spliced(s, index, 0, x), index, |x|) == s
  {
    var t := Spliced(s, index, 0, x);
    assert t[..index] == s[..index];
    assert t[index + |x|..] == s[index..];
    assert s[..index] + s[index..] == s;
  }

  /** Replacing the replacement with the units it displaced restores the
      string. */
  lemma ReplaceUndone(s: seq<nat>, pos: nat, count: nat, ins: seq<nat>)
    requires pos + count <= |s|
    ensures Spliced(Spliced(s, pos, count, ins), pos, |ins|, s[pos..pos + count]) == s
  {
    var t := Spliced(s, pos, count, ins);
    assert t[..pos] == s[..pos];
    assert t[pos + |ins|..] == s[pos + count..];
    assert s[..pos] + s[pos..pos + count] + s[pos + count..] == s;
  }

  /** A buffer holding the first pos units of was, then ins, then the units
      of was from pos + count up to sz, holds the spliced contents below the
      new size: how the move-then-write edits reach Spliced. */
  lemma SplicedInBuffer(was: seq<nat>, sz: nat, pos: nat, count: nat, ins: seq<nat>, buf: seq<nat>)
    requires pos + count <= sz <= |was| && sz - count + |ins| <= |buf|
    requires forall k :: 0 <= k < pos ==> buf[k] == was[k]
    requires forall k :: pos <= k < pos + |ins| ==> buf[k] == ins[k - pos]
    requires forall k :: pos + |ins| <= k < sz - count + |ins| ==> buf[k] == was[k - |ins| + count]
    ensures buf[..sz - count + |ins|] == Spliced(was[..sz], pos, count, ins)
  {
    forall k | 0 <= k < sz - count + |ins| ensures buf[k] == Spliced(was[..sz], pos, count, ins)[k] {
      SplicedAt(was[..sz], pos, count, ins, k);
    }
  }

  /** erase's move: shifting the units after the erased ones down to index
      leaves the spliced contents below the new size. */
  lemma MovedErases(was: seq<nat>, sz: nat, index: nat, cut: nat)
    requires index + cut <= sz <= |was|
    ensures CharTraits.Moved(was, index, index + cut, sz - index - cut)[..sz - cut] == Spliced(was[..sz], index, cut, [])
  {
    SplicedInBuffer(was, sz, index, cut, [], CharTraits.Moved(was, index, index + cut, sz - index - cut));
  }

  /** insert's and replace's move and copy: shifting the tail from
      pos + count to pos + |ins| and then copying ins to pos leaves the
      spliced contents below the new size. */
  lemma CopiedSplices(was: seq<nat>, moved: seq<nat>, done: seq<nat>, sz: nat, pos: nat, count: nat, ins: seq<nat>)
    requires pos + count <= sz < |was| && sz - count + |ins| < |was|
    requires moved == CharTraits.Moved(was, pos + |ins|, pos + count, sz - pos - count)
    requires done == CharTraits.Copied(moved, pos, ins)
    ensures done[..sz - count + |ins|] == Spliced(was[..sz], pos, count, ins)
    ensures |done| == |was| && done[|was| - 1] == was[|was| - 1]
  {
    SplicedInBuffer(was, sz, pos, count, ins, done);
  }

  /** The fill variants of CopiedSplices: assigning m copies of c after the
      move splices Fill(m, c) in. */
  lemma AssignedSplices(was: seq<nat>, moved: seq<nat>, done: seq<nat>, sz: nat, pos: nat, count: nat, m: nat, c: nat)
    requires pos + count <= sz < |was| && sz - count + m < |was|
    requires moved == CharTraits.Moved(was, pos + m, pos + count, sz - pos - count)
    requires done == CharTraits.Assigned(moved, pos, m, c)
    ensures done[..sz - count + m] == Spliced(was[..sz], pos, count, Fill(m, c))
    ensures |done| == |was| && done[|was| - 1] == was[|was| - 1]
  {
    assert done == CharTraits.Copied(moved, pos, Fill(m, c));
    CopiedSplices(was, moved, done, sz, pos, count, Fill(m, c));
  }

  /** The step insert and replace share: traits::move of the tail from
      pos + count to pos + |ins|, then the element-wise assign of ins at pos.
      Below the new size the array holds the spliced contents; the last slot
      is not touched. */
  method SpliceUnits(a: array<nat>, sz: nat, pos: nat, count: nat, ins: seq<nat>)
    requires pos + count <= sz < a.Length && sz - count + |ins| < a.Length
    modifies a
    ensures a[..sz - count + |ins|] == Spliced(old(a[..sz]), pos, count, ins)
    ensures a[a.Length - 1] == old(a[a.Length - 1])
  {
    ghost var was := a[..];
    CharTraits.MoveUnits(a, pos + |ins|, pos + count, sz - pos - count);
    ghost var moved := a[..];
    CharTraits.CopyUnits(a, pos, ins);
    CopiedSplices(was, moved, a[..], sz, pos, count, ins);
    assert a[..sz - count + |ins|] == a[..][..sz - count + |ins|];
    assert was[..sz] == old(a[..sz]);
  }

  /** The fill variant of SpliceUnits: the move, then m copies of c at pos. */
  method SpliceFill(a: array<nat>, sz: nat, pos: nat, count: nat, m: nat, c: nat)
    requires pos + count <= sz < a.Length && sz - count + m < a.Length
    modifies a
    ensures a[..sz - count + m] == Spliced(old(a[..sz]), pos, count, Fill(m, c))
    ensures a[a.Length - 1] == old(a[a.Length - 1])
  {
    ghost var was := a[..];
    CharTraits.MoveUnits(a, pos + m, pos + count, sz - pos - count);
    ghost var moved := a[..];
    CharTraits.AssignUnits(a, pos, m, c);
    AssignedSplices(was, moved, a[..], sz, pos, count, m, c);
    assert a[..sz - count + m] == a[..][..sz - count + m];
    assert was[..sz] == old(a[..sz]);
  }

  /** erase's step: traits::move of the units after the `cut` erased ones
      down to index. Below the new size the array holds the erased contents;
      the last slot is not touched. */
  method EraseUnits(a: array<nat>, sz: nat, index: nat, cut: nat)
    requires index + cut <= sz < a.Length
    modifies a
    ensures a[..sz - cut] == Spliced(old(a[..sz]), index, cut, [])
    ensures a[a.Length - 1] == old(a[a.Length - 1])
  {
    ghost var was := a[..];
    CharTraits.MoveUnits(a, index, index + cut, sz - index - cut);
    MovedErases(was, sz, index, cut);
    assert was[..sz] == old(a[..sz]);
  }

  class InplaceString {
    /** The capacity N. */
    const n: nat
    /** The largest value of the unsigned counterpart of CharT. */
    const unitMax: nat
    /** _data. */
    const data: array<nat>

    /** Slot N holds a remaining count of at most N. */
    ghost predicate Encoded()
      reads data
    {
      data.Length == n + 1 && data[n] <= n
    }

    /** The storage encoding; N < unitMax is the source's static assertion
        that the remaining count always fits in one unit. */
    ghost predicate Valid()
      reads data
    {
      Encoded() && n < unitMax && n < NPOS && data[n - data[n]] == 0
    }

    /** size(): N minus the remaining count kept in slot N; never above N,
        and in a valid string the slot at the size holds the terminator. */
    function Size(): (sz: nat)
      reads data
      requires Encoded()
      ensures sz <= n
      ensures Valid() ==> data[sz] == 0
    {
      n - data[n]
    }

    /** get_remaining_size(): the free slots, N - size(). */
    function Remaining(): (r: nat)
      reads data
      requires Valid()
      ensures r + Size() == n
    {
      data[n]
    }

    /** empty(): the remaining count equals the capacity exactly when the
        string has no units. */
    function Empty(): (b: bool)
      reads data
      requires Valid()
      ensures b <==> Size() == 0
    {
      Remaining() == n
    }

    /** The live units, data[0..size). */
    ghost function Contents(): seq<nat>
      reads data
      requires Valid()
    {
      data[..Size()]
    }

    /** set_size(sz): stores the remaining count N - sz in slot N. */
    method SetSize(sz: nat)
      requires data.Length == n + 1 && n < unitMax && sz <= n
      modifies data
      ensures data[n] == n - sz && data[n] < unitMax
      ensures forall k :: 0 <= k < n ==> data[k] == old(data[k])
    {
      data[n] := n - sz;
    }

    /** The default constructor: terminator in slot 0, remaining count N. */
    constructor (n: nat, unitMax: nat)
      requires n < unitMax && n < NPOS
      ensures this.n == n && this.unitMax == unitMax && fresh(data)
      ensures Valid() && Contents() == [] && Empty() && data[0] == 0
    {
      this.n := n;
      this.unitMax := unitMax;
      data := new nat[n + 1];
      new;
      data[0] := 0;
      SetSize(0);
    }

    /** basic_inplace_string(count, ch). */
    static method WithFill(n: nat, unitMax: nat, count: nat, ch: nat) returns (r: Result<InplaceString>)
      requires n < unitMax && n < NPOS
      ensures r.Err? <==> count > n
      ensures r.Err? ==> r.error == OutOfRange
      ensures r.Ok? ==> fresh(r.value) && fresh(r.value.data) && r.value.n == n && r.value.unitMax == unitMax
      ensures r.Ok? ==> r.value.Valid() && r.value.Contents() == Fill(count, ch)
    {
      if count > n {
        return Err(OutOfRange);
      }
      var s := new InplaceString(n, unitMax);
      CharTraits.AssignUnits(s.data, 0, count, ch);
      s.data[count] := 0;
      s.SetSize(count);
      assert s.data[..count] == Fill(count, ch);
      return Ok(s);
    }

    /** basic_inplace_string(str, count), the pointer and length form; `str`
        holds the count units the pointer designates. */
    static method FromUnits(n: nat, unitMax: nat, str: seq<nat>) returns (r: Result<InplaceString>)
      requires n < unitMax && n < NPOS
      ensures r.Err? <==> |str| > n
      ensures r.Err? ==> r.error == OutOfRange
      ensures r.Ok? ==> fresh(r.value) && fresh(r.value.data) && r.value.n == n && r.value.unitMax == unitMax
      ensures r.Ok? ==> r.value.Valid() && r.value.Contents() == str
    {
      if |str| > n {
        return Err(OutOfRange);
      }
      var s := new InplaceString(n, unitMax);
      CharTraits.CopyUnits(s.data, 0, str);
      s.data[|str|] := 0;
      s.SetSize(|str|);
      assert s.data[..|str|] == str;
      return Ok(s);
    }

    /** basic_inplace_string(other, pos): the units of other from pos on.
        The count `other.size() - pos` is a std::size_t subtraction, so a pos
        past the end wraps it far above N and the delegated constructor throws
        out_of_range. Only a pos within N of 2^64 wraps to a count that fits,
        and then the source reads outside other. */
    static method FromSuffix(n: nat, unitMax: nat, other: seq<nat>, pos: nat) returns (r: Result<InplaceString>)
      requires n < unitMax && n < NPOS
      requires |other| < SIZE_MODULUS && pos < SIZE_MODULUS
      requires pos > |other| ==> SizeSub(|other|, pos) > n
      ensures r.Err? <==> SizeSub(|other|, pos) > n
      ensures r.Err? ==> r.error == OutOfRange
      ensures r.Ok? ==> fresh(r.value) && fresh(r.value.data) && r.value.n == n && r.value.unitMax == unitMax
      ensures r.Ok? ==> r.value.Valid() && r.value.Contents() == other[pos..]
    {
      if pos > |other| {
        return Err(OutOfRange);
      }
      r := FromUnits(n, unitMax, other[pos..]);
    }

    /** basic_inplace_string(other, pos, count): count is clamped to the
        std::size_t difference `other.size() - pos`, which wraps above N for a
        pos past the end, so there only a count above N throws. */
    static method FromSlice(n: nat, unitMax: nat, other: seq<nat>, pos: nat, count: nat) returns (r: Result<InplaceString>)
      requires n < unitMax && n < NPOS
      requires |other| < SIZE_MODULUS && pos < SIZE_MODULUS
      requires pos > |other| ==> Min(SizeSub(|other|, pos), count) > n
      ensures r.Err? <==> Min(SizeSub(|other|, pos), count) > n
      ensures r.Err? ==> r.error == OutOfRange
      ensures r.Ok? ==> fresh(r.value) && fresh(r.value.data) && r.value.n == n && r.value.unitMax == unitMax
      ensures r.Ok? ==> r.value.Valid() && r.value.Contents() == other[pos..pos + Min(|other| - pos, count)]
    {
      if pos > |other| {
        return Err(OutOfRange);
      }
      r := FromUnits(n, unitMax, other[pos..pos + Min(|other| - pos, count)]);
    }

    /** The constructor from a single-pass iterator range: each element is
        written before the running count is checked, so the element after the
        N-th lands in slot N just before out_of_range is thrown. */
    static method FromInputRange(n: nat, unitMax: nat, items: seq<nat>) returns (r: Result<InplaceString>)
      requires n < unitMax && n < NPOS
      ensures r.Err? <==> |items| > n
      ensures r.Err? ==> r.error == OutOfRange
      ensures r.Ok? ==> fresh(r.value) && fresh(r.value.data) && r.value.n == n && r.value.unitMax == unitMax
      ensures r.Ok? ==> r.value.Valid() && r.value.Contents() == items
    {
      var s := new InplaceString(n, unitMax);
      var count := 0;
      while count != |items|
        invariant count <= |items| && count <= n
        invariant forall k :: 0 <= k < count ==> s.data[k] == items[k]
      {
        s.data[count] := items[count];
        if count >= n {
          return Err(OutOfRange);
        }
        count := count + 1;
      }
      s.data[count] := 0;
      s.SetSize(count);
      assert s.data[..count] == items;
      return Ok(s);
    }

    /** The constructor from a multi-pass iterator range as the source writes
        it: the distance is checked with `count >= N`, so a range of exactly
        N elements is refused although it fits. */
    static method FromForwardRangeAsWritten(n: nat, unitMax: nat, items: seq<nat>) returns (r: Result<InplaceString>)
      requires n < unitMax && n < NPOS
      ensures r.Err? <==> |items| >= n
      ensures r.Err? ==> r.error == OutOfRange
      ensures r.Ok? ==> fresh(r.value) && fresh(r.value.data) && r.value.n == n && r.value.unitMax == unitMax
      ensures r.Ok? ==> r.value.Valid() && r.value.Contents() == items
    {
      if |items| >= n {
        return Err(OutOfRange);
      }
      r := FromUnits(n, unitMax, items);
    }

    /** The constructor from a multi-pass iterator range: the distance is
        computed first and checked against the capacity, then the elements
        are copied in one pass. */
    static method FromForwardRange(n: nat, unitMax: nat, items: seq<nat>) returns (r: Result<InplaceString>)
      requires n < unitMax && n < NPOS
      ensures r.Err? <==> |items| > n
      ensures r.Err? ==> r.error == OutOfRange
      ensures r.Ok? ==> fresh(r.value) && fresh(r.value.data) && r.value.n == n && r.value.unitMax == unitMax
      ensures r.Ok? ==> r.value.Valid() && r.value.Contents() == items
    {
      if |items| > n {
        return Err(OutOfRange);
      }
      var s := new InplaceString(n, unitMax);
      var p := 0;
      while p != |items|
        invariant p <= |items|
        invariant forall k :: 0 <= k < p ==> s.data[k] == items[k]
      {
        s.data[p] := items[p];
        p := p + 1;
      }
      s.data[p] := 0;
      s.SetSize(|items|);
      assert s.data[..p] == items;
      return Ok(s);
    }

    /** at(i): bounds-checked against the size. */
    method At(i: nat) returns (r: Result<nat>)
      requires Valid()
      ensures r.Err? <==> i >= Size()
      ensures r.Err? ==> r.error == OutOfRange
      ensures r.Ok? ==> r.value == Contents()[i]
    {
      if i >= Size() {
        return Err(OutOfRange);
      }
      return Ok(data[i]);
    }

    /** copy(dest, count, pos): copies min(size - pos, count) units to dest
        and returns how many; writes no terminator. */
    method CopyTo(dest: array<nat>, count: nat, pos: nat) returns (r: Result<nat>)
      requires Valid() && dest != data
      requires pos <= Size() ==> Min(Size() - pos, count) <= dest.Length
      modifies dest
      ensures r.Err? <==> pos > Size()
      ensures r.Err? ==> r.error == OutOfRange && unchanged(dest)
      ensures r.Ok? ==> r.value == Min(Size() - pos, count)
      ensures r.Ok? ==> dest[..r.value] == Contents()[pos..pos + r.value]
      ensures r.Ok? ==> dest[r.value..] == old(dest[r.value..])
    {
      if pos > Size() {
        return Err(OutOfRange);
      }
      ghost var contents := Contents();
      var end := pos + Min(Size() - pos, count);
      var i := pos;
      while i != end
        invariant pos <= i <= end
        invariant forall k :: 0 <= k < i - pos ==> dest[k] == contents[pos + k]
        invariant forall k :: i - pos <= k < dest.Length ==> dest[k] == old(dest[k])
      {
        dest[i - pos] := data[i];
        i := i + 1;
      }
      assert dest[..i - pos] == contents[pos..i];
      assert dest[i - pos..] == old(dest[i - pos..]);
      return Ok(i - pos);
    }

    /** substr(pos, count): a new string of the count units at pos, or of all
        units from pos on when count is npos. The count goes unchecked to the
        pointer-and-length constructor, which throws out_of_range above N; for
        npos, `size() - pos` wraps above N once pos is past the size. */
    method Substr(pos: nat, count: nat) returns (r: Result<InplaceString>)
      requires Valid()
      requires pos < SIZE_MODULUS
      requires count == NPOS && pos > Size() ==> SizeSub(Size(), pos) > n
      requires count != NPOS && count <= n ==> pos + count <= Size()
      ensures r.Err? <==> (count == NPOS && SizeSub(Size(), pos) > n) || (count != NPOS && count > n)
      ensures r.Err? ==> r.error == OutOfRange
      ensures r.Ok? ==> fresh(r.value) && fresh(r.value.data) && r.value.Valid() && r.value.n == n && r.value.unitMax == unitMax
      ensures r.Ok? ==> r.value.Contents() == Contents()[pos..if count == NPOS then Size() else pos + count]
    {
      var sz := if count == NPOS then SizeSub(Size(), pos) else count;
      if sz > n {
        return Err(OutOfRange);
      }
      r := FromUnits(n, unitMax, data[pos..pos + sz]);
    }

    /** append(count, ch). */
    method AppendFill(count: nat, ch: nat) returns (o: Outcome)
      requires Valid()
      modifies data
      ensures Valid()
      ensures o.Fail? <==> old(Remaining()) < count
      ensures o.Fail? ==> o.error == LengthError && unchanged(data)
      ensures o.Done? ==> Contents() == old(Contents()) + Fill(count, ch)
    {
      if Remaining() < count {
        return Fail(LengthError);
      }
      ghost var was := data[..];
      var sz := Size();
      CharTraits.AssignUnits(data, sz, count, ch);
      data[sz + count] := 0;
      SetSize(sz + count);
      assert data[..sz + count] == was[..sz] + Fill(count, ch);
      return Done;
    }

    /** append(str, count); `str` holds the count units. Sets the size from
        the size saved before the writes (the source re-reads it; see
        AppendSetSizeAsWritten). */
    method Append(str: seq<nat>) returns (o: Outcome)
      requires Valid()
      modifies data
      ensures Valid()
      ensures o.Fail? <==> old(Remaining()) < |str|
      ensures o.Fail? ==> o.error == LengthError && unchanged(data)
      ensures o.Done? ==> Contents() == old(Contents()) + str
    {
      if Remaining() < |str| {
        return Fail(LengthError);
      }
      ghost var was := data[..];
      var sz := Size();
      var i := 0;
      while i != |str|
        invariant 0 <= i <= |str|
        invariant forall k :: 0 <= k < data.Length && !(sz <= k < sz + i) ==> data[k] == was[k]
        invariant forall k :: sz <= k < sz + i ==> data[k] == str[k - sz]
      {
        data[sz + i] := str[i];
        i := i + 1;
      }
      data[sz + |str|] := 0;
      SetSize(sz + |str|);
      assert data[..sz + |str|] == was[..sz] + str;
      return Done;
    }

    /** push_back(ch) == append(1, ch). */
    method PushBack(ch: nat) returns (o: Outcome)
      requires Valid()
      modifies data
      ensures Valid()
      ensures o.Fail? <==> old(Size()) == n
      ensures o.Fail? ==> o.error == LengthError && unchanged(data)
      ensures o.Done? ==> Contents() == old(Contents()) + [ch]
    {
      o := AppendFill(1, ch);
      assert Fill(1, ch) == [ch];
    }

    /** erase(index, count): count is clamped to size - index; out_of_range
        when index is past the size. */
    method Erase(index: nat, count: nat) returns (o: Outcome)
      requires Valid()
      modifies data
      ensures Valid()
      ensures o.Fail? <==> index > old(Size())
      ensures o.Fail? ==> o.error == OutOfRange && unchanged(data)
      ensures o.Done? ==> Contents() == Erased(old(Contents()), index, count)
    {
      var sz := Size();
      if index > sz {
        return Fail(OutOfRange);
      }
      ghost var before := Contents();
      var cut := Min(sz - index, count);
      EraseUnits(data, sz, index, cut);
      sz := sz - cut;
      ghost var moved := data[..sz];
      data[sz] := 0;
      SetSize(sz);
      assert data[..sz] == moved;
      return Done;
    }

    /** pop_back(): erase(cend() - 1). On an empty string that pointer lies
        one before the array, which is undefined behaviour in C++; the model
        takes what a flat address space gives: the index wraps to npos, which
        erase refuses. */
    method PopBack() returns (o: Outcome)
      requires Valid()
      modifies data
      ensures Valid()
      ensures o.Fail? <==> old(Size()) == 0
      ensures o.Fail? ==> o.error == OutOfRange && unchanged(data)
      ensures o.Done? ==> Contents() == old(Contents())[..old(Size()) - 1]
    {
      var index := if Size() == 0 then NPOS else Size() - 1;
      o := Erase(index, 1);
    }

    /** insert(index, str, count) with the capacity check, the tail move and
        the terminator that the source leaves out (see InsertAsWritten). */
    method Insert(index: nat, str: seq<nat>) returns (o: Outcome)
      requires Valid()
      modifies data
      ensures Valid()
      ensures o.Fail? <==> index > old(Size()) || old(Size()) + |str| > n
      ensures o == Fail(OutOfRange) <==> index > old(Size())
      ensures o.Fail? ==> unchanged(data)
      ensures o.Done? ==> Contents() == Spliced(old(Contents()), index, 0, str)
    {
      var sz := Size();
      if index > sz {
        return Fail(OutOfRange);
      }
      if sz + |str| > n {
        return Fail(LengthError);
      }
      ghost var before := Contents();
      SpliceUnits(data, sz, index, 0, str);
      ghost var written := data[..sz + |str|];
      data[sz + |str|] := 0;
      SetSize(sz + |str|);
      assert data[..sz + |str|] == written;
      return Done;
    }

    /** insert(index, count, ch) with the same checks as Insert. */
    method InsertFill(index: nat, count: nat, ch: nat) returns (o: Outcome)
      requires Valid()
      modifies data
      ensures Valid()
      ensures o.Fail? <==> index > old(Size()) || old(Size()) + count > n
      ensures o == Fail(OutOfRange) <==> index > old(Size())
      ensures o.Fail? ==> unchanged(data)
      ensures o.Done? ==> Contents() == Spliced(old(Contents()), index, 0, Fill(count, ch))
    {
      var sz := Size();
      if index > sz {
        return Fail(OutOfRange);
      }
      if sz + count > n {
        return Fail(LengthError);
      }
      ghost var before := Contents();
      SpliceFill(data, sz, index, 0, count, ch);
      ghost var written := data[..sz + count];
      data[sz + count] := 0;
      SetSize(sz + count);
      assert data[..sz + count] == written;
      return Done;
    }

    /** replace(pos1, count1, str, count2), the canonical replace; `str` holds
        the count2 units. length_error when the growth count2 - count1 exceeds
        the remaining capacity. The source checks neither pos1 nor count1. */
    method Replace(pos1: nat, count1: nat, str: seq<nat>) returns (o: Outcome)
      requires Valid()
      requires pos1 + count1 <= Size()
      modifies data
      ensures Valid()
      ensures o.Fail? <==> |str| > count1 && old(Remaining()) < |str| - count1
      ensures o.Fail? ==> o.error == LengthError && unchanged(data)
      ensures o.Done? ==> Contents() == Spliced(old(Contents()), pos1, count1, str)
    {
      var count := |str| - count1;
      if count > 0 && Remaining() < count {
        return Fail(LengthError);
      }
      var sz := Size();
      ghost var before := Contents();
      SpliceUnits(data, sz, pos1, count1, str);
      ghost var written := data[..sz + count];
      SetSize(Size() + count);
      data[Size()] := 0;
      assert data[..sz + count] == written;
      return Done;
    }

    /** replace(pos1, count1, count2, ch): the fill variant of Replace. */
    method ReplaceFill(pos1: nat, count1: nat, count2: nat, ch: nat) returns (o: Outcome)
      requires Valid()
      requires pos1 + count1 <= Size()
      modifies data
      ensures Valid()
      ensures o.Fail? <==> count2 > count1 && old(Remaining()) < count2 - count1
      ensures o.Fail? ==> o.error == LengthError && unchanged(data)
      ensures o.Done? ==> Contents() == Spliced(old(Contents()), pos1, count1, Fill(count2, ch))
    {
      var count := count2 - count1;
      if count > 0 && Remaining() < count {
        return Fail(LengthError);
      }
      var sz := Size();
      ghost var before := Contents();
      SpliceFill(data, sz, pos1, count1, count2, ch);
      ghost var written := data[..sz + count];
      SetSize(Size() + count);
      data[Size()] := 0;
      assert data[..sz + count] == written;
      return Done;
    }

    /** resize(newSize, ch). */
    method Resize(newSize: nat, ch: nat) returns (o: Outcome)
      requires Valid()
      modifies data
      ensures Valid()
      ensures o.Fail? <==> newSize > n
      ensures o.Fail? ==> o.error == LengthError && unchanged(data)
      ensures o.Done? ==> Contents() == Resized(old(Contents()), newSize, ch)
    {
      if newSize > n {
        return Fail(LengthError);
      }
      ghost var before := Contents();
      var sz := Size();
      var count := newSize - sz;
      if count > 0 {
        CharTraits.AssignUnits(data, Size(), count, ch);
      }
      SetSize(newSize);
      data[newSize] := 0;
      assert data[..newSize] == Resized(before, newSize, ch);
      return Done;
    }

    /** The copy assignment: all N + 1 slots are copied. */
    method AssignFrom(buf: seq<nat>)
      requires |buf| == data.Length
      modifies data
      ensures data[..] == buf
    {
      forall k | 0 <= k < data.Length {
        data[k] := buf[k];
      }
    }

    /** swap(other): three whole-buffer copies through a temporary. */
    method Swap(other: InplaceString)
      requires Valid() && other.Valid() && other.n == n && other.unitMax == unitMax
      modifies data, other.data
      ensures Valid() && other.Valid()
      ensures Contents() == old(other.Contents()) && other.Contents() == old(Contents())
    {
      var s := other.data[..];
      other.AssignFrom(data[..]);
      AssignFrom(s);
    }

    /** clear(): assigns a default-constructed string. */
    method Clear()
      requires Valid()
      modifies data
      ensures Valid() && Contents() == [] && data[0] == 0
    {
      data[0] := 0;
      SetSize(0);
    }

    /** compare(pos1, count1, str, count2), the canonical compare; `str` holds
        the count2 units. The traits compare decides on the first
        min(count1, count2) units and a tie is broken by count1 against
        count2 (the source breaks it by count1 - pos1; see
        CompareAsWritten). */
    method Compare(pos1: nat, count1: nat, str: seq<nat>) returns (r: int)
      requires Valid()
      requires pos1 + count1 <= Size()
      ensures r == 0 <==> Contents()[pos1..pos1 + count1] == str
      ensures r < 0 <==> CharTraits.LexLess(Contents()[pos1..pos1 + count1], str)
      ensures r > 0 <==> CharTraits.LexLess(str, Contents()[pos1..pos1 + count1])
    {
      var sub := data[pos1..pos1 + count1];
      assert sub == Contents()[pos1..pos1 + count1];
      var sz := Min(count1, |str|);
      var cmp := CharTraits.Compare(sub, str, sz);
      if cmp != 0 {
        r := cmp;
      } else {
        r := if count1 > |str| then 1 else if count1 == |str| then 0 else -1;
      }
      assert r == CharTraits.LexCompare(sub, str);
    }

    /** operator==, for strings of any capacity: equal sizes and a zero
        traits compare over that many units. */
    method Equals(other: InplaceString) returns (b: bool)
      requires Valid() && other.Valid()
      ensures b <==> Contents() == other.Contents()
    {
      b := Size() == other.Size() && CharTraits.Compare(data[..Size()], other.data[..other.Size()], Size()) == 0;
    }

    /** operator<: lhs.compare(rhs) < 0, the whole-string compare. */
    method Less(other: InplaceString) returns (b: bool)
      requires Valid() && other.Valid()
      ensures b <==> CharTraits.LexLess(Contents(), other.Contents())
    {
      var c := Compare(0, Size(), other.data[..other.Size()]);
      assert Contents()[0..Size()] == Contents();
      b := c < 0;
    }

    /** find(str, pos, count); `needle` holds the count units. npos when pos
        is not below the size or the needle is empty; otherwise the lowest
        position at or after pos where the needle occurs, or npos. */
    method Find(needle: seq<nat>, pos: nat) returns (r: nat)
      requires Valid()
      ensures pos >= Size() || |needle| == 0 ==> r == NPOS
      ensures r != NPOS ==> pos <= r && Detail.OccursAt(Contents(), needle, r)
      ensures r != NPOS ==> forall j: nat :: pos <= j < r ==> !Detail.OccursAt(Contents(), needle, j)
      ensures r == NPOS && |needle| > 0 ==> forall j: nat :: pos <= j ==> !Detail.OccursAt(Contents(), needle, j)
    {
      if pos >= Size() || |needle| == 0 {
        return NPOS;
      }
      var res := Detail.SearchSubstring(data[..Size()], pos, needle);
      r := if res.Some? then res.value else NPOS;
    }

    /** find(ch, pos): the traits find over the units from pos on. */
    method FindUnit(ch: nat, pos: nat) returns (r: nat)
      requires Valid()
      requires pos <= Size()
      ensures r != NPOS ==> pos <= r < Size() && Contents()[r] == ch
      ensures r != NPOS ==> ch !in Contents()[pos..r]
      ensures r == NPOS <==> ch !in Contents()[pos..]
    {
      var res := CharTraits.Find(data[pos..Size()], ch);
      if res.None? {
        return NPOS;
      }
      assert data[pos..Size()][..res.value] == Contents()[pos..pos + res.value];
      return pos + res.value;
    }
  }

  /** size() as the source computes it when CharT is a signed 8-bit `char`:
      set_size stores the remaining count through the unsigned counterpart,
      but size() reads slot N back as the signed unit, so N minus a negative
      value. */
  function SizeAsWritten(n: nat, remaining: nat): int
    requires remaining <= n < 255
  {
    n - SignedChar(remaining)
  }

  /** The static assertion N < 255 admits capacities whose remaining count
      reads back negative: below 128 the size is right, but an empty string
      of capacity 200 reports the size 256. */
  lemma SizeAsWrittenMisreadsLargeRemaining(n: nat, remaining: nat)
    requires remaining <= n < 255
    ensures remaining < 128 ==> SizeAsWritten(n, remaining) == n - remaining
    ensures 128 <= remaining ==> SizeAsWritten(n, remaining) == n - remaining + 256 > n
    ensures SizeAsWritten(200, 200) == 256
  {
  }

  /** append(str, count) exactly as the source writes it: after the units and
      the terminator at slot size + count are written, the size is re-read
      from slot N to compute set_size(size() + count). `buf` is the buffer
      before the call; the result is the argument reaching set_size. */
  function AppendSetSizeAsWritten(buf: seq<nat>, n: nat, str: seq<nat>): nat
    requires |buf| == n + 1 && buf[n] <= n && |str| <= buf[n]
  {
    var sz := n - buf[n];
    var written := CharTraits.Copied(buf, sz, str)[sz + |str| := 0];
    (n - written[n]) + |str|
  }

  /** When the appended units fill the string exactly, the terminator write
      clears slot N first, so set_size is asked for N + count, beyond its
      `sz <= N` assertion; below the capacity the argument is right. */
  lemma AppendSetSizeAsWrittenOverflows(buf: seq<nat>, n: nat, str: seq<nat>)
    requires |buf| == n + 1 && buf[n] <= n && |str| <= buf[n]
    ensures |str| < buf[n] ==> AppendSetSizeAsWritten(buf, n, str) == n - buf[n] + |str|
    ensures |str| == buf[n] ==> AppendSetSizeAsWritten(buf, n, str) == n + |str|
  {
  }

  /** The length check of replace(first, last, first2, last2) exactly as the
      source writes it: `difference_type` is std::size_t, so the difference
      `count2 - count1` wraps for a shrinking replace. True when
      length_error is thrown. */
  function ReplaceRangeRejectsAsWritten(remaining: nat, count1: nat, count2: nat): bool
    requires remaining < SIZE_MODULUS && count1 < SIZE_MODULUS && count2 < SIZE_MODULUS
  {
    var newBytes := SizeSub(count2, count1);
    newBytes > 0 && remaining < newBytes
  }

  /** As written, every shrinking range replace throws length_error whatever
      room is left, while a growing one is checked as the canonical replace
      checks it (Replace: failure iff the growth exceeds the remaining room). */
  lemma ReplaceRangeAsWrittenRejectsShrink(remaining: nat, count1: nat, count2: nat)
    requires remaining + count1 < SIZE_MODULUS && count2 < SIZE_MODULUS
    ensures count2 < count1 ==> ReplaceRangeRejectsAsWritten(remaining, count1, count2)
    ensures count1 <= count2 ==> (ReplaceRangeRejectsAsWritten(remaining, count1, count2) <==> remaining < count2 - count1)
  {
  }

  /** insert(index, str, count) exactly as the source writes it: moves only
      `count` units from index (not the tail), writes str, sets the size to
      size + count without a capacity check or a terminator. The requires
      keep every write inside the buffer. */
  function InsertAsWritten(buf: seq<nat>, n: nat, index: nat, str: seq<nat>): (r: seq<nat>)
    requires |buf| == n + 1 && buf[n] <= n
    requires index + 2 * |str| <= n && (n - buf[n]) + |str| <= n
  {
    var moved := CharTraits.Moved(buf, index + |str|, index, |str|);
    var written := CharTraits.Copied(moved, index, str);
    written[n := n - ((n - buf[n]) + |str|)]
  }

  /** "abc" (units 1, 2, 3) with capacity 4, insert(0, "x") with x = 9: the
      source yields the contents 9, 1, 3, 0 where 9, 1, 2, 3 is meant; the
      unit 2 is lost and the old terminator becomes content. */
  lemma InsertAsWrittenLosesTail()
    ensures var r := InsertAsWritten([1, 2, 3, 0, 1], 4, 0, [9]); r[..4 - r[4]] == [9, 1, 3, 0]
    ensures Spliced([1, 2, 3], 0, 0, [9]) == [9, 1, 2, 3]
  {
    var r := InsertAsWritten([1, 2, 3, 0, 1], 4, 0, [9]);
    assert r == [9, 1, 3, 0, 0];
  }

  /** The canonical compare exactly as the source writes it, over the
      contents s: the tie is broken by the size_t difference count1 - pos1
      instead of count1. */
  function CompareAsWritten(s: seq<nat>, pos1: nat, count1: nat, str: seq<nat>): int
    requires pos1 + count1 <= |s| && |s| < SIZE_MODULUS && |str| < SIZE_MODULUS
  {
    var sz := Min(count1, |str|);
    var cmp := CharTraits.Compare(s[pos1..pos1 + count1], str, sz);
    if cmp != 0 then cmp
    else if SizeSub(count1, pos1) > |str| then 1
    else if SizeSub(count1, pos1) == |str| then 0
    else -1
  }

  /** From position 0 the source's compare is the lexicographic one, so the
      whole-string compare and operator< are right as written. */
  lemma CompareAsWrittenAtStart(s: seq<nat>, count1: nat, str: seq<nat>)
    requires count1 <= |s| < SIZE_MODULUS && |str| < SIZE_MODULUS
    ensures CompareAsWritten(s, 0, count1, str) == CharTraits.LexCompare(s[..count1], str)
  {
    assert s[0..count1] == s[..count1];
  }

  /** "abc" (units 1, 2, 3): compare(1, 2, "bc", 2) compares equal units and
      then returns -1, although the compared sub-range "bc" equals "bc". */
  lemma CompareAsWrittenMisordersSubrange()
    ensures CompareAsWritten([1, 2, 3], 1, 2, [2, 3]) == -1
    ensures CharTraits.LexCompare([1, 2, 3][1..3], [2, 3]) == 0
  {
    assert [1, 2, 3][1..3] == [2, 3];
  }
}
