/** cxx::detail::basic_small_string<N>: the earlier fixed-capacity string,
    an array of N units with a separate size field. Its constructors check
    the requested size against N and then fill or copy the array. */
module SmallStrings {
  import opened Common

  class SmallString {
    /** The capacity N. */
    const n: nat
    /** _data, the N units; slots at and beyond the size are unspecified. */
    const data: array<nat>
    /** _size, modelled as an unbounded count (see StoredSize for the
        `char` field the source declares). */
    var size: nat

    ghost predicate Valid()
      reads this
    {
      data.Length == n && size <= n
    }

    /** The default constructor: size 0, the units left unspecified. */
    constructor (n: nat)
      ensures this.n == n && fresh(data)
      ensures Valid() && Empty()
    {
      this.n := n;
      data := new nat[n];
      size := 0;
    }

    /** max_size(), the capacity N. */
    function MaxSize(): (r: nat)
      ensures r == n
    {
      n
    }

    /** capacity(), the same N as max_size(). */
    function Capacity(): (r: nat)
      ensures r == MaxSize()
    {
      n
    }

    /** The string_view conversion: exactly the first `size` units. */
    function View(): (v: seq<nat>)
      reads this, data
      requires Valid()
      ensures |v| == size && |v| <= Capacity()
      ensures forall i :: 0 <= i < |v| ==> v[i] == data[i]
    {
      data[..size]
    }

    /** size() and length(): never above max_size(). */
    function Size(): (r: nat)
      reads this
      requires Valid()
      ensures r <= MaxSize()
    {
      size
    }

    /** empty(): the view has no units. */
    function Empty(): (b: bool)
      reads this, data
      requires Valid()
      ensures b <==> View() == []
    {
      Size() == 0
    }

    /** at(i), through std::array::at: bounds-checked against the capacity
        N, not against the size, so a unit past the view may be returned. */
    method At(i: nat) returns (r: Result<nat>)
      requires Valid()
      ensures r.Err? <==> i >= MaxSize()
      ensures r.Err? ==> r.error == OutOfRange
      ensures r.Ok? ==> r.value == data[i]
      ensures r.Ok? && i < Size() ==> r.value == View()[i]
    {
      if i >= n {
        return Err(OutOfRange);
      }
      return Ok(data[i]);
    }

    /** back(), as evidently intended: under the assertion `!empty()`, the
        last unit of the view. */
    method Back() returns (r: nat)
      requires Valid() && !Empty()
      ensures r == View()[|View()| - 1]
    {
      r := data[size - 1];
    }

    /** init(str, count): out_of_range when count exceeds N, otherwise the
        first count units of str are copied in order and become the
        contents. `src` holds the units the pointer designates; only count
        of them are read. */
    method Init(src: seq<nat>, count: nat) returns (o: Outcome)
      requires Valid()
      requires count <= n ==> count <= |src|
      modifies this, data
      ensures Valid()
      ensures o.Fail? <==> count > n
      ensures o.Fail? ==> o.error == OutOfRange && unchanged(this) && unchanged(data)
      ensures o.Done? ==> View() == src[..count]
    {
      if count > n {
        return Fail(OutOfRange);
      }
      var i := 0;
      while i != count
        invariant i <= count
        invariant forall k :: 0 <= k < i ==> data[k] == src[k]
      {
        data[i] := src[i];
        i := i + 1;
      }
      size := count;
      assert data[..count] == src[..count];
      return Done;
    }

    /** init(first, last): the distance is taken first and checked against
        N, then the elements are copied in order. */
    method InitRange(items: seq<nat>) returns (o: Outcome)
      requires Valid()
      modifies this, data
      ensures Valid()
      ensures o.Fail? <==> |items| > n
      ensures o.Fail? ==> o.error == OutOfRange && unchanged(this) && unchanged(data)
      ensures o.Done? ==> View() == items
    {
      var count := |items|;
      if count > n {
        return Fail(OutOfRange);
      }
      var p := 0;
      while p != |items|
        invariant p <= |items|
        invariant forall k :: 0 <= k < p ==> data[k] == items[k]
      {
        data[p] := items[p];
        p := p + 1;
      }
      size := count;
      assert data[..count] == items;
      return Done;
    }
  }

  /** basic_small_string(count, ch): out_of_range when count exceeds N,
      otherwise fill_n writes count copies of ch. */
  method WithFill(n: nat, count: nat, ch: nat) returns (r: Result<SmallString>)
    ensures r.Err? <==> count > n
    ensures r.Err? ==> r.error == OutOfRange
    ensures r.Ok? ==> fresh(r.value) && fresh(r.value.data) && r.value.n == n && r.value.Valid()
    ensures r.Ok? ==> r.value.Size() == count && forall i :: 0 <= i < count ==> r.value.View()[i] == ch
  {
    if count > n {
      return Err(OutOfRange);
    }
    var s := new SmallString(n);
    var i := 0;
    while i != count
      invariant i <= count
      invariant forall k :: 0 <= k < i ==> s.data[k] == ch
    {
      s.data[i] := ch;
      i := i + 1;
    }
    s.size := count;
    return Ok(s);
  }

  /** basic_small_string(str, count) and, with count the C-string length,
      basic_small_string(str). */
  method FromUnits(n: nat, src: seq<nat>, count: nat) returns (r: Result<SmallString>)
    requires count <= n ==> count <= |src|
    ensures r.Err? <==> count > n
    ensures r.Err? ==> r.error == OutOfRange
    ensures r.Ok? ==> fresh(r.value) && fresh(r.value.data) && r.value.n == n && r.value.Valid()
    ensures r.Ok? ==> r.value.View() == src[..count]
  {
    var s := new SmallString(n);
    var o := s.Init(src, count);
    r := if o.Done? then Ok(s) else Err(o.error);
  }

  /** basic_small_string(other, pos): the units of other from pos on. The
      count `other.size() - pos` is a std::size_t subtraction, so a pos past
      the end wraps it far above N and init throws out_of_range. Only a pos
      within N of 2^64 wraps to a count that fits, and then the source reads
      outside other. */
  method FromSuffix(n: nat, other: seq<nat>, pos: nat) returns (r: Result<SmallString>)
    requires |other| < SIZE_MODULUS && pos < SIZE_MODULUS
    requires pos > |other| ==> SizeSub(|other|, pos) > n
    ensures r.Err? <==> SizeSub(|other|, pos) > n
    ensures r.Err? ==> r.error == OutOfRange
    ensures r.Ok? ==> fresh(r.value) && fresh(r.value.data) && r.value.n == n && r.value.Valid()
    ensures r.Ok? ==> r.value.View() == other[pos..]
  {
    if pos > |other| {
      return Err(OutOfRange);
    }
    r := FromUnits(n, other[pos..], |other| - pos);
    assert other[pos..][..|other| - pos] == other[pos..];
  }

  /** basic_small_string(other, pos, count): exactly count units from pos,
      with no clamping to the length of other: init throws out_of_range for a
      count above N whatever pos is, and otherwise copies count units, so the
      caller must supply that many. */
  method FromSlice(n: nat, other: seq<nat>, pos: nat, count: nat) returns (r: Result<SmallString>)
    requires count <= n ==> pos + count <= |other|
    ensures r.Err? <==> count > n
    ensures r.Err? ==> r.error == OutOfRange
    ensures r.Ok? ==> fresh(r.value) && fresh(r.value.data) && r.value.n == n && r.value.Valid()
    ensures r.Ok? ==> r.value.View() == other[pos..pos + count]
  {
    if count > n {
      return Err(OutOfRange);
    }
    r := FromUnits(n, other[pos..], count);
  }

  /** basic_small_string(first, last). */
  method FromRange(n: nat, items: seq<nat>) returns (r: Result<SmallString>)
    ensures r.Err? <==> |items| > n
    ensures r.Err? ==> r.error == OutOfRange
    ensures r.Ok? ==> fresh(r.value) && fresh(r.value.data) && r.value.n == n && r.value.Valid()
    ensures r.Ok? ==> r.value.View() == items
  {
    var s := new SmallString(n);
    var o := s.InitRange(items);
    r := if o.Done? then Ok(s) else Err(o.error);
  }

  /** The index written in back()'s dead statement after
      `return assert(!empty());`: `_size` itself. */
  function BackIndexAsWritten(size: nat): nat
  {
    size
  }

  /** The index written in back() never names a unit of the view, and for a
      full string (size N) it is past the N-unit array. */
  lemma BackIndexAsWrittenMissesView(s: SmallString)
    requires s.Valid() && !s.Empty()
    ensures BackIndexAsWritten(s.size) >= |s.View()|
    ensures s.size == s.n ==> BackIndexAsWritten(s.size) >= s.data.Length
  {
  }

  /** The value `_size = count` stores in the `char` field: count modulo 256,
      read as a signed 8-bit value. */
  function StoredSize(count: nat): (c: int)
    ensures -128 <= c < 128
  {
    SignedChar(count % 256)
  }

  /** size() converts the `char` field to std::size_t: a negative value
      sign-extends and wraps modulo 2^64. */
  function SizeReadBack(stored: int): (r: nat)
    requires -128 <= stored < 128
    ensures r < SIZE_MODULUS
  {
    if stored >= 0 then stored else SIZE_MODULUS + stored
  }

  /** Sizes below 128 survive the `char` field. */
  lemma StoredSizeRoundTrip(count: nat)
    requires count < 128
    ensures SizeReadBack(StoredSize(count)) == count
  {
  }

  /** With N >= 128 a string of 128 units reports a size of 2^64 - 128, far
      above max_size(). */
  lemma StoredSizeWrapsAt128()
    ensures SizeReadBack(StoredSize(128)) == SIZE_MODULUS - 128
  {
  }
}
