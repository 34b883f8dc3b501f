/** Expectations of the repository's unit tests, restated on the
    specification functions the mutators and queries are proved against, and
    for find, derived from the contracts of the string's own constructor and
    method. */
module UnitCases {
  import opened Common
  import CharTraits
  import Detail
  import InplaceStrings

  /** The units of a character literal. */
  function Units(s: string): (u: seq<nat>)
    ensures |u| == |s|
  {
    seq(|s|, i requires 0 <= i < |s| => s[i] as int)
  }

  /** "foobar".find("bar") == 3: the lowest occurrence from position 0. */
  lemma FindBarInFoobar()
    ensures Detail.OccursAt(Units("foobar"), Units("bar"), 3)
    ensures forall j: nat :: j < 3 ==> !Detail.OccursAt(Units("foobar"), Units("bar"), j)
  {
    var s, b := Units("foobar"), Units("bar");
    assert s[3..6] == b;
    forall j: nat | j < 3 ensures !Detail.OccursAt(s, b, j) {
      assert s[j] != b[0];
      assert s[j..j + 3][0] == s[j];
    }
  }

  /** "foobar".find("fooz") is npos: the needle occurs nowhere. */
  lemma FoozNotInFoobar()
    ensures forall j: nat :: !Detail.OccursAt(Units("foobar"), Units("fooz"), j)
  {
    var s, z := Units("foobar"), Units("fooz");
    forall j: nat | j + 4 <= 6 ensures !Detail.OccursAt(s, z, j) {
      assert s[j..j + 4][3] == s[j + 3] != z[3];
    }
  }

  /** The chain of replacements in the replace_basic test, step by step from
      "fooFOO" to "foobarbuzbaz". */
  lemma ReplaceBasicChain()
    ensures InplaceStrings.Spliced(Units("fooFOO"), 3, 3, Units("bar")) == Units("foobar")
    ensures InplaceStrings.Spliced(Units("foobar"), 0, 3, Units("FOO")) == Units("FOObar")
    ensures InplaceStrings.Spliced(Units("FOObar"), 3, 3, Units("BARFOO")) == Units("FOOBARFOO")
    ensures InplaceStrings.Spliced(Units("FOOBARFOO"), 3, 6, Units("BUZ")) == Units("FOOBUZ")
    ensures InplaceStrings.Spliced(Units("FOOBUZ"), 0, 3, Units("foobar")) == Units("foobarBUZ")
    ensures InplaceStrings.Spliced(Units("foobarBUZ"), 0, 6, Units("FOO")) == Units("FOOBUZ")
    ensures InplaceStrings.Spliced(Units("FOOBUZ"), 0, 6, Units("foo")) == Units("foo")
    ensures InplaceStrings.Spliced(Units("foo"), 0, 3, Units("foobarbuzbaz")) == Units("foobarbuzbaz")
    ensures InplaceStrings.Spliced(Units("foobarbuzbaz"), 0, 1, Units("FOOBARf")) == Units("FOOBARfoobarbuzbaz")
    ensures InplaceStrings.Spliced(Units("FOOBARfoobarbuzbaz"), 0, 7, Units("f")) == Units("foobarbuzbaz")
  {
    assert Units("fooFOO")[..3] == Units("foo");
    assert Units("foobar")[3..] == Units("bar");
    assert Units("FOObar")[..3] == Units("FOO");
    assert Units("FOOBARFOO")[..3] == Units("FOO");
    assert Units("FOOBUZ")[3..] == Units("BUZ");
    assert Units("foobarBUZ")[6..] == Units("BUZ");
    assert Units("foobarbuzbaz")[1..] == Units("oobarbuzbaz");
    assert Units("FOOBARfoobarbuzbaz")[7..] == Units("oobarbuzbaz");
  }

  /** The resize test: growing fills with the given unit, shrinking
      truncates. */
  lemma ResizeChain()
    ensures InplaceStrings.Resized(Units("foo"), 6, 'z' as int) == Units("foozzz")
    ensures InplaceStrings.Resized(Units("foozzz"), 2, 'z' as int) == Units("fo")
  {
    assert Units("foozzz")[..2] == Units("fo");
  }

  /** The compare tests: "123456" < "123456789" by prefix, "123456" <
      "123466" at the fifth unit, and "123456" differs from "123356". */
  lemma CompareCases()
    ensures CharTraits.LexCompare(Units("123456"), Units("123456789")) < 0
    ensures CharTraits.LexCompare(Units("123456"), Units("123466")) < 0
    ensures CharTraits.LexCompare(Units("123456"), Units("123356")) > 0
  {
    assert Units("123456789")[..6] == Units("123456");
    assert CharTraits.DiffersFirstBelow(Units("123456"), Units("123466"), 4) by {
      assert Units("123456")[..4] == Units("123466")[..4];
    }
    assert CharTraits.DiffersFirstBelow(Units("123356"), Units("123456"), 3) by {
      assert Units("123356")[..3] == Units("123456")[..3];
    }
  }

  /** The find test stated through the string's own methods: a 31-unit string
      built from "foobar" finds "bar" at 3 and reports npos for "fooz". */
  method FindInFoobar() returns (bar: nat, fooz: nat)
    ensures bar == 3
    ensures fooz == NPOS
  {
    var built := InplaceStrings.InplaceString.FromUnits(31, 256, Units("foobar"));
    var s := built.value;
    bar := s.Find(Units("bar"), 0);
    fooz := s.Find(Units("fooz"), 0);
    FindBarInFoobar();
    FoozNotInFoobar();
  }
}
