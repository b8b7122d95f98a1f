/**
 * `get_formatted_mode`: the most frequent value of a list of cents, rendered
 * as dollars, or `None` for an empty list. The mode follows Python's
 * `statistics.mode` (3.8 and later): among the values tied for the highest
 * count it returns the one that occurs first in the list.
 */
module Consensus {
  import opened Wrappers
  import opened Currency

  /** Number of occurrences of `x` in `s`. */
  function Count(s: seq<int>, x: int): (c: nat)
    ensures c <= |s|
    ensures x !in s ==> c == 0
  {
    if s == [] then 0
    else (if s[0] == x then 1 else 0) + Count(s[1..], x)
  }

  /** `Count` agrees with the multiplicity of `x` in the multiset of `s`. */
  lemma {:induction false} CountIsMultiplicity(s: seq<int>, x: int)
    ensures Count(s, x) == multiset(s)[x]
  {
    if s != [] {
      assert s == [s[0]] + s[1..];
      CountIsMultiplicity(s[1..], x);
    }
  }

  /** A value occurs in `s` exactly when it is counted at least once. */
  lemma {:induction false} CountPositive(s: seq<int>, x: int)
    ensures Count(s, x) > 0 <==> x in s
  {
    if s != [] {
      CountPositive(s[1..], x);
      assert x in s <==> s[0] == x || x in s[1..];
    }
  }

  /**
   * The index of the mode in `s[lo..]`: its count is the highest of all the
   * elements from `lo` on, and every element before it has a strictly lower
   * count, so it is the first index reaching the highest count.
   */
  function ModeIndex(s: seq<int>, lo: nat): (j: nat)
    requires lo < |s|
    decreases |s| - lo
    ensures lo <= j < |s|
    ensures forall i :: lo <= i < |s| ==> Count(s, s[i]) <= Count(s, s[j])
    ensures forall i :: lo <= i < j ==> Count(s, s[i]) < Count(s, s[j])
  {
    if lo == |s| - 1 then lo
    else
      var k := ModeIndex(s, lo + 1);
      if Count(s, s[lo]) >= Count(s, s[k]) then lo else k
  }

  /** `statistics.mode` of a non-empty list. */
  function Mode(s: seq<int>): (m: int)
    requires |s| > 0
    ensures m in s
    ensures forall i :: 0 <= i < |s| ==> Count(s, s[i]) <= Count(s, m)
  {
    s[ModeIndex(s, 0)]
  }

  /**
   * `m` is the mode Python picks: it occurs in `s`, nothing occurs more often,
   * and every element before its first occurrence occurs strictly less often.
   */
  ghost predicate IsFirstMode(s: seq<int>, m: int) {
    && (forall x :: Count(s, x) <= Count(s, m))
    && exists j :: 0 <= j < |s| && s[j] == m && (forall i :: 0 <= i < j ==> Count(s, s[i]) < Count(s, m))
  }

  /** The chosen value occurs in the list and no value occurs strictly more often. */
  lemma ModeIsMostFrequent(s: seq<int>)
    requires |s| > 0
    ensures Mode(s) in s
    ensures forall x :: Count(s, x) <= Count(s, Mode(s))
  {
  }

  /** `Mode` is the first-occurring most frequent value, and it is the only such value. */
  lemma ModeIsFirstMode(s: seq<int>, m: int)
    requires |s| > 0
    ensures IsFirstMode(s, m) <==> m == Mode(s)
  {
    var k := ModeIndex(s, 0);
    ModeIsMostFrequent(s);
    if m == Mode(s) {
      assert 0 <= k < |s| && s[k] == m && (forall i :: 0 <= i < k ==> Count(s, s[i]) < Count(s, m));
    }
    if IsFirstMode(s, m) {
      var j :| 0 <= j < |s| && s[j] == m && (forall i :: 0 <= i < j ==> Count(s, s[i]) < Count(s, m));
      assert Count(s, m) == Count(s, s[k]);
    }
  }

  /**
   * `get_formatted_mode`: `None` for an empty list; otherwise a rendering that
   * reads back as the first-occurring most frequent value.
   */
  function FormattedMode(s: seq<int>): (r: Option<string>)
    ensures r == None <==> s == []
    ensures r.Some? ==> exists m :: IsFirstMode(s, m) && ParseCurrency(r.value) == Some(m)
  {
    if s == [] then None
    else
      var m := Mode(s);
      ModeIsFirstMode(s, m);
      ParseFormatCents(m);
      Some(FormatCents(m))
  }

  /** A clear majority wins: `[1000, 2000, 1000, 1000, 3000]` gives `$10.00`. */
  lemma FormattedModeMajority()
    ensures FormattedMode([1000, 2000, 1000, 1000, 3000]) == Some("$10.00")
  {
    var s := [1000, 2000, 1000, 1000, 3000];
    assert Count(s, 1000) == 3;
    assert Count(s, 2000) == 1;
    assert Count(s, 3000) == 1;
    assert IsFirstMode(s, 1000) by {
      forall x ensures Count(s, x) <= Count(s, 1000) {
        CountPositive(s, x);
        assert x in s ==> x == 1000 || x == 2000 || x == 3000;
      }
      assert s[0] == 1000;
    }
    ModeIsFirstMode(s, 1000);
    FormatTenDollars();
  }

  /** All four values tie, so the first one wins: `[1500, 2500, 1800, 3000]` gives `$15.00`. */
  lemma FormattedModeTieFirst()
    ensures FormattedMode([1500, 2500, 1800, 3000]) == Some("$15.00")
  {
    var s := [1500, 2500, 1800, 3000];
    assert Count(s, 1500) == 1;
    assert IsFirstMode(s, 1500) by {
      forall x ensures Count(s, x) <= Count(s, 1500) {
        CountAtMostOnce(s, x);
      }
      assert s[0] == 1500;
    }
    ModeIsFirstMode(s, 1500);
    FormatFifteenDollars();
  }

  lemma CountAtMostOnce(s: seq<int>, x: int)
    requires s == [1500, 2500, 1800, 3000]
    ensures Count(s, x) <= 1
  {
    var one := if x == 3000 then 1 else 0;
    assert Count([3000], x) == one by {
      assert [3000][1..] == [];
    }
    assert Count([1800, 3000], x) == (if x == 1800 then 1 else 0) + one by {
      assert [1800, 3000][1..] == [3000];
    }
    assert Count([2500, 1800, 3000], x) == (if x == 2500 then 1 else 0) + Count([1800, 3000], x) by {
      assert [2500, 1800, 3000][1..] == [1800, 3000];
    }
    assert s[1..] == [2500, 1800, 3000];
  }

  lemma CountOfThree(a: int, b: int, c: int, x: int)
    ensures Count([a, b, c], x) == (if a == x then 1 else 0) + (if b == x then 1 else 0) + (if c == x then 1 else 0)
  {
    var s := [a, b, c];
    assert s[1..] == [b, c] && s[1..][1..] == [c] && s[1..][1..][1..] == [];
    assert Count([c], x) == (if c == x then 1 else 0);
    assert Count([b, c], x) == (if b == x then 1 else 0) + Count([c], x);
  }

  /** Of three values, the mode is the first one unless the other two agree. */
  lemma ModeOfThree(a: int, b: int, c: int)
    ensures Mode([a, b, c]) == if b == c && a != b then b else a
  {
    var s := [a, b, c];
    CountOfThree(a, b, c, a);
    CountOfThree(a, b, c, b);
    CountOfThree(a, b, c, c);
    assert ModeIndex(s, 2) == 2;
    assert ModeIndex(s, 1) == if Count(s, b) >= Count(s, c) then 1 else 2;
  }

  /** Of two values, the mode is the first one. */
  lemma ModeOfTwo(a: int, b: int)
    ensures Mode([a, b]) == a
  {
    var s := [a, b];
    assert s[1..] == [b] && s[1..][1..] == [];
    assert Count([b], a) == (if b == a then 1 else 0);
    assert Count([b], b) == 1;
    assert Count(s, a) >= Count(s, b);
    assert ModeIndex(s, 1) == 1;
  }

  /** An empty list has no mode. */
  lemma FormattedModeEmpty()
    ensures FormattedMode([]) == None
  {
  }
}
