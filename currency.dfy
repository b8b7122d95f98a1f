/**
 * Rendering of an integer number of cents as a dollar amount, as
 * `'$' + format(n / 100, ',.2f')` does in `get_formatted_mode`: a dollar
 * part with comma thousands separators, a dot and two cent digits.
 * The float division is replaced by exact integer arithmetic, and
 * `ParseCurrency` is the inverse that the rendering is proved against.
 */
module Currency {
  import opened Wrappers

  predicate IsDigit(c: char) {
    '0' <= c <= '9'
  }

  function DigitChar(d: nat): (c: char)
    requires d < 10
    ensures IsDigit(c) && DigitValue(c) == d
  {
    ('0' as int + d) as char
  }

  function DigitValue(c: char): nat
    requires IsDigit(c)
  {
    c as int - '0' as int
  }

  /** The number spelled by the decimal digits of `s`, read left to right; any other character is skipped. */
  function Value(s: string): nat
  {
    if s == [] then 0
    else if IsDigit(s[|s| - 1]) then Value(s[..|s| - 1]) * 10 + DigitValue(s[|s| - 1])
    else Value(s[..|s| - 1])
  }

  predicate AllDigits(s: string) {
    forall i :: 0 <= i < |s| ==> IsDigit(s[i])
  }

  /**
   * `g` is a comma-grouped numeral: one to three leading digits without a
   * leading zero (unless the numeral is `0`), then any number of `,ddd` groups.
   */
  predicate ThousandsGrouped(g: string)
    decreases |g|
  {
    if |g| <= 3 then 0 < |g| && AllDigits(g) && (g[0] == '0' ==> |g| == 1)
    else
      && |g| >= 5
      && g[|g| - 4] == ','
      && AllDigits(g[|g| - 3..])
      && g[0] != '0'
      && ThousandsGrouped(g[..|g| - 4])
  }

  /** A grouped numeral starts with a digit. */
  lemma {:induction false} GroupedStartsWithDigit(g: string)
    requires ThousandsGrouped(g)
    ensures IsDigit(g[0])
    decreases |g|
  {
    if |g| > 3 {
      GroupedStartsWithDigit(g[..|g| - 4]);
    }
  }

  lemma ValueSnoc(s: string, c: char)
    ensures Value(s + [c]) == if IsDigit(c) then Value(s) * 10 + DigitValue(c) else Value(s)
  {
  }

  /** Plain decimal digits of `n`, without separators or leading zeros. */
  function Digits(n: nat): (s: string)
  {
    if n < 10 then [DigitChar(n)] else Digits(n / 10) + [DigitChar(n % 10)]
  }

  /** `Digits` spells `n` in at least one digit, with no leading zero and no more digits than needed. */
  lemma {:induction false} DigitsSpell(n: nat)
    ensures var s := Digits(n);
      && 0 < |s| && AllDigits(s)
      && Value(s) == n
      && (s[0] == '0' <==> n == 0)
      && (n < 10 ==> |s| == 1)
      && (n < 100 ==> |s| <= 2)
      && (n < 1000 ==> |s| <= 3)
  {
    if n >= 10 {
      DigitsSpell(n / 10);
      ValueSnoc(Digits(n / 10), DigitChar(n % 10));
    }
  }

  /** The two cent digits of `n`, with a leading zero when `n < 10`. */
  function Pad2(n: nat): (s: string)
    requires n < 100
    ensures |s| == 2 && IsDigit(s[0]) && IsDigit(s[1])
    ensures DigitValue(s[0]) == n / 10 && DigitValue(s[1]) == n % 10
    ensures Value(s) == n
  {
    var s := [DigitChar(n / 10), DigitChar(n % 10)];
    ValueSnoc([DigitChar(n / 10)], DigitChar(n % 10));
    assert [DigitChar(n / 10)] == [] + [DigitChar(n / 10)];
    ValueSnoc([], DigitChar(n / 10));
    s
  }

  /** A full group of three digits of `n`, padded with leading zeros. */
  function Pad3(n: nat): (s: string)
    requires n < 1000
    ensures |s| == 3 && IsDigit(s[0]) && IsDigit(s[1]) && IsDigit(s[2])
    ensures Value(s) == n
  {
    var t := Pad2(n % 100);
    var s := [DigitChar(n / 100)] + t;
    assert s == [DigitChar(n / 100)] + [t[0]] + [t[1]];
    ValueSnoc([DigitChar(n / 100)] + [t[0]], t[1]);
    ValueSnoc([DigitChar(n / 100)], t[0]);
    assert [DigitChar(n / 100)] == [] + [DigitChar(n / 100)];
    ValueSnoc([], DigitChar(n / 100));
    s
  }

  lemma ValueGroupAppend(h: string, t: string)
    requires |t| == 3 && IsDigit(t[0]) && IsDigit(t[1]) && IsDigit(t[2])
    ensures Value(h + [','] + t) == Value(h) * 1000 + Value(t)
  {
    assert t == [] + [t[0]] + [t[1]] + [t[2]];
    ValueSnoc([], t[0]);
    ValueSnoc([] + [t[0]], t[1]);
    ValueSnoc([] + [t[0]] + [t[1]], t[2]);
    var g := h + [','] + t;
    assert g == h + [','] + [t[0]] + [t[1]] + [t[2]];
    ValueSnoc(h, ',');
    ValueSnoc(h + [','], t[0]);
    ValueSnoc(h + [','] + [t[0]], t[1]);
    ValueSnoc(h + [','] + [t[0]] + [t[1]], t[2]);
  }

  lemma GroupedAppend(h: string, t: string)
    requires ThousandsGrouped(h) && Value(h) > 0
    requires |t| == 3 && IsDigit(t[0]) && IsDigit(t[1]) && IsDigit(t[2])
    ensures ThousandsGrouped(h + [','] + t)
  {
    var g := h + [','] + t;
    assert g[..|g| - 4] == h;
    assert g[|g| - 3..] == t;
  }

  /** The dollar part: digits of `n` with a comma between every group of three. */
  function Group(n: nat): (g: string)
  {
    if n < 1000 then Digits(n) else Group(n / 1000) + [','] + Pad3(n % 1000)
  }

  /** `Group` yields a well-formed comma-grouped numeral worth `n`. */
  lemma {:induction false} GroupGrouped(n: nat)
    ensures ThousandsGrouped(Group(n)) && Value(Group(n)) == n
  {
    if n < 1000 {
      DigitsSpell(n);
    } else {
      var h := Group(n / 1000);
      var t := Pad3(n % 1000);
      GroupGrouped(n / 1000);
      ValueGroupAppend(h, t);
      GroupedAppend(h, t);
    }
  }

  function Abs(n: int): nat {
    if n < 0 then -n else n
  }

  /** The unsigned part of a rendering: the grouped dollars, a dot and two cent digits. */
  function Amount(a: nat): (s: string)
    ensures |s| >= 4 && IsDigit(s[0]) && s[|s| - 3] == '.'
  {
    GroupGrouped(a / 100);
    GroupedStartsWithDigit(Group(a / 100));
    Group(a / 100) + "." + Pad2(a % 100)
  }

  /**
   * The rendering of `n` cents: `$`, a minus sign for a negative amount (Python
   * prints `$-` before the digits), then the amount of `|n|` cents.
   */
  function FormatCents(n: int): (s: string)
    ensures |s| >= 5 && s[0] == '$' && (s[1] == '-' <==> n < 0)
  {
    (if n < 0 then "$-" else "$") + Amount(Abs(n))
  }

  /** Reads back a string of the shape `Amount` produces; `None` for anything else. */
  function ParseAmount(b: string): (r: Option<nat>)
    ensures r.Some? ==> |b| >= 4 && IsDigit(b[0])
  {
    if |b| < 4 || b[|b| - 3] != '.' || !IsDigit(b[|b| - 2]) || !IsDigit(b[|b| - 1]) then None
    else
      var dollars := b[..|b| - 3];
      if !ThousandsGrouped(dollars) then None
      else
        GroupedStartsWithDigit(dollars);
        Some(Value(dollars) * 100 + Value(b[|b| - 2..]))
  }

  /** Reads back a string of the shape `FormatCents` produces; `None` for anything else. */
  function ParseCurrency(s: string): (r: Option<int>)
    ensures r.Some? ==> |s| >= 5 && s[0] == '$'
  {
    if |s| < 2 || s[0] != '$' then None
    else if s[1] == '-' then
      match ParseAmount(s[2..])
      case Some(m) => if m == 0 then None else Some(-(m as int))  // Python never prints a negative zero amount
      case None => None
    else
      match ParseAmount(s[1..])
      case Some(m) => Some(m)
      case None => None
  }

  /** Where the pieces of `g + "." + c` sit. */
  lemma AmountLayout(g: string, c: string)
    requires |c| == 2
    ensures var s := g + "." + c;
      && |s| == |g| + 3
      && s[..|s| - 3] == g
      && s[|s| - 3] == '.'
      && s[|s| - 2..] == c && s[|s| - 2] == c[0] && s[|s| - 1] == c[1]
  {
    var s := g + "." + c;
    assert s == g + ("." + c);
  }

  /** An amount is a comma-grouped dollar part worth `a / 100`, a dot, and the two digits of `a % 100`. */
  lemma AmountShape(a: nat)
    ensures var s := Amount(a);
      && ThousandsGrouped(s[..|s| - 3])
      && Value(s[..|s| - 3]) == a / 100
      && s[|s| - 3] == '.'
      && IsDigit(s[|s| - 2]) && DigitValue(s[|s| - 2]) == a % 100 / 10
      && IsDigit(s[|s| - 1]) && DigitValue(s[|s| - 1]) == a % 10
      && Value(s[|s| - 2..]) == a % 100
  {
    GroupGrouped(a / 100);
    AmountLayout(Group(a / 100), Pad2(a % 100));
  }

  /** Where an amount sits behind its sign. */
  lemma SignLayout(sign: string, t: string)
    requires |t| >= 3
    ensures var s := sign + t;
      && s[|sign|..] == t
      && s[|sign|..|s| - 3] == t[..|t| - 3]
      && s[|s| - 3] == t[|t| - 3] && s[|s| - 2] == t[|t| - 2] && s[|s| - 1] == t[|t| - 1]
      && s[|s| - 2..] == t[|t| - 2..]
  {
  }

  /**
   * The shape of a rendered amount: a `$`, a minus sign exactly when `n` is
   * negative, a comma-grouped dollar part worth `|n| / 100`, a dot, and the
   * two digits of `|n| % 100`.
   */
  lemma FormatCentsShape(n: int)
    ensures var s := FormatCents(n);
      var start := if n < 0 then 2 else 1;
      && |s| >= start + 4
      && s[0] == '$'
      && (s[1] == '-' <==> n < 0)
      && ThousandsGrouped(s[start..|s| - 3])
      && Value(s[start..|s| - 3]) == Abs(n) / 100
      && s[|s| - 3] == '.'
      && IsDigit(s[|s| - 2]) && DigitValue(s[|s| - 2]) == Abs(n) % 100 / 10
      && IsDigit(s[|s| - 1]) && DigitValue(s[|s| - 1]) == Abs(n) % 10
      && Value(s[|s| - 2..]) == Abs(n) % 100
  {
    var sign := if n < 0 then "$-" else "$";
    var t := Amount(Abs(n));
    assert FormatCents(n) == sign + t;
    AmountShape(Abs(n));
    SignLayout(sign, t);
  }

  /** `ParseAmount` recovers every amount. */
  lemma ParseAmountOfAmount(a: nat)
    ensures ParseAmount(Amount(a)) == Some(a)
  {
    AmountShape(a);
    assert a == a / 100 * 100 + a % 100;
  }

  /** Rendering loses nothing: `ParseCurrency` recovers every amount. */
  lemma ParseFormatCents(n: int)
    ensures ParseCurrency(FormatCents(n)) == Some(n)
  {
    var t := Amount(Abs(n));
    ParseAmountOfAmount(Abs(n));
    SignLayout(if n < 0 then "$-" else "$", t);
  }

  /** A minus sign is read only in front of a non-zero amount, so `$-0.00` is rejected. */
  lemma ParseSignedAmountNonZero(s: string)
    requires |s| >= 2 && s[1] == '-'
    ensures ParseCurrency(s) != Some(0)
  {
  }

  /** Distinct amounts are rendered differently. */
  lemma FormatCentsInjective(m: int, n: int)
    requires FormatCents(m) == FormatCents(n)
    ensures m == n
  {
    ParseFormatCents(m);
    ParseFormatCents(n);
  }

  // The converse of the round trip: the parser accepts nothing but renderings.

  lemma DigitCharValue(c: char)
    requires IsDigit(c)
    ensures DigitChar(DigitValue(c)) == c
  {
  }

  /** One to three digits are worth less than the next power of ten, and spell themselves when canonical. */
  lemma {:induction false} ShortDigits(s: string)
    requires 0 < |s| <= 3 && AllDigits(s)
    ensures Value(s) < (if |s| == 1 then 10 else if |s| == 2 then 100 else 1000)
    ensures s[0] != '0' || |s| == 1 ==> Digits(Value(s)) == s
    decreases |s|
  {
    var init := s[..|s| - 1];
    var c := s[|s| - 1];
    assert s == init + [c];
    ValueSnoc(init, c);
    DigitCharValue(c);
    if |s| > 1 {
      ShortDigits(init);
      if s[0] != '0' {
        DigitsSpell(Value(init));
        var v := Value(s);
        assert v / 10 == Value(init) && v % 10 == DigitValue(c);
      }
    }
  }

  lemma Pad2Unique(c: string)
    requires |c| == 2 && IsDigit(c[0]) && IsDigit(c[1])
    ensures Value(c) < 100 && Pad2(Value(c)) == c
  {
    assert c == [] + [c[0]] + [c[1]];
    ValueSnoc([], c[0]);
    ValueSnoc([] + [c[0]], c[1]);
    DigitCharValue(c[0]);
    DigitCharValue(c[1]);
  }

  lemma Pad3Unique(t: string)
    requires |t| == 3 && IsDigit(t[0]) && IsDigit(t[1]) && IsDigit(t[2])
    ensures Value(t) < 1000 && Pad3(Value(t)) == t
  {
    assert t == [] + [t[0]] + [t[1]] + [t[2]];
    ValueSnoc([], t[0]);
    ValueSnoc([] + [t[0]], t[1]);
    ValueSnoc([] + [t[0]] + [t[1]], t[2]);
    DigitCharValue(t[0]);
    DigitCharValue(t[1]);
    DigitCharValue(t[2]);
    var v := Value(t);
    assert v / 100 == DigitValue(t[0]);
    assert v % 100 / 10 == DigitValue(t[1]) && v % 100 % 10 == DigitValue(t[2]);
  }

  /** Extending a string never lowers its value. */
  lemma {:induction false} ValuePrefix(s: string, k: nat)
    requires k <= |s|
    ensures Value(s[..k]) <= Value(s)
    decreases |s| - k
  {
    if k < |s| {
      var init := s[..|s| - 1];
      assert s == init + [s[|s| - 1]];
      assert init[..k] == s[..k];
      ValueSnoc(init, s[|s| - 1]);
      ValuePrefix(init, k);
    } else {
      assert s[..k] == s;
    }
  }

  lemma ValuePositive(g: string)
    requires ThousandsGrouped(g) && g[0] != '0'
    ensures Value(g) > 0
  {
    GroupedStartsWithDigit(g);
    ValuePrefix(g, 1);
    assert g[..1] == [] + [g[0]];
    ValueSnoc([], g[0]);
  }

  /** A grouped numeral is the grouping of its own value. */
  lemma {:induction false} GroupUnique(g: string)
    requires ThousandsGrouped(g)
    ensures Group(Value(g)) == g
    decreases |g|
  {
    if |g| <= 3 {
      ShortDigits(g);
    } else {
      var h := g[..|g| - 4];
      var t := g[|g| - 3..];
      assert g == h + [','] + t;
      assert IsDigit(t[0]) && IsDigit(t[1]) && IsDigit(t[2]);
      ValueGroupAppend(h, t);
      assert h[0] == g[0];
      ValuePositive(h);
      GroupUnique(h);
      Pad3Unique(t);
      var v := Value(g);
      assert v / 1000 == Value(h) && v % 1000 == Value(t);
    }
  }

  /** `ParseAmount` accepts only exact amounts. */
  lemma ParseAmountOnlyAmounts(b: string, a: nat)
    requires ParseAmount(b) == Some(a)
    ensures b == Amount(a)
  {
    var dollars := b[..|b| - 3];
    var c := b[|b| - 2..];
    assert IsDigit(c[0]) && IsDigit(c[1]);
    Pad2Unique(c);
    GroupUnique(dollars);
    assert a / 100 == Value(dollars) && a % 100 == Value(c);
    assert b == dollars + "." + c by {
      assert b == b[..|b| - 3] + b[|b| - 3..];
      assert b[|b| - 3..] == [b[|b| - 3]] + c;
    }
  }

  /** `ParseCurrency` accepts only exact renderings: whatever it reads as `n` is `FormatCents(n)`. */
  lemma ParseOnlyRenderings(s: string, n: int)
    requires ParseCurrency(s) == Some(n)
    ensures s == FormatCents(n)
  {
    if s[1] == '-' {
      ParseAmountOnlyAmounts(s[2..], Abs(n));
      assert s == "$-" + s[2..];
    } else {
      ParseAmountOnlyAmounts(s[1..], Abs(n));
      assert s == "$" + s[1..];
    }
  }

  /** The renderings the service's tests expect. */
  lemma FormatTenDollars()
    ensures FormatCents(1000) == "$10.00"
  {
    assert Pad2(0) == "00";
    assert Digits(10) == "10";
  }

  lemma FormatFifteenDollars()
    ensures FormatCents(1500) == "$15.00"
  {
    assert Pad2(0) == "00";
    assert Digits(15) == "15";
  }

  lemma FormatNinetyDollars()
    ensures FormatCents(9000) == "$90.00"
  {
    assert Pad2(0) == "00";
    assert Digits(90) == "90";
  }

  lemma FormatHundredDollars()
    ensures FormatCents(10000) == "$100.00"
  {
    assert Pad2(0) == "00";
    assert Digits(10) == "10";
    assert Digits(100) == "100";
  }

  lemma FormatTenThousandDollars()
    ensures FormatCents(1000000) == "$10,000.00"
  {
    assert Pad2(0) == "00";
    assert Pad3(0) == "000";
    assert Digits(10) == "10";
    assert Group(10000) == "10" + [','] + "000";
  }

  lemma FormatNegativeAmount()
    ensures FormatCents(-5) == "$-0.05"
  {
    assert Pad2(5) == "05";
    assert Digits(0) == "0";
  }
}
