/**
 Whole numbers as text: what Python's `int` reads from a token, and what `str` prints.
 */
module Numerals {
  import opened Options

  predicate IsDigit(c: char) {
    '0' <= c <= '9'
  }

  /** Digits, with single underscores allowed between them. */
  predicate IsNumeral(s: string) {
    && s != "" && IsDigit(s[0]) && IsDigit(s[|s| - 1])
    && (forall i :: 0 <= i < |s| ==> IsDigit(s[i]) || s[i] == '_')
    && (forall i :: 0 < i < |s| && s[i] == '_' ==> s[i - 1] != '_')
  }

  function NumeralValue(s: string): nat
    requires forall i :: 0 <= i < |s| ==> IsDigit(s[i]) || s[i] == '_'
  {
    if s == "" then 0
    else
      var before, last := NumeralValue(s[..|s| - 1]), s[|s| - 1];
      assert IsDigit(last) || last == '_';
      if last == '_' then before else 10 * before + (last as int - '0' as int)
  }

  /** White space that `int` strips and that does not end a token. */
  predicate IsFeed(c: char) {
    c == '\U{000B}' || c == '\U{000C}'
  }

  function Strip(s: string): string {
    if s != "" && IsFeed(s[0]) then Strip(s[1..])
    else if s != "" && IsFeed(s[|s| - 1]) then Strip(s[..|s| - 1])
    else s
  }

  function ParseInt(token: string): Option<int> {
    var s := Strip(token);
    if s != "" && (s[0] == '+' || s[0] == '-') then
      if !IsNumeral(s[1..]) then None
      else
        var value: int := NumeralValue(s[1..]);
        Some(if s[0] == '-' then -value else value)
    else if IsNumeral(s) then Some(NumeralValue(s)) else None
  }

  function Digit(n: nat): (c: char)
    requires n < 10
    ensures IsDigit(c) && c as int - '0' as int == n
  {
    (n + '0' as int) as char
  }

  function Decimal(n: nat): (s: string)
    ensures s != "" && forall i :: 0 <= i < |s| ==> IsDigit(s[i])
  {
    if n < 10 then [Digit(n)] else Decimal(n / 10) + [Digit(n % 10)]
  }

  function PrintInt(n: int): string {
    if n < 0 then "-" + Decimal(-n) else Decimal(n)
  }

  lemma {:induction false} DecimalValue(n: nat)
    ensures NumeralValue(Decimal(n)) == n
  {
    var s := Decimal(n);
    if n < 10 {
      assert s[..0] == "";
    } else {
      DecimalValue(n / 10);
      assert s[..|s| - 1] == Decimal(n / 10);
    }
  }

  lemma NothingToStrip(s: string)
    requires s != "" && !IsFeed(s[0]) && !IsFeed(s[|s| - 1])
    ensures Strip(s) == s
  {
  }

  lemma DecimalIsNumeral(n: nat)
    ensures IsNumeral(Decimal(n)) && NumeralValue(Decimal(n)) == n
  {
    DecimalValue(n);
    var s := Decimal(n);
    assert IsDigit(s[0]) && IsDigit(s[|s| - 1]);
  }

  lemma NumeralIsParsed(s: string, v: nat)
    requires IsNumeral(s) && NumeralValue(s) == v
    ensures ParseInt(s) == Some(v)
  {
    NothingToStrip(s);
  }

  lemma NegativeIsParsed(s: string, v: nat)
    requires IsNumeral(s) && NumeralValue(s) == v
    ensures ParseInt("-" + s) == Some(-(v as int))
  {
    var t := "-" + s;
    assert t[1..] == s && t[|t| - 1] == s[|s| - 1];
    NothingToStrip(t);
  }

  /** Printing a number and reading it gives the number back. */
  lemma PrintedIntIsParsed(n: int)
    ensures ParseInt(PrintInt(n)) == Some(n)
  {
    var v: nat := if n < 0 then -n else n;
    DecimalIsNumeral(v);
    if n < 0 {
      NegativeIsParsed(Decimal(v), v);
    } else {
      NumeralIsParsed(Decimal(v), v);
    }
  }

  lemma PrintsWhite()
    ensures PrintInt(255) == "255"
  {
    assert Decimal(2) == "2";
    assert Decimal(25) == "2" + "5";
    assert Decimal(255) == "25" + "5";
  }

  /** A plus sign changes nothing. */
  lemma PlusSignIsIgnored(n: nat)
    ensures ParseInt("+" + Decimal(n)) == Some(n)
  {
    DecimalIsNumeral(n);
    var t := "+" + Decimal(n);
    assert t[1..] == Decimal(n) && t[|t| - 1] == Decimal(n)[|Decimal(n)| - 1];
    NothingToStrip(t);
  }

  lemma {:induction false} UnderscoreCountsNothing(a: string, b: string)
    requires forall i :: 0 <= i < |a| ==> IsDigit(a[i]) || a[i] == '_'
    requires forall i :: 0 <= i < |b| ==> IsDigit(b[i]) || b[i] == '_'
    ensures NumeralValue(a + "_" + b) == NumeralValue(a + b)
  {
    if b == "" {
      assert a + b == a && (a + "_" + b)[..|a|] == a && a + "_" + b == a + "_";
    } else {
      var init := b[..|b| - 1];
      UnderscoreCountsNothing(a, init);
      assert (a + "_" + b)[..|a| + |b|] == a + "_" + init;
      assert (a + b)[..|a| + |b| - 1] == a + init;
    }
  }

  /** Nor does an underscore between two digits. */
  lemma UnderscoreBetweenDigits(a: string, b: string)
    requires IsNumeral(a) && IsNumeral(b)
    ensures ParseInt(a + "_" + b) == Some(NumeralValue(a + b)) && ParseInt(a + b) == Some(NumeralValue(a + b))
  {
    var t := a + "_" + b;
    UnderscoreCountsNothing(a, b);
    assert t[0] == a[0] && t[|t| - 1] == b[|b| - 1] && (a + b)[|a + b| - 1] == b[|b| - 1];
    forall i | 0 < i < |t| && t[i] == '_'
      ensures t[i - 1] != '_'
    {
      if i < |a| {
        assert t[i] == a[i] && t[i - 1] == a[i - 1];
      } else if i == |a| {
        assert t[i - 1] == a[|a| - 1];
      } else {
        assert t[i] == b[i - |a| - 1];
        assert i - |a| - 1 > 0 ==> t[i - 1] == b[i - |a| - 2];
      }
    }
    assert IsNumeral(t);
    NumeralIsParsed(t, NumeralValue(t));
    JoinedNumeral(a, b);
    NumeralIsParsed(a + b, NumeralValue(a + b));
  }

  lemma JoinedNumeral(a: string, b: string)
    requires IsNumeral(a) && IsNumeral(b)
    ensures IsNumeral(a + b)
  {
    var t := a + b;
    assert t[|t| - 1] == b[|b| - 1];
    forall i | 0 < i < |t| && t[i] == '_'
      ensures t[i - 1] != '_'
    {
      if i < |a| {
        assert t[i - 1] == a[i - 1];
      } else {
        assert t[i] == b[i - |a|];
        assert i > |a| ==> t[i - 1] == b[i - |a| - 1];
      }
    }
  }

  /** Text with any other character in it is no number. */
  lemma OtherCharactersAreRefused(token: string, k: nat)
    requires k < |token| && !IsDigit(token[k]) && token[k] != '_' && token[k] != '+' && token[k] != '-'
    requires token[k] as int != 11 && token[k] as int != 12
    ensures ParseInt(token).None?
  {
    StripKeeps(token, k);
    var s := Strip(token);
    var i :| 0 <= i < |s| && s[i] == token[k];
    if s[0] == '+' || s[0] == '-' {
      assert i > 0 && s[1..][i - 1] == s[i];
    }
  }

  lemma {:induction false} StripKeeps(s: string, k: nat)
    requires k < |s| && !IsFeed(s[k])
    ensures s[k] in Strip(s)
    decreases |s|
  {
    if IsFeed(s[0]) {
      assert s[1..][k - 1] == s[k];
      StripKeeps(s[1..], k - 1);
    } else if IsFeed(s[|s| - 1]) {
      assert s[..|s| - 1][k] == s[k];
      StripKeeps(s[..|s| - 1], k);
    }
  }

  /** Vertical tabs and form feeds around a number are no part of it. */
  lemma FeedsAreStripped(s: string, feed: char)
    requires feed as int in {11, 12}
    ensures ParseInt([feed] + s) == ParseInt(s) && ParseInt(s + [feed]) == ParseInt(s)
  {
    assert ([feed] + s)[1..] == s;
    FeedIsStrippedBehind(s, feed);
  }

  lemma {:induction false} FeedIsStrippedBehind(s: string, feed: char)
    requires IsFeed(feed)
    ensures Strip(s + [feed]) == Strip(s)
  {
    if s != "" && IsFeed(s[0]) {
      FeedIsStrippedBehind(s[1..], feed);
      assert (s + [feed])[1..] == s[1..] + [feed];
    } else if s == "" {
      assert Strip([feed]) == Strip([feed][1..]);
    } else {
      assert (s + [feed])[..|s|] == s;
    }
  }
}
