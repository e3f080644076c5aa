/** The optional value used by the parsers in this project. */
module Options {

  datatype Option<+T> = None | Some(value: T)
}

/**
  Text rendering that the installment handler relies on: the rendering of an
  `int` into an interpolated string (ASCII decimal digits, a leading ASCII '-'
  when negative), a parser that inverts it, a first-occurrence search, and
  `String.Join`, which glues the validator's messages into one exception text.
*/
module Formatting {
  import opened Options

  predicate IsDigit(ch: char) {
    '0' <= ch <= '9'
  }

  predicate AllDigits(s: string) {
    forall i :: 0 <= i < |s| ==> IsDigit(s[i])
  }

  /** A rendered integer: digits, possibly preceded by a minus sign. */
  predicate IsNumeral(s: string) {
    forall i :: 0 <= i < |s| ==> IsDigit(s[i]) || (i == 0 && s[i] == '-')
  }

  function DigitValue(ch: char): (d: nat)
    requires IsDigit(ch)
    ensures d < 10
  {
    ch as int - '0' as int
  }

  function DigitChar(d: nat): (ch: char)
    requires d < 10
    ensures IsDigit(ch) && DigitValue(ch) == d
  {
    ('0' as int + d) as char
  }

  /** The decimal digits of `n`, most significant first. */
  function NatToDecimal(n: nat): (s: string)
    ensures |s| >= 1 && AllDigits(s)
    ensures s[0] == '0' ==> n == 0
    decreases n
  {
    if n < 10 then [DigitChar(n)] else NatToDecimal(n / 10) + [DigitChar(n % 10)]
  }

  /** The number a string of decimal digits denotes (the empty string denotes 0). */
  function ParseNat(s: string): nat
    requires AllDigits(s)
    decreases |s|
  {
    if |s| == 0 then 0 else 10 * ParseNat(s[..|s| - 1]) + DigitValue(s[|s| - 1])
  }

  /** Canonical digit strings: non-empty, and no leading zero unless the number is 0. */
  predicate IsCanonicalDecimal(s: string) {
    |s| >= 1 && AllDigits(s) && (s[0] == '0' ==> |s| == 1)
  }

  lemma {:induction false} ParseNatOfDecimal(n: nat)
    ensures ParseNat(NatToDecimal(n)) == n
    decreases n
  {
    if n >= 10 {
      var s := NatToDecimal(n);
      assert s[..|s| - 1] == NatToDecimal(n / 10);
      ParseNatOfDecimal(n / 10);
    }
  }

  /** Rendering is onto the canonical digit strings: every such string is the rendering of its value. */
  lemma {:induction false} DecimalOfParseNat(s: string)
    requires IsCanonicalDecimal(s)
    ensures NatToDecimal(ParseNat(s)) == s
    decreases |s|
  {
    if |s| > 1 {
      var p := s[..|s| - 1];
      assert IsCanonicalDecimal(p);
      DecimalOfParseNat(p);
      var q := ParseNat(p);
      var n := ParseNat(s);
      assert n == 10 * q + DigitValue(s[|s| - 1]);
      assert n / 10 == q && n % 10 == DigitValue(s[|s| - 1]);
      assert s == p + [s[|s| - 1]];
    }
  }

  /** An `int` rendered inside an interpolated string, with ASCII digits and an ASCII '-' sign. */
  function IntToString(i: int): (s: string)
    ensures |s| >= 1 && IsNumeral(s)
    ensures s[0] == '-' <==> i < 0
  {
    if i < 0 then "-" + NatToDecimal(-i) else NatToDecimal(i)
  }

  /** Reads back an integer rendered by `IntToString`. */
  function ParseInt(s: string): Option<int> {
    if |s| >= 2 && s[0] == '-' && AllDigits(s[1..]) then Some(0 - ParseNat(s[1..]) as int)
    else if |s| >= 1 && AllDigits(s) then Some(ParseNat(s))
    else None
  }

  lemma IntRoundTrip(i: int)
    ensures ParseInt(IntToString(i)) == Some(i)
  {
    var s := IntToString(i);
    if i < 0 {
      assert s[1..] == NatToDecimal(-i);
      ParseNatOfDecimal(-i);
    } else {
      ParseNatOfDecimal(i);
    }
  }

  /** Position of the first occurrence of `ch` in `s`, if any. */
  function IndexOf(s: string, ch: char): (r: Option<nat>)
    ensures r.Some? ==> r.value < |s| && s[r.value] == ch && ch !in s[..r.value]
    ensures r.None? ==> ch !in s
    decreases |s|
  {
    if |s| == 0 then None
    else if s[0] == ch then Some(0)
    else
      match IndexOf(s[1..], ch)
      case None => None
      case Some(k) => Some(k + 1)
  }

  /** A character absent from `a` is first found right after `a`. */
  lemma IndexOfAfter(a: string, ch: char, b: string)
    requires ch !in a
    ensures IndexOf(a + [ch] + b, ch) == Some(|a|)
  {
    var s := a + [ch] + b;
    assert s[|a|] == ch;
    assert s[..|a|] == a;
  }

  /** `String.Join(sep, parts)`: the parts in order, with `sep` between neighbours. */
  function Join(sep: string, parts: seq<string>): string
    decreases |parts|
  {
    if |parts| == 0 then ""
    else if |parts| == 1 then parts[0]
    else parts[0] + sep + Join(sep, parts[1..])
  }

  /** Where the `i`-th part starts inside `Join(sep, parts)`. */
  function JoinOffset(sep: string, parts: seq<string>, i: nat): nat
    requires i <= |parts|
    decreases i
  {
    if i == 0 then 0 else |parts[0]| + |sep| + JoinOffset(sep, parts[1..], i - 1)
  }

  /**
    The joined text lists every part: the `i`-th part sits at its offset, the
    separator follows every part but the last, and the last part ends the text.
  */
  lemma {:induction false} JoinListsEveryPart(sep: string, parts: seq<string>, i: nat)
    requires i < |parts|
    ensures JoinOffset(sep, parts, i) + |parts[i]| <= |Join(sep, parts)|
    ensures Join(sep, parts)[JoinOffset(sep, parts, i)..JoinOffset(sep, parts, i) + |parts[i]|] == parts[i]
    ensures i + 1 < |parts| ==>
              && JoinOffset(sep, parts, i) + |parts[i]| + |sep| <= |Join(sep, parts)|
              && Join(sep, parts)[JoinOffset(sep, parts, i) + |parts[i]|..JoinOffset(sep, parts, i) + |parts[i]| + |sep|] == sep
    ensures i + 1 == |parts| ==> JoinOffset(sep, parts, i) + |parts[i]| == |Join(sep, parts)|
    decreases i
  {
    var j := Join(sep, parts);
    if |parts| > 1 {
      var head := parts[0] + sep;
      var rest := Join(sep, parts[1..]);
      assert j == head + rest;
      if i == 0 {
        assert j[..|parts[0]|] == parts[0];
        assert j[|parts[0]|..|head|] == sep;
      } else {
        JoinListsEveryPart(sep, parts[1..], i - 1);
        var k := JoinOffset(sep, parts[1..], i - 1);
        assert parts[1..][i - 1] == parts[i];
        assert JoinOffset(sep, parts, i) == |head| + k;
        assert j[|head| + k..|head| + k + |parts[i]|] == rest[k..k + |parts[i]|];
        if i + 1 < |parts| {
          assert j[|head| + k + |parts[i]|..|head| + k + |parts[i]| + |sep|]
              == rest[k + |parts[i]|..k + |parts[i]| + |sep|];
        }
      }
    }
  }
}
