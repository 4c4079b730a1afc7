/**
 * The string functions of PHP that the helpers rely on: `implode`, integer
 * to decimal text (string interpolation of an `int`), the `(int)` cast of a
 * string, and the small parsers used to state what a built SQL text or
 * message contains.
 */
module PhpText {
  import opened Wrappers

  // ---------------------------------------------------------------------
  // implode(', ', ...) and its inverse

  /** PHP's `implode(sep, parts)`: the parts in order, `sep` between neighbours. */
  function Join(sep: string, parts: seq<string>): (s: string)
    ensures |parts| == 1 ==> s == parts[0]
    ensures |parts| == 0 ==> s == ""
  {
    if |parts| == 0 then ""
    else if |parts| == 1 then parts[0]
    else parts[0] + sep + Join(sep, parts[1..])
  }

  /** Splits a text at every occurrence of ", " (the separator the helpers
      join select lists with); always yields at least one piece. */
  function SplitList(s: string): (parts: seq<string>)
    ensures |parts| >= 1
    decreases |s|
  {
    if |s| == 0 then [""]
    else if |s| >= 2 && s[0] == ',' && s[1] == ' ' then [""] + SplitList(s[2..])
    else
      var rest := SplitList(s[1..]);
      [[s[0]] + rest[0]] + rest[1..]
  }

  lemma {:induction false} SplitListSingle(x: string)
    requires ',' !in x
    ensures SplitList(x) == [x]
    decreases |x|
  {
    if |x| > 0 {
      SplitListSingle(x[1..]);
      assert [x[0]] + x[1..] == x;
    }
  }

  lemma {:induction false} SplitListCons(x: string, t: string)
    requires ',' !in x
    ensures SplitList(x + ", " + t) == [x] + SplitList(t)
    decreases |x|
  {
    var s := x + ", " + t;
    if |x| == 0 {
      assert s == ", " + t;
      assert s[2..] == t;
    } else {
      assert s[0] == x[0];
      assert s[1..] == x[1..] + ", " + t;
      SplitListCons(x[1..], t);
      assert [x[0]] + x[1..] == x;
    }
  }

  /** A comma-free, non-empty column list survives `implode(', ', ...)`:
      splitting the joined text gives back exactly the same columns. */
  lemma {:induction false} JoinSplitRoundTrip(parts: seq<string>)
    requires |parts| > 0
    requires forall i :: 0 <= i < |parts| ==> ',' !in parts[i]
    ensures SplitList(Join(", ", parts)) == parts
    decreases |parts|
  {
    if |parts| == 1 {
      SplitListSingle(parts[0]);
    } else {
      JoinSplitRoundTrip(parts[1..]);
      SplitListCons(parts[0], Join(", ", parts[1..]));
      assert [parts[0]] + parts[1..] == parts;
    }
  }

  // ---------------------------------------------------------------------
  // Prefix, suffix and last-occurrence splitting

  function StripPrefix(s: string, p: string): (r: Option<string>)
    ensures r.Some? <==> p <= s
    ensures r.Some? ==> p + r.value == s
  {
    if p <= s then Some(s[|p|..]) else None
  }

  function StripSuffix(s: string, p: string): (r: Option<string>)
    ensures r.Some? <==> |p| <= |s| && s[|s| - |p|..] == p
    ensures r.Some? ==> r.value + p == s
  {
    if |p| <= |s| && s[|s| - |p|..] == p then Some(s[..|s| - |p|]) else None
  }

  lemma StripPrefixOf(p: string, x: string)
    ensures StripPrefix(p + x, p) == Some(x)
  {
    assert p <= p + x;
    assert (p + x)[|p|..] == x;
  }

  lemma StripSuffixOf(x: string, p: string)
    ensures StripSuffix(x + p, p) == Some(x)
  {
    var s := x + p;
    assert s[|s| - |p|..] == p;
    assert s[..|s| - |p|] == x;
  }

  /** Splits `s` around the LAST occurrence of `c`. */
  function SplitLast(s: string, c: char): (r: Option<(string, string)>)
    ensures r.None? <==> c !in s
    ensures r.Some? ==> r.value.0 + [c] + r.value.1 == s && c !in r.value.1
    decreases |s|
  {
    if |s| == 0 then None
    else if s[|s| - 1] == c then
      assert s == s[..|s| - 1] + [c];
      Some((s[..|s| - 1], ""))
    else
      var init := s[..|s| - 1];
      assert s == init + [s[|s| - 1]];
      match SplitLast(init, c)
      case None => None
      case Some((a, b)) => Some((a, b + [s[|s| - 1]]))
  }

  /** When the text after a `c` holds no further `c`, SplitLast finds exactly
      that `c`. */
  lemma {:induction false} SplitLastOf(p: string, c: char, t: string)
    requires c !in t
    ensures SplitLast(p + [c] + t, c) == Some((p, t))
    decreases |t|
  {
    var s := p + [c] + t;
    if |t| == 0 {
      assert s[..|s| - 1] == p;
    } else {
      var t' := t[..|t| - 1];
      assert s[..|s| - 1] == p + [c] + t';
      assert c !in t' by {
        forall i | 0 <= i < |t'| ensures t'[i] != c {
          assert t'[i] == t[i];
        }
      }
      SplitLastOf(p, c, t');
      assert t' + [t[|t| - 1]] == t;
    }
  }

  // ---------------------------------------------------------------------
  // Decimal text of integers

  predicate IsDigit(c: char) {
    '0' <= c <= '9'
  }

  predicate AllDigits(s: string) {
    forall i :: 0 <= i < |s| ==> IsDigit(s[i])
  }

  function DigitChar(d: nat): (c: char)
    requires d < 10
    ensures IsDigit(c)
  {
    (48 + d) as char
  }

  function DigitValue(c: char): (d: nat)
    requires IsDigit(c)
    ensures d < 10
  {
    c as int - 48
  }

  /** Decimal digits of a natural number, no leading zeros. */
  function NatToString(n: nat): (s: string)
    ensures |s| >= 1 && AllDigits(s)
    ensures |s| > 1 ==> s[0] != '0'
    decreases n
  {
    if n < 10 then [DigitChar(n)] else NatToString(n / 10) + [DigitChar(n % 10)]
  }

  /** The number a string of decimal digits denotes (0 for the empty string). */
  function DigitsValue(s: string): nat
    requires AllDigits(s)
    decreases |s|
  {
    if |s| == 0 then 0 else DigitsValue(s[..|s| - 1]) * 10 + DigitValue(s[|s| - 1])
  }

  lemma {:induction false} NatRoundTrip(n: nat)
    ensures DigitsValue(NatToString(n)) == n
    decreases n
  {
    if n >= 10 {
      var s := NatToString(n);
      assert s[..|s| - 1] == NatToString(n / 10);
      NatRoundTrip(n / 10);
    }
  }

  /** How PHP renders an `int` inside a string: optional '-', then digits. */
  function IntToString(i: int): (s: string)
    ensures |s| >= 1
    ensures forall k :: 0 <= k < |s| ==> s[k] == '-' || IsDigit(s[k])
  {
    if i < 0 then "-" + NatToString(-i) else NatToString(i)
  }

  /** Reads a whole string as a decimal integer with an optional '-'. */
  function ParseInt(s: string): Option<int> {
    if |s| > 0 && AllDigits(s) then Some(DigitsValue(s))
    else if |s| > 1 && s[0] == '-' && AllDigits(s[1..]) then Some(-(DigitsValue(s[1..]) as int))
    else None
  }

  lemma IntRoundTrip(i: int)
    ensures ParseInt(IntToString(i)) == Some(i)
  {
    if i < 0 {
      var s := IntToString(i);
      assert s[1..] == NatToString(-i);
      assert !AllDigits(s) by { assert !IsDigit(s[0]); }
      NatRoundTrip(-i);
    } else {
      NatRoundTrip(i);
    }
  }

  /** A string PHP turns into an integer array key: the canonical decimal
      form of an integer ("5", "-3", but not "05", "+5" or "-0"). */
  predicate IsCanonicalInt(s: string) {
    ParseInt(s).Some? && IntToString(ParseInt(s).value) == s
  }

  // ---------------------------------------------------------------------
  // The (int) cast of a string

  /** The longest prefix of `s` made of digits. */
  function DigitRun(s: string): (r: string)
    ensures r <= s && AllDigits(r)
    ensures |r| < |s| ==> !IsDigit(s[|r|])
    decreases |s|
  {
    if |s| > 0 && IsDigit(s[0]) then [s[0]] + DigitRun(s[1..]) else ""
  }

  lemma {:induction false} DigitRunAll(s: string)
    requires AllDigits(s)
    ensures DigitRun(s) == s
    decreases |s|
  {
    if |s| > 0 {
      DigitRunAll(s[1..]);
      assert [s[0]] + s[1..] == s;
    }
  }

  /** PHP's `(int)` applied to a string whose number is written as an
      optional sign followed by digits: the leading integer, 0 when there
      is none. */
  function StringToInt(s: string): int {
    if |s| > 0 && s[0] == '-' then -(DigitsValue(DigitRun(s[1..])) as int)
    else if |s| > 0 && s[0] == '+' then DigitsValue(DigitRun(s[1..]))
    else DigitsValue(DigitRun(s))
  }

  /** Casting the decimal text of an integer back with `(int)` gives the integer. */
  lemma CastRoundTrip(i: int)
    ensures StringToInt(IntToString(i)) == i
  {
    var s := IntToString(i);
    if i < 0 {
      assert s[1..] == NatToString(-i);
      DigitRunAll(NatToString(-i));
      NatRoundTrip(-i);
    } else {
      assert s[0] != '-' && s[0] != '+' by { assert IsDigit(s[0]); }
      DigitRunAll(s);
      NatRoundTrip(i);
    }
  }
}
