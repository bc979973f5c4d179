/** Character and string helpers shared by the model: ASCII digits, Python's
    `str(int)`, `int(str)` and `str.strip()`, and splitting text into words.

    Python's `str.isdigit`, `str.isspace` and `int()` also accept non-ASCII digits
    and spaces, and `int()` accepts `_` between digits; the model keeps to ASCII. */
module Text {
  import opened Wrappers

  predicate IsDigit(c: char) {
    '0' <= c <= '9'
  }

  /** The ASCII characters Python's `str.isspace` accepts: tab, line feed,
      vertical tab, form feed, carriage return, the four separators 0x1c-0x1f
      and space. */
  predicate IsSpace(c: char) {
    9 <= c as int <= 13 || 28 <= c as int <= 32
  }

  predicate AllDigits(s: string) {
    forall i :: 0 <= i < |s| ==> IsDigit(s[i])
  }

  predicate AllSpace(s: string) {
    forall i :: 0 <= i < |s| ==> IsSpace(s[i])
  }

  function DigitValue(c: char): (d: nat)
    requires IsDigit(c)
    ensures d < 10
  {
    c as int - '0' as int
  }

  function DigitChar(d: nat): (c: char)
    requires d < 10
    ensures IsDigit(c) && DigitValue(c) == d
  {
    ('0' as int + d) as char
  }

  /** The number a string of decimal digits denotes (0 for the empty string). */
  function DigitsValue(s: string): nat
    requires AllDigits(s)
    decreases |s|
  {
    if s == [] then 0 else 10 * DigitsValue(s[..|s| - 1]) + DigitValue(s[|s| - 1])
  }

  /** Python's `str(n)` for a non-negative integer: decimal, no leading zeros. */
  function NatToString(n: nat): (r: string)
    ensures |r| > 0 && AllDigits(r)
    ensures r[0] == '0' ==> n == 0 && r == "0"
    decreases n
  {
    if n < 10 then [DigitChar(n)] else NatToString(n / 10) + [DigitChar(n % 10)]
  }

  /** Python's `str(i)` for any integer. */
  function IntToString(i: int): (r: string)
    ensures |r| > 0
  {
    if i < 0 then "-" + NatToString(-i) else NatToString(i)
  }

  /** Python's `''.join(filter(str.isdigit, s))`: the digits of `s`, in order. */
  function KeepDigits(s: string): (r: string)
    ensures AllDigits(r)
    ensures |r| <= |s|
    ensures AllDigits(s) ==> r == s
    decreases |s|
  {
    if s == [] then []
    else if IsDigit(s[0]) then [s[0]] + KeepDigits(s[1..])
    else KeepDigits(s[1..])
  }

  /** `s` without its leading whitespace; `TrimStartShape` states the result. */
  function TrimStart(s: string): (r: string)
    ensures |r| <= |s|
    decreases |s|
  {
    if |s| > 0 && IsSpace(s[0]) then TrimStart(s[1..]) else s
  }

  /** `s` without its trailing whitespace; `TrimEndShape` states the result. */
  function TrimEnd(s: string): (r: string)
    ensures |r| <= |s|
    decreases |s|
  {
    if |s| > 0 && IsSpace(s[|s| - 1]) then TrimEnd(s[..|s| - 1]) else s
  }

  /** Python's `s.strip()` with no argument; `StripShape` states the result. */
  function Strip(s: string): (r: string)
    ensures |r| <= |s|
  {
    TrimEnd(TrimStart(s))
  }

  /** Python's `int(s)` on a string: surrounding whitespace, an optional sign and
      at least one decimal digit; `None` stands for the `ValueError` it raises
      otherwise. */
  function ParseInt(s: string): (r: Option<int>) {
    ParseNumber(Strip(s))
  }

  /** `int()` of text without surrounding whitespace. */
  function ParseNumber(t: string): (r: Option<int>) {
    if |t| > 0 && (t[0] == '-' || t[0] == '+') then
      match ParseDigits(t[1..])
      case Some(v) => Some(if t[0] == '-' then -(v as int) else v as int)
      case None => None
    else
      match ParseDigits(t)
      case Some(v) => Some(v as int)
      case None => None
  }

  /** A non-empty run of decimal digits and its value. */
  function ParseDigits(d: string): (r: Option<nat>) {
    if |d| > 0 && AllDigits(d) then Some(DigitsValue(d)) else None
  }

  /** Index of the first occurrence of `c` in `s`. */
  function FirstIndex(s: string, c: char): (i: nat)
    requires c in s
    ensures i < |s| && s[i] == c && c !in s[..i]
  {
    if s[0] == c then 0 else 1 + FirstIndex(s[1..], c)
  }

  /** Splits `s` at every space: Python's `s.split(' ')`. */
  function Words(s: string): (ws: seq<string>)
    ensures |ws| > 0
    decreases |s|
  {
    if ' ' in s then
      var i := FirstIndex(s, ' ');
      [s[..i]] + Words(s[i + 1..])
    else [s]
  }

  // ---------------------------------------------------------------------------
  // Lemmas
  // ---------------------------------------------------------------------------

  /** `str` and `int` are inverse on the naturals. */
  lemma {:induction false} NatToStringValue(n: nat)
    ensures DigitsValue(NatToString(n)) == n
    decreases n
  {
    if n >= 10 {
      var a := NatToString(n / 10);
      var s := a + [DigitChar(n % 10)];
      assert s[..|s| - 1] == a;
      NatToStringValue(n / 10);
    }
  }

  lemma {:induction false} TrimStartShape(s: string)
    ensures TrimStart(s) == s[|s| - |TrimStart(s)|..]
    ensures AllSpace(s[..|s| - |TrimStart(s)|])
    ensures |TrimStart(s)| > 0 ==> !IsSpace(TrimStart(s)[0])
    decreases |s|
  {
    if |s| > 0 && IsSpace(s[0]) {
      var u := s[1..];
      var t := TrimStart(u);
      TrimStartShape(u);
      assert TrimStart(s) == t;
      var k := |s| - |t|;
      assert u[|u| - |t|..] == s[k..];
      forall i | 0 <= i < k
        ensures IsSpace(s[..k][i])
      {
        if i > 0 {
          assert s[..k][i] == u[..k - 1][i - 1];
        }
      }
    }
  }

  lemma {:induction false} TrimEndShape(s: string)
    ensures TrimEnd(s) == s[..|TrimEnd(s)|]
    ensures AllSpace(s[|TrimEnd(s)|..])
    ensures |TrimEnd(s)| > 0 ==> !IsSpace(TrimEnd(s)[|TrimEnd(s)| - 1])
    decreases |s|
  {
    if |s| > 0 && IsSpace(s[|s| - 1]) {
      var u := s[..|s| - 1];
      var t := TrimEnd(u);
      TrimEndShape(u);
      assert TrimEnd(s) == t;
      var k := |t|;
      assert u[..k] == s[..k];
      forall i | 0 <= i < |s| - k
        ensures IsSpace(s[k..][i])
      {
        if i < |s| - 1 - k {
          assert s[k..][i] == u[k..][i];
        }
      }
    }
  }

  /** Stripped text neither starts nor ends with whitespace. */
  lemma StripShape(s: string)
    ensures |Strip(s)| > 0 ==> !IsSpace(Strip(s)[0]) && !IsSpace(Strip(s)[|Strip(s)| - 1])
  {
    var t := TrimStart(s);
    TrimStartShape(s);
    TrimEndShape(t);
    var r := TrimEnd(t);
    if |r| > 0 {
      assert r == t[..|r|];
      assert r[0] == t[0];
    }
  }

  /** Text with no whitespace at either end is left alone by `strip()`. */
  lemma StripUnpadded(s: string)
    requires |s| > 0 ==> !IsSpace(s[0]) && !IsSpace(s[|s| - 1])
    ensures Strip(s) == s
  {
    assert TrimStart(s) == s;
    assert TrimEnd(s) == s;
  }

  /** `int()` of a digit string, with no sign and no padding. */
  lemma ParseIntOfDigits(s: string)
    requires |s| > 0 && AllDigits(s)
    ensures ParseInt(s) == Some(DigitsValue(s) as int)
  {
    DigitsHaveNoSpace(s);
    assert ParseNumber(s) == Some(DigitsValue(s) as int);
  }

  lemma DigitsHaveNoSpace(s: string)
    requires AllDigits(s)
    ensures ' ' !in s && Strip(s) == s
  {
    if |s| > 0 {
      StripUnpadded(s);
    }
  }

  lemma IntToStringHasNoSpace(i: int)
    ensures ' ' !in IntToString(i) && Strip(IntToString(i)) == IntToString(i)
  {
    var r := IntToString(i);
    if i < 0 {
      var d := NatToString(-i);
      DigitsHaveNoSpace(d);
      assert r[1..] == d;
      assert r[|r| - 1] == d[|d| - 1];
      StripUnpadded(r);
    } else {
      DigitsHaveNoSpace(r);
    }
  }

  /** `int(str(i)) == i` for every integer. */
  lemma ParseIntOfIntToString(i: int)
    ensures ParseInt(IntToString(i)) == Some(i)
  {
    if i < 0 {
      ParseIntOfNegative(-i);
    } else {
      NatToStringValue(i);
      ParseIntOfDigits(NatToString(i));
    }
  }

  lemma ParseIntOfNegative(n: nat)
    requires n > 0
    ensures ParseInt("-" + NatToString(n)) == Some(-(n as int))
  {
    NatToStringValue(n);
    ParseIntOfSignedDigits(NatToString(n));
  }

  /** A minus sign followed by digits reads as the negated digits. */
  lemma ParseIntOfSignedDigits(d: string)
    requires |d| > 0 && AllDigits(d)
    ensures ParseInt("-" + d) == Some(-(DigitsValue(d) as int))
  {
    SignedDigitsUnpadded(d);
    SignedDigitsValue(d);
  }

  lemma SignedDigitsUnpadded(d: string)
    requires |d| > 0 && AllDigits(d)
    ensures Strip("-" + d) == "-" + d
  {
    var s := "-" + d;
    assert s[|s| - 1] == d[|d| - 1];
    StripUnpadded(s);
  }

  lemma SignedDigitsValue(d: string)
    requires |d| > 0 && AllDigits(d)
    ensures ParseNumber("-" + d) == Some(-(DigitsValue(d) as int))
  {
    assert ("-" + d)[1..] == d;
  }

  lemma {:induction false} TrimStartSpacePrefix(a: string, t: string)
    requires AllSpace(a)
    ensures TrimStart(a + t) == TrimStart(t)
    decreases |a|
  {
    if |a| > 0 {
      assert (a + t)[1..] == a[1..] + t;
      TrimStartSpacePrefix(a[1..], t);
    } else {
      assert a + t == t;
    }
  }

  lemma {:induction false} TrimEndSpaceSuffix(t: string, b: string)
    requires AllSpace(b)
    ensures TrimEnd(t + b) == TrimEnd(t)
    decreases |b|
  {
    if |b| > 0 {
      assert (t + b)[..|t + b| - 1] == t + b[..|b| - 1];
      TrimEndSpaceSuffix(t, b[..|b| - 1]);
    } else {
      assert t + b == t;
    }
  }

  lemma {:induction false} TrimStartKeepsSuffix(s: string, b: string)
    requires !AllSpace(s)
    ensures TrimStart(s + b) == TrimStart(s) + b
    decreases |s|
  {
    if IsSpace(s[0]) {
      assert (s + b)[1..] == s[1..] + b;
      TrimStartKeepsSuffix(s[1..], b);
    }
  }

  /** Surrounding whitespace never survives `strip()`: padded and unpadded
      spellings of a value strip to the same string. */
  lemma StripIgnoresPadding(a: string, s: string, b: string)
    requires AllSpace(a) && AllSpace(b)
    ensures Strip(a + s + b) == Strip(s)
  {
    assert a + s + b == a + (s + b);
    TrimStartSpacePrefix(a, s + b);
    if AllSpace(s) {
      BlankStripsAway(s, b);
    } else {
      TrimStartKeepsSuffix(s, b);
      TrimEndSpaceSuffix(TrimStart(s), b);
    }
  }

  /** Blank text strips to nothing, with or without trailing blanks. */
  lemma BlankStripsAway(s: string, b: string)
    requires AllSpace(s) && AllSpace(b)
    ensures TrimStart(s + b) == [] && TrimStart(s) == []
  {
    assert AllSpace(s + b);
    TrimStartSpacePrefix(s + b, "");
    assert s + b + "" == s + b;
    TrimStartSpacePrefix(s, "");
    assert s + "" == s;
  }

  /** Stripping twice is the same as stripping once. */
  lemma StripIdempotent(s: string)
    ensures Strip(Strip(s)) == Strip(s)
  {
    StripShape(s);
    StripUnpadded(Strip(s));
  }

  /** Splitting after a space-free word peels that word off. */
  lemma WordsCons(a: string, b: string)
    requires ' ' !in a
    ensures Words(a + " " + b) == [a] + Words(b)
  {
    var s := a + " " + b;
    assert s[|a|] == ' ';
    assert s[..|a|] == a;
    var i := FirstIndex(s, ' ');
    assert s[..i] == a;
    assert s[i + 1..] == b;
  }

  lemma WordsSingle(a: string)
    requires ' ' !in a
    ensures Words(a) == [a]
  {
  }
}
