/**
 * The few string operations of Python's `str` that the application relies on:
 * `strip`, `lower`, `replace` of one character, `isdigit`, `int(...)` on a
 * string and `str(...)` of an integer.
 */
module Text {
  import opened Wrappers

  /**
   * The whitespace of Python's `str.isspace` below U+0100: tab, line feed,
   * vertical tab, form feed, carriage return, the four separators U+1C to
   * U+1F, space, next line U+85 and no-break space U+A0.
   */
  predicate IsSpace(c: char) {
    c == ' ' || c == '\t' || c == '\n' || c == '\r' || c == '\U{0B}' || c == '\U{0C}' ||
    ('\U{1C}' <= c <= '\U{1F}') || c == '\U{85}' || c == '\U{A0}'
  }

  function TrimLeft(s: string): string {
    if |s| > 0 && IsSpace(s[0]) then TrimLeft(s[1..]) else s
  }

  function TrimRight(s: string): string {
    if |s| > 0 && IsSpace(s[|s| - 1]) then TrimRight(s[..|s| - 1]) else s
  }

  /** `s.strip()`. */
  function Strip(s: string): (r: string)
    ensures |r| <= |s|
    ensures r == [] || (!IsSpace(r[0]) && !IsSpace(r[|r| - 1]))
  {
    StripEnds(s);
    TrimRight(TrimLeft(s))
  }

  /** Trimming on the left keeps a suffix that starts with no whitespace, and the whole string when it starts with none. */
  lemma {:induction false} TrimLeftSpec(s: string)
    ensures |TrimLeft(s)| <= |s| && TrimLeft(s) == s[|s| - |TrimLeft(s)|..]
    ensures TrimLeft(s) == [] || !IsSpace(TrimLeft(s)[0])
    ensures s == [] || !IsSpace(s[0]) ==> TrimLeft(s) == s
    ensures forall i :: 0 <= i < |s| - |TrimLeft(s)| ==> IsSpace(s[i])
  {
    if |s| > 0 && IsSpace(s[0]) {
      var t := s[1..];
      TrimLeftSpec(t);
      assert TrimLeft(s) == TrimLeft(t);
      assert s[|s| - |TrimLeft(s)|..] == t[|t| - |TrimLeft(t)|..];
      assert forall i :: 1 <= i < |s| ==> s[i] == t[i - 1];
    }
  }

  /** Trimming on the right keeps a prefix that ends with no whitespace, and the whole string when it ends with none. */
  lemma {:induction false} TrimRightSpec(s: string)
    ensures |TrimRight(s)| <= |s| && TrimRight(s) == s[..|TrimRight(s)|]
    ensures TrimRight(s) == [] || !IsSpace(TrimRight(s)[|TrimRight(s)| - 1])
    ensures s == [] || !IsSpace(s[|s| - 1]) ==> TrimRight(s) == s
    ensures forall i :: |TrimRight(s)| <= i < |s| ==> IsSpace(s[i])
  {
    if |s| > 0 && IsSpace(s[|s| - 1]) {
      var t := s[..|s| - 1];
      TrimRightSpec(t);
      assert TrimRight(s) == TrimRight(t);
      assert s[..|TrimRight(s)|] == t[..|TrimRight(t)|];
      assert forall i :: 0 <= i < |t| ==> s[i] == t[i];
    }
  }

  /** No whitespace is left at either end of `s.strip()`, and a string that has none there is returned as it is. */
  lemma StripSpec(s: string)
    ensures Strip(s) == [] || (!IsSpace(Strip(s)[0]) && !IsSpace(Strip(s)[|Strip(s)| - 1]))
    ensures s == [] || (!IsSpace(s[0]) && !IsSpace(s[|s| - 1])) ==> Strip(s) == s
  {
    TrimLeftSpec(s);
    TrimRightSpec(s);
  }

  /** Trimming both ends shortens the string and leaves no whitespace at either end. */
  lemma StripEnds(s: string)
    ensures |TrimRight(TrimLeft(s))| <= |s|
    ensures TrimRight(TrimLeft(s)) == [] ||
            (!IsSpace(TrimRight(TrimLeft(s))[0]) && !IsSpace(TrimRight(TrimLeft(s))[|TrimRight(TrimLeft(s))| - 1]))
  {
    var l := TrimLeft(s);
    TrimLeftSpec(s);
    TrimRightSpec(l);
    var r := TrimRight(l);
    if r != [] {
      assert r[0] == l[0];
    }
  }

  /**
   * `s.strip()` is the slice of `s` left between two runs of whitespace,
   * and the slice starts and ends with a character that is not whitespace.
   */
  lemma StripSlice(s: string) returns (a: nat, b: nat)
    ensures a <= b <= |s| && Strip(s) == s[a..b]
    ensures forall i :: 0 <= i < a ==> IsSpace(s[i])
    ensures forall i :: b <= i < |s| ==> IsSpace(s[i])
    ensures a < b ==> !IsSpace(s[a]) && !IsSpace(s[b - 1])
  {
    var l := TrimLeft(s);
    TrimLeftSpec(s);
    TrimRightSpec(l);
    a := |s| - |l|;
    b := a + |TrimRight(l)|;
    assert l == s[a..];
    assert TrimRight(l) == l[..b - a];
    forall i | b <= i < |s| ensures IsSpace(s[i]) {
      assert s[i] == l[i - a];
    }
    if a < b {
      assert s[a] == TrimRight(l)[0];
      assert s[b - 1] == TrimRight(l)[b - a - 1];
    }
  }

  /** Lower-casing of one character, as `str.lower` does for ASCII and Latin-1 letters. */
  function LowerChar(c: char): char {
    if 'A' <= c <= 'Z' || ('\U{C0}' <= c <= '\U{DE}' && c != '\U{D7}') then
      (c as int + 32) as char
    else
      c
  }

  function Lower(s: string): (r: string)
    ensures |r| == |s|
    ensures forall i :: 0 <= i < |s| ==> r[i] == LowerChar(s[i])
  {
    seq(|s|, i requires 0 <= i < |s| => LowerChar(s[i]))
  }

  /** `s.replace(a, b)` for single characters `a` and `b`. */
  function ReplaceChar(s: string, a: char, b: char): (r: string)
    ensures |r| == |s|
    ensures forall i :: 0 <= i < |s| ==> r[i] == if s[i] == a then b else s[i]
  {
    seq(|s|, i requires 0 <= i < |s| => if s[i] == a then b else s[i])
  }

  /** `s.replace(c, '')`: every occurrence of `c` removed, everything else kept in order. */
  function RemoveChar(s: string, c: char): (r: string)
    ensures c !in r
    ensures forall x :: x in r <==> x in s && x != c
    ensures |r| <= |s|
  {
    if s == [] then []
    else if s[0] == c then RemoveChar(s[1..], c)
    else [s[0]] + RemoveChar(s[1..], c)
  }

  /** `replace(c, '')` removes every occurrence of `c` and keeps every other character with its count. */
  lemma {:induction false} RemoveCharCount(s: string, c: char)
    ensures |RemoveChar(s, c)| == |s| - multiset(s)[c]
    ensures multiset(RemoveChar(s, c)) == multiset(s)[c := 0]
  {
    if s != [] {
      assert s == [s[0]] + s[1..];
      assert multiset(s) == multiset{s[0]} + multiset(s[1..]);
      RemoveCharCount(s[1..], c);
    }
  }

  /** `replace(c, '')` keeps the other characters in their order: it distributes over concatenation. */
  lemma {:induction false} RemoveCharConcat(a: string, b: string, c: char)
    ensures RemoveChar(a + b, c) == RemoveChar(a, c) + RemoveChar(b, c)
  {
    if a != [] {
      assert (a + b)[0] == a[0] && (a + b)[1..] == a[1..] + b;
      RemoveCharConcat(a[1..], b, c);
    } else {
      assert a + b == b;
    }
  }

  predicate IsAsciiDigit(c: char) {
    '0' <= c <= '9'
  }

  predicate AllDigits(s: string) {
    forall i :: 0 <= i < |s| ==> IsAsciiDigit(s[i])
  }

  /** `s.isdigit()` restricted to ASCII digits: non-empty and digits only. */
  predicate IsDigitString(s: string) {
    |s| > 0 && AllDigits(s)
  }

  function DigitValue(c: char): nat
    requires IsAsciiDigit(c)
  {
    c as int - '0' as int
  }

  function DigitChar(d: nat): (c: char)
    requires d < 10
    ensures IsAsciiDigit(c) && DigitValue(c) == d
  {
    ('0' as int + d) as char
  }

  /** The decimal value of a string of digits (leading zeros allowed). */
  function DigitsValue(s: string): nat
    requires AllDigits(s)
  {
    if s == [] then 0 else DigitsValue(s[..|s| - 1]) * 10 + DigitValue(s[|s| - 1])
  }

  /**
   * `int(s)` on a string: surrounding whitespace is ignored, an optional sign
   * may precede the digits; anything else raises, which is `None` here.
   */
  function ParseInt(s: string): (r: Option<int>)
    ensures IsDigitString(Strip(s)) ==> r == Some(DigitsValue(Strip(s)))
    ensures r.Some? ==> Strip(s) != [] && (IsAsciiDigit(Strip(s)[0]) || Strip(s)[0] == '-' || Strip(s)[0] == '+')
  {
    var t := Strip(s);
    if |t| > 0 && (t[0] == '-' || t[0] == '+') then
      if IsDigitString(t[1..]) then
        Some(if t[0] == '-' then -(DigitsValue(t[1..]) as int) else DigitsValue(t[1..]))
      else
        None
    else if IsDigitString(t) then
      Some(DigitsValue(t))
    else
      None
  }

  /** The decimal rendering of a natural number, most significant digit first. */
  function NatToString(n: nat): string {
    if n < 10 then [DigitChar(n)] else NatToString(n / 10) + [DigitChar(n % 10)]
  }

  /** The rendering is a string of digits denoting `n`. */
  lemma {:induction false} NatToStringSpec(n: nat)
    ensures IsDigitString(NatToString(n)) && DigitsValue(NatToString(n)) == n
  {
    if n >= 10 {
      NatToStringSpec(n / 10);
      var r := NatToString(n);
      assert r[..|r| - 1] == NatToString(n / 10);
    }
  }

  /** `str(i)` for an integer. */
  function IntToString(i: int): (r: string)
    ensures |r| > 0 && (r[0] == '-' <==> i < 0)
    ensures forall k :: (if i < 0 then 1 else 0) <= k < |r| ==> IsAsciiDigit(r[k])
  {
    NatToStringSpec(if i < 0 then -i else i);
    if i < 0 then "-" + NatToString(-i) else NatToString(i)
  }

  /** `int(str(i)) == i`. */
  lemma ParseIntToString(i: int)
    ensures ParseInt(IntToString(i)) == Some(i)
  {
    var r := IntToString(i);
    var d := NatToString(if i < 0 then -i else i);
    NatToStringSpec(if i < 0 then -i else i);
    DigitsHaveNoSpace(d);
    if i < 0 {
      assert r == "-" + d && r[1..] == d;
      assert r[|r| - 1] == d[|d| - 1];
    }
    StripSpec(r);
  }

  lemma DigitsHaveNoSpace(d: string)
    requires IsDigitString(d)
    ensures !IsSpace(d[0]) && !IsSpace(d[|d| - 1]) && d[0] != '-' && d[0] != '+'
  {
    assert IsAsciiDigit(d[0]) && IsAsciiDigit(d[|d| - 1]);
  }

  /** A string holding a character that is neither whitespace, a sign nor a digit never parses as an integer. */
  /**
   * `int(s)` accepts exactly a stripped string of digits, or of digits after a
   * single sign, and reads a signed string as the signed value of its digits.
   */
  lemma ParseIntExactly(s: string)
    ensures var t := Strip(s);
            ParseInt(s).Some? <==> IsDigitString(t) || (|t| > 1 && (t[0] == '-' || t[0] == '+') && IsDigitString(t[1..]))
    ensures var t := Strip(s);
            ParseInt(s).Some? && !IsAsciiDigit(t[0]) ==>
              (t[0] == '-' || t[0] == '+') && IsDigitString(t[1..]) &&
              ParseInt(s).value == if t[0] == '-' then -(DigitsValue(t[1..]) as int) else DigitsValue(t[1..]) as int
  {
  }

  /** A sign or a space among the digits, a bare sign and a doubled sign are refused. */
  lemma ParseIntRefusesMalformed()
    ensures ParseInt("1-2") == None && ParseInt("1 2") == None
    ensures ParseInt("+") == None && ParseInt("--1") == None
  {
    ParseIntExactly("1-2");
    ParseIntExactly("1 2");
    ParseIntExactly("+");
    ParseIntExactly("--1");
    StripSpec("1-2");
    StripSpec("1 2");
    StripSpec("+");
    StripSpec("--1");
  }

  /** A sign, leading zeros and surrounding spaces are read as Python reads them. */
  lemma ParseIntReadsSigned()
    ensures ParseInt(" -007 ") == Some(-7) && ParseInt("+5") == Some(5)
  {
    assert Strip(" -007 ") == "-007";
    assert DigitsValue("007") == 7 by {
      assert "007"[..2] == "00" && "00"[..1] == "0" && "0"[..0] == "";
    }
    StripSpec("+5");
    assert "+5"[1..] == "5" && DigitsValue("5") == 5 by {
      assert "5"[..0] == "";
    }
  }

  lemma ParseIntRejectsNonNumeric(s: string, k: nat)
    requires k < |s| && !IsSpace(s[k]) && !IsAsciiDigit(s[k]) && s[k] != '-' && s[k] != '+'
    ensures ParseInt(s) == None
  {
    StripKeeps(s, k);
    var t := Strip(s);
    var j :| 0 <= j < |t| && t[j] == s[k];
    if |t| > 0 && (t[0] == '-' || t[0] == '+') {
      assert j > 0;
      assert t[1..][j - 1] == s[k];
    }
  }

  /** `s.strip()` is empty exactly when `s` is nothing but whitespace. */
  lemma StripEmpty(s: string)
    ensures Strip(s) == [] <==> forall i :: 0 <= i < |s| ==> IsSpace(s[i])
  {
    if forall i :: 0 <= i < |s| ==> IsSpace(s[i]) {
      AllSpaceTrimsLeft(s);
    } else {
      var k :| 0 <= k < |s| && !IsSpace(s[k]);
      StripKeeps(s, k);
    }
  }

  lemma {:induction false} AllSpaceTrimsLeft(s: string)
    requires forall i :: 0 <= i < |s| ==> IsSpace(s[i])
    ensures TrimLeft(s) == []
  {
    if s != [] {
      assert IsSpace(s[0]);
      AllSpaceTrimsLeft(s[1..]);
    }
  }

  /** Stripping never removes a non-whitespace character. */
  lemma StripKeeps(s: string, k: nat)
    requires k < |s| && !IsSpace(s[k])
    ensures exists j :: 0 <= j < |Strip(s)| && Strip(s)[j] == s[k]
  {
    TrimLeftKeeps(s, k);
    var l := TrimLeft(s);
    var j :| 0 <= j < |l| && l[j] == s[k];
    TrimRightKeeps(l, j);
    assert Strip(s) == TrimRight(l);
    assert Strip(s)[j] == s[k];
  }

  lemma {:induction false} TrimLeftKeeps(s: string, k: nat)
    requires k < |s| && !IsSpace(s[k])
    ensures k >= |s| - |TrimLeft(s)| && TrimLeft(s)[k - (|s| - |TrimLeft(s)|)] == s[k]
  {
    if |s| > 0 && IsSpace(s[0]) {
      TrimLeftKeeps(s[1..], k - 1);
    }
  }

  lemma {:induction false} TrimRightKeeps(s: string, k: nat)
    requires k < |s| && !IsSpace(s[k])
    ensures k < |TrimRight(s)| && TrimRight(s)[k] == s[k]
  {
    if |s| > 0 && IsSpace(s[|s| - 1]) {
      TrimRightKeeps(s[..|s| - 1], k);
    }
  }
}
