/** Character and string primitives shared by every formatter of the
    dashboard: ASCII digits, decimal rendering and parsing, zero padding,
    ASCII case mapping, Python's whitespace set, and the substring tests
    that the series-label heuristic is made of. Strings are `seq<char>`. */
module Text {
  import opened Wrappers

  // ---------------------------------------------------------------------
  // Digits and decimal numbers

  predicate IsDigit(c: char) {
    '0' <= c <= '9'
  }

  predicate AllDigits(s: string) {
    forall i | 0 <= i < |s| :: IsDigit(s[i])
  }

  function DigitChar(d: nat): (c: char)
    requires d < 10
    ensures IsDigit(c)
    ensures c as int - '0' as int == d
  {
    ('0' as int + d) as char
  }

  function DigitValue(c: char): (d: nat)
    requires IsDigit(c)
    ensures d < 10
    ensures DigitChar(d) == c
  {
    c as int - '0' as int
  }

  /** Decimal rendering of `n` without leading zeros, as Python's `str(n)`. */
  function NatToString(n: nat): (r: string)
    ensures |r| > 0 && AllDigits(r)
    ensures r[0] == '0' ==> n == 0
    decreases n
  {
    if n < 10 then [DigitChar(n)] else NatToString(n / 10) + [DigitChar(n % 10)]
  }

  /** The value of a string of decimal digits; leading zeros are allowed and
      the empty string reads as 0. */
  function ParseNat(s: string): nat
    requires AllDigits(s)
    decreases |s|
  {
    if s == [] then 0 else 10 * ParseNat(s[..|s| - 1]) + DigitValue(s[|s| - 1])
  }

  lemma {:induction false} ParseNatOfNatToString(n: nat)
    ensures ParseNat(NatToString(n)) == n
    decreases n
  {
    var r := NatToString(n);
    if n >= 10 {
      ParseNatOfNatToString(n / 10);
      assert r[..|r| - 1] == NatToString(n / 10);
    }
  }

  lemma DigitsExclude(s: string, c: char)
    requires AllDigits(s) && !IsDigit(c)
    ensures c !in s
  {
    forall i | 0 <= i < |s|
      ensures s[i] != c
    {
      assert IsDigit(s[i]);
    }
  }

  /** A digit string holds no occurrence of a non-digit. */
  lemma DigitsCount(s: string, c: char)
    requires AllDigits(s) && !IsDigit(c)
    ensures multiset(s)[c] == 0
  {
    DigitsExclude(s, c);
  }

  /** Occurrences add up over a three-part concatenation. */
  lemma CountJoin(a: string, sep: string, b: string, c: char)
    ensures multiset(a + sep + b)[c] == multiset(a)[c] + multiset(sep)[c] + multiset(b)[c]
  {
    assert multiset(a + sep + b) == multiset(a) + multiset(sep) + multiset(b);
  }

  /** The number of digits `NatToString` uses for small values. */
  lemma NatToStringLength(n: nat)
    ensures n < 10 ==> |NatToString(n)| == 1
    ensures 10 <= n < 100 ==> |NatToString(n)| == 2
    ensures 100 <= n < 1000 ==> |NatToString(n)| == 3
  {
    if n >= 10 {
      assert |NatToString(n)| == |NatToString(n / 10)| + 1;
      if n >= 100 {
        assert |NatToString(n / 10)| == |NatToString(n / 100)| + 1;
      }
    }
  }

  function Zeros(k: nat): (r: string)
    ensures |r| == k
    ensures forall i | 0 <= i < k :: r[i] == '0'
  {
    seq(k, _ => '0')
  }

  lemma {:induction false} ParseNatOfZeros(k: nat)
    ensures ParseNat(Zeros(k)) == 0
    decreases k
  {
    if k > 0 {
      assert Zeros(k)[..k - 1] == Zeros(k - 1);
      ParseNatOfZeros(k - 1);
    }
  }

  lemma {:induction false} ParseNatLeadingZeros(k: nat, s: string)
    requires AllDigits(s)
    ensures AllDigits(Zeros(k) + s)
    ensures ParseNat(Zeros(k) + s) == ParseNat(s)
    decreases |s|
  {
    var t := Zeros(k) + s;
    if s == [] {
      assert t == Zeros(k);
      ParseNatOfZeros(k);
    } else {
      assert t[..|t| - 1] == Zeros(k) + s[..|s| - 1];
      ParseNatLeadingZeros(k, s[..|s| - 1]);
    }
  }

  /** Python's `f"{n:0{width}d}"` for a non-negative `n`: the decimal digits
      of `n`, left-padded with zeros up to `width` characters. */
  function PadNat(n: nat, width: nat): (r: string)
    ensures AllDigits(r)
    ensures ParseNat(r) == n
    ensures |r| == if |NatToString(n)| < width then width else |NatToString(n)|
  {
    var d := NatToString(n);
    ParseNatOfNatToString(n);
    if |d| < width then
      ParseNatLeadingZeros(width - |d|, d);
      Zeros(width - |d|) + d
    else
      d
  }

  /** Python's `f"{i:0{width}d}"` for any integer: a negative value keeps its
      minus sign in front and the zeros pad the digits after it. */
  function PadInt(i: int, width: nat): (r: string)
    ensures ParseInt(r) == Some(i)
    ensures i >= 0 ==> r == PadNat(i, width)
    ensures i < 0 ==> r == "-" + PadNat(-i, if width > 0 then width - 1 else 0)
  {
    if i < 0 then
      var d := PadNat(-i, if width > 0 then width - 1 else 0);
      assert ("-" + d)[1..] == d;
      "-" + d
    else
      PadNat(i, width)
  }

  /** Python's `str(i)` for any integer: a minus sign before the digits of a
      negative value. */
  function IntToString(i: int): (r: string)
    ensures ParseInt(r) == Some(i)
  {
    if i < 0 then
      var d := NatToString(-i);
      ParseNatOfNatToString(-i);
      assert ("-" + d)[1..] == d;
      "-" + d
    else
      ParseNatOfNatToString(i);
      NatToString(i)
  }

  /** Reads an optionally negative decimal integer; None for anything else. */
  function ParseInt(s: string): Option<int> {
    if |s| > 1 && s[0] == '-' && AllDigits(s[1..]) then Some(0 - ParseNat(s[1..]))
    else if |s| > 0 && AllDigits(s) then Some(ParseNat(s))
    else None
  }

  // ---------------------------------------------------------------------
  // ASCII case

  predicate IsUpper(c: char) {
    'A' <= c <= 'Z'
  }

  predicate IsLower(c: char) {
    'a' <= c <= 'z'
  }

  /** A cased character in the sense of Python's `str.title()`, restricted to
      ASCII. */
  predicate IsLetter(c: char) {
    IsUpper(c) || IsLower(c)
  }

  function ToLower(c: char): (r: char)
    ensures IsLetter(c) <==> IsLetter(r)
    ensures !IsUpper(r)
    ensures !IsLetter(c) ==> r == c
  {
    if IsUpper(c) then (c as int - 'A' as int + 'a' as int) as char else c
  }

  function ToUpper(c: char): (r: char)
    ensures IsLetter(c) <==> IsLetter(r)
    ensures !IsLower(r)
    ensures !IsLetter(c) ==> r == c
  {
    if IsLower(c) then (c as int - 'a' as int + 'A' as int) as char else c
  }

  /** Python's `str.lower()` on ASCII. */
  function Lower(s: string): (r: string)
    ensures |r| == |s|
    ensures forall i | 0 <= i < |s| :: r[i] == ToLower(s[i])
  {
    seq(|s|, i requires 0 <= i < |s| => ToLower(s[i]))
  }

  /** Python's `s.replace(a, b)` for single characters `a` and `b`. */
  function ReplaceChar(s: string, a: char, b: char): (r: string)
    ensures |r| == |s|
    ensures forall i | 0 <= i < |s| :: r[i] == if s[i] == a then b else s[i]
  {
    seq(|s|, i requires 0 <= i < |s| => if s[i] == a then b else s[i])
  }

  // ---------------------------------------------------------------------
  // Substrings

  predicate StartsWith(s: string, prefix: string) {
    prefix <= s
  }

  predicate EndsWith(s: string, suffix: string) {
    |suffix| <= |s| && s[|s| - |suffix|..] == suffix
  }

  /** Python's `t in s` for strings. */
  predicate Contains(s: string, t: string)
    decreases |s|
  {
    t <= s || (|s| > 0 && Contains(s[1..], t))
  }

  lemma {:induction false} ContainsAt(s: string, t: string, k: nat)
    requires k + |t| <= |s| && s[k..k + |t|] == t
    ensures Contains(s, t)
    decreases k
  {
    if k > 0 {
      assert s[1..][k - 1..k - 1 + |t|] == s[k..k + |t|];
      ContainsAt(s[1..], t, k - 1);
    } else {
      assert t <= s;
    }
  }

  lemma {:induction false} ContainsWitness(s: string, t: string) returns (k: nat)
    requires Contains(s, t)
    ensures k + |t| <= |s| && s[k..k + |t|] == t
    decreases |s|
  {
    if t <= s {
      k := 0;
    } else {
      var k' := ContainsWitness(s[1..], t);
      k := k' + 1;
      assert s[k..k + |t|] == s[1..][k'..k' + |t|];
    }
  }

  // ---------------------------------------------------------------------
  // Whitespace, as Python's `str.isspace()` decides it

  predicate IsSpace(c: char) {
    || c == ' ' || '\t' <= c <= '\r' || '\U{1C}' <= c <= '\U{1F}'
    || c == '\U{85}' || c == '\U{A0}' || c == '\U{1680}'
    || '\U{2000}' <= c <= '\U{200A}' || c == '\U{2028}' || c == '\U{2029}'
    || c == '\U{202F}' || c == '\U{205F}' || c == '\U{3000}'
  }

  predicate NoSpace(s: string) {
    forall i | 0 <= i < |s| :: !IsSpace(s[i])
  }

  /** Python's `s.lstrip()`: drops the leading whitespace. */
  function StripLeft(s: string): (r: string)
    ensures |r| <= |s| && r == s[|s| - |r|..]
    ensures forall i | 0 <= i < |s| - |r| :: IsSpace(s[i])
    ensures r == [] || !IsSpace(r[0])
    decreases |s|
  {
    if |s| > 0 && IsSpace(s[0]) then StripLeft(s[1..]) else s
  }

  /** Python's `s.rstrip()`: drops the trailing whitespace. */
  function StripRight(s: string): (r: string)
    ensures |r| <= |s| && r == s[..|r|]
    ensures forall i | |r| <= i < |s| :: IsSpace(s[i])
    ensures r == [] || !IsSpace(r[|r| - 1])
    decreases |s|
  {
    if |s| > 0 && IsSpace(s[|s| - 1]) then StripRight(s[..|s| - 1]) else s
  }

  /** Where `s.strip()` starts: the length of the leading whitespace. */
  function StripOffset(s: string): (k: nat)
    ensures k <= |s|
  {
    |s| - |StripLeft(s)|
  }

  /** Python's `s.strip()`: the input with its leading and trailing
      whitespace removed, and nothing else. */
  function Strip(s: string): (r: string)
    ensures r == [] || (!IsSpace(r[0]) && !IsSpace(r[|r| - 1]))
    ensures |r| <= |s|
    ensures r == [] <==> forall i | 0 <= i < |s| :: IsSpace(s[i])
    ensures StripOffset(s) + |r| <= |s|
    ensures forall j | 0 <= j < |r| :: r[j] == s[StripOffset(s) + j]
    ensures forall i | 0 <= i < StripOffset(s) :: IsSpace(s[i])
    ensures forall i | StripOffset(s) + |r| <= i < |s| :: IsSpace(s[i])
  {
    var l := StripLeft(s);
    assert forall i | 0 <= i < |l| :: l[i] == s[|s| - |l| + i];
    StripSlice(s);
    StripTrail(s);
    StripRight(l)
  }

  /** The stripped text is the slice of the input after its leading
      whitespace. */
  lemma StripSlice(s: string)
    ensures var r := StripRight(StripLeft(s)); var k := StripOffset(s);
      k + |r| <= |s| && forall j | 0 <= j < |r| :: r[j] == s[k + j]
  {
    var l := StripLeft(s);
    var k := StripOffset(s);
    assert l == s[k..];
  }

  /** Only whitespace follows the stripped text. */
  lemma StripTrail(s: string)
    ensures var r := StripRight(StripLeft(s)); var k := StripOffset(s);
      forall i | k + |r| <= i < |s| :: IsSpace(s[i])
  {
    var l := StripLeft(s);
    var k := StripOffset(s);
    assert l == s[k..];
    assert |l| == |s| - k;
    var r := StripRight(l);
    forall i | k + |r| <= i < |s|
      ensures IsSpace(s[i])
    {
      assert s[i] == l[i - k];
      assert IsSpace(l[i - k]);
    }
  }

  /** A text that neither starts nor ends with whitespace is its own
      strip. */
  lemma StripUnpadded(s: string)
    requires s != [] && !IsSpace(s[0]) && !IsSpace(s[|s| - 1])
    ensures Strip(s) == s
  {
    assert StripLeft(s) == s;
    var r := Strip(s);
    assert StripOffset(s) == 0;
    assert forall j | 0 <= j < |r| :: r[j] == s[j];
  }
}
