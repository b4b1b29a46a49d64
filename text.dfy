/** Text helpers with Python's semantics: `str.strip()` with no argument and
    the decimal rendering of an `int` inside an f-string. */
module Text {

  /** Python's notion of whitespace for `str.strip()` / `str.isspace()`. */
  predicate IsSpace(c: char)
  {
    || ('\t' <= c <= '\r')            // \t \n \v \f \r
    || ('\U{1C}' <= c <= '\U{1F}')    // file, group, record and unit separators
    || c == ' '
    || c == '\U{85}' || c == '\U{A0}' || c == '\U{1680}'
    || ('\U{2000}' <= c <= '\U{200A}')
    || c == '\U{2028}' || c == '\U{2029}' || c == '\U{202F}'
    || c == '\U{205F}' || c == '\U{3000}'
  }

  /** Every character of `s` is whitespace (true of the empty string). */
  predicate IsBlank(s: string)
  {
    forall i :: 0 <= i < |s| ==> IsSpace(s[i])
  }

  /** The first index at or after `i` that does not hold whitespace
      (`|s|` when there is none). */
  function SkipLeading(s: string, i: nat): (k: nat)
    requires i <= |s|
    ensures i <= k <= |s|
    ensures forall m :: i <= m < k ==> IsSpace(s[m])
    ensures k == |s| || !IsSpace(s[k])
    decreases |s| - i
  {
    if i < |s| && IsSpace(s[i]) then SkipLeading(s, i + 1) else i
  }

  /** The end of the text before index `j` once the whitespace just before
      `j` is skipped (0 when there is only whitespace). */
  function SkipTrailing(s: string, j: nat): (k: nat)
    requires j <= |s|
    ensures k <= j
    ensures forall m :: k <= m < j ==> IsSpace(s[m])
    ensures k == 0 || !IsSpace(s[k - 1])
  {
    if j > 0 && IsSpace(s[j - 1]) then SkipTrailing(s, j - 1) else j
  }

  /** `s.lstrip()`: the longest suffix of `s` that does not start with whitespace. */
  function TrimStart(s: string): (r: string)
    ensures |r| <= |s| && r == s[|s| - |r|..]
    ensures IsBlank(s[..|s| - |r|])
    ensures r == [] || !IsSpace(r[0])
  {
    var k := SkipLeading(s, 0);
    assert forall m :: 0 <= m < k ==> s[..k][m] == s[m];
    s[k..]
  }

  /** `s.rstrip()`: the longest prefix of `s` that does not end with whitespace. */
  function TrimEnd(s: string): (r: string)
    ensures |r| <= |s| && r == s[..|r|]
    ensures IsBlank(s[|r|..])
    ensures r == [] || !IsSpace(r[|r| - 1])
  {
    var k := SkipTrailing(s, |s|);
    assert forall m :: 0 <= m < |s| - k ==> s[k..][m] == s[k + m];
    s[..k]
  }

  /** `s.strip()`: `s` without its leading and trailing whitespace. */
  function Strip(s: string): (r: string)
    ensures |r| <= |s|
    ensures r == [] || (!IsSpace(r[0]) && !IsSpace(r[|r| - 1]))
  {
    TrimEnd(TrimStart(s))
  }

  /** What `str.strip()` keeps: the slice of `s` left once a whitespace-only
      prefix and a whitespace-only suffix are cut off. */
  lemma StripKeepsMiddle(s: string)
    ensures exists k :: 0 <= k <= |s| - |Strip(s)| && Strip(s) == s[k..k + |Strip(s)|]
                        && IsBlank(s[..k]) && IsBlank(s[k + |Strip(s)|..])
  {
    var t := TrimStart(s);
    var r := TrimEnd(t);
    var k := |s| - |t|;
    assert t == s[k..];
    assert r == t[..|r|] == s[k..k + |r|];
    assert IsBlank(s[..k]);
    assert s[k + |r|..] == t[|r|..];
    assert IsBlank(s[k + |r|..]);
    assert Strip(s) == r;
  }

  /** `not s.strip()` holds exactly for the strings made of whitespace only. */
  lemma StripEmptyIffBlank(s: string)
    ensures Strip(s) == [] <==> IsBlank(s)
  {
  }

  /** Stripping an already stripped string changes nothing. */
  lemma StripIdempotent(s: string)
    ensures Strip(Strip(s)) == Strip(s)
  {
  }

  /** The digit character for `d`. */
  function DigitChar(d: nat): (c: char)
    requires d < 10
    ensures '0' <= c <= '9'
    ensures c as int - '0' as int == d
  {
    (d + '0' as int) as char
  }

  /** The number a string of decimal digits denotes, read most significant
      digit first (Horner's rule); characters are taken as digits by their
      offset from '0'. */
  function DigitsValue(s: string): int
  {
    if s == [] then 0
    else DigitsValue(s[..|s| - 1]) * 10 + (s[|s| - 1] as int - '0' as int)
  }

  /** The number a rendering with an optional leading minus sign denotes. */
  function SignedValue(s: string): int
  {
    if s != [] && s[0] == '-' then -DigitsValue(s[1..]) else DigitsValue(s)
  }

  /** A canonical decimal numeral: one or more digits, with no leading zero
      unless the numeral is "0" itself. */
  predicate IsDecimal(s: string)
  {
    && |s| >= 1
    && (forall i :: 0 <= i < |s| ==> '0' <= s[i] <= '9')
    && (s == "0" || s[0] != '0')
  }

  /** Decimal rendering of a natural number, most significant digit first,
      with no leading zero. */
  function NatToString(n: nat): (r: string)
    ensures |r| >= 1
    ensures forall i :: 0 <= i < |r| ==> '0' <= r[i] <= '9'
    ensures n == 0 <==> r == "0"
    ensures r == "0" || r[0] != '0'
    ensures DigitsValue(r) == n
  {
    if n < 10 then [DigitChar(n)]
    else
      var prefix := NatToString(n / 10);
      var r := prefix + [DigitChar(n % 10)];
      assert r[..|r| - 1] == prefix;
      r
  }

  /** Every canonical numeral is the rendering of the number it denotes, so
      a natural number has exactly one canonical decimal numeral. */
  lemma {:induction false} DecimalIsCanonical(s: string)
    requires IsDecimal(s)
    ensures DigitsValue(s) >= 0
    ensures s == NatToString(DigitsValue(s))
  {
    var last := s[|s| - 1] as int - '0' as int;
    if |s| == 1 {
      assert s == [s[0]];
      assert DigitsValue(s) == DigitsValue([]) * 10 + last;
      assert DigitChar(last) == s[0];
    } else {
      var prefix := s[..|s| - 1];
      assert prefix[0] == s[0];
      assert IsDecimal(prefix);
      DecimalIsCanonical(prefix);
      var v := DigitsValue(prefix);
      assert prefix != "0";
      assert v != 0;
      var n := v * 10 + last;
      assert DigitsValue(s) == n;
      assert n / 10 == v && n % 10 == last;
      assert s == prefix + [DigitChar(last)];
    }
  }

  /** `f"{n}"` for a Python `int`: a leading minus sign for negative values,
      followed by the canonical decimal numeral of the magnitude. */
  function IntToString(n: int): (r: string)
    ensures |r| >= 1
    ensures (r[0] == '-') <==> n < 0
    ensures n >= 0 ==> IsDecimal(r) && DigitsValue(r) == n
    ensures n < 0 ==> IsDecimal(r[1..]) && DigitsValue(r[1..]) == -n
    ensures SignedValue(r) == n
  {
    if n < 0 then
      var r := "-" + NatToString(-n);
      assert r[1..] == NatToString(-n);
      r
    else NatToString(n)
  }
}
