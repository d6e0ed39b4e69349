/** The three pieces of Go's standard library the service leans on for text:
    strings.TrimSpace (payload validation), strconv.Atoi (the path id) and
    the `%d` verb of fmt (the not-found message). */
module GoStrings {
  import opened Wrappers

  /** unicode.IsSpace: the Latin-1 spaces and the Unicode White_Space runes. */
  predicate IsSpace(c: char) {
    || c == ' ' || c == '\t' || c == '\n' || c == '\U{000B}' || c == '\U{000C}' || c == '\r'
    || c == '\U{0085}' || c == '\U{00A0}' || c == '\U{1680}'
    || ('\U{2000}' <= c <= '\U{200A}')
    || c == '\U{2028}' || c == '\U{2029}' || c == '\U{202F}' || c == '\U{205F}' || c == '\U{3000}'
  }

  /** Every character of `s` is white space (the empty string included). */
  predicate IsBlank(s: string) {
    forall i :: 0 <= i < |s| ==> IsSpace(s[i])
  }

  /** Drops the trailing white space: what is left is a prefix of `s`, what was
      dropped is blank, and what is left does not end with white space. */
  function TrimRight(s: string): (r: string)
    ensures |r| <= |s| && r == s[..|r|]
    ensures IsBlank(s[|r|..])
    ensures r != [] ==> !IsSpace(r[|r| - 1])
  {
    if s != [] && IsSpace(s[|s| - 1]) then TrimRight(s[..|s| - 1]) else s
  }

  /** strings.TrimSpace: drops the leading white space, then the trailing.
      The result is empty exactly when `s` is blank, and a non-empty result
      neither starts nor ends with white space. */
  function TrimSpace(s: string): (r: string)
    ensures r == [] <==> IsBlank(s)
    ensures r != [] ==> !IsSpace(r[0]) && !IsSpace(r[|r| - 1])
  {
    if s != [] && IsSpace(s[0]) then TrimSpace(s[1..]) else TrimRight(s)
  }

  /** What strings.TrimSpace keeps: the slice of `s` between a blank prefix
      and a blank suffix. */
  lemma {:induction false} TrimSpaceSlice(s: string) returns (i: nat, j: nat)
    ensures i <= j <= |s| && TrimSpace(s) == s[i..j]
    ensures IsBlank(s[..i]) && IsBlank(s[j..])
  {
    if s != [] && IsSpace(s[0]) {
      var i', j' := TrimSpaceSlice(s[1..]);
      i, j := i' + 1, j' + 1;
      assert s[1..][i'..j'] == s[i..j];
      assert s[1..][j'..] == s[j..];
      forall k | 0 <= k < i
        ensures IsSpace(s[..i][k])
      {
        if k > 0 {
          assert s[..i][k] == s[1..][..i'][k - 1];
        }
      }
    } else {
      i, j := 0, |TrimRight(s)|;
    }
  }

  /** A string that neither starts nor ends with white space is its own trim. */
  lemma TrimmedIsFixed(s: string)
    requires s != [] ==> !IsSpace(s[0]) && !IsSpace(s[|s| - 1])
    ensures TrimSpace(s) == s
  {
  }

  /** strings.TrimSpace is idempotent. */
  lemma TrimSpaceIdempotent(s: string)
    ensures TrimSpace(TrimSpace(s)) == TrimSpace(s)
  {
    TrimmedIsFixed(TrimSpace(s));
  }

  // ----- decimal digits -----

  const MinInt64: int := -0x8000_0000_0000_0000
  const MaxInt64: int := 0x7FFF_FFFF_FFFF_FFFF

  predicate IsDigit(c: char) {
    '0' <= c <= '9'
  }

  predicate AllDigits(s: string) {
    forall i :: 0 <= i < |s| ==> IsDigit(s[i])
  }

  /** One or more decimal digits and nothing else. */
  predicate Unsigned(s: string) {
    s != [] && AllDigits(s)
  }

  /** The value of a string of decimal digits, most significant first. */
  function DigitsValue(s: string): (n: nat)
    requires AllDigits(s)
  {
    if s == [] then 0 else DigitsValue(s[..|s| - 1]) * 10 + (s[|s| - 1] as int - '0' as int)
  }

  function DigitChar(d: nat): (c: char)
    requires d < 10
    ensures IsDigit(c) && c as int - '0' as int == d
  {
    (d + '0' as int) as char
  }

  /** The decimal digits of a natural number, without leading zeros. */
  function FormatNat(n: nat): (s: string)
    ensures s != [] && AllDigits(s)
    ensures DigitsValue(s) == n
    ensures s[0] == '0' ==> n == 0
  {
    if n < 10 then [DigitChar(n)]
    else
      var s := FormatNat(n / 10) + [DigitChar(n % 10)];
      assert s[..|s| - 1] == FormatNat(n / 10);
      s
  }

  /** fmt's `%d` of an int: a minus sign for negative numbers, then the digits. */
  function FormatInt(n: int): (s: string)
    ensures n >= 0 ==> Unsigned(s) && DigitsValue(s) == n
    ensures n < 0 ==> s != [] && s[0] == '-' && Unsigned(s[1..]) && DigitsValue(s[1..]) == -n
    ensures s[0] == '0' ==> n == 0
    ensures n < 0 ==> s[1] != '0'
  {
    if n < 0 then
      var s := "-" + FormatNat(-n);
      assert s[1..] == FormatNat(-n);
      s
    else FormatNat(n)
  }

  /** strconv.Atoi on a 64-bit platform: an optional sign and at least one
      decimal digit, whose value must fit in int64; anything else (the empty
      string, a lone sign, a space, a letter, an overflow) is an error. */
  function Atoi(s: string): (r: Option<int>)
    ensures r.Some? ==> MinInt64 <= r.value <= MaxInt64
    ensures r.Some? ==> s != [] && (IsDigit(s[0]) || s[0] == '-' || s[0] == '+')
    ensures r.Some? && r.value < 0 ==> s[0] == '-'
    ensures Unsigned(s) ==>
      r == if DigitsValue(s) <= MaxInt64 then Some(DigitsValue(s)) else None
    ensures s != [] && s[0] == '+' ==>
      r == if Unsigned(s[1..]) && DigitsValue(s[1..]) <= MaxInt64 then Some(DigitsValue(s[1..])) else None
    ensures s != [] && s[0] == '-' ==>
      r == if Unsigned(s[1..]) && DigitsValue(s[1..]) <= -MinInt64 then Some(-(DigitsValue(s[1..]) as int)) else None
    ensures !Unsigned(s) && (s == [] || (s[0] != '+' && s[0] != '-')) ==> r == None
  {
    if s == [] then None
    else
      var signed := s[0] == '-' || s[0] == '+';
      var digits := if signed then s[1..] else s;
      if digits == [] || !AllDigits(digits) then None
      else
        var magnitude: int := DigitsValue(digits);
        var v: int := if s[0] == '-' then -magnitude else magnitude;
        if MinInt64 <= v <= MaxInt64 then Some(v) else None
  }

  /** Formatting an int64 with `%d` and parsing it back with Atoi round-trips. */
  lemma AtoiFormatInt(n: int)
    requires MinInt64 <= n <= MaxInt64
    ensures Atoi(FormatInt(n)) == Some(n)
  {
    var s := FormatInt(n);
    if n < 0 {
      assert s[1..] == FormatNat(-n);
    }
  }

  /** Texts that are not in `%d` form still parse: a plus sign and leading
      zeros are accepted. */
  lemma AtoiAccepts()
    ensures Atoi("+007") == Some(7) && Atoi("-12") == Some(-12) && Atoi("-0") == Some(0)
  {
    assert "+007"[1..] == "007" && "007"[..2] == "00" && "00"[..1] == "0";
    assert DigitsValue("007") == 7 by {
      assert DigitsValue("00") == DigitsValue("0") * 10 + 0;
    }
    assert "-12"[1..] == "12" && "12"[..1] == "1";
    assert "-0"[1..] == "0";
  }

  /** Different numbers have different `%d` renderings. */
  lemma FormatIntInjective(a: int, b: int)
    requires FormatInt(a) == FormatInt(b)
    ensures a == b
  {
  }

  /** Strings that are not integers, as the path parameter could carry them. */
  lemma AtoiRejects()
    ensures Atoi("") == None && Atoi("-") == None && Atoi("+") == None
    ensures Atoi("abc") == None && Atoi("1a") == None && Atoi(" 1") == None
  {
    assert !IsDigit('a');
    assert "1a"[1] == 'a';
    assert !AllDigits(" 1") by { assert !IsDigit(" 1"[0]); }
  }
}
