/**
 * The java.lang.String and java.lang.Integer operations the image scaler relies on:
 * String.trim, String.equalsIgnoreCase and Integer.parseInt (radix 10), with
 * Integer.toString as an independent reference for parseInt.
 * Characters are Dafny chars; case mapping and digits are modelled for ASCII only.
 */
module JavaText {
  import opened Wrappers

  // ---------------------------------------------------------------- String.trim

  /** String.trim strips every character whose code is U+0020 or below. */
  predicate IsTrimmable(c: char) {
    c <= ' '
  }

  predicate AllTrimmable(s: string) {
    forall k :: 0 <= k < |s| ==> IsTrimmable(s[k])
  }

  /** A string with no trimmable character at either end. */
  predicate IsTrimmed(s: string) {
    s == [] || (!IsTrimmable(s[0]) && !IsTrimmable(s[|s| - 1]))
  }

  /** Index of the first character that is not trimmable (|s| when there is none). */
  function TrimStart(s: string, st: nat): (i: nat)
    requires st <= |s|
    ensures st <= i <= |s|
    ensures i == |s| || !IsTrimmable(s[i])
    decreases |s| - st
  {
    if st < |s| && IsTrimmable(s[st]) then TrimStart(s, st + 1) else st
  }

  /** End of the trimmed part: drops trimmable characters from `len` back towards `st`. */
  function TrimEnd(s: string, st: nat, len: nat): (e: nat)
    requires st <= len <= |s|
    ensures st <= e <= len
    ensures e == st || !IsTrimmable(s[e - 1])
  {
    if st < len && IsTrimmable(s[len - 1]) then TrimEnd(s, st, len - 1) else len
  }

  /** String.trim: skip trimmable characters from the front, then from the back. */
  function Trim(s: string): (r: string)
    ensures |r| <= |s|
    ensures IsTrimmed(r)
  {
    var st := TrimStart(s, 0);
    s[st..TrimEnd(s, st, |s|)]
  }

  /** Everything TrimStart skips is trimmable. */
  lemma {:induction false} TrimStartSkipsTrimmable(s: string, st: nat)
    requires st <= |s|
    ensures forall k :: st <= k < TrimStart(s, st) ==> IsTrimmable(s[k])
    decreases |s| - st
  {
    if st < |s| && IsTrimmable(s[st]) {
      TrimStartSkipsTrimmable(s, st + 1);
    }
  }

  /** Everything TrimEnd drops is trimmable. */
  lemma {:induction false} TrimEndDropsTrimmable(s: string, st: nat, len: nat)
    requires st <= len <= |s|
    ensures forall k :: TrimEnd(s, st, len) <= k < len ==> IsTrimmable(s[k])
  {
    if st < len && IsTrimmable(s[len - 1]) {
      TrimEndDropsTrimmable(s, st, len - 1);
    }
  }

  /** Trim removes exactly a trimmable prefix and a trimmable suffix and keeps the middle. */
  lemma TrimInterval(s: string) returns (start: nat, end: nat)
    ensures start <= end <= |s|
    ensures Trim(s) == s[start..end]
    ensures AllTrimmable(s[..start]) && AllTrimmable(s[end..])
  {
    start := TrimStart(s, 0);
    end := TrimEnd(s, start, |s|);
    TrimStartSkipsTrimmable(s, 0);
    TrimEndDropsTrimmable(s, start, |s|);
  }

  /** A trimmed string is its own trim. */
  lemma TrimOfTrimmed(s: string)
    requires IsTrimmed(s)
    ensures Trim(s) == s
  {
  }

  /** Trim is idempotent. */
  lemma TrimIdempotent(s: string)
    ensures Trim(Trim(s)) == Trim(s)
  {
    TrimOfTrimmed(Trim(s));
  }

  /** The trim of a string is empty exactly when every character of it is trimmable. */
  lemma TrimEmptyIff(s: string)
    ensures Trim(s) == [] <==> AllTrimmable(s)
  {
    var start, end := TrimInterval(s);
    if Trim(s) == [] {
      assert forall k :: 0 <= k < |s| ==> (k < start && s[k] == s[..start][k]) || (end <= k && s[k] == s[end..][k - end]);
    } else {
      assert !IsTrimmable(s[start]);
    }
  }

  // ------------------------------------------------------ String.equalsIgnoreCase

  /** Character.toUpperCase, for ASCII letters. */
  function ToUpperCase(c: char): char {
    if 'a' <= c <= 'z' then (c as int - 32) as char else c
  }

  /** Character.toLowerCase, for ASCII letters. */
  function ToLowerCase(c: char): char {
    if 'A' <= c <= 'Z' then (c as int + 32) as char else c
  }

  /** The per-character test of String.regionMatches with ignoreCase set. */
  predicate CharsEqualIgnoreCase(a: char, b: char) {
    a == b
    || ToUpperCase(a) == ToUpperCase(b)
    || ToLowerCase(ToUpperCase(a)) == ToLowerCase(ToUpperCase(b))
  }

  /** String.equalsIgnoreCase: same length and every pair of characters matches. */
  predicate EqualsIgnoreCase(s: string, t: string) {
    |s| == |t| && forall k :: 0 <= k < |s| ==> CharsEqualIgnoreCase(s[k], t[k])
  }

  function LowerCase(s: string): string
  {
    seq(|s|, k requires 0 <= k < |s| => ToLowerCase(s[k]))
  }

  /** Two strings are equal ignoring case exactly when their lower-case forms are equal. */
  lemma EqualsIgnoreCaseIffSameLowerCase(s: string, t: string)
    ensures EqualsIgnoreCase(s, t) <==> LowerCase(s) == LowerCase(t)
  {
    if LowerCase(s) == LowerCase(t) {
      assert |s| == |LowerCase(s)| == |LowerCase(t)| == |t|;
      forall k | 0 <= k < |s|
        ensures CharsEqualIgnoreCase(s[k], t[k])
      {
        assert LowerCase(s)[k] == LowerCase(t)[k];
      }
    }
  }

  // ----------------------------------------------------------- Integer.parseInt

  const MinInt: int := -0x8000_0000
  const MaxInt: int := 0x7fff_ffff

  predicate IsDigit(c: char) {
    '0' <= c <= '9'
  }

  predicate AllDigits(s: string) {
    forall k :: 0 <= k < |s| ==> IsDigit(s[k])
  }

  /** The value of a string of decimal digits, most significant first. */
  function DigitsValue(s: string): nat
    requires AllDigits(s)
  {
    if s == [] then 0 else DigitsValue(s[..|s| - 1]) * 10 + (s[|s| - 1] as int - '0' as int)
  }

  /** The text after an optional leading '-' or '+'. */
  function Unsigned(s: string): (d: string)
    ensures d == s || (s != [] && (s[0] == '-' || s[0] == '+') && d == s[1..])
  {
    if s != [] && (s[0] == '-' || s[0] == '+') then s[1..] else s
  }

  /** The value the digits of `s` denote, negated after a leading '-'. */
  function SignedValue(s: string): int
    requires Unsigned(s) != [] && AllDigits(Unsigned(s))
  {
    var magnitude: int := DigitsValue(Unsigned(s));
    if s[0] == '-' then -magnitude else magnitude
  }

  /**
   * Integer.parseInt(s): an optional '-' or '+' followed by at least one decimal digit,
   * whose value lies in the 32-bit range; anything else is a NumberFormatException (None).
   */
  function ParseInt(s: string): (r: Option<int>)
    ensures r.Some? <==> Unsigned(s) != [] && AllDigits(Unsigned(s)) && MinInt <= SignedValue(s) <= MaxInt
    ensures r.Some? ==> r.value == SignedValue(s)
  {
    if s == [] then None
    else
      var digits := Unsigned(s);
      if digits == [] || !AllDigits(digits) then None
      else
        var magnitude: int := DigitsValue(digits);
        var v := if s[0] == '-' then -magnitude else magnitude;
        if MinInt <= v <= MaxInt then Some(v) else None
  }

  /** parseInt accepts a '+' sign, leading zeros and "-0", which toString never writes. */
  lemma ParseIntAcceptsNonCanonical()
    ensures ParseInt("+5") == Some(5)
    ensures ParseInt("007") == Some(7)
    ensures ParseInt("-0") == Some(0)
  {
    assert Unsigned("+5") == "5";
    assert Unsigned("007") == "007" && "007"[..2] == "00" && "00"[..1] == "0";
    assert Unsigned("-0") == "0";
  }

  /** parseInt rejects a trailing non-digit, a missing digit and surrounding blanks. */
  lemma ParseIntRejectsNonDigits()
    ensures ParseInt("12x") == None && ParseInt("0x") == None
    ensures ParseInt("") == None && ParseInt("-") == None && ParseInt(" 5") == None
  {
    assert !IsDigit("12x"[2]) && !IsDigit("0x"[1]) && !IsDigit(" 5"[0]);
  }

  /** parseInt accepts Integer.MIN_VALUE and rejects the value just above Integer.MAX_VALUE. */
  lemma ParseIntBounds()
    ensures ParseInt("-2147483648") == Some(MinInt) && ParseInt("2147483648") == None
  {
    DigitsValueOfOverflow();
    assert Unsigned("-2147483648") == "2147483648";
  }

  // ---------------------------------------------------------- Integer.toString

  function DigitChar(d: nat): char
    requires d < 10
  {
    ('0' as int + d) as char
  }

  function NatToString(n: nat): string
  {
    if n < 10 then [DigitChar(n)] else NatToString(n / 10) + [DigitChar(n % 10)]
  }

  /** Integer.toString: the decimal form, with a leading '-' for negative values. */
  function IntToString(n: int): string
  {
    if n < 0 then "-" + NatToString(-n) else NatToString(n)
  }

  lemma {:induction false} NatToStringDigits(n: nat)
    ensures NatToString(n) != [] && AllDigits(NatToString(n))
    ensures DigitsValue(NatToString(n)) == n
  {
    if n >= 10 {
      NatToStringDigits(n / 10);
      var s := NatToString(n);
      assert s[..|s| - 1] == NatToString(n / 10);
    }
  }

  /** A digit string without a leading zero, other than "0" itself, has a positive value. */
  lemma {:induction false} LeadingDigitPositive(d: string)
    requires d != [] && AllDigits(d) && d[0] != '0'
    ensures DigitsValue(d) >= 1
  {
    if |d| > 1 {
      LeadingDigitPositive(d[..|d| - 1]);
    }
  }

  /** The decimal form of a digit string's value is that string, unless it has a leading zero. */
  lemma {:induction false} NatToStringOfDigits(d: string)
    requires d != [] && AllDigits(d) && (d[0] != '0' || |d| == 1)
    ensures NatToString(DigitsValue(d)) == d
  {
    var n := DigitsValue(d);
    var c := d[|d| - 1];
    if |d| == 1 {
      assert d[..|d| - 1] == [];
      assert DigitsValue(d[..|d| - 1]) == 0;
      assert n == c as int - '0' as int;
      assert DigitChar(n) == c;
    } else {
      var init := d[..|d| - 1];
      LeadingDigitPositive(init);
      NatToStringOfDigits(init);
      assert n / 10 == DigitsValue(init) && n % 10 == c as int - '0' as int;
      assert DigitChar(n % 10) == c;
      assert init + [c] == d;
    }
  }

  /** `DigitsValue` of the literal "2147483648", 2^31, the first value past MaxInt. */
  lemma DigitsValueOfOverflow()
    ensures DigitsValue("2147483648") == MaxInt + 1
  {
    var d: string := "2147483648";
    assert d[..1][..0] == [];
    assert DigitsValue(d[..1]) == 2;
    assert d[..2][..1] == d[..1];
    assert DigitsValue(d[..2]) == 21;
    assert d[..3][..2] == d[..2];
    assert DigitsValue(d[..3]) == 214;
    assert d[..4][..3] == d[..3];
    assert DigitsValue(d[..4]) == 2147;
    assert d[..5][..4] == d[..4];
    assert DigitsValue(d[..5]) == 21474;
    assert d[..6][..5] == d[..5];
    assert DigitsValue(d[..6]) == 214748;
    assert d[..7][..6] == d[..6];
    assert DigitsValue(d[..7]) == 2147483;
    assert d[..8][..7] == d[..7];
    assert DigitsValue(d[..8]) == 21474836;
    assert d[..9][..8] == d[..8];
    assert DigitsValue(d[..9]) == 214748364;
    assert d[..10] == d && d[..9] == d[..|d| - 1];
  }

  /** parseInt reads back every 32-bit value that toString writes. */
  lemma ParseIntOfToString(n: int)
    requires MinInt <= n <= MaxInt
    ensures ParseInt(IntToString(n)) == Some(n)
  {
    if n < 0 {
      NatToStringDigits(-n);
      assert IntToString(n)[1..] == NatToString(-n);
    } else {
      NatToStringDigits(n);
    }
  }

  /**
   * The converse: a text that parseInt accepts, written without a '+', without leading
   * zeros and not as "-0", is exactly the toString of the value it denotes.
   */
  lemma ToStringOfParseInt(s: string, v: int)
    requires ParseInt(s) == Some(v)
    requires s[0] != '+'
    requires Unsigned(s)[0] != '0' || Unsigned(s) == "0"
    requires s != "-0"
    ensures IntToString(v) == s
  {
    var d := Unsigned(s);
    NatToStringOfDigits(d);
    if s[0] == '-' {
      assert s == "-" + d;
      assert d != "0";
      LeadingDigitPositive(d);
    } else {
      assert d == s;
    }
  }
}
