/** strconv.Atoi on a 64-bit platform: an optional '+' or '-', then one or
    more ASCII decimal digits and nothing else, with a value that fits in a
    64-bit signed int. Any other input is an error (None). */
module StrConv {

  datatype Option<T> = None | Some(value: T)

  const MaxInt64: int := 0x7fff_ffff_ffff_ffff
  const MinInt64: int := -0x8000_0000_0000_0000

  predicate IsDigit(c: char) {
    '0' <= c <= '9'
  }

  predicate AllDigits(s: string) {
    forall i :: 0 <= i < |s| ==> IsDigit(s[i])
  }

  function DigitValue(c: char): nat
    requires IsDigit(c)
  {
    c as int - '0' as int
  }

  function DigitChar(d: nat): char
    requires d < 10
  {
    ('0' as int + d) as char
  }

  /** The unsigned decimal value of s, read left to right as n*10 + digit;
      None when s is empty or holds a character that is not a digit. */
  function ParseDigits(s: string): (r: Option<nat>)
    ensures r.Some? <==> |s| > 0 && AllDigits(s)
  {
    if |s| == 0 || !IsDigit(s[|s| - 1]) then None
    else if |s| == 1 then Some(DigitValue(s[0]))
    else
      match ParseDigits(s[..|s| - 1])
      case None => None
      case Some(n) => Some(n * 10 + DigitValue(s[|s| - 1]))
  }

  /** Length of the optional leading sign. */
  function SignLength(s: string): nat {
    if |s| > 0 && (s[0] == '-' || s[0] == '+') then 1 else 0
  }

  function Atoi(s: string): (r: Option<int>)
    ensures r.Some? ==> MinInt64 <= r.value <= MaxInt64
    ensures r.Some? ==> |s| > SignLength(s) && AllDigits(s[SignLength(s)..])
    ensures r.Some? ==> (r.value < 0 ==> s[0] == '-')
  {
    if |s| == 0 then None
    else
      match ParseDigits(s[SignLength(s)..])
      case None => None
      case Some(n) =>
        var v := if s[0] == '-' then -(n as int) else n as int;
        if MinInt64 <= v <= MaxInt64 then Some(v) else None
  }

  /** The value of a sign applied to a magnitude: negative only after '-'. */
  function Signed(s: string, n: nat): int {
    if SignLength(s) == 1 && s[0] == '-' then -(n as int) else n as int
  }

  /** Atoi accepts exactly the well-formed decimals whose value fits in 64
      bits, and the value it gives is the signed magnitude of the digits. */
  lemma AtoiIff(s: string)
    ensures Atoi(s).Some? <==>
      |s| > SignLength(s) && AllDigits(s[SignLength(s)..]) &&
      MinInt64 <= Signed(s, ParseDigits(s[SignLength(s)..]).value) <= MaxInt64
    ensures Atoi(s).Some? ==> Atoi(s).value == Signed(s, ParseDigits(s[SignLength(s)..]).value)
  {
  }

  /** A leading zero does not change the value of a digit string. */
  lemma {:induction false} ParseDigitsLeadingZero(s: string)
    requires |s| > 0 && AllDigits(s)
    ensures ParseDigits("0" + s) == ParseDigits(s)
  {
    var z := "0" + s;
    assert z[..|z| - 1] == "0" + s[..|s| - 1];
    if |s| > 1 {
      ParseDigitsLeadingZero(s[..|s| - 1]);
    } else {
      assert z[..|z| - 1] == "0";
    }
  }

  /** Atoi ignores a leading zero in front of an unsigned decimal. */
  lemma AtoiLeadingZero(s: string)
    requires |s| > 0 && AllDigits(s)
    ensures Atoi("0" + s) == Atoi(s)
  {
    ParseDigitsLeadingZero(s);
    assert ("0" + s)[0..] == "0" + s && s[0..] == s;
  }

  /** Leading zeros and a signed zero are accepted. */
  lemma AtoiZeros()
    ensures Atoi("007") == Some(7)
    ensures Atoi("+0") == Some(0)
    ensures Atoi("-0") == Some(0)
  {
    assert "007"[..2] == "00" && "00"[..1] == "0";
    assert "+0"[1..] == "0";
    assert "-0"[1..] == "0";
  }

  /** Decimal rendering of a natural number, most significant digit first. */
  function Digits(n: nat): (s: string)
    ensures |s| > 0 && AllDigits(s)
  {
    if n < 10 then [DigitChar(n)] else Digits(n / 10) + [DigitChar(n % 10)]
  }

  /** strconv.Itoa: the inverse direction of Atoi. */
  function FormatInt(n: int): string {
    if n < 0 then "-" + Digits(-n) else Digits(n)
  }

  lemma {:induction false} ParseDigitsRoundTrip(n: nat)
    ensures ParseDigits(Digits(n)) == Some(n)
  {
    if n >= 10 {
      ParseDigitsRoundTrip(n / 10);
      var s := Digits(n);
      assert s[..|s| - 1] == Digits(n / 10);
    }
  }

  /** Every 64-bit integer survives rendering and parsing. */
  lemma AtoiRoundTrip(n: int)
    requires MinInt64 <= n <= MaxInt64
    ensures Atoi(FormatInt(n)) == Some(n)
  {
    var m := if n < 0 then -n else n;
    ParseDigitsRoundTrip(m);
    var s := FormatInt(n);
    if n < 0 {
      assert s[1..] == Digits(m);
    } else {
      assert s[0] != '-' && s[0] != '+';
    }
  }

  /** An explicit '+' is accepted and changes nothing. */
  lemma AtoiPlusSign(n: nat)
    requires n <= MaxInt64
    ensures Atoi("+" + Digits(n)) == Some(n)
  {
    ParseDigitsRoundTrip(n);
    assert ("+" + Digits(n))[1..] == Digits(n);
  }

  /** A well-formed decimal whose value does not fit in 64 bits is refused. */
  lemma AtoiOutOfRange(n: int)
    requires n < MinInt64 || n > MaxInt64
    ensures Atoi(FormatInt(n)) == None
  {
    var m := if n < 0 then -n else n;
    ParseDigitsRoundTrip(m);
    var s := FormatInt(n);
    if n < 0 {
      assert s[1..] == Digits(m);
    } else {
      assert s[0] != '-' && s[0] != '+';
    }
  }

  lemma AtoiExamples()
    ensures Atoi("") == None
    ensures Atoi("abc") == None
    ensures Atoi("+") == None
    ensures Atoi(" 5") == None
    ensures Atoi("0") == Some(0)
    ensures Atoi("-5") == Some(-5)
    ensures Atoi("45") == Some(45)
  {
    assert !IsDigit("abc"[2]);
    assert !IsDigit(" 5"[0]);
    assert "+"[1..] == "";
    assert "-5"[1..] == "5";
    assert "45"[..1] == "4";
  }
}
