/** A ratings record as the validator sees it: the tokens of one line of the
    ratings file (user id, item id, rating), and the parsing of the rating
    token with Integer.parseInt. */
module Records {
  import opened Wrappers
  import MathUtil

  /** The tokens of one line; the validator reads positions 0, 1 and 2. */
  type Tokens = seq<string>

  predicate IsDigit(c: char) {
    '0' <= c <= '9'
  }

  predicate AllDigits(s: string) {
    forall k :: 0 <= k < |s| ==> IsDigit(s[k])
  }

  function DigitValue(c: char): (r: nat)
    requires IsDigit(c)
    ensures r < 10
  {
    (c as int - '0' as int) as nat
  }

  function DigitChar(d: nat): (c: char)
    requires d < 10
    ensures IsDigit(c) && DigitValue(c) == d
  {
    (d + '0' as int) as char
  }

  /** The value of a string of decimal digits, most significant first. */
  function DigitsValue(s: string): nat
    requires AllDigits(s)
  {
    if |s| == 0 then 0
    else 10 * DigitsValue(s[..|s| - 1]) + DigitValue(s[|s| - 1])
  }

  /** The digits of a numeral: what follows an optional leading sign. */
  function Unsigned(s: string): string {
    if |s| > 0 && (s[0] == '-' || s[0] == '+') then s[1..] else s
  }

  /** An optional sign followed by at least one decimal digit. */
  predicate Numeral(s: string) {
    |Unsigned(s)| > 0 && AllDigits(Unsigned(s))
  }

  /** -1 for a leading '-', and 1 otherwise. */
  function SignOf(s: string): int {
    if |s| > 0 && s[0] == '-' then -1 else 1
  }

  /** Integer.parseInt(s) in radix 10: an optional '-' or '+' followed by at
      least one digit, with a value inside the 32-bit range; None stands for
      the NumberFormatException thrown otherwise (a null string included). */
  function ParseInt(s: string): (r: Option<int>)
    ensures r.Some? ==> MathUtil.IntMin <= r.value <= MathUtil.IntMax
    ensures r.Some? ==> 0 < |s| && (IsDigit(s[0]) || s[0] == '-' || s[0] == '+')
    ensures r.Some? ==> Numeral(s)
    ensures r.Some? ==> r.value == SignOf(s) * DigitsValue(Unsigned(s))
    ensures Numeral(s) && MathUtil.IntMin <= SignOf(s) * DigitsValue(Unsigned(s)) <= MathUtil.IntMax ==> r.Some?
  {
    if |s| == 0 then None
    else
      var signed := s[0] == '-' || s[0] == '+';
      var digits := if signed then s[1..] else s;
      if |digits| == 0 || !AllDigits(digits) then None
      else
        var v := if s[0] == '-' then -(DigitsValue(digits) as int) else DigitsValue(digits);
        if MathUtil.IntMin <= v <= MathUtil.IntMax then Some(v) else None
  }

  /** Decimal digits of a natural number, without leading zeros. */
  function Digits(n: nat): (s: string)
    ensures |s| > 0 && AllDigits(s)
  {
    if n < 10 then [DigitChar(n)] else Digits(n / 10) + [DigitChar(n % 10)]
  }

  /** Integer.toString(n): the canonical decimal form. */
  function Decimal(n: int): (s: string)
    ensures |s| > 0
  {
    if n < 0 then "-" + Digits(-n) else Digits(n)
  }

  lemma {:induction false} DigitsRoundTrip(n: nat)
    ensures DigitsValue(Digits(n)) == n
  {
    if n >= 10 {
      DigitsRoundTrip(n / 10);
      var s := Digits(n);
      assert s[..|s| - 1] == Digits(n / 10);
    }
  }

  /** parseInt reads back every int in its canonical decimal form. */
  lemma ParseDecimal(n: int)
    requires MathUtil.IntMin <= n <= MathUtil.IntMax
    ensures ParseInt(Decimal(n)) == Some(n)
  {
    var s := Decimal(n);
    if n < 0 {
      DigitsRoundTrip(-n);
      assert s[0] == '-' && s[1..] == Digits(-n);
      assert Unsigned(s) == Digits(-n) && SignOf(s) == -1;
    } else {
      DigitsRoundTrip(n);
      assert IsDigit(s[0]) && Unsigned(s) == s && SignOf(s) == 1;
    }
    assert Numeral(s) && SignOf(s) * DigitsValue(Unsigned(s)) == n;
  }

  /** The strings parseInt rejects include the empty string, a lone sign
      and a decimal point. */
  lemma ParseIntRejects()
    ensures ParseInt("") == None
    ensures ParseInt("-") == None
    ensures ParseInt("7.5") == None
  {
    assert !AllDigits("7.5") by { assert !IsDigit("7.5"[1]); }
  }

  /** A leading sign of either kind is accepted. */
  lemma ParseIntSigned()
    ensures ParseInt("+8") == Some(8)
    ensures ParseInt("-12") == Some(-12)
  {
    assert "+8"[1..] == "8";
    assert "-12"[1..] == "12";
    assert "12"[..1] == "1";
    assert "1"[..0] == "";
    assert "8"[..0] == "";
  }

  /** One more than Integer.MAX_VALUE does not parse. */
  lemma ParseIntOverflow()
    ensures ParseInt("2147483648") == None
  {
    LongDigits();
  }

  lemma LongDigits()
    ensures AllDigits("2147483648") && DigitsValue("2147483648") == 2147483648
  {
    assert "2147483648"[..9] == "214748364";
    assert "214748364"[..8] == "21474836";
    assert "21474836"[..7] == "2147483";
    assert "2147483"[..6] == "214748";
    assert "214748"[..5] == "21474";
    LeadingDigits();
  }

  lemma LeadingDigits()
    ensures AllDigits("21474") && DigitsValue("21474") == 21474
  {
    assert "21474"[..4] == "2147";
    assert "2147"[..3] == "214";
    assert "214"[..2] == "21";
    assert "21"[..1] == "2";
  }

  /** tokens.get(2) followed by Integer.parseInt: the rating of a record. */
  function RatingValue(tokens: Tokens): (r: Result<int, Exception>)
    ensures r.Failure? <==> |tokens| < 3 || ParseInt(tokens[2]).None?
    ensures r.Failure? ==> r.error == (if |tokens| < 3 then IndexOutOfBounds else NumberFormat)
    ensures r.Success? ==> Some(r.value) == ParseInt(tokens[2])
  {
    if |tokens| < 3 then Failure(IndexOutOfBounds)
    else match ParseInt(tokens[2])
      case None => Failure(NumberFormat)
      case Some(v) => Success(v)
  }

  /** A record the validator can use: it has the three tokens and its rating
      parses. */
  predicate WellFormed(tokens: Tokens) {
    RatingValue(tokens).Success?
  }

  /** The error thrown at the first record that is not well formed. */
  predicate FailsFirstAt(rows: seq<Tokens>, k: int, e: Exception) {
    0 <= k < |rows| && !WellFormed(rows[k]) && RatingValue(rows[k]).error == e
    && forall j :: 0 <= j < k ==> WellFormed(rows[j])
  }
}
