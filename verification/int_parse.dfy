/** `FromStr` for Rust's unsigned integer types (`u8`, `u16`), which the
    legacy parser uses for `-t` and `parse_nsec_alg` for algorithm numbers,
    and the decimal rendering it inverts. */
module IntParse {
  import opened Base

  /** `IntErrorKind`, as far as unsigned parsing can produce it. */
  datatype IntErrorKind = Empty | InvalidDigit | PosOverflow

  /** `Display` for `ParseIntError`. */
  function IntErrorMessage(k: IntErrorKind): string {
    match k
    case Empty => "cannot parse integer from empty string"
    case InvalidDigit => "invalid digit found in string"
    case PosOverflow => "number too large to fit in target type"
  }

  predicate IsDigit(c: char) {
    '0' <= c <= '9'
  }

  predicate AllDigits(s: string) {
    forall i :: 0 <= i < |s| ==> IsDigit(s[i])
  }

  function DigitValue(c: char): nat
    requires IsDigit(c)
  {
    c as int - '0' as int
  }

  /** The number `acc` followed by the decimal digits `ds`. */
  function DigitsValue(acc: nat, ds: string): nat
    requires AllDigits(ds)
    decreases |ds|
  {
    if ds == [] then acc else DigitsValue(acc * 10 + DigitValue(ds[0]), ds[1..])
  }

  /** The digit loop: every character must be a decimal digit, and the
      running value may never exceed `max`; a non-digit is reported before an
      overflow caused by the same character. */
  function Accumulate(ds: string, acc: nat, max: nat): (r: Result<nat, IntErrorKind>)
    requires acc <= max
    ensures r != Err(Empty)
    ensures r.Ok? ==> r.value <= max
    decreases |ds|
  {
    if ds == [] then Ok(acc)
    else if !IsDigit(ds[0]) then Err(InvalidDigit)
    else
      var next := acc * 10 + DigitValue(ds[0]);
      if next > max then Err(PosOverflow) else Accumulate(ds[1..], next, max)
  }

  /** The digits `from_str` reads: everything after one optional leading `+`
      (a `-` is not stripped for unsigned types). */
  function Unsigned(s: string): string {
    if |s| > 0 && s[0] == '+' then s[1..] else s
  }

  /** `from_str` for the unsigned type whose largest value is `max`. */
  function ParseUnsigned(s: string, max: nat): (r: Result<nat, IntErrorKind>)
    ensures r == Err(Empty) <==> s == []
    ensures r.Ok? ==> r.value <= max
  {
    if s == [] then Err(Empty)
    else if |s| == 1 && (s[0] == '+' || s[0] == '-') then Err(InvalidDigit)
    else Accumulate(Unsigned(s), 0, max)
  }

  lemma {:induction false} DigitsValueAtLeast(acc: nat, ds: string)
    requires AllDigits(ds)
    ensures DigitsValue(acc, ds) >= acc
    decreases |ds|
  {
    if ds != [] {
      DigitsValueAtLeast(acc * 10 + DigitValue(ds[0]), ds[1..]);
    }
  }

  lemma {:induction false} AccumulateValue(ds: string, acc: nat, max: nat)
    requires acc <= max
    ensures Accumulate(ds, acc, max).Ok? <==> AllDigits(ds) && DigitsValue(acc, ds) <= max
    ensures Accumulate(ds, acc, max).Ok? ==> Accumulate(ds, acc, max).value == DigitsValue(acc, ds)
    decreases |ds|
  {
    if ds != [] && IsDigit(ds[0]) {
      var next := acc * 10 + DigitValue(ds[0]);
      assert AllDigits(ds) <==> AllDigits(ds[1..]);
      if next > max {
        if AllDigits(ds) {
          DigitsValueAtLeast(next, ds[1..]);
        }
      } else {
        AccumulateValue(ds[1..], next, max);
      }
    }
  }

  /** `from_str` succeeds exactly on an optional `+` followed by at least one
      decimal digit, whose value fits; the result is that value. */
  lemma ParseUnsignedValue(s: string, max: nat)
    ensures ParseUnsigned(s, max).Ok? <==>
      Unsigned(s) != [] && AllDigits(Unsigned(s)) && DigitsValue(0, Unsigned(s)) <= max
    ensures ParseUnsigned(s, max).Ok? ==> ParseUnsigned(s, max).value == DigitsValue(0, Unsigned(s))
  {
    if s != [] && !(|s| == 1 && (s[0] == '+' || s[0] == '-')) {
      AccumulateValue(Unsigned(s), 0, max);
    }
  }

  /** Text that starts with `-` never parses as an unsigned number. */
  lemma DashRejected(s: string, max: nat)
    requires |s| > 0 && s[0] == '-'
    ensures ParseUnsigned(s, max) == Err(InvalidDigit)
  {
  }

  function DigitChar(d: nat): (c: char)
    requires d < 10
    ensures IsDigit(c) && DigitValue(c) == d
  {
    ('0' as int + d) as char
  }

  /** The decimal rendering of `n` (`Display` for integers). */
  function DecimalString(n: nat): (s: string)
    ensures s != [] && AllDigits(s)
    decreases n
  {
    if n < 10 then [DigitChar(n)] else DecimalString(n / 10) + [DigitChar(n % 10)]
  }

  lemma {:induction false} DigitsValueSnoc(acc: nat, ds: string, c: char)
    requires AllDigits(ds) && IsDigit(c)
    ensures AllDigits(ds + [c])
    ensures DigitsValue(acc, ds + [c]) == DigitsValue(acc, ds) * 10 + DigitValue(c)
    decreases |ds|
  {
    assert AllDigits(ds + [c]);
    if ds == [] {
      assert ds + [c] == [c];
    } else {
      assert (ds + [c])[1..] == ds[1..] + [c];
      DigitsValueSnoc(acc * 10 + DigitValue(ds[0]), ds[1..], c);
    }
  }

  lemma {:induction false} DecimalStringValue(n: nat)
    ensures DigitsValue(0, DecimalString(n)) == n
    decreases n
  {
    if n >= 10 {
      DecimalStringValue(n / 10);
      DigitsValueSnoc(0, DecimalString(n / 10), DigitChar(n % 10));
    }
  }

  /** Parsing the decimal rendering of any value that fits gives back that
      value. */
  lemma ParseDecimalString(n: nat, max: nat)
    requires n <= max
    ensures ParseUnsigned(DecimalString(n), max) == Ok(n)
  {
    var s := DecimalString(n);
    assert s[0] != '+';
    assert Unsigned(s) == s;
    DecimalStringValue(n);
    ParseUnsignedValue(s, max);
  }
}
