/** A stand-in for the `domain` crate's NSEC3 salt (`Nsec3Salt`) and its
    presentation form: hexadecimal digits, or `-` for the empty salt
    (section 3.3 of RFC 5155). */
module Salts {
  import opened Base

  const MAX_SALT_LEN := 255

  /** The salt field holds at most 255 octets. */
  type Salt = s: Bytes | |s| <= MAX_SALT_LEN

  const BAD_HEX := "invalid hex salt"
  const LONG_SALT := "salt too long"

  /** The value of a hexadecimal digit, in either case. */
  function HexValue(c: char): Option<nat> {
    if '0' <= c <= '9' then Some(c as int - '0' as int)
    else if 'a' <= c <= 'f' then Some(c as int - 'a' as int + 10)
    else if 'A' <= c <= 'F' then Some(c as int - 'A' as int + 10)
    else None
  }

  /** Base 16 decoding: pairs of hexadecimal digits, high digit first. */
  function Base16Decode(s: string): (r: Option<Bytes>)
    ensures r.Some? ==> |s| == 2 * |r.value|
    decreases |s|
  {
    if s == [] then Some([])
    else if |s| == 1 then None
    else
      match (HexValue(s[0]), HexValue(s[1]), Base16Decode(s[2..]))
      case (Some(hi), Some(lo), Some(rest)) =>
        assert hi < 16 && lo < 16;
        var b: byte := hi * 16 + lo;
        Some([b] + rest)
      case _ => None
  }

  function HexDigit(d: nat): (c: char)
    requires d < 16
    ensures HexValue(c) == Some(d)
  {
    if d < 10 then ('0' as int + d) as char else ('a' as int + d - 10) as char
  }

  /** Base 16 encoding in lower-case digits. */
  function Base16Encode(b: Bytes): (s: string)
    ensures |s| == 2 * |b|
    decreases |b|
  {
    if b == [] then "" else [HexDigit(b[0] / 16), HexDigit(b[0] % 16)] + Base16Encode(b[1..])
  }

  lemma {:induction false} Base16RoundTrip(b: Bytes)
    ensures Base16Decode(Base16Encode(b)) == Some(b)
    decreases |b|
  {
    if b != [] {
      var s := Base16Encode(b);
      assert s[2..] == Base16Encode(b[1..]);
      Base16RoundTrip(b[1..]);
      assert [b[0]] + b[1..] == b;
    }
  }

  /** `Nsec3Salt::from_str`. */
  function SaltFromStr(s: string): Result<Salt, string> {
    if s == "-" then Ok([])
    else
      match Base16Decode(s)
      case None => Err(BAD_HEX)
      case Some(b) => if |b| > MAX_SALT_LEN then Err(LONG_SALT) else Ok(b)
  }

  /** `Display` for `Nsec3Salt`. */
  function SaltToString(salt: Salt): string {
    if salt == [] then "-" else Base16Encode(salt)
  }

  /** Reading back the presentation form of a salt gives the same salt; the
      bare hexadecimal form is read the same way, also when it is empty. */
  lemma SaltRoundTrip(salt: Salt)
    ensures SaltFromStr(SaltToString(salt)) == Ok(salt)
    ensures SaltFromStr(Base16Encode(salt)) == Ok(salt)
  {
    Base16RoundTrip(salt);
    assert |Base16Encode(salt)| != 1;
  }

  /** Text of two or more characters starting with `-` is never a salt. */
  lemma DashSaltRejected(s: string)
    requires |s| >= 2 && s[0] == '-'
    ensures SaltFromStr(s).Err?
  {
  }
}
