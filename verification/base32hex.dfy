/** Base 32 with the extended hex alphabet, without padding (section 7 of
    RFC 4648), as NSEC3 writes hashed owner names; the `Display` of the
    `domain` crate's `OwnerHash`. */
module Base32Hex {
  import opened Base

  /** The characters of the extended hex alphabet, `0`-`9` and `A`-`V`. */
  predicate IsAlphabetChar(c: char) {
    '0' <= c <= '9' || 'A' <= c <= 'V'
  }

  /** The same alphabet in lower case, `0`-`9` and `a`-`v`. */
  predicate IsLowerAlphabetChar(c: char) {
    '0' <= c <= '9' || 'a' <= c <= 'v'
  }

  /** The character for a five-bit value. */
  function AlphabetChar(v: nat): (c: char)
    requires v < 32
    ensures IsAlphabetChar(c)
  {
    if v < 10 then ('0' as int + v) as char else ('A' as int + v - 10) as char
  }

  function Pow2(n: nat): (p: nat)
    ensures p >= 1
    decreases n
  {
    if n == 0 then 1 else 2 * Pow2(n - 1)
  }

  function BitValue(bit: bool): nat {
    if bit then 1 else 0
  }

  /** The low `n` bits of `x`, most significant first. */
  function BitsOf(x: nat, n: nat): (r: seq<bool>)
    ensures |r| == n
    decreases n
  {
    if n == 0 then [] else BitsOf(x / 2, n - 1) + [x % 2 == 1]
  }

  /** The number bits stand for, most significant first. */
  function ValueOf(bits: seq<bool>): (v: nat)
    ensures v < Pow2(|bits|)
    decreases |bits|
  {
    if bits == [] then 0 else 2 * ValueOf(bits[..|bits| - 1]) + BitValue(bits[|bits| - 1])
  }

  /** The eight bits of an octet, most significant first. */
  function ByteBits(x: byte): (r: seq<bool>)
    ensures |r| == 8
  {
    BitsOf(x, 8)
  }

  function Bits(b: Bytes): (r: seq<bool>)
    ensures |r| == 8 * |b|
    decreases |b|
  {
    if b == [] then [] else ByteBits(b[0]) + Bits(b[1..])
  }

  /** The number five bits stand for. */
  function QuintetValue(q: seq<bool>): (v: nat)
    requires |q| == 5
    ensures v < 32
  {
    assert Pow2(5) == 32;
    ValueOf(q)
  }

  /** The bits in groups of five; a short final group is filled up with zero
      bits. */
  function Quintets(bits: seq<bool>): (r: seq<nat>)
    ensures |r| == (|bits| + 4) / 5
    ensures forall i :: 0 <= i < |r| ==> r[i] < 32
    decreases |bits|
  {
    if bits == [] then []
    else if |bits| < 5 then [QuintetValue(bits + seq(5 - |bits|, _ => false))]
    else [QuintetValue(bits[..5])] + Quintets(bits[5..])
  }

  /** The encoding: one character of the alphabet per group of five bits;
      twenty octets give thirty-two characters. */
  function Encode(b: Bytes): (s: string)
    ensures |s| == (8 * |b| + 4) / 5
    ensures forall i :: 0 <= i < |s| ==> IsAlphabetChar(s[i])
  {
    var q := Quintets(Bits(b));
    seq(|q|, i requires 0 <= i < |q| => AlphabetChar(q[i]))
  }

  /** Lower-casing the encoding keeps its length and leaves only characters
      of the lower-case alphabet. */
  lemma LowerEncoding(b: Bytes)
    ensures |Lower(Encode(b))| == (8 * |b| + 4) / 5
    ensures forall i :: 0 <= i < |Lower(Encode(b))| ==> IsLowerAlphabetChar(Lower(Encode(b))[i])
  {
  }

  //--- Reading the encoding back

  /** The five-bit value of an alphabet character, in either case. */
  function CharValue(c: char): (v: Option<nat>)
    ensures v.Some? ==> v.value < 32
  {
    if '0' <= c <= '9' then Some(c as int - '0' as int)
    else if 'A' <= c <= 'V' then Some(c as int - 'A' as int + 10)
    else if 'a' <= c <= 'v' then Some(c as int - 'a' as int + 10)
    else None
  }

  /** The five bits of a value below 32, most significant first. */
  function QuintetBits(v: nat): (q: seq<bool>)
    requires v < 32
    ensures |q| == 5
  {
    BitsOf(v, 5)
  }

  /** The bits the characters of `s` stand for, five per character. */
  function TextBits(s: string): (r: Option<seq<bool>>)
    ensures r.Some? ==> |r.value| == 5 * |s|
    decreases |s|
  {
    if s == [] then Some([])
    else
      match (CharValue(s[0]), TextBits(s[1..]))
      case (Some(v), Some(rest)) => Some(QuintetBits(v) + rest)
      case _ => None
  }

  /** The octet eight bits stand for, most significant first. */
  function OctetValue(bits: seq<bool>): byte
    requires |bits| == 8
  {
    assert Pow2(8) == 256;
    ValueOf(bits)
  }

  function Octets(bits: seq<bool>): (b: Bytes)
    requires |bits| % 8 == 0
    ensures |b| == |bits| / 8
    decreases |bits|
  {
    if bits == [] then [] else [OctetValue(bits[..8])] + Octets(bits[8..])
  }

  /** Decoding, in either case: the bits of the characters, of which the
      whole octets are kept and the fill bits at the end are dropped. */
  function Decode(s: string): Option<Bytes> {
    match TextBits(s)
    case None => None
    case Some(bits) => Some(Octets(bits[..8 * (|bits| / 8)]))
  }

  /** Reading back the low bits of a number that fits gives the number. */
  lemma {:induction false} ValueOfBitsOf(x: nat, n: nat)
    requires x < Pow2(n)
    ensures ValueOf(BitsOf(x, n)) == x
    decreases n
  {
    if n > 0 {
      var r := BitsOf(x, n);
      assert r[..n - 1] == BitsOf(x / 2, n - 1);
      ValueOfBitsOf(x / 2, n - 1);
    }
  }

  /** Writing out the number some bits stand for gives those bits. */
  lemma {:induction false} BitsOfValueOf(bits: seq<bool>)
    ensures BitsOf(ValueOf(bits), |bits|) == bits
    decreases |bits|
  {
    if bits != [] {
      var init := bits[..|bits| - 1];
      var v := ValueOf(bits);
      assert v / 2 == ValueOf(init);
      BitsOfValueOf(init);
      assert bits == init + [bits[|bits| - 1]];
    }
  }

  lemma QuintetRoundTrip(q: seq<bool>)
    requires |q| == 5
    ensures QuintetBits(QuintetValue(q)) == q
  {
    BitsOfValueOf(q);
  }

  lemma OctetRoundTrip(x: byte)
    ensures OctetValue(ByteBits(x)) == x
  {
    assert Pow2(8) == 256;
    ValueOfBitsOf(x, 8);
  }

  lemma {:induction false} OctetsOfBits(b: Bytes)
    ensures Octets(Bits(b)) == b
    decreases |b|
  {
    if b != [] {
      var bits := Bits(b);
      assert bits[..8] == ByteBits(b[0]);
      assert bits[8..] == Bits(b[1..]);
      OctetRoundTrip(b[0]);
      OctetsOfBits(b[1..]);
    }
  }

  /** The bits of the quintets, one group of five after the other. */
  function QuintetsBits(q: seq<nat>): (bits: seq<bool>)
    requires forall i :: 0 <= i < |q| ==> q[i] < 32
    ensures |bits| == 5 * |q|
    decreases |q|
  {
    if q == [] then [] else QuintetBits(q[0]) + QuintetsBits(q[1..])
  }

  /** Regrouping the bits in fives gives back the bits, followed by fewer
      than five fill bits. */
  lemma {:induction false} QuintetsBitsOfBits(bits: seq<bool>)
    ensures |QuintetsBits(Quintets(bits))| < |bits| + 5
    ensures QuintetsBits(Quintets(bits))[..|bits|] == bits
    decreases |bits|
  {
    var q := Quintets(bits);
    if bits == [] {
    } else if |bits| < 5 {
      var padded := bits + seq(5 - |bits|, _ => false);
      QuintetRoundTrip(padded);
      assert QuintetsBits(q) == QuintetBits(q[0]) + QuintetsBits([]);
      assert padded[..|bits|] == bits;
    } else {
      QuintetRoundTrip(bits[..5]);
      QuintetsBitsOfBits(bits[5..]);
      assert q[1..] == Quintets(bits[5..]);
      var rest := QuintetsBits(q[1..]);
      assert QuintetsBits(q) == bits[..5] + rest;
      assert (bits[..5] + rest)[..|bits|] == bits[..5] + rest[..|bits| - 5];
      assert bits[..5] + bits[5..] == bits;
    }
  }

  lemma {:induction false} TextBitsOfEncoding(q: seq<nat>, s: string)
    requires forall i :: 0 <= i < |q| ==> q[i] < 32
    requires |s| == |q|
    requires forall i :: 0 <= i < |s| ==> s[i] == AlphabetChar(q[i]) || s[i] == LowerChar(AlphabetChar(q[i]))
    ensures TextBits(s) == Some(QuintetsBits(q))
    decreases |q|
  {
    if q != [] {
      TextBitsOfEncoding(q[1..], s[1..]);
      assert CharValue(s[0]) == Some(q[0]);
    }
  }

  /** The encoding, in upper or in lower case, decodes to the octets that
      were encoded. */
  lemma DecodeEncode(b: Bytes)
    ensures Decode(Encode(b)) == Some(b)
    ensures Decode(Lower(Encode(b))) == Some(b)
  {
    var bits := Bits(b);
    var q := Quintets(bits);
    TextBitsOfEncoding(q, Encode(b));
    TextBitsOfEncoding(q, Lower(Encode(b)));
    var all := QuintetsBits(q);
    QuintetsBitsOfBits(bits);
    assert 8 * |b| <= |all| < 8 * |b| + 8;
    assert |all| / 8 == |b|;
    assert all[..8 * (|all| / 8)] == bits;
    OctetsOfBits(b);
  }
}
