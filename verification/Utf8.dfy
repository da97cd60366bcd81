/** UTF-8 as RFC 3629 defines it: encoding (section 3) and the byte syntax (section 4). */
module Utf8 {
  import opened Core

  predicate IsScalar(c: int) {
    0 <= c <= 0x10ffff && !(0xd800 <= c <= 0xdfff)
  }

  type scalar = c: int | IsScalar(c)

  /** The continuation byte for the low six bits of `v`. */
  function Tail(v: int): (b: byte) {
    0x80 + v % 0x40
  }

  /** The byte patterns of `xp_private_append_utf8`; shifts and masks by powers of two as division and remainder. */
  function Encode(c: scalar): (r: seq<byte>)
    ensures 1 <= |r| <= 4
  {
    assert IsScalar(c);
    if c <= 0x7f then [c as byte]
    else if c <= 0x7ff then
      var lead: byte := 0xc0 + c / 0x40;
      [lead, Tail(c)]
    else if c <= 0xffff then
      var lead: byte := 0xe0 + c / 0x1000;
      [lead, Tail(c / 0x40), Tail(c)]
    else
      var lead: byte := 0xf0 + c / 0x4_0000;
      [lead, Tail(c / 0x1000), Tail(c / 0x40), Tail(c)]
  }

  function EncodeAll(cs: seq<scalar>): seq<byte> {
    if cs == [] then [] else Encode(cs[0]) + EncodeAll(cs[1..])
  }

  predicate IsTail(b: byte) {
    0x80 <= b <= 0xbf
  }

  /** The second byte the syntax of section 4 allows after a lead byte of three or four. */
  predicate IsSecond(lead: byte, b: byte) {
    match lead
    case 0xe0 => 0xa0 <= b <= 0xbf
    case 0xed => 0x80 <= b <= 0x9f
    case 0xf0 => 0x90 <= b <= 0xbf
    case 0xf4 => 0x80 <= b <= 0x8f
    case _ => IsTail(b)
  }

  /** The length of the well-formed character at the front of `s`, or 0. */
  function FrontLength(s: seq<byte>): (n: nat)
    ensures n <= |s| && n <= 4
  {
    if s == [] then 0
    else if s[0] <= 0x7f then 1
    else if 0xc2 <= s[0] <= 0xdf && |s| >= 2 && IsTail(s[1]) then 2
    else if 0xe0 <= s[0] <= 0xef && |s| >= 3 && IsSecond(s[0], s[1]) && IsTail(s[2]) then 3
    else if 0xf0 <= s[0] <= 0xf4 && |s| >= 4 && IsSecond(s[0], s[1]) && IsTail(s[2]) && IsTail(s[3]) then 4
    else 0
  }

  /** The number the character at the front of `s` stands for. */
  function FrontValue(s: seq<byte>): int
    requires FrontLength(s) > 0
  {
    match FrontLength(s)
    case 1 => s[0]
    case 2 => Value2(s[0], s[1])
    case 3 => Value3(s[0], s[1], s[2])
    case _ => Value4(s[0], s[1], s[2], s[3])
  }

  function Value2(a: int, b: int): int {
    (a - 0xc0) * 0x40 + (b - 0x80)
  }

  function Value3(a: int, b: int, c: int): int {
    (a - 0xe0) * 0x1000 + (b - 0x80) * 0x40 + (c - 0x80)
  }

  function Value4(a: int, b: int, c: int, d: int): int {
    (a - 0xf0) * 0x4_0000 + (b - 0x80) * 0x1000 + (c - 0x80) * 0x40 + (d - 0x80)
  }

  lemma LowDigit(high: int, d: int)
    requires 0 <= high && 0 <= d < 0x40
    ensures (high * 0x40 + d) / 0x40 == high && (high * 0x40 + d) % 0x40 == d
  {}

  lemma HighPart(v: int)
    requires 0 <= v
    ensures v / 0x1000 == v / 0x40 / 0x40 && v / 0x4_0000 == v / 0x1000 / 0x40
  {}

  /** Six-bit digits are read back from the number they make up. */
  lemma Digits(a: int, b: int, c: int, d: int)
    requires 0 <= a && 0 <= b < 0x40 && 0 <= c < 0x40 && 0 <= d < 0x40
    ensures var v := a * 0x4_0000 + b * 0x1000 + c * 0x40 + d;
      && v % 0x40 == d && v / 0x40 % 0x40 == c && v / 0x1000 % 0x40 == b
      && v / 0x40 == a * 0x1000 + b * 0x40 + c && v / 0x1000 == a * 0x40 + b && v / 0x4_0000 == a
  {
    LowDigit(a, b);
    LowDigit(a * 0x40 + b, c);
    LowDigit((a * 0x40 + b) * 0x40 + c, d);
    HighPart(((a * 0x40 + b) * 0x40 + c) * 0x40 + d);
  }

  /** A number is made up of its six-bit digits. */
  lemma DigitsOf(v: int)
    requires 0 <= v
    ensures v == v / 0x4_0000 * 0x4_0000 + v / 0x1000 % 0x40 * 0x1000 + v / 0x40 % 0x40 * 0x40 + v % 0x40
    ensures v / 0x1000 == v / 0x4_0000 * 0x40 + v / 0x1000 % 0x40
    ensures v / 0x40 == v / 0x1000 * 0x40 + v / 0x40 % 0x40
  {
    HighPart(v);
  }

  lemma FrontIsScalar(s: seq<byte>)
    requires FrontLength(s) > 0
    ensures IsScalar(FrontValue(s))
  {}

  /** A strict decoder: nothing unless all of `s` is well formed. */
  function DecodeAll(s: seq<byte>): Option<seq<scalar>> {
    if s == [] then Some([])
    else if FrontLength(s) == 0 then None
    else
      FrontIsScalar(s);
      match DecodeAll(s[FrontLength(s)..])
      case None => None
      case Some(rest) => Some([FrontValue(s)] + rest)
  }

  lemma EncodedFront(c: scalar, rest: seq<byte>)
    ensures FrontLength(Encode(c) + rest) == |Encode(c)|
    ensures FrontValue(Encode(c) + rest) == c
  {
    assert IsScalar(c);
    DigitsOf(c);
    var e := Encode(c);
    assert forall i :: 0 <= i < |e| ==> (e + rest)[i] == e[i];
  }

  /** One character of each length, as section 7 of RFC 3629 gives them: A, alpha, an ideograph, and U+233B4. */
  lemma SampleEncodings()
    ensures Encode(0x41) == [0x41] && Encode(0x391) == [0xce, 0x91]
    ensures Encode(0x65e5) == [0xe6, 0x97, 0xa5] && Encode(0x2_33b4) == [0xf0, 0xa3, 0x8e, 0xb4]
  {}

  // Each length in three steps: the number is in range, its encoding, and the bytes themselves.

  lemma Range2(s: seq<byte>)
    requires FrontLength(s) == 2
    ensures |s| >= 2 && 0xc2 <= s[0] < 0xe0 && 0x80 <= s[1] < 0xc0
    ensures FrontValue(s) == Value2(s[0], s[1])
  {}

  lemma Range3(s: seq<byte>)
    requires FrontLength(s) == 3
    ensures |s| >= 3 && 0xe0 <= s[0] < 0xf0 && 0x80 <= s[1] < 0xc0 && 0x80 <= s[2] < 0xc0
    ensures FrontValue(s) == Value3(s[0], s[1], s[2])
    ensures 0x800 <= FrontValue(s) && IsScalar(FrontValue(s))
  {}

  lemma Range4(s: seq<byte>)
    requires FrontLength(s) == 4
    ensures |s| >= 4 && 0xf0 <= s[0] < 0xf5
    ensures 0x80 <= s[1] < 0xc0 && 0x80 <= s[2] < 0xc0 && 0x80 <= s[3] < 0xc0
    ensures FrontValue(s) == Value4(s[0], s[1], s[2], s[3])
    ensures 0x1_0000 <= FrontValue(s) <= 0x10_ffff
  {}

  lemma Encoded2(a: int, b: int)
    requires 0xc2 <= a < 0xe0 && 0x80 <= b < 0xc0
    ensures IsScalar(Value2(a, b)) && Encode(Value2(a, b)) == [a, b]
  {
    LowDigit(a - 0xc0, b - 0x80);
  }

  lemma Encoded3(a: int, b: int, c: int)
    requires 0xe0 <= a < 0xf0 && 0x80 <= b < 0xc0 && 0x80 <= c < 0xc0
    requires 0x800 <= Value3(a, b, c) && IsScalar(Value3(a, b, c))
    ensures Encode(Value3(a, b, c)) == [a, b, c]
  {
    Digits(0, a - 0xe0, b - 0x80, c - 0x80);
  }

  lemma Encoded4(a: int, b: int, c: int, d: int)
    requires 0xf0 <= a < 0xf5 && 0x80 <= b < 0xc0 && 0x80 <= c < 0xc0 && 0x80 <= d < 0xc0
    requires 0x1_0000 <= Value4(a, b, c, d) <= 0x10_ffff
    ensures IsScalar(Value4(a, b, c, d)) && Encode(Value4(a, b, c, d)) == [a, b, c, d]
  {
    Digits(a - 0xf0, b - 0x80, c - 0x80, d - 0x80);
  }

  lemma Front2(s: seq<byte>)
    requires |s| >= 2
    ensures s[..2] == [s[0], s[1]]
  {}

  lemma Front3(s: seq<byte>)
    requires |s| >= 3
    ensures s[..3] == [s[0], s[1], s[2]]
  {}

  lemma Front4(s: seq<byte>)
    requires |s| >= 4
    ensures s[..4] == [s[0], s[1], s[2], s[3]]
  {}

  lemma FrontEncoded1(s: seq<byte>)
    requires FrontLength(s) == 1
    ensures IsScalar(FrontValue(s)) && s[..1] == Encode(FrontValue(s))
  {}

  lemma FrontEncoded2(s: seq<byte>)
    requires FrontLength(s) == 2
    ensures IsScalar(FrontValue(s)) && s[..2] == Encode(FrontValue(s))
  {
    hide Encode, FrontLength, FrontValue, IsScalar, Value2;
    Range2(s);
    Encoded2(s[0], s[1]);
    Front2(s);
  }

  lemma FrontEncoded3(s: seq<byte>)
    requires FrontLength(s) == 3
    ensures IsScalar(FrontValue(s)) && s[..3] == Encode(FrontValue(s))
  {
    hide Encode, FrontLength, FrontValue, IsScalar, Value3;
    Range3(s);
    Encoded3(s[0], s[1], s[2]);
    Front3(s);
  }

  lemma FrontEncoded4(s: seq<byte>)
    requires FrontLength(s) == 4
    ensures IsScalar(FrontValue(s)) && s[..4] == Encode(FrontValue(s))
  {
    hide Encode, FrontLength, FrontValue, IsScalar, Value4;
    Range4(s);
    Encoded4(s[0], s[1], s[2], s[3]);
    Front4(s);
  }

  lemma FrontEncoded(s: seq<byte>)
    requires FrontLength(s) > 0
    ensures IsScalar(FrontValue(s)) && s[..FrontLength(s)] == Encode(FrontValue(s))
  {
    hide Encode, FrontLength, FrontValue, IsScalar;
    match FrontLength(s)
    case 1 => FrontEncoded1(s);
    case 2 => FrontEncoded2(s);
    case 3 => FrontEncoded3(s);
    case _ => FrontEncoded4(s);
  }

  lemma DecodeFront(c: scalar, rest: seq<byte>)
    ensures DecodeAll(Encode(c) + rest) ==
      match DecodeAll(rest)
      case None => None
      case Some(cs) => Some([c] + cs)
  {
    hide Encode, FrontLength, FrontValue, IsScalar;
    EncodedFront(c, rest);
    assert (Encode(c) + rest)[|Encode(c)|..] == rest;
  }

  /** Decoding an encoding returns the scalars, whatever they are. */
  lemma {:induction false} DecodeEncoded(cs: seq<scalar>)
    ensures DecodeAll(EncodeAll(cs)) == Some(cs)
    decreases cs
  {
    hide Encode, FrontLength, FrontValue, IsScalar;
    if cs != [] {
      DecodeFront(cs[0], EncodeAll(cs[1..]));
      DecodeEncoded(cs[1..]);
      hide DecodeAll;
      assert cs == [cs[0]] + cs[1..];
    }
  }

  /** Encoding what was decoded returns the bytes: well-formed text has one encoding. */
  lemma {:induction false} EncodeDecoded(s: seq<byte>)
    requires DecodeAll(s).Some?
    ensures EncodeAll(DecodeAll(s).value) == s
    decreases |s|
  {
    hide Encode, FrontLength, FrontValue, IsScalar;
    if s != [] {
      var n := FrontLength(s);
      FrontEncoded(s);
      EncodeDecoded(s[n..]);
      assert s == s[..n] + s[n..];
    }
  }

  lemma {:induction false} EncodeAllConcat(a: seq<scalar>, b: seq<scalar>)
    ensures EncodeAll(a + b) == EncodeAll(a) + EncodeAll(b)
    decreases a
  {
    hide Encode;
    if a == [] {
      assert a + b == b;
    } else {
      assert (a + b)[1..] == a[1..] + b;
      EncodeAllConcat(a[1..], b);
    }
  }
}
