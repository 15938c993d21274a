/** Which strings are UTF-8: exactly the encodings of sequences of Unicode scalar values (section 3 of RFC 3629). */
module Utf8 {
  import opened Prelude
  import opened Scalars

  /** A code point that is no surrogate. */
  predicate IsScalar(c: nat)
  {
    c < 0xD800 || 0xE000 <= c < 0x11_0000
  }

  function EncodeScalar(c: nat): (bs: seq<byte>)
    requires IsScalar(c)
  {
    if c < 0x80 then [c]
    else if c < 0x800 then [0xC0 + c / 64, 0x80 + c % 64]
    else if c < 0x1_0000 then [0xE0 + c / 4096, 0x80 + c / 64 % 64, 0x80 + c % 64]
    else [0xF0 + c / 26_2144, 0x80 + c / 4096 % 64, 0x80 + c / 64 % 64, 0x80 + c % 64]
  }

  predicate AreScalars(cs: seq<nat>)
  {
    forall i | 0 <= i < |cs| :: IsScalar(cs[i])
  }

  function EncodeScalars(cs: seq<nat>): seq<byte>
    requires AreScalars(cs)
  {
    if cs == [] then [] else EncodeScalar(cs[0]) + EncodeScalars(cs[1..])
  }

  lemma EncodedLength(c: nat, rest: seq<byte>)
    requires IsScalar(c)
    ensures Utf8Length(EncodeScalar(c) + rest) == |EncodeScalar(c)| > 0
  {
    var bs := EncodeScalar(c);
    var s := bs + rest;
    assert forall i | 0 <= i < |bs| :: s[i] == bs[i];
    if c < 0x80 {
    } else if c < 0x800 {
    } else if c < 0x1_0000 {
      assert c / 4096 * 4096 + c / 64 % 64 * 64 + c % 64 == c;
    } else {
      assert c / 26_2144 * 26_2144 + c / 4096 % 64 * 4096 + c / 64 % 64 * 64 + c % 64 == c;
    }
  }

  /** Digits to the base 64. */
  function Digits(a: nat, b: nat, c: nat, d: nat): nat
  {
    ((a * 64 + b) * 64 + c) * 64 + d
  }

  lemma DigitsAreBack(a: nat, b: nat, c: nat, d: nat)
    requires b < 64 && c < 64 && d < 64
    ensures var n := Digits(a, b, c, d); n / 26_2144 == a && n / 4096 % 64 == b && n / 64 % 64 == c && n % 64 == d
    ensures var n := Digits(a, b, c, d); n / 4096 == a * 64 + b && n / 64 == (a * 64 + b) * 64 + c
  {
    var n := Digits(a, b, c, d);
    assert n / 64 == (a * 64 + b) * 64 + c && n % 64 == d;
    assert n / 4096 == n / 64 / 64 == a * 64 + b;
    assert n / 26_2144 == n / 4096 / 64 == a;
  }

  /** The scalar value at the head of a string. */
  function Head(s: seq<byte>): (c: nat)
    requires s != [] && Utf8Length(s) > 0
  {
    match Utf8Length(s)
    case 1 => s[0]
    case 2 => Digits(0, 0, s[0] - 0xC0, s[1] - 0x80)
    case 3 => Digits(0, s[0] - 0xE0, s[1] - 0x80, s[2] - 0x80)
    case _ => Digits(s[0] - 0xF0, s[1] - 0x80, s[2] - 0x80, s[3] - 0x80)
  }

  lemma HeadIsEncoded(s: seq<byte>)
    requires s != [] && Utf8Length(s) > 0
    ensures IsScalar(Head(s)) && EncodeScalar(Head(s)) == s[..Utf8Length(s)]
  {
    var n := Utf8Length(s);
    AtMostFour(s);
    hide Utf8Length, Head, EncodeScalar, IsScalar;
    if n == 1 {
      OneByte(s);
    } else if n == 2 {
      TwoBytes(s);
    } else if n == 3 {
      ThreeBytes(s);
    } else {
      FourBytes(s);
    }
  }

  lemma AtMostFour(s: seq<byte>)
    requires s != []
    ensures Utf8Length(s) <= 4
  {
  }

  lemma OneByte(s: seq<byte>)
    requires s != [] && Utf8Length(s) == 1
    ensures IsScalar(Head(s)) && EncodeScalar(Head(s)) == s[..1]
  {
  }

  lemma TwoBytes(s: seq<byte>)
    requires s != [] && Utf8Length(s) == 2
    ensures IsScalar(Head(s)) && EncodeScalar(Head(s)) == s[..2]
  {
    DigitsAreBack(0, 0, s[0] - 0xC0, s[1] - 0x80);
  }

  lemma ThreeBytes(s: seq<byte>)
    requires s != [] && Utf8Length(s) == 3
    ensures IsScalar(Head(s)) && EncodeScalar(Head(s)) == s[..3]
  {
    DigitsAreBack(0, s[0] - 0xE0, s[1] - 0x80, s[2] - 0x80);
  }

  lemma FourBytes(s: seq<byte>)
    requires s != [] && Utf8Length(s) == 4
    ensures IsScalar(Head(s)) && EncodeScalar(Head(s)) == s[..4]
  {
    DigitsAreBack(s[0] - 0xF0, s[1] - 0x80, s[2] - 0x80, s[3] - 0x80);
  }

  lemma {:induction false} EncodedIsValid(cs: seq<nat>)
    requires AreScalars(cs)
    ensures ValidUtf8(EncodeScalars(cs))
  {
    if cs == [] {
    } else {
      var rest := EncodeScalars(cs[1..]);
      EncodedLength(cs[0], rest);
      EncodedIsValid(cs[1..]);
      assert (EncodeScalar(cs[0]) + rest)[|EncodeScalar(cs[0])|..] == rest;
    }
  }

  function Decode(s: seq<byte>): seq<nat>
    requires ValidUtf8(s)
    decreases |s|
  {
    if s == [] then [] else [Head(s)] + Decode(s[Utf8Length(s)..])
  }

  lemma {:induction false} ValidIsEncoded(s: seq<byte>)
    requires ValidUtf8(s)
    ensures AreScalars(Decode(s)) && EncodeScalars(Decode(s)) == s
    decreases |s|
  {
    if s == [] {
    } else {
      hide *;
      DecodeStep(s);
      ValidIsEncoded(s[Utf8Length(s)..]);
      OneMoreScalar(Head(s), Decode(s[Utf8Length(s)..]));
    }
  }

  lemma DecodeStep(s: seq<byte>)
    requires ValidUtf8(s) && s != []
    ensures Utf8Length(s) > 0 && ValidUtf8(s[Utf8Length(s)..]) && IsScalar(Head(s))
    ensures Decode(s) == [Head(s)] + Decode(s[Utf8Length(s)..])
    ensures EncodeScalar(Head(s)) + s[Utf8Length(s)..] == s
  {
    hide Utf8Length, Head, EncodeScalar, IsScalar;
    HeadIsEncoded(s);
    assert s[..Utf8Length(s)] + s[Utf8Length(s)..] == s;
  }

  lemma OneMoreScalar(c: nat, cs: seq<nat>)
    requires IsScalar(c) && AreScalars(cs)
    ensures AreScalars([c] + cs) && EncodeScalars([c] + cs) == EncodeScalar(c) + EncodeScalars(cs)
  {
    assert ([c] + cs)[1..] == cs;
  }

  /** The test that strings go through accepts exactly the encodings. */
  lemma ValidUtf8IsEncoding(s: seq<byte>)
    ensures ValidUtf8(s) <==> exists cs :: AreScalars(cs) && EncodeScalars(cs) == s
  {
    if ValidUtf8(s) {
      ValidIsEncoded(s);
    }
    forall cs | AreScalars(cs) && EncodeScalars(cs) == s
      ensures ValidUtf8(s)
    {
      EncodedIsValid(cs);
    }
  }
}
