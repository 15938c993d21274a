/** How scalar field values travel in wire records: integer widths, zero tests, strings, packed lists. */
module Scalars {
  import opened Prelude
  import opened Wire

  // ----- integer widths -----

  /** int32 and enum values are written as 64-bit two's complement. */
  function SignExtend(v: int32): uint64
  {
    if v < 0 then v + TWO_64 else v
  }

  /** static_cast of a 64-bit varint to int32. */
  function ToInt32(v: uint64): (r: int32)
    ensures (v - r) % TWO_32 == 0
  {
    var low := v % TWO_32;
    if low < TWO_31 then low else low - TWO_32
  }

  function ToUint32(v: uint64): (r: uint32)
    ensures (v - r) % TWO_32 == 0
  {
    v % TWO_32
  }

  lemma SignExtendRoundTrip(v: int32)
    ensures ToInt32(SignExtend(v)) == v
  {
    if v < 0 {
      assert SignExtend(v) == (v + TWO_32) + (TWO_32 - 1) * TWO_32;
    }
  }

  /** Both float zeros, as bit patterns; every comparison with a NaN is false, so a NaN is not zero. */
  predicate IsFloatZero(bits: uint32): (r: bool)
    // every bit but the sign is 0
    ensures r <==> bits % TWO_31 == 0
  {
    bits == 0 || bits == TWO_31
  }

  // ----- strings -----

  /** Well-formed UTF-8 as in section 4 of RFC 3629. */
  predicate ValidUtf8(s: seq<byte>)
  {
    s == [] ||
    var n := Utf8Length(s);
    n > 0 && ValidUtf8(s[n..])
  }

  predicate Utf8Tail(b: byte) { 0x80 <= b <= 0xBF }

  /** The length of the well-formed character at the head of `s`, or 0 if there is none. */
  function Utf8Length(s: seq<byte>): (n: nat)
    requires s != []
    ensures n <= |s|
  {
    if s[0] < 0x80 then 1
    else if |s| >= 2 && 0xC2 <= s[0] <= 0xDF && Utf8Tail(s[1]) then 2
    else if |s| >= 3 && Utf8Tail(s[2]) &&
            ((s[0] == 0xE0 && 0xA0 <= s[1] <= 0xBF) || (0xE1 <= s[0] <= 0xEC && Utf8Tail(s[1])) ||
             (s[0] == 0xED && 0x80 <= s[1] <= 0x9F) || (0xEE <= s[0] <= 0xEF && Utf8Tail(s[1]))) then 3
    else if |s| >= 4 && Utf8Tail(s[2]) && Utf8Tail(s[3]) &&
            ((s[0] == 0xF0 && 0x90 <= s[1] <= 0xBF) || (0xF1 <= s[0] <= 0xF3 && Utf8Tail(s[1])) ||
             (s[0] == 0xF4 && 0x80 <= s[1] <= 0x8F)) then 4
    else 0
  }

  // ----- packed lists of uint64 -----

  function EncodePacked(vs: seq<uint64>): seq<byte>
  {
    if vs == [] then [] else EncodeVarint(vs[0]) + EncodePacked(vs[1..])
  }

  /** `list` followed by the varints that make up `bs` exactly. */
  function ReadPacked(list: seq<uint64>, bs: seq<byte>): Option<seq<uint64>>
    decreases |bs|
  {
    if bs == [] then Some(list)
    else
      match ReadVarint(bs)
      case None => None
      case Some((v, rest)) => ReadPacked(list + [v], rest)
  }

  lemma {:induction false} PackedRoundTrip(list: seq<uint64>, vs: seq<uint64>)
    ensures ReadPacked(list, EncodePacked(vs)) == Some(list + vs)
    decreases |vs|
  {
    if vs == [] {
      assert list + vs == list;
    } else {
      Varint64RoundTrip(vs[0], EncodePacked(vs[1..]));
      PackedRoundTrip(list + [vs[0]], vs[1..]);
      assert list + [vs[0]] + vs[1..] == list + vs;
    }
  }

  // ----- optional records: proto3 fields are not written when they hold their default -----

  function VarintUnlessZero(num: FieldNumber, v: uint64): seq<Record>
  {
    if v == 0 then [] else [Varint(num, v)]
  }

  function IntUnlessZero(num: FieldNumber, v: int32): seq<Record>
  {
    VarintUnlessZero(num, SignExtend(v))
  }

  function BytesUnlessEmpty(num: FieldNumber, data: seq<byte>): seq<Record>
  {
    if data == [] then [] else [Bytes(num, data)]
  }

  function FloatUnlessZero(num: FieldNumber, bits: uint32): seq<Record>
  {
    if IsFloatZero(bits) then [] else [Fixed32(num, bits)]
  }

  /** `b` unless it is the zero that is not written, in which case `a`. */
  function LastWins(a: int, b: int): (r: int)
  {
    if b == 0 then a else b
  }
}
