/** The writers and size calculators the generated code calls, with the int and uint32 casts of the source. */
module WireWriter {
  import opened Prelude
  import opened Wire
  import opened Scalars

  const INT_MAX: int := 0x7FFF_FFFF

  // ----- writers: they append to `out` -----

  /** UnsafeVarint: the first two bytes apart, then a do-while. */
  method WriteVarint(v: nat, out: seq<byte>) returns (r: seq<byte>)
    ensures r == out + EncodeVarint(v)
  {
    if v < 0x80 { return out + [v]; }
    VarintStep(out, v);
    r := out + [v % 128 + 128];
    var value: nat := v / 128;
    if value < 0x80 { return r + [value]; }
    var first := true;
    while first || value >= 0x80
      invariant r + EncodeVarint(value) == out + EncodeVarint(v)
      invariant first ==> value >= 0x80
      decreases value, first
    {
      first := false;
      VarintStep(r, value);
      r := r + [value % 128 + 128];
      value := value / 128;
    }
    r := r + [value];
  }

  lemma VarintStep(done: seq<byte>, v: nat)
    requires v >= 128
    ensures done + [v % 128 + 128] + EncodeVarint(v / 128) == done + EncodeVarint(v)
  {
  }

  method WriteTag(num: FieldNumber, wireType: nat, out: seq<byte>) returns (r: seq<byte>)
    requires wireType < 8
    ensures r == out + EncodeVarint(Tag(num, wireType))
  {
    r := WriteVarint(Tag(num, wireType), out);
  }

  method WriteVarintField(num: FieldNumber, v: uint64, out: seq<byte>) returns (r: seq<byte>)
    ensures r == out + EncodeRecord(Varint(num, v))
  {
    r := WriteTag(num, 0, out);
    r := WriteVarint(v, r);
  }

  method WriteBytesField(num: FieldNumber, data: seq<byte>, out: seq<byte>) returns (r: seq<byte>)
    ensures r == out + EncodeRecord(Bytes(num, data))
  {
    r := WriteTag(num, 2, out);
    r := WriteVarint(|data|, r);
    r := r + data;
  }

  method WriteFixed32Field(num: FieldNumber, bits: uint32, out: seq<byte>) returns (r: seq<byte>)
    ensures r == out + EncodeRecord(Fixed32(num, bits))
  {
    r := WriteTag(num, 5, out);
    r := r + LittleEndian(bits, 4);
  }

  // The generated code writes a scalar field only when it differs from its default.

  method WriteVarintUnlessZero(num: FieldNumber, v: uint64, out: seq<byte>) returns (r: seq<byte>)
    ensures r == out + EncodeRecords(VarintUnlessZero(num, v))
  {
    OneRecord(Varint(num, v));
    if v != 0 {
      r := WriteVarintField(num, v, out);
    } else {
      r := out;
    }
  }

  method WriteFloatUnlessZero(num: FieldNumber, bits: uint32, out: seq<byte>) returns (r: seq<byte>)
    ensures r == out + EncodeRecords(FloatUnlessZero(num, bits))
  {
    OneRecord(Fixed32(num, bits));
    if !IsFloatZero(bits) {
      r := WriteFixed32Field(num, bits, out);
    } else {
      r := out;
    }
  }

  method WriteStringUnlessEmpty(num: FieldNumber, data: seq<byte>, out: seq<byte>) returns (r: seq<byte>)
    ensures r == out + EncodeRecords(BytesUnlessEmpty(num, data))
  {
    OneRecord(Bytes(num, data));
    if |data| > 0 {
      r := WriteBytesField(num, data, out);
    } else {
      r := out;
    }
  }

  /** A packed list is written when its cached size is positive. */
  method WritePackedIfSized(num: FieldNumber, vs: seq<uint64>, byteSize: int, out: seq<byte>) returns (r: seq<byte>)
    requires byteSize == |EncodePacked(vs)|
    ensures r == out + EncodeRecords(BytesUnlessEmpty(num, EncodePacked(vs)))
  {
    OneRecord(Bytes(num, EncodePacked(vs)));
    if byteSize > 0 {
      r := WritePackedField(num, vs, byteSize, out);
    } else {
      r := out;
    }
  }

  /** WriteUInt64Packed: the length comes from the caller's cache; a do-while writes at least one element. */
  method WritePackedField(num: FieldNumber, vs: seq<uint64>, byteSize: nat, out: seq<byte>) returns (r: seq<byte>)
    requires vs != [] && byteSize == |EncodePacked(vs)|
    ensures r == out + EncodeRecord(Bytes(num, EncodePacked(vs)))
  {
    r := WriteTag(num, 2, out);
    r := WriteVarint(byteSize, r);
    ghost var head := r;
    var i := 0;
    assert vs[0..] == vs;
    while i == 0 || i < |vs|
      invariant i <= |vs|
      invariant r + EncodePacked(vs[i..]) == head + EncodePacked(vs)
      decreases |vs| - i
    {
      PackedStep(r, vs, i);
      r := WriteVarint(vs[i], r);
      i := i + 1;
    }
    WholeBytesField(num, EncodePacked(vs), out);
  }

  lemma PackedStep(done: seq<byte>, vs: seq<uint64>, i: nat)
    requires i < |vs|
    ensures done + EncodeVarint(vs[i]) + EncodePacked(vs[i + 1..]) == done + EncodePacked(vs[i..])
  {
    assert vs[i..][1..] == vs[i + 1..];
  }

  lemma WholeBytesField(num: FieldNumber, data: seq<byte>, out: seq<byte>)
    ensures out + EncodeVarint(Tag(num, 2)) + EncodeVarint(|data|) + data == out + EncodeRecord(Bytes(num, data))
  {
    ConcatFour(out, EncodeVarint(Tag(num, 2)), EncodeVarint(|data|), data);
  }

  /** InternalSerializeUnknownFieldsToArray. */
  method WriteUnknown(rs: seq<Record>, out: seq<byte>) returns (r: seq<byte>)
    ensures r == out + EncodeRecords(rs)
    decreases rs, 1
  {
    r := out;
    var i := 0;
    assert rs[0..] == rs;
    while i < |rs|
      invariant i <= |rs|
      invariant r + EncodeRecords(rs[i..]) == out + EncodeRecords(rs)
    {
      assert rs[i] in rs;
      RecordsStep(r, rs, i);
      r := WriteRecord(rs[i], r);
      i := i + 1;
    }
  }

  lemma RecordsStep(done: seq<byte>, rs: seq<Record>, i: nat)
    requires i < |rs|
    ensures done + EncodeRecord(rs[i]) + EncodeRecords(rs[i + 1..]) == done + EncodeRecords(rs[i..])
  {
    assert rs[i..][1..] == rs[i + 1..];
  }

  method WriteRecord(f: Record, out: seq<byte>) returns (r: seq<byte>)
    ensures r == out + EncodeRecord(f)
    decreases f, 0
  {
    match f {
      case Varint(num, v) => r := WriteVarintField(num, v, out);
      case Fixed32(num, bits) => r := WriteFixed32Field(num, bits, out);
      case Fixed64(num, v) =>
        r := WriteTag(num, 1, out);
        r := r + LittleEndian(v, 8);
      case Bytes(num, data) => r := WriteBytesField(num, data, out);
      case Group(num, fields) =>
        r := WriteTag(num, 3, out);
        r := WriteUnknown(fields, r);
        r := WriteTag(num, 4, r);
    }
  }

  // ----- sizes -----

  /** Floor of the base-2 logarithm. */
  function Log2(v: nat): nat
    requires v > 0
  {
    if v == 1 then 0 else 1 + Log2(v / 2)
  }

  /** VarintSize64 and VarintSize32: a multiplication stands in for a division by seven. */
  function VarintSize(v: nat): nat
  {
    (Log2(if v == 0 then 1 else v) * 9 + 73) / 64
  }

  /** static_cast of a size to uint32 and to int. */
  function AsUint32(size: nat): uint32 { size % TWO_32 }
  function AsInt32(size: nat): int32 { ToInt32(size % TWO_64) }

  /** Int32Size and EnumSize: ten bytes for every negative value. */
  function Int32Size(v: int32): nat
  {
    if v < 0 then 10 else VarintSize(v)
  }

  lemma {:induction false} SevenBits(v: nat)
    requires v >= 128
    ensures Log2(v) == 7 + Log2(v / 128)
  {
    assert v / 2 / 2 / 2 / 2 / 2 / 2 / 2 == v / 128;
    assert Log2(v) == 2 + Log2(v / 2 / 2);
    assert Log2(v / 2 / 2) == 2 + Log2(v / 2 / 2 / 2 / 2);
    assert Log2(v / 2 / 2 / 2 / 2) == 2 + Log2(v / 2 / 2 / 2 / 2 / 2 / 2);
  }

  lemma {:induction false} LogBound(v: nat, k: nat)
    requires 0 < v < Pow(2, k)
    ensures Log2(v) < k
  {
    if v > 1 { LogBound(v / 2, k - 1); }
  }

  lemma {:induction false} VarintLength(v: nat)
    ensures |EncodeVarint(v)| == Log2(if v == 0 then 1 else v) / 7 + 1
  {
    if v < 128 {
      assert Pow(2, 7) == 2 * (2 * (2 * (2 * Pow(2, 3))));
      LogBound(if v == 0 then 1 else v, 7);
    } else {
      SevenBits(v);
      VarintLength(v / 128);
    }
  }

  /** The multiplication trick gives the width of every 64-bit varint. */
  lemma VarintSizeIsLength(v: nat)
    requires v < TWO_64
    ensures VarintSize(v) == |EncodeVarint(v)|
  {
    VarintLength(v);
    assert Pow(2, 32) == TWO_32 && Pow(2, 64) == TWO_64 by { PowersOfTwo(); }
    LogBound(if v == 0 then 1 else v, 64);
  }

  lemma PowersOfTwo()
    ensures Pow(2, 32) == TWO_32 && Pow(2, 64) == TWO_64
  {
    PowAdd(2, 4, 4);
    PowAdd(2, 8, 8);
    PowAdd(2, 16, 16);
    PowAdd(2, 32, 32);
    assert Pow(2, 4) == 2 * (2 * Pow(2, 2));
  }

  lemma {:induction false} PowAdd(b: nat, e: nat, f: nat)
    ensures Pow(b, e + f) == Pow(b, e) * Pow(b, f)
  {
    if e == 0 {
    } else {
      PowAdd(b, e - 1, f);
      MulAssociative(b, Pow(b, e - 1), Pow(b, f));
    }
  }

  lemma Int32SizeIsLength(v: int32)
    ensures Int32Size(v) == |EncodeVarint(SignExtend(v))|
  {
    VarintSizeIsLength(SignExtend(v));
    if v < 0 {
      VarintLength(SignExtend(v));
      PowersOfTwo();
      assert Pow(2, 64) == 2 * Pow(2, 63);
      LogBound(SignExtend(v), 64);
      LogLower(SignExtend(v), 63);
    }
  }

  lemma {:induction false} LogLower(v: nat, k: nat)
    requires v >= Pow(2, k)
    ensures v > 0 && Log2(v) >= k
  {
    if k == 0 {
    } else {
      LogLower(v / 2, k - 1);
    }
  }

  // ----- a computed size against the exact one -----

  /** Equal, or both so large that the 2 GB check refuses the message. */
  predicate SameSize(computed: int, exact: int)
  {
    computed == exact || (computed > INT_MAX && exact > INT_MAX)
  }

  lemma SameSizeSum(a: nat, b: nat, c: nat, d: nat)
    requires SameSize(a, b) && SameSize(c, d)
    ensures SameSize(a + c, b + d)
  {
  }

  /** LengthDelimitedSize: the length is cast to uint32 before its varint is measured. */
  function LengthDelimitedSize(length: nat): (size: nat)
  {
    length + VarintSize(AsUint32(length))
  }

  lemma LengthDelimitedSizeIsSame(length: nat, exact: nat)
    requires SameSize(length, exact)
    ensures SameSize(LengthDelimitedSize(length), |EncodeVarint(exact)| + exact)
  {
    if length == exact && length < TWO_32 {
      assert AsUint32(length) == length;
      VarintSizeIsLength(length);
    } else {
      assert length > INT_MAX && exact > INT_MAX;
    }
  }

  /** UInt64Size of a repeated field: the sum over its elements. */
  method PackedSize(vs: seq<uint64>) returns (size: nat)
    ensures size == |EncodePacked(vs)|
  {
    size := 0;
    var i := 0;
    assert vs[0..] == vs;
    while i < |vs|
      invariant i <= |vs| && size + |EncodePacked(vs[i..])| == |EncodePacked(vs)|
    {
      assert vs[i..][1..] == vs[i + 1..];
      VarintSizeIsLength(vs[i]);
      size := size + VarintSize(vs[i]);
      i := i + 1;
    }
  }

  /** ComputeUnknownFieldsSize. */
  method UnknownSize(rs: seq<Record>) returns (size: nat)
    ensures SameSize(size, |EncodeRecords(rs)|)
    decreases rs, 1
  {
    size := 0;
    ghost var exact := 0;
    var i := 0;
    assert rs[0..] == rs;
    while i < |rs|
      invariant i <= |rs| && SameSize(size, exact)
      invariant exact + |EncodeRecords(rs[i..])| == |EncodeRecords(rs)|
    {
      assert rs[i..][1..] == rs[i + 1..];
      assert rs[i] in rs;
      var n := RecordSize(rs[i]);
      size := size + n;
      exact := exact + |EncodeRecord(rs[i])|;
      i := i + 1;
    }
  }

  method RecordSize(r: Record) returns (size: nat)
    ensures SameSize(size, |EncodeRecord(r)|)
    decreases r, 0
  {
    VarintSizeIsLength(Tag(r.num, WireType(r)));
    size := VarintSize(Tag(r.num, WireType(r)));
    match r {
      case Varint(_, v) =>
        VarintSizeIsLength(v);
        size := size + VarintSize(v);
      case Fixed32(_, _) => size := size + 4;
      case Fixed64(_, _) => size := size + 8;
      case Bytes(_, data) =>
        LengthDelimitedSizeIsSame(|data|, |data|);
        size := size + LengthDelimitedSize(|data|);
      case Group(num, fields) =>
        VarintSizeIsLength(Tag(num, 4));
        var inner := UnknownSize(fields);
        size := size + inner + VarintSize(Tag(num, 4));
    }
  }

  /** A packed field: the length is cast to int before its varint is measured. */
  lemma PackedFieldSizeIsSame(num: FieldNumber, vs: seq<uint64>)
    requires num < 16
    ensures SameSize(PackedFieldSize(|EncodePacked(vs)|), |EncodeRecords(BytesUnlessEmpty(num, EncodePacked(vs)))|)
  {
    var n := |EncodePacked(vs)|;
    OneRecord(Bytes(num, EncodePacked(vs)));
    if n <= INT_MAX {
      SmallCast(n);
      Int32SizeIsLength(n);
    }
  }

  lemma SmallCast(n: nat)
    requires n <= INT_MAX
    ensures AsInt32(n) == n
  {
    assert n % TWO_64 == n && n % TWO_32 == n;
  }

  function VarintFieldSize(v: uint64): nat
  {
    if v != 0 then 1 + VarintSize(v) else 0
  }

  function IntFieldSize(v: int32): nat
  {
    if v != 0 then 1 + Int32Size(v) else 0
  }

  function StringFieldSize(s: seq<byte>): nat
  {
    if |s| > 0 then 1 + LengthDelimitedSize(|s|) else 0
  }

  function FloatFieldSize(bits: uint32): nat
  {
    if !IsFloatZero(bits) then 1 + 4 else 0
  }

  function PackedFieldSize(dataSize: nat): nat
  {
    (if dataSize > 0 then 1 + Int32Size(AsInt32(dataSize)) else 0) + dataSize
  }

  lemma VarintFieldSizeIsLength(num: FieldNumber, v: uint64)
    requires num < 16
    ensures VarintFieldSize(v) == |EncodeRecords(VarintUnlessZero(num, v))|
  {
    OneRecord(Varint(num, v));
    VarintSizeIsLength(v);
  }

  lemma IntFieldSizeIsLength(num: FieldNumber, v: int32)
    requires num < 16
    ensures IntFieldSize(v) == |EncodeRecords(IntUnlessZero(num, v))|
  {
    OneRecord(Varint(num, SignExtend(v)));
    Int32SizeIsLength(v);
  }

  lemma FloatFieldSizeIsLength(num: FieldNumber, bits: uint32)
    requires num < 16
    ensures FloatFieldSize(bits) == |EncodeRecords(FloatUnlessZero(num, bits))|
  {
    OneRecord(Fixed32(num, bits));
  }

  lemma StringFieldSizeIsSame(num: FieldNumber, s: seq<byte>)
    requires num < 16
    ensures SameSize(StringFieldSize(s), |EncodeRecords(BytesUnlessEmpty(num, s))|)
  {
    OneRecord(Bytes(num, s));
    LengthDelimitedSizeIsSame(|s|, |s|);
  }
}
