/**
 The Protocol Buffers wire format, as the message parsers and printers of this server use it: base-128
 varints, tags, lengths, and the records a message is a concatenation of. A record is one tag with its
 payload. Reading a record depends only on its wire type, never on the message it belongs to, which is
 what lets a known field and an unknown field be read the same way.
 */
module Wire {
  import opened Prelude

  type FieldNumber = n: int | 1 <= n < 0x2000_0000 witness 1

  datatype Record =
    | Varint(num: FieldNumber, v: uint64)
    | Fixed64(num: FieldNumber, v: uint64)
    | Bytes(num: FieldNumber, data: seq<byte>)
    | Group(num: FieldNumber, fields: seq<Record>)
    | Fixed32(num: FieldNumber, bits: uint32)

  // Lengths above this are refused when read: INT_MAX less the 16 slop bytes of an input chunk.
  const MAX_LENGTH: int := 0x7FFF_FFFF - 16

  // ----- base 128 -----

  function EncodeVarint(v: nat): (bs: seq<byte>)
    ensures |bs| >= 1
  {
    if v < 128 then [v] else [v % 128 + 128] + EncodeVarint(v / 128)
  }

  /** The number at the head of `bs`, least significant group first, in at most `max` bytes. */
  function ReadBase128(bs: seq<byte>, max: nat): (r: Option<(nat, seq<byte>)>)
    ensures r.Some? ==> |r.value.1| < |bs| && r.value.1 == bs[|bs| - |r.value.1|..]
  {
    if max == 0 || bs == [] then None
    else if bs[0] < 128 then Some((bs[0], bs[1..]))
    else
      match ReadBase128(bs[1..], max - 1)
      case None => None
      case Some((high, rest)) => Some((bs[0] - 128 + 128 * high, rest))
  }

  function ReadVarint(bs: seq<byte>): (r: Option<(uint64, seq<byte>)>)
    ensures r.Some? ==> |r.value.1| < |bs|
  {
    match ReadBase128(bs, 10)
    case None => None
    case Some((v, rest)) => Some((v % TWO_64, rest))
  }

  function ReadTag(bs: seq<byte>): (r: Option<(uint32, seq<byte>)>)
    ensures r.Some? ==> |r.value.1| < |bs|
  {
    match ReadBase128(bs, 5)
    case None => None
    case Some((v, rest)) => Some((v % TWO_32, rest))
  }

  function ReadSize(bs: seq<byte>): (r: Option<(nat, seq<byte>)>)
    ensures r.Some? ==> |r.value.1| < |bs|
  {
    match ReadBase128(bs, 5)
    case None => None
    case Some((v, rest)) => if v <= MAX_LENGTH then Some((v, rest)) else None
  }

  function LittleEndian(v: nat, width: nat): (bs: seq<byte>)
    ensures |bs| == width
  {
    if width == 0 then [] else [v % 256] + LittleEndian(v / 256, width - 1)
  }

  function FromLittleEndian(bs: seq<byte>): nat
  {
    if bs == [] then 0 else bs[0] + 256 * FromLittleEndian(bs[1..])
  }

  function ReadFixed32(bs: seq<byte>): (r: Option<(uint32, seq<byte>)>)
    ensures r.Some? ==> |r.value.1| < |bs|
  {
    if |bs| < 4 then None else
      FixedWidths();
      FromLittleEndianBound(bs[..4]);
      Some((FromLittleEndian(bs[..4]), bs[4..]))
  }

  function ReadFixed64(bs: seq<byte>): (r: Option<(uint64, seq<byte>)>)
    ensures r.Some? ==> |r.value.1| < |bs|
  {
    if |bs| < 8 then None else
      FixedWidths();
      FromLittleEndianBound(bs[..8]);
      Some((FromLittleEndian(bs[..8]), bs[8..]))
  }

  /** A length, then that many bytes. */
  function ReadDelimited(bs: seq<byte>): (r: Option<(seq<byte>, seq<byte>)>)
    ensures r.Some? ==> |r.value.1| < |bs| && |r.value.0| < |bs|
  {
    match ReadSize(bs)
    case None => None
    case Some((n, rest)) => if |rest| < n then None else Some((rest[..n], rest[n..]))
  }

  function Pow(b: nat, e: nat): nat
  {
    if e == 0 then 1 else b * Pow(b, e - 1)
  }

  lemma {:induction false} FromLittleEndianBound(bs: seq<byte>)
    ensures FromLittleEndian(bs) < Pow(256, |bs|)
  {
    if bs == [] {
    } else {
      FromLittleEndianBound(bs[1..]);
    }
  }

  lemma {:induction false} LittleEndianRoundTrip(v: nat, width: nat)
    requires v < Pow(256, width)
    ensures FromLittleEndian(LittleEndian(v, width)) == v
  {
    if width == 0 {
    } else {
      LittleEndianRoundTrip(v / 256, width - 1);
      assert LittleEndian(v, width)[1..] == LittleEndian(v / 256, width - 1);
    }
  }

  lemma FixedWidths()
    ensures Pow(256, 4) == TWO_32 && Pow(256, 8) == TWO_64
  {
    assert Pow(256, 2) == 0x1_0000;
    assert Pow(256, 4) == 256 * (256 * Pow(256, 2));
    assert Pow(256, 6) == 256 * (256 * Pow(256, 4));
    assert Pow(256, 8) == 256 * (256 * Pow(256, 6));
  }

  // ----- records -----

  function Tag(num: FieldNumber, wireType: nat): (tag: uint32)
    requires wireType < 8
  {
    8 * num + wireType
  }

  /** The record at the head of `bs`. `depth` is how many more groups may be opened. */
  function ReadRecord(bs: seq<byte>, depth: nat): (r: Option<(Record, seq<byte>)>)
    ensures r.Some? ==> |r.value.1| < |bs|
    decreases |bs|, 0
  {
    match ReadTag(bs)
    case None => None
    case Some((tag, rest)) => ReadPayload(tag, rest, depth)
  }

  /** The payload after a tag. Tag 0, field number 0, and a group end that was not waited for are refused. */
  function ReadPayload(tag: uint32, bs: seq<byte>, depth: nat): (r: Option<(Record, seq<byte>)>)
    ensures r.Some? ==> |r.value.1| <= |bs|
    decreases |bs|, 2
  {
    var num := tag / 8;
    if num == 0 then None
    else match tag % 8
      case 0 => (match ReadVarint(bs)
        case None => None
        case Some((v, rest)) => Some((Varint(num, v), rest)))
      case 1 => (match ReadFixed64(bs)
        case None => None
        case Some((v, rest)) => Some((Fixed64(num, v), rest)))
      case 2 => (match ReadDelimited(bs)
        case None => None
        case Some((data, rest)) => Some((Bytes(num, data), rest)))
      case 3 => if depth == 0 then None else
        (match ReadGroup(bs, num, depth - 1)
        case None => None
        case Some((fields, rest)) => Some((Group(num, fields), rest)))
      case 5 => (match ReadFixed32(bs)
        case None => None
        case Some((bits, rest)) => Some((Fixed32(num, bits), rest)))
      case _ => None
  }

  /** Records up to the end tag of group `num`, which is consumed. */
  function ReadGroup(bs: seq<byte>, num: FieldNumber, depth: nat): (r: Option<(seq<Record>, seq<byte>)>)
    ensures r.Some? ==> |r.value.1| < |bs|
    decreases |bs|, 1
  {
    match ReadTag(bs)
    case None => None
    case Some((tag, afterTag)) =>
      if tag == Tag(num, 4) then Some(([], afterTag))
      else
        match ReadRecord(bs, depth)
        case None => None
        case Some((field, rest)) =>
          match ReadGroup(rest, num, depth)
          case None => None
          case Some((fields, rest')) => Some(([field] + fields, rest'))
  }

  function WireType(r: Record): (t: nat)
    ensures t < 8 && t != 4
  {
    match r
    case Varint(_, _) => 0
    case Fixed64(_, _) => 1
    case Bytes(_, _) => 2
    case Group(_, _) => 3
    case Fixed32(_, _) => 5
  }

  function EncodePayload(r: Record): seq<byte>
    decreases r, 0
  {
    match r
    case Varint(_, v) => EncodeVarint(v)
    case Fixed64(_, v) => LittleEndian(v, 8)
    case Bytes(_, data) => EncodeVarint(|data|) + data
    case Group(num, fields) => EncodeRecords(fields) + EncodeVarint(Tag(num, 4))
    case Fixed32(_, bits) => LittleEndian(bits, 4)
  }

  function EncodeRecord(r: Record): (bs: seq<byte>)
    ensures |bs| >= 1
    decreases r, 1
  {
    EncodeVarint(Tag(r.num, WireType(r))) + EncodePayload(r)
  }

  function EncodeRecords(rs: seq<Record>): seq<byte>
    decreases rs, 2
  {
    if rs == [] then [] else EncodeRecord(rs[0]) + EncodeRecords(rs[1..])
  }

  /** A record a reader accepts: no length above the limit, no more than `depth` groups inside each other. */
  predicate Fits(r: Record, depth: nat)
    decreases r
  {
    match r
    case Bytes(_, data) => |data| <= MAX_LENGTH
    case Group(_, fields) => depth > 0 && forall f | f in fields :: Fits(f, depth - 1)
    case _ => true
  }

  predicate AllFit(rs: seq<Record>, depth: nat)
  {
    forall r | r in rs :: Fits(r, depth)
  }

  lemma AllFitHead(rs: seq<Record>, depth: nat)
    requires rs != []
    ensures AllFit(rs, depth) <==> Fits(rs[0], depth) && AllFit(rs[1..], depth)
  {
    assert rs == [rs[0]] + rs[1..];
  }

  // ----- reading undoes writing -----

  lemma {:induction false} VarintRoundTrip(v: nat, max: nat, rest: seq<byte>)
    requires max > 0 && v < Pow(128, max)
    ensures ReadBase128(EncodeVarint(v) + rest, max) == Some((v, rest))
  {
    var bs := EncodeVarint(v) + rest;
    if v < 128 {
      assert bs[1..] == rest;
    } else {
      DropDigit(v, max);
      hide Pow;
      VarintRoundTrip(v / 128, max - 1, rest);
      assert bs[1..] == EncodeVarint(v / 128) + rest;
    }
  }

  lemma DropDigit(v: nat, max: nat)
    requires max > 0 && 128 <= v < Pow(128, max)
    ensures max > 1 && v / 128 < Pow(128, max - 1)
  {
    assert Pow(128, 1) == 128 * Pow(128, 0);
  }

  lemma VarintWidths()
    ensures Pow(128, 5) == 0x8_0000_0000 && Pow(128, 10) == 0x40 * TWO_64
  {
    assert Pow(128, 3) == 128 * Pow(128, 2);
    assert Pow(128, 5) == 128 * (128 * Pow(128, 3));
    assert Pow(128, 7) == 128 * (128 * Pow(128, 5));
    assert Pow(128, 9) == 128 * (128 * Pow(128, 7));
    assert Pow(128, 10) == 128 * Pow(128, 9);
  }

  lemma TagRoundTrip(num: FieldNumber, wireType: nat, rest: seq<byte>)
    requires wireType < 8
    ensures ReadTag(EncodeVarint(Tag(num, wireType)) + rest) == Some((Tag(num, wireType), rest))
  {
    VarintWidths();
    VarintRoundTrip(Tag(num, wireType), 5, rest);
  }

  /** A length is read back exactly when it is within the limit. */
  lemma SizeRoundTrip(n: nat, rest: seq<byte>)
    ensures ReadSize(EncodeVarint(n) + rest) == if n <= MAX_LENGTH then Some((n, rest)) else None
  {
    VarintWidths();
    if n < Pow(128, 5) {
      VarintRoundTrip(n, 5, rest);
    } else {
      LongVarintRefused(n, 5, rest);
    }
  }

  lemma {:induction false} LongVarintRefused(v: nat, max: nat, rest: seq<byte>)
    requires v >= Pow(128, max)
    ensures ReadBase128(EncodeVarint(v) + rest, max).None?
  {
    if max == 0 {
    } else {
      var p := Pow(128, max - 1);
      assert v >= 128 * p && p >= 1 by { PowPositive(128, max - 1); }
      LongVarintRefused(v / 128, max - 1, rest);
      assert (EncodeVarint(v) + rest)[1..] == EncodeVarint(v / 128) + rest;
    }
  }

  lemma {:induction false} PowPositive(b: nat, e: nat)
    requires b > 0
    ensures Pow(b, e) > 0
  {
    if e == 0 {
    } else {
      PowPositive(b, e - 1);
    }
  }

  lemma Fixed64RoundTrip(v: uint64, rest: seq<byte>)
    ensures ReadFixed64(LittleEndian(v, 8) + rest) == Some((v, rest))
  {
    FixedWidths();
    LittleEndianRoundTrip(v, 8);
    assert (LittleEndian(v, 8) + rest)[..8] == LittleEndian(v, 8);
    assert (LittleEndian(v, 8) + rest)[8..] == rest;
  }

  lemma Fixed32RoundTrip(bits: uint32, rest: seq<byte>)
    ensures ReadFixed32(LittleEndian(bits, 4) + rest) == Some((bits, rest))
  {
    FixedWidths();
    LittleEndianRoundTrip(bits, 4);
    assert (LittleEndian(bits, 4) + rest)[..4] == LittleEndian(bits, 4);
    assert (LittleEndian(bits, 4) + rest)[4..] == rest;
  }

  lemma DelimitedRoundTrip(data: seq<byte>, rest: seq<byte>)
    ensures ReadDelimited(EncodeVarint(|data|) + (data + rest))
         == if |data| <= MAX_LENGTH then Some((data, rest)) else None
  {
    SizeRoundTrip(|data|, data + rest);
    assert (data + rest)[..|data|] == data && (data + rest)[|data|..] == rest;
  }

  lemma Varint64RoundTrip(v: uint64, rest: seq<byte>)
    ensures ReadVarint(EncodeVarint(v) + rest) == Some((v, rest))
  {
    VarintWidths();
    VarintRoundTrip(v, 10, rest);
  }

  /** Reading a written record gives it back when it fits and fails when it does not. */
  lemma {:induction false} RecordRoundTrip(r: Record, rest: seq<byte>, depth: nat)
    ensures ReadRecord(EncodeRecord(r) + rest, depth) == if Fits(r, depth) then Some((r, rest)) else None
    decreases r, 1
  {
    PayloadRoundTrip(r, rest, depth);
    assert EncodeRecord(r) + rest == EncodeVarint(Tag(r.num, WireType(r))) + (EncodePayload(r) + rest);
    TagRoundTrip(r.num, WireType(r), EncodePayload(r) + rest);
  }

  lemma {:induction false} PayloadRoundTrip(r: Record, rest: seq<byte>, depth: nat)
    ensures ReadPayload(Tag(r.num, WireType(r)), EncodePayload(r) + rest, depth)
         == if Fits(r, depth) then Some((r, rest)) else None
    decreases r, 0
  {
    var tag := Tag(r.num, WireType(r));
    assert tag / 8 == r.num && tag % 8 == WireType(r);
    match r
    case Varint(_, v) =>
      Varint64RoundTrip(v, rest);
    case Fixed64(_, v) =>
      Fixed64RoundTrip(v, rest);
    case Bytes(_, data) =>
      assert EncodePayload(r) + rest == EncodeVarint(|data|) + (data + rest);
      DelimitedRoundTrip(data, rest);
    case Group(num, fields) =>
      assert EncodePayload(r) + rest == EncodeRecords(fields) + (EncodeVarint(Tag(num, 4)) + rest);
      if depth > 0 {
        GroupRoundTrip(fields, num, rest, depth - 1);
      }
    case Fixed32(_, bits) =>
      Fixed32RoundTrip(bits, rest);
  }

  lemma {:induction false} GroupRoundTrip(fields: seq<Record>, num: FieldNumber, rest: seq<byte>, depth: nat)
    ensures ReadGroup(EncodeRecords(fields) + (EncodeVarint(Tag(num, 4)) + rest), num, depth)
         == if AllFit(fields, depth) then Some((fields, rest)) else None
    decreases fields, 0
  {
    var end := EncodeVarint(Tag(num, 4)) + rest;
    if fields == [] {
      assert EncodeRecords(fields) + end == end;
      TagRoundTrip(num, 4, rest);
    } else {
      var more := EncodeRecords(fields[1..]) + end;
      assert EncodeRecords(fields) + end == EncodeRecord(fields[0]) + more;
      FirstTag(fields[0], more);
      GroupStep(EncodeRecord(fields[0]) + more, num, depth);
      RecordRoundTrip(fields[0], more, depth);
      GroupRoundTrip(fields[1..], num, rest, depth);
      AllFitHead(fields, depth);
      assert fields == [fields[0]] + fields[1..];
    }
  }

  /** Inside a group, bytes that do not start with its end tag start with a record. */
  lemma GroupStep(bs: seq<byte>, num: FieldNumber, depth: nat)
    requires ReadTag(bs).Some? && ReadTag(bs).value.0 % 8 != 4
    ensures ReadRecord(bs, depth).None? ==> ReadGroup(bs, num, depth).None?
    ensures ReadRecord(bs, depth).Some? ==>
      var (field, rest) := ReadRecord(bs, depth).value;
      var tail := ReadGroup(rest, num, depth);
      ReadGroup(bs, num, depth) == if tail.None? then None else Some(([field] + tail.value.0, tail.value.1))
  {
    assert Tag(num, 4) % 8 == 4;
  }

  /** A written record starts with a tag that ends no group. */
  lemma FirstTag(r: Record, rest: seq<byte>)
    ensures var t := ReadTag(EncodeRecord(r) + rest); t.Some? && t.value.0 % 8 != 4
  {
    assert EncodeRecord(r) + rest == EncodeVarint(Tag(r.num, WireType(r))) + (EncodePayload(r) + rest);
    TagRoundTrip(r.num, WireType(r), EncodePayload(r) + rest);
  }

  // ----- what was read stays read when more bytes follow -----

  lemma {:induction false} Base128Prefix(a: seq<byte>, b: seq<byte>, max: nat)
    requires ReadBase128(a, max).Some?
    ensures ReadBase128(a + b, max) == Some((ReadBase128(a, max).value.0, ReadBase128(a, max).value.1 + b))
  {
    assert (a + b)[1..] == a[1..] + b;
    if a[0] >= 128 {
      Base128Prefix(a[1..], b, max - 1);
    }
  }

  lemma DelimitedPrefix(a: seq<byte>, b: seq<byte>)
    requires ReadDelimited(a).Some?
    ensures ReadDelimited(a + b) == Some((ReadDelimited(a).value.0, ReadDelimited(a).value.1 + b))
  {
    Base128Prefix(a, b, 5);
    hide ReadBase128;
    var Some((n, rest)) := ReadSize(a);
    SplitConcat(rest, b, n);
  }

  lemma {:induction false} RecordPrefix(a: seq<byte>, b: seq<byte>, depth: nat)
    requires ReadRecord(a, depth).Some?
    ensures ReadRecord(a + b, depth) == Some((ReadRecord(a, depth).value.0, ReadRecord(a, depth).value.1 + b))
    decreases |a|, 0
  {
    Base128Prefix(a, b, 5);
    var Some((tag, rest)) := ReadTag(a);
    PayloadPrefix(tag, rest, b, depth);
  }

  lemma {:induction false} PayloadPrefix(tag: uint32, a: seq<byte>, b: seq<byte>, depth: nat)
    requires ReadPayload(tag, a, depth).Some?
    ensures ReadPayload(tag, a + b, depth)
         == Some((ReadPayload(tag, a, depth).value.0, ReadPayload(tag, a, depth).value.1 + b))
    decreases |a|, 2
  {
    match tag % 8
    case 0 =>
      Base128Prefix(a, b, 10);
    case 1 =>
      SplitConcat(a, b, 8);
    case 2 =>
      DelimitedPrefix(a, b);
    case 3 =>
      GroupPrefix(a, b, tag / 8, depth - 1);
    case 5 =>
      SplitConcat(a, b, 4);
    case _ =>
  }

  lemma {:induction false} GroupPrefix(a: seq<byte>, b: seq<byte>, num: FieldNumber, depth: nat)
    requires ReadGroup(a, num, depth).Some?
    ensures ReadGroup(a + b, num, depth)
         == Some((ReadGroup(a, num, depth).value.0, ReadGroup(a, num, depth).value.1 + b))
    decreases |a|, 1
  {
    Base128Prefix(a, b, 5);
    if ReadTag(a).value.0 != Tag(num, 4) {
      RecordPrefix(a, b, depth);
      GroupPrefix(ReadRecord(a, depth).value.1, b, num, depth);
    }
  }

  // ----- parsing: a left fold over records -----

  /** One message kind is given by how it takes in a record; `depth` bounds nesting below it. */
  type Apply<!M> = (M, Record, nat) -> Option<M>

  /** The generated parse loop: take in records until the bytes run out, or fail. */
  function ParseFrom<M>(apply: Apply<M>, m: M, bs: seq<byte>, depth: nat): Option<M>
    decreases |bs|
  {
    if bs == [] then Some(m)
    else
      match ReadRecord(bs, depth)
      case None => None
      case Some((r, rest)) =>
        match apply(m, r, depth)
        case None => None
        case Some(m') => ParseFrom(apply, m', rest, depth)
  }

  /** A sub-message costs one level of nesting and is refused when none is left. */
  function ParseSub<M>(apply: Apply<M>, m: M, bs: seq<byte>, depth: nat): Option<M>
  {
    if depth == 0 then None else ParseFrom(apply, m, bs, depth - 1)
  }

  /** One turn of the parse loop, after its tag has been read. */
  lemma ParseTurn<M>(apply: Apply<M>, m: M, bs: seq<byte>, tag: uint32, rest: seq<byte>, depth: nat)
    requires ReadTag(bs) == Some((tag, rest))
    ensures ParseFrom(apply, m, bs, depth) == AfterPayload(apply, m, ReadPayload(tag, rest, depth), depth)
  {
  }

  function AfterPayload<M>(apply: Apply<M>, m: M, p: Option<(Record, seq<byte>)>, depth: nat): Option<M>
  {
    match p
    case None => None
    case Some((r, rest)) =>
      match apply(m, r, depth)
      case None => None
      case Some(m') => ParseFrom(apply, m', rest, depth)
  }

  /** Tag 0 and an end-group tag carry nothing. */
  lemma PayloadRefused(tag: uint32, bs: seq<byte>, depth: nat)
    requires tag == 0 || tag % 8 == 4
    ensures ReadPayload(tag, bs, depth) == None
  {
  }

  lemma PayloadOfVarint(tag: uint32, bs: seq<byte>, depth: nat)
    requires tag >= 8 && tag % 8 == 0
    ensures ReadPayload(tag, bs, depth)
         == match ReadVarint(bs) case None => None case Some((v, rest)) => Some((Varint(tag / 8, v), rest))
  {
  }

  lemma PayloadOfBytes(tag: uint32, bs: seq<byte>, depth: nat)
    requires tag >= 8 && tag % 8 == 2
    ensures ReadPayload(tag, bs, depth)
         == match ReadDelimited(bs) case None => None case Some((data, rest)) => Some((Bytes(tag / 8, data), rest))
  {
  }

  lemma PayloadOfFixed32(tag: uint32, bs: seq<byte>, depth: nat)
    requires tag >= 8 && tag % 8 == 5
    ensures ReadPayload(tag, bs, depth)
         == match ReadFixed32(bs) case None => None case Some((bits, rest)) => Some((Fixed32(tag / 8, bits), rest))
  {
  }

  /** Take in records one by one; a record no reader would get through, or one the message refuses, fails. */
  function Accept<M>(apply: Apply<M>, m: M, rs: seq<Record>, depth: nat): Option<M>
  {
    if rs == [] then Some(m)
    else if !Fits(rs[0], depth) then None
    else
      match apply(m, rs[0], depth)
      case None => None
      case Some(m') => Accept(apply, m', rs[1..], depth)
  }

  lemma {:induction false} AcceptConcat<M>(apply: Apply<M>, m: M, a: seq<Record>, b: seq<Record>, depth: nat)
    ensures Accept(apply, m, a + b, depth)
         == match Accept(apply, m, a, depth) case None => None case Some(m') => Accept(apply, m', b, depth)
  {
    if a == [] {
      assert a + b == b;
    } else {
      assert (a + b)[1..] == a[1..] + b;
      var m' := apply(m, a[0], depth);
      if m'.Some? {
        AcceptConcat(apply, m'.value, a[1..], b, depth);
      }
    }
  }

  lemma {:induction false} AcceptOne<M>(apply: Apply<M>, m: M, r: Record, depth: nat)
    ensures Accept(apply, m, [r], depth) == if Fits(r, depth) then apply(m, r, depth) else None
  {
    var m' := apply(m, r, depth);
    if m'.Some? {
      assert Accept(apply, m'.value, [r][1..], depth) == m';
    }
  }

  lemma AcceptCons<M>(apply: Apply<M>, m: M, r: Record, rs: seq<Record>, depth: nat)
    ensures Accept(apply, m, [r] + rs, depth)
         == if !Fits(r, depth) then None
            else if apply(m, r, depth).None? then None
            else Accept(apply, apply(m, r, depth).value, rs, depth)
  {
    assert ([r] + rs)[1..] == rs;
  }

  /** Bytes already parsed do not depend on the bytes that follow: a concatenation is parsed piece by piece. */
  lemma {:induction false} ParseConcat<M>(apply: Apply<M>, m: M, a: seq<byte>, b: seq<byte>, depth: nat)
    requires ParseFrom(apply, m, a, depth).Some?
    ensures ParseFrom(apply, m, a + b, depth) == ParseFrom(apply, ParseFrom(apply, m, a, depth).value, b, depth)
    decreases |a|
  {
    if a == [] {
      assert a + b == b;
    } else {
      RecordPrefix(a, b, depth);
      var Some((r, rest)) := ReadRecord(a, depth);
      ParseConcat(apply, apply(m, r, depth).value, rest, b, depth);
    }
  }

  /** Parsing written records is taking them in. */
  lemma {:induction false} ParseEncoded<M>(apply: Apply<M>, m: M, rs: seq<Record>, depth: nat)
    ensures ParseFrom(apply, m, EncodeRecords(rs), depth)
         == Accept(apply, m, rs, depth)
  {
    if rs == [] {
    } else {
      RecordRoundTrip(rs[0], EncodeRecords(rs[1..]), depth);
      assert rs == [rs[0]] + rs[1..];
      var m' := apply(m, rs[0], depth);
      if m'.Some? {
        ParseEncoded(apply, m'.value, rs[1..], depth);
      }
    }
  }

  lemma {:induction false} EncodeConcat(a: seq<Record>, b: seq<Record>)
    ensures EncodeRecords(a + b) == EncodeRecords(a) + EncodeRecords(b)
  {
    if a == [] {
      assert a + b == b;
    } else {
      assert (a + b)[1..] == a[1..] + b;
      EncodeConcat(a[1..], b);
    }
  }

  /** A concatenation of written records is taken in piece by piece, and refused exactly when one piece is. */
  lemma ParseEncodedConcat<M>(apply: Apply<M>, m: M, a: seq<Record>, b: seq<Record>, depth: nat)
    ensures ParseFrom(apply, m, EncodeRecords(a) + EncodeRecords(b), depth)
         == match ParseFrom(apply, m, EncodeRecords(a), depth)
            case None => None
            case Some(m') => ParseFrom(apply, m', EncodeRecords(b), depth)
  {
    hide Accept, ParseFrom, EncodeRecords;
    EncodeConcat(a, b);
    ParseEncoded(apply, m, a + b, depth);
    ParseEncoded(apply, m, a, depth);
    AcceptConcat(apply, m, a, b, depth);
    if Accept(apply, m, a, depth).Some? {
      ParseEncoded(apply, Accept(apply, m, a, depth).value, b, depth);
    }
  }

  lemma OneRecord(r: Record)
    ensures EncodeRecords([r]) == EncodeRecord(r)
  {
    assert [r][1..] == [];
    assert EncodeRecord(r) + [] == EncodeRecord(r);
  }

  lemma WriteThen(out: seq<byte>, a: seq<Record>, b: seq<Record>)
    ensures out + EncodeRecords(a + b) == out + EncodeRecords(a) + EncodeRecords(b)
  {
    EncodeConcat(a, b);
  }
}
