/**
 * The wire format as a grammar: which bytes stand for which records, said without a reader. A number may be written
 * with more bytes than it needs. The reader accepts exactly these bytes, and reads them as these records.
 */
module WireGrammar {
  import opened Prelude
  import opened Wire
  import opened Scalars
  import opened Meanings

  /** A number to the base 128: every byte but the last has its top bit set. */
  predicate IsVarint(bs: seq<byte>, max: nat)
  {
    && 0 < |bs| <= max && bs[|bs| - 1] < 128
    && forall i | 0 <= i < |bs| - 1 :: bs[i] >= 128
  }

  /** The sum of the low seven bits of byte i times 128 to the i. */
  function Weight(bs: seq<byte>): nat
  {
    if bs == [] then 0
    else
      var n := |bs| - 1;
      Weight(bs[..n]) + bs[n] % 128 * Pow(128, n)
  }

  lemma {:induction false} WeightOfFirst(b: byte, bs: seq<byte>)
    ensures Weight([b] + bs) == b % 128 + 128 * Weight(bs)
    decreases |bs|
  {
    if bs == [] {
      assert [b] + bs == [b] && [b][..0] == [];
      assert Pow(128, 0) == 1;
    } else {
      var n := |bs| - 1;
      WeightOfFirst(b, bs[..n]);
      assert ([b] + bs)[..n + 1] == [b] + bs[..n] && ([b] + bs)[n + 1] == bs[n];
      assert Pow(128, n + 1) == 128 * Pow(128, n);
      MulAssociative(bs[n] % 128, 128, Pow(128, n));
      Distribute(128, Weight(bs[..n]), bs[n] % 128 * Pow(128, n));
      Swap(bs[n] % 128, 128, Pow(128, n));
    }
  }

  lemma Distribute(a: int, b: int, c: int)
    ensures a * (b + c) == a * b + a * c
  {
  }

  lemma Swap(a: int, b: int, c: int)
    ensures a * (b * c) == b * (a * c)
  {
  }

  lemma NoWeight()
    ensures Weight([]) == 0
  {
  }

  /** The reader takes such a number and leaves what follows it. */
  lemma {:induction false} VarintIsRead(a: seq<byte>, rest: seq<byte>, max: nat)
    requires IsVarint(a, max)
    ensures ReadBase128(a + rest, max) == Some((Weight(a), rest))
    decreases |a|
  {
    hide Weight;
    assert a == [a[0]] + a[1..] && (a + rest)[1..] == a[1..] + rest;
    WeightOfFirst(a[0], a[1..]);
    NoWeight();
    if |a| > 1 {
      VarintIsRead(a[1..], rest, max - 1);
    }
  }

  /** And takes nothing else. */
  lemma {:induction false} ReadIsVarint(bs: seq<byte>, max: nat) returns (k: nat)
    requires ReadBase128(bs, max).Some?
    ensures k <= |bs| && IsVarint(bs[..k], max) && ReadBase128(bs, max) == Some((Weight(bs[..k]), bs[k..]))
    decreases |bs|
  {
    hide Weight;
    NoWeight();
    if bs[0] < 128 {
      k := 1;
      assert bs[..1] == [bs[0]] + [];
      WeightOfFirst(bs[0], []);
    } else {
      var j := ReadIsVarint(bs[1..], max - 1);
      k := j + 1;
      assert bs[..k] == [bs[0]] + bs[1..][..j] && bs[k..] == bs[1..][j..];
      WeightOfFirst(bs[0], bs[1..][..j]);
    }
  }

  /** Four or eight bytes, the lowest first. */
  function Word(bs: seq<byte>): nat
    requires |bs| == 4
  {
    bs[0] as int + 0x100 * (bs[1] as int) + 0x1_0000 * (bs[2] as int) + 0x100_0000 * (bs[3] as int)
  }

  lemma WordIsRead(a: seq<byte>, rest: seq<byte>)
    requires |a| == 4
    ensures ReadFixed32(a + rest) == Some((Word(a), rest))
  {
    assert (a + rest)[..4] == a && (a + rest)[4..] == rest;
    FourBytes(a);
  }

  lemma FourBytes(a: seq<byte>)
    requires |a| == 4
    ensures FromLittleEndian(a) == Word(a)
  {
    assert a[1..][1..] == a[2..] && a[2..][1..] == a[3..] && a[3..][1..] == [];
    assert FromLittleEndian(a[3..]) == a[3];
    assert FromLittleEndian(a[2..]) == a[2] + 256 * FromLittleEndian(a[3..]);
    assert FromLittleEndian(a[1..]) == a[1] + 256 * FromLittleEndian(a[2..]);
  }

  lemma DoubleWordIsRead(a: seq<byte>, rest: seq<byte>)
    requires |a| == 8
    ensures ReadFixed64(a + rest) == Some((Word(a[..4]) + 0x1_0000_0000 * Word(a[4..]), rest))
  {
    assert (a + rest)[..8] == a && (a + rest)[8..] == rest;
    EightBytes(a);
  }

  lemma EightBytes(a: seq<byte>)
    requires |a| == 8
    ensures FromLittleEndian(a) == Word(a[..4]) + 0x1_0000_0000 * Word(a[4..])
  {
    FourBytes(a[4..]);
    assert a[1..][1..] == a[2..] && a[2..][1..] == a[3..] && a[3..][1..] == a[4..];
    assert FromLittleEndian(a[3..]) == a[3] + 256 * FromLittleEndian(a[4..]);
    assert FromLittleEndian(a[2..]) == a[2] + 256 * FromLittleEndian(a[3..]);
    assert FromLittleEndian(a[1..]) == a[1] + 256 * FromLittleEndian(a[2..]);
  }

  /** The bytes are that record, in which at most `depth` groups are inside each other. */
  ghost predicate IsRecord(bs: seq<byte>, r: Record, depth: nat)
    decreases r, 1
  {
    exists k ::
      && 0 <= k <= |bs| && IsVarint(bs[..k], 5) && Weight(bs[..k]) % TWO_32 == 8 * r.num + WireType(r)
      && IsPayload(bs[k..], r, depth)
  }

  ghost predicate IsPayload(bs: seq<byte>, r: Record, depth: nat)
    decreases r, 0
  {
    match r
    case Varint(_, v) => IsVarint(bs, 10) && Weight(bs) % TWO_64 == v
    case Fixed64(_, v) => |bs| == 8 && Word(bs[..4]) + 0x1_0000_0000 * Word(bs[4..]) == v
    case Bytes(_, data) =>
      && |data| <= 0x7FFF_FFFF - 16
      && exists k :: 0 <= k <= |bs| && IsVarint(bs[..k], 5) && Weight(bs[..k]) == |data| && bs[k..] == data
    case Group(num, fields) =>
      && depth > 0
      && exists k ::
           && 0 <= k <= |bs| && AreRecords(bs[..k], fields, depth - 1)
           && IsVarint(bs[k..], 5) && Weight(bs[k..]) % TWO_32 == 8 * num + 4
    case Fixed32(_, bits) => |bs| == 4 && Word(bs) == bits
  }

  ghost predicate AreRecords(bs: seq<byte>, rs: seq<Record>, depth: nat)
    decreases rs, 2
  {
    if rs == [] then bs == []
    else exists k :: 0 <= k <= |bs| && IsRecord(bs[..k], rs[0], depth) && AreRecords(bs[k..], rs[1..], depth)
  }

  // ----- the reader accepts the grammar -----

  lemma {:induction false} RecordIsRead(a: seq<byte>, r: Record, rest: seq<byte>, depth: nat)
    requires IsRecord(a, r, depth)
    ensures ReadRecord(a + rest, depth) == Some((r, rest))
    ensures var tag := ReadTag(a + rest); tag.Some? && tag.value.0 % 8 != 4
    decreases r, 1
  {
    hide Weight, ReadBase128, ReadPayload, IsPayload, IsVarint;
    var k :| 0 <= k <= |a| && IsVarint(a[..k], 5) && Weight(a[..k]) % TWO_32 == 8 * r.num + WireType(r)
             && IsPayload(a[k..], r, depth);
    VarintIsRead(a[..k], a[k..] + rest, 5);
    assert a + rest == a[..k] + (a[k..] + rest);
    PayloadIsRead(a[k..], r, rest, depth);
    TypeOfTag(r.num, WireType(r));
  }

  lemma TypeOfTag(num: FieldNumber, wireType: nat)
    requires wireType < 8
    ensures (8 * num + wireType) / 8 == num && (8 * num + wireType) % 8 == wireType
  {
  }

  lemma {:induction false} PayloadIsRead(a: seq<byte>, r: Record, rest: seq<byte>, depth: nat)
    requires IsPayload(a, r, depth)
    ensures ReadPayload(8 * r.num + WireType(r), a + rest, depth) == Some((r, rest))
    decreases r, 0
  {
    hide Weight, ReadBase128, IsVarint, Word, ReadGroup, AreRecords, ReadDelimited, ReadFixed32, ReadFixed64;
    TypeOfTag(r.num, WireType(r));
    match r
    case Varint(_, v) =>
      VarintIsRead(a, rest, 10);
    case Fixed64(_, v) =>
      DoubleWordIsRead(a, rest);
    case Bytes(_, data) =>
      BytesAreRead(a, r, rest, depth);
    case Group(num, fields) =>
      var k :| 0 <= k <= |a| && AreRecords(a[..k], fields, depth - 1)
               && IsVarint(a[k..], 5) && Weight(a[k..]) % TWO_32 == 8 * num + 4;
      assert a + rest == a[..k] + a[k..] + rest;
      GroupIsRead(a[..k], fields, a[k..], num, rest, depth - 1);
    case Fixed32(_, bits) =>
      WordIsRead(a, rest);
  }

  lemma BytesAreRead(a: seq<byte>, r: Record, rest: seq<byte>, depth: nat)
    requires r.Bytes? && IsPayload(a, r, depth)
    ensures ReadDelimited(a + rest) == Some((r.data, rest))
  {
    hide Weight, IsVarint, ReadDelimited;
    var k :| 0 <= k <= |a| && IsVarint(a[..k], 5) && Weight(a[..k]) == |r.data| && a[k..] == r.data;
    DelimitedIsRead(a[..k], r.data, rest);
    assert a + rest == a[..k] + (r.data + rest);
  }

  lemma DelimitedIsRead(a: seq<byte>, data: seq<byte>, rest: seq<byte>)
    requires IsVarint(a, 5) && Weight(a) == |data| <= MAX_LENGTH
    ensures ReadDelimited(a + (data + rest)) == Some((data, rest))
  {
    hide Weight, ReadBase128, IsVarint;
    VarintIsRead(a, data + rest, 5);
    assert (data + rest)[..|data|] == data && (data + rest)[|data|..] == rest;
  }

  lemma {:induction false} GroupIsRead(a: seq<byte>, fields: seq<Record>, end: seq<byte>, num: FieldNumber,
                                       rest: seq<byte>, depth: nat)
    requires AreRecords(a, fields, depth) && IsVarint(end, 5) && Weight(end) % TWO_32 == 8 * num + 4
    ensures ReadGroup(a + end + rest, num, depth) == Some((fields, rest))
    decreases fields, 0
  {
    hide Weight, ReadBase128, IsVarint, IsRecord, ReadRecord;
    if fields == [] {
      assert a + end + rest == end + rest;
      VarintIsRead(end, rest, 5);
    } else {
      var k :| 0 <= k <= |a| && IsRecord(a[..k], fields[0], depth) && AreRecords(a[k..], fields[1..], depth);
      var more := a[k..] + end + rest;
      assert a + end + rest == a[..k] + more;
      RecordIsRead(a[..k], fields[0], more, depth);
      GroupIsRead(a[k..], fields[1..], end, num, rest, depth);
      hide ReadGroup;
      GroupStep(a + end + rest, num, depth);
      assert fields == [fields[0]] + fields[1..];
    }
  }

  // ----- and nothing else -----

  lemma {:induction false} ReadIsRecord(bs: seq<byte>, depth: nat) returns (k: nat)
    requires ReadRecord(bs, depth).Some?
    ensures var (r, rest) := ReadRecord(bs, depth).value; k <= |bs| && rest == bs[k..] && IsRecord(bs[..k], r, depth)
    decreases |bs|, 0
  {
    hide Weight, ReadBase128, IsVarint, ReadPayload, IsPayload;
    var j := ReadIsVarint(bs, 5);
    var (r, rest) := ReadRecord(bs, depth).value;
    var tag := Weight(bs[..j]) % TWO_32;
    VarintIsLong(bs[..j], 5);
    var i := ReadIsPayload(tag, bs[j..], depth);
    k := j + i;
    assert bs[..k][..j] == bs[..j] && bs[..k][j..] == bs[j..][..i] && bs[k..] == bs[j..][i..];
  }

  lemma VarintIsLong(bs: seq<byte>, max: nat)
    requires IsVarint(bs, max)
    ensures |bs| > 0
  {
  }

  lemma {:induction false} ReadIsPayload(tag: uint32, bs: seq<byte>, depth: nat) returns (k: nat)
    requires ReadPayload(tag, bs, depth).Some?
    ensures var (r, rest) := ReadPayload(tag, bs, depth).value;
      k <= |bs| && rest == bs[k..] && IsPayload(bs[..k], r, depth) && tag == 8 * r.num + WireType(r)
    decreases |bs|, 2
  {
    hide Weight, ReadBase128, IsVarint, Word, ReadGroup, IsRecord, AreRecords, ReadDelimited;
    match tag % 8
    case 0 =>
      k := ReadIsVarint(bs, 10);
    case 1 =>
      k := 8;
      DoubleWordIsRead(bs[..8], bs[8..]);
      assert bs == bs[..8] + bs[8..];
    case 2 =>
      var j;
      j, k := ReadIsDelimited(bs);
      assert bs[..k][..j] == bs[..j] && bs[..k][j..] == bs[j..k];
    case 3 =>
      var j;
      j, k := ReadIsGroup(bs, tag / 8, depth - 1);
      assert bs[..k][..j] == bs[..j] && bs[..k][j..] == bs[j..k];
    case 5 =>
      k := 4;
      WordIsRead(bs[..4], bs[4..]);
      assert bs == bs[..4] + bs[4..];
  }

  lemma ReadIsDelimited(bs: seq<byte>) returns (j: nat, k: nat)
    requires ReadDelimited(bs).Some?
    ensures var (data, rest) := ReadDelimited(bs).value;
      && j <= k <= |bs| && rest == bs[k..] && data == bs[j..k] && |data| <= MAX_LENGTH
      && IsVarint(bs[..j], 5) && Weight(bs[..j]) == |data|
  {
    hide Weight, ReadBase128, IsVarint;
    j := ReadIsVarint(bs, 5);
    var n := Weight(bs[..j]);
    k := j + n;
    assert bs[j..k] == bs[j..][..n] && bs[k..] == bs[j..][n..];
  }

  /** The records of a group, and its end tag. */
  lemma {:induction false} ReadIsGroup(bs: seq<byte>, num: FieldNumber, depth: nat) returns (j: nat, k: nat)
    requires ReadGroup(bs, num, depth).Some?
    ensures var (fields, rest) := ReadGroup(bs, num, depth).value;
      && j <= k <= |bs| && rest == bs[k..] && AreRecords(bs[..j], fields, depth)
      && IsVarint(bs[j..k], 5) && Weight(bs[j..k]) % TWO_32 == 8 * num + 4
    decreases |bs|, 1
  {
    hide Weight, ReadBase128, IsVarint, IsRecord, ReadRecord;
    var (fields, rest) := ReadGroup(bs, num, depth).value;
    if ReadTag(bs).value.0 == Tag(num, 4) {
      j := 0;
      k := ReadIsVarint(bs, 5);
      assert bs[0..k] == bs[..k];
    } else {
      var i := ReadIsRecord(bs, depth);
      var inner, end := ReadIsGroup(bs[i..], num, depth);
      j, k := i + inner, i + end;
      assert bs[..j][..i] == bs[..i] && bs[..j][i..] == bs[i..][..inner];
      assert bs[j..k] == bs[i..][inner..end] && bs[k..] == bs[i..][end..];
      assert fields[1..] == ReadGroup(bs[i..], num, depth).value.0;
    }
  }

  /** Bytes are read as records exactly when they are those records. */
  lemma {:induction false} ReadingIsTheGrammar(bs: seq<byte>, rs: seq<Record>, depth: nat)
    ensures RecordsOf(bs, depth) == Some(rs) <==> AreRecords(bs, rs, depth)
    decreases |rs|
  {
    hide IsRecord, ReadRecord;
    if AreRecords(bs, rs, depth) {
      GrammarIsRead(bs, rs, depth);
    }
    if RecordsOf(bs, depth) == Some(rs) && bs != [] {
      var k := ReadIsRecord(bs, depth);
      assert rs[1..] == RecordsOf(bs[k..], depth).value;
      ReadingIsTheGrammar(bs[k..], rs[1..], depth);
    }
  }

  lemma {:induction false} GrammarIsRead(bs: seq<byte>, rs: seq<Record>, depth: nat)
    requires AreRecords(bs, rs, depth)
    ensures RecordsOf(bs, depth) == Some(rs)
    decreases |rs|
  {
    hide IsRecord, ReadRecord;
    if rs == [] {
    } else {
      var k :| 0 <= k <= |bs| && IsRecord(bs[..k], rs[0], depth) && AreRecords(bs[k..], rs[1..], depth);
      RecordIsRead(bs[..k], rs[0], bs[k..], depth);
      assert bs == bs[..k] + bs[k..];
      NoTagInNothing();
      GrammarIsRead(bs[k..], rs[1..], depth);
      assert rs == [rs[0]] + rs[1..];
    }
  }

  lemma NoTagInNothing()
    ensures ReadTag([]).None?
  {
  }

  /** A packed list: its numbers one after the other, and nothing else. */
  ghost predicate AreVarints(bs: seq<byte>, vs: seq<uint64>)
    decreases |vs|
  {
    if vs == [] then bs == []
    else exists k :: 0 <= k <= |bs| && IsVarint(bs[..k], 10) && Weight(bs[..k]) % TWO_64 == vs[0]
                     && AreVarints(bs[k..], vs[1..])
  }

  lemma {:induction false} PackedIsTheGrammar(bs: seq<byte>, vs: seq<uint64>)
    ensures ReadPacked([], bs) == Some(vs) <==> AreVarints(bs, vs)
    decreases |vs|
  {
    hide IsVarint, Weight, ReadBase128;
    if AreVarints(bs, vs) {
      VarintsAreRead(bs, vs);
    }
    if ReadPacked([], bs) == Some(vs) && bs != [] {
      var k := ReadIsVarint(bs, 10);
      var v := Weight(bs[..k]) % TWO_64;
      assert [] + [v] == [v];
      ReadPackedAppends([v], bs[k..]);
      var more := ReadPacked([], bs[k..]).value;
      assert vs == [v] + more && vs[1..] == more;
      PackedIsTheGrammar(bs[k..], more);
    }
  }

  lemma {:induction false} VarintsAreRead(bs: seq<byte>, vs: seq<uint64>)
    requires AreVarints(bs, vs)
    ensures ReadPacked([], bs) == Some(vs)
    decreases |vs|
  {
    hide IsVarint, Weight, ReadBase128;
    if vs == [] {
    } else {
      var k :| 0 <= k <= |bs| && IsVarint(bs[..k], 10) && Weight(bs[..k]) % TWO_64 == vs[0]
               && AreVarints(bs[k..], vs[1..]);
      VarintsAreRead(bs[k..], vs[1..]);
      OneMoreVarint(bs[..k], bs[k..], vs[0], vs[1..]);
      assert bs == bs[..k] + bs[k..] && vs == [vs[0]] + vs[1..];
    }
  }

  lemma OneMoreVarint(a: seq<byte>, bs: seq<byte>, v: uint64, vs: seq<uint64>)
    requires IsVarint(a, 10) && Weight(a) % TWO_64 == v && ReadPacked([], bs) == Some(vs)
    ensures ReadPacked([], a + bs) == Some([v] + vs)
  {
    hide IsVarint, Weight, ReadBase128;
    VarintIsLong(a, 10);
    VarintIsRead(a, bs, 10);
    assert [] + [v] == [v];
    ReadPackedAppends([v], bs);
  }

  // ----- what is written -----

  lemma {:induction false} EncodedIsVarint(v: nat)
    ensures IsVarint(EncodeVarint(v), |EncodeVarint(v)|) && Weight(EncodeVarint(v)) == v
  {
    hide Weight;
    NoWeight();
    if v < 128 {
      assert EncodeVarint(v) == [v] + [];
      WeightOfFirst(v, []);
    } else {
      var low, more := v % 128 + 128, EncodeVarint(v / 128);
      EncodedIsVarint(v / 128);
      LowSeven(v);
      WeightOfFirst(low, more);
      OneByteMore(low, more);
    }
  }

  lemma LowSeven(v: nat)
    ensures (v % 128 + 128) % 128 == v % 128 && v % 128 + 128 * (v / 128) == v
  {
  }

  lemma OneByteMore(b: byte, bs: seq<byte>)
    requires b >= 128 && IsVarint(bs, |bs|)
    ensures IsVarint([b] + bs, |bs| + 1)
  {
  }

  /** A number is written in as few bytes as the grammar allows. */
  lemma {:induction false} WrittenIsShortest(bs: seq<byte>, max: nat)
    requires IsVarint(bs, max)
    ensures |EncodeVarint(Weight(bs))| <= |bs|
    decreases |bs|
  {
    assert bs == [bs[0]] + bs[1..];
    WeightOfFirst(bs[0], bs[1..]);
    if |bs| == 1 {
      NoWeight();
    } else {
      hide Weight;
      WrittenIsShortest(bs[1..], max);
      var low, high := bs[0] % 128, Weight(bs[1..]);
      assert (low + 128 * high) / 128 == high;
    }
  }

  /** So each number of a packed list is written in order, one after the other. */
  lemma {:induction false} PackedIsWritten(vs: seq<uint64>)
    ensures AreVarints(EncodePacked(vs), vs)
    ensures |EncodePacked(vs)| == if vs == [] then 0 else |EncodeVarint(vs[0])| + |EncodePacked(vs[1..])|
  {
    PackedRoundTrip([], vs);
    assert [] + vs == vs;
    PackedIsTheGrammar(EncodePacked(vs), vs);
  }
}
