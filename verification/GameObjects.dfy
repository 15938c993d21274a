/** The two structures carried inside packets: ObjectInfo and BuffData. */
module GameObjects {
  import opened Prelude
  import opened Wire
  import opened Scalars

  // ----- ObjectInfo -----

  datatype ObjectInfo = ObjectInfo(
    objectId: uint64, objectType: int32, state: int32, dir: int32, name: seq<byte>, hp: int32, maxHp: int32,
    attack: int32, defence: int32, posX: int32, posY: int32, unknown: seq<Record>)

  const NO_OBJECT := ObjectInfo(0, 0, 0, 0, [], 0, 0, 0, 0, 0, 0, [])

  /** The records the parse switch of ObjectInfo has a case for. */
  predicate ObjectKnows(r: Record)
  {
    match r
    case Varint(num, _) => num <= 4 || 6 <= num <= 11
    case Bytes(num, _) => num == 5
    case _ => false
  }

  /** One turn of the parse loop of ObjectInfo. */
  function ApplyObject(m: ObjectInfo, r: Record, depth: nat): Option<ObjectInfo>
  {
    if !ObjectKnows(r) then Some(m.(unknown := m.unknown + [r]))
    else match r
      case Bytes(_, data) => if ValidUtf8(data) then Some(m.(name := data)) else None
      case Varint(num, v) =>
        Some(
          if num == 1 then m.(objectId := v) else WithInt(m, num, ToInt32(v)))
  }

  /** `m` with the int32 or enum field numbered `num` set. */
  function WithInt(m: ObjectInfo, num: FieldNumber, v: int32): ObjectInfo
    requires 2 <= num <= 4 || 6 <= num <= 11
  {
    if num == 2 then m.(objectType := v)
    else if num == 3 then m.(state := v)
    else if num == 4 then m.(dir := v)
    else if num == 6 then m.(hp := v)
    else if num == 7 then m.(maxHp := v)
    else if num == 8 then m.(attack := v)
    else if num == 9 then m.(defence := v)
    else if num == 10 then m.(posX := v)
    else m.(posY := v)
  }

  /** What serialization writes, in its order. */
  function ObjectRecords(m: ObjectInfo): seq<Record>
  {
    VarintUnlessZero(1, m.objectId)
    + (IntUnlessZero(2, m.objectType) + (IntUnlessZero(3, m.state) + (IntUnlessZero(4, m.dir)
    + (BytesUnlessEmpty(5, m.name) + ObjectTail(m)))))
  }

  function ObjectTail(m: ObjectInfo): seq<Record>
  {
    IntUnlessZero(6, m.hp) + (IntUnlessZero(7, m.maxHp) + (IntUnlessZero(8, m.attack)
    + (IntUnlessZero(9, m.defence) + (IntUnlessZero(10, m.posX) + (IntUnlessZero(11, m.posY) + m.unknown)))))
  }

  function EncodeObject(m: ObjectInfo): seq<byte>
  {
    EncodeRecords(ObjectRecords(m))
  }

  /** MergeFrom: fields of `from` that differ from their default win. */
  function MergeObject(m: ObjectInfo, from: ObjectInfo): ObjectInfo
  {
    ObjectInfo(
      LastWins(m.objectId, from.objectId), LastWins(m.objectType, from.objectType), LastWins(m.state, from.state),
      LastWins(m.dir, from.dir), if from.name == [] then m.name else from.name, LastWins(m.hp, from.hp),
      LastWins(m.maxHp, from.maxHp), LastWins(m.attack, from.attack), LastWins(m.defence, from.defence),
      LastWins(m.posX, from.posX), LastWins(m.posY, from.posY), m.unknown + from.unknown)
  }

  /** No record kept as unknown is one the parser knows; every parsed message has this property. */
  predicate ObjectWellFormed(m: ObjectInfo)
  {
    forall r | r in m.unknown :: !ObjectKnows(r)
  }

  /** What a reader demands of a written ObjectInfo beyond well-formedness. */
  predicate ObjectReadable(m: ObjectInfo, depth: nat)
  {
    ValidUtf8(m.name) && |m.name| <= MAX_LENGTH && AllFit(m.unknown, depth)
  }

  lemma {:induction false} AcceptUnknownObject(m: ObjectInfo, rs: seq<Record>, depth: nat)
    requires forall r | r in rs :: !ObjectKnows(r)
    ensures Accept(ApplyObject, m, rs, depth)
         == if AllFit(rs, depth) then Some(m.(unknown := m.unknown + rs)) else None
    decreases |rs|
  {
    if rs == [] {
      assert m.unknown + rs == m.unknown;
    } else {
      var m' := m.(unknown := m.unknown + [rs[0]]);
      AcceptUnknownObject(m', rs[1..], depth);
      assert m'.unknown + rs[1..] == m.unknown + rs;
      assert rs == [rs[0]] + rs[1..];
    }
  }

  /** Taking in one optional int32 record and then the rest. */
  lemma ObjectIntThen(m: ObjectInfo, num: FieldNumber, v: int32, more: seq<Record>, depth: nat)
    requires 2 <= num <= 4 || 6 <= num <= 11
    ensures Accept(ApplyObject, m, IntUnlessZero(num, v) + more, depth)
         == Accept(ApplyObject, if v == 0 then m else WithInt(m, num, v), more, depth)
  {
    AcceptConcat(ApplyObject, m, IntUnlessZero(num, v), more, depth);
    AcceptOne(ApplyObject, m, Varint(num, SignExtend(v)), depth);
    SignExtendRoundTrip(v);
  }

  lemma AcceptObjectTail(m: ObjectInfo, f: ObjectInfo, depth: nat)
    requires ObjectWellFormed(f)
    ensures Accept(ApplyObject, m, ObjectTail(f), depth) == if !AllFit(f.unknown, depth) then None else Some(m.(
        hp := LastWins(m.hp, f.hp), maxHp := LastWins(m.maxHp, f.maxHp), attack := LastWins(m.attack, f.attack),
        defence := LastWins(m.defence, f.defence), posX := LastWins(m.posX, f.posX),
        posY := LastWins(m.posY, f.posY), unknown := m.unknown + f.unknown))
  {
    var s11 := IntUnlessZero(11, f.posY) + f.unknown;
    var s10 := IntUnlessZero(10, f.posX) + s11;
    var s9 := IntUnlessZero(9, f.defence) + s10;
    var s8 := IntUnlessZero(8, f.attack) + s9;
    var s7 := IntUnlessZero(7, f.maxHp) + s8;
    ObjectIntThen(m, 6, f.hp, s7, depth);
    var m6 := m.(hp := LastWins(m.hp, f.hp));
    ObjectIntThen(m6, 7, f.maxHp, s8, depth);
    var m7 := m6.(maxHp := LastWins(m.maxHp, f.maxHp));
    ObjectIntThen(m7, 8, f.attack, s9, depth);
    var m8 := m7.(attack := LastWins(m.attack, f.attack));
    ObjectIntThen(m8, 9, f.defence, s10, depth);
    var m9 := m8.(defence := LastWins(m.defence, f.defence));
    ObjectIntThen(m9, 10, f.posX, s11, depth);
    var m10 := m9.(posX := LastWins(m.posX, f.posX));
    ObjectIntThen(m10, 11, f.posY, f.unknown, depth);
    var m11 := m10.(posY := LastWins(m.posY, f.posY));
    AcceptUnknownObject(m11, f.unknown, depth);
  }

  /** Taking in the records of a message is merging it. */
  lemma AcceptObject(m: ObjectInfo, f: ObjectInfo, depth: nat)
    requires ObjectWellFormed(f)
    ensures Accept(ApplyObject, m, ObjectRecords(f), depth)
         == if ObjectReadable(f, depth) then Some(MergeObject(m, f)) else None
  {
    var s5 := BytesUnlessEmpty(5, f.name) + ObjectTail(f);
    var s4 := IntUnlessZero(4, f.dir) + s5;
    var s3 := IntUnlessZero(3, f.state) + s4;
    var s2 := IntUnlessZero(2, f.objectType) + s3;
    AcceptConcat(ApplyObject, m, VarintUnlessZero(1, f.objectId), s2, depth);
    AcceptOne(ApplyObject, m, Varint(1, f.objectId), depth);
    var m1 := m.(objectId := LastWins(m.objectId, f.objectId));
    ObjectIntThen(m1, 2, f.objectType, s3, depth);
    var m2 := m1.(objectType := LastWins(m.objectType, f.objectType));
    ObjectIntThen(m2, 3, f.state, s4, depth);
    var m3 := m2.(state := LastWins(m.state, f.state));
    ObjectIntThen(m3, 4, f.dir, s5, depth);
    var m4 := m3.(dir := LastWins(m.dir, f.dir));
    AcceptConcat(ApplyObject, m4, BytesUnlessEmpty(5, f.name), ObjectTail(f), depth);
    AcceptOne(ApplyObject, m4, Bytes(5, f.name), depth);
    if ValidUtf8(f.name) {
      AcceptObjectTail(m4.(name := if f.name == [] then m.name else f.name), f, depth);
    }
  }

  /** Parsing the bytes of `f` into `m` merges `f` into `m`; it fails exactly when `f` is not readable. */
  lemma ObjectParseIsMerge(m: ObjectInfo, f: ObjectInfo, depth: nat)
    requires ObjectWellFormed(f)
    ensures ParseFrom(ApplyObject, m, EncodeObject(f), depth)
         == if ObjectReadable(f, depth) then Some(MergeObject(m, f)) else None
  {
    ParseEncoded(ApplyObject, m, ObjectRecords(f), depth);
    AcceptObject(m, f, depth);
  }

  /** Parsing undoes serialization. */
  lemma ObjectRoundTrip(f: ObjectInfo, depth: nat)
    requires ObjectWellFormed(f)
    ensures ParseFrom(ApplyObject, NO_OBJECT, EncodeObject(f), depth)
         == if ObjectReadable(f, depth) then Some(f) else None
  {
    ObjectParseIsMerge(NO_OBJECT, f, depth);
    assert [] + f.unknown == f.unknown;
  }

  /** Parsing two messages one after the other is merging the second into the first. */
  lemma ObjectConcatIsMerge(a: ObjectInfo, b: ObjectInfo, depth: nat)
    requires ObjectWellFormed(a) && ObjectWellFormed(b)
    ensures ParseFrom(ApplyObject, NO_OBJECT, EncodeObject(a) + EncodeObject(b), depth)
         == if ObjectReadable(a, depth) && ObjectReadable(b, depth) then Some(MergeObject(a, b)) else None
  {
    ObjectRoundTrip(a, depth);
    ParseEncodedConcat(ApplyObject, NO_OBJECT, ObjectRecords(a), ObjectRecords(b), depth);
    ObjectParseIsMerge(a, b, depth);
  }

  /** Whatever bytes are parsed, a well-formed message stays well-formed. */
  lemma {:induction false} ObjectStaysWellFormed(m: ObjectInfo, bs: seq<byte>, depth: nat)
    requires ObjectWellFormed(m)
    ensures var r := ParseFrom(ApplyObject, m, bs, depth); r.Some? ==> ObjectWellFormed(r.value)
    decreases |bs|
  {
    if bs != [] && ReadRecord(bs, depth).Some? {
      var Some((r, rest)) := ReadRecord(bs, depth);
      var m' := ApplyObject(m, r, depth);
      if m'.Some? {
        ObjectStaysWellFormed(m'.value, rest, depth);
      }
    }
  }

  // ----- BuffData -----

  /** `remainTime` is the bit pattern of a 32-bit float. */
  datatype BuffData = BuffData(buffId: uint64, remainTime: uint32, victims: seq<uint64>, unknown: seq<Record>)

  const NO_BUFF := BuffData(0, 0, [], [])

  predicate BuffKnows(r: Record)
  {
    match r
    case Varint(num, _) => num == 1 || num == 3
    case Fixed32(num, _) => num == 2
    case Bytes(num, _) => num == 3
    case _ => false
  }

  function ApplyBuff(m: BuffData, r: Record, depth: nat): Option<BuffData>
  {
    if !BuffKnows(r) then Some(m.(unknown := m.unknown + [r]))
    else match r
      case Varint(num, v) => Some(if num == 1 then m.(buffId := v) else m.(victims := m.victims + [v]))
      case Fixed32(_, bits) => Some(m.(remainTime := bits))
      case Bytes(_, data) =>
        match ReadPacked(m.victims, data)
        case None => None
        case Some(vs) => Some(m.(victims := vs))
  }

  function BuffRecords(m: BuffData): seq<Record>
  {
    VarintUnlessZero(1, m.buffId)
    + (FloatUnlessZero(2, m.remainTime) + (BytesUnlessEmpty(3, EncodePacked(m.victims)) + m.unknown))
  }

  function EncodeBuff(m: BuffData): seq<byte>
  {
    EncodeRecords(BuffRecords(m))
  }

  /** MergeFrom: the list grows, the scalars of `from` win unless they are zero; -0.0 counts as zero. */
  function MergeBuff(m: BuffData, from: BuffData): BuffData
  {
    BuffData(LastWins(m.buffId, from.buffId),
      if IsFloatZero(from.remainTime) then m.remainTime else from.remainTime,
      m.victims + from.victims, m.unknown + from.unknown)
  }

  predicate BuffWellFormed(m: BuffData)
  {
    forall r | r in m.unknown :: !BuffKnows(r)
  }

  predicate BuffReadable(m: BuffData, depth: nat)
  {
    |EncodePacked(m.victims)| <= MAX_LENGTH && AllFit(m.unknown, depth)
  }

  /** What a copy of a message through the wire looks like: a negative zero becomes a positive one. */
  function CanonicalBuff(m: BuffData): BuffData
  {
    if IsFloatZero(m.remainTime) then m.(remainTime := 0) else m
  }

  lemma {:induction false} AcceptUnknownBuff(m: BuffData, rs: seq<Record>, depth: nat)
    requires forall r | r in rs :: !BuffKnows(r)
    ensures Accept(ApplyBuff, m, rs, depth)
         == if AllFit(rs, depth) then Some(m.(unknown := m.unknown + rs)) else None
    decreases |rs|
  {
    if rs == [] {
      assert m.unknown + rs == m.unknown;
    } else {
      var m' := m.(unknown := m.unknown + [rs[0]]);
      AcceptUnknownBuff(m', rs[1..], depth);
      assert m'.unknown + rs[1..] == m.unknown + rs;
      assert rs == [rs[0]] + rs[1..];
    }
  }

  lemma AcceptBuff(m: BuffData, f: BuffData, depth: nat)
    requires BuffWellFormed(f)
    ensures Accept(ApplyBuff, m, BuffRecords(f), depth)
         == if BuffReadable(f, depth) then Some(MergeBuff(m, f)) else None
  {
    var packed := BytesUnlessEmpty(3, EncodePacked(f.victims));
    var s2 := FloatUnlessZero(2, f.remainTime) + (packed + f.unknown);
    AcceptConcat(ApplyBuff, m, VarintUnlessZero(1, f.buffId), s2, depth);
    AcceptOne(ApplyBuff, m, Varint(1, f.buffId), depth);
    var m1 := m.(buffId := LastWins(m.buffId, f.buffId));
    AcceptConcat(ApplyBuff, m1, FloatUnlessZero(2, f.remainTime), packed + f.unknown, depth);
    AcceptOne(ApplyBuff, m1, Fixed32(2, f.remainTime), depth);
    var m2 := m1.(remainTime := if IsFloatZero(f.remainTime) then m.remainTime else f.remainTime);
    AcceptConcat(ApplyBuff, m2, packed, f.unknown, depth);
    AcceptOne(ApplyBuff, m2, Bytes(3, EncodePacked(f.victims)), depth);
    PackedRoundTrip(m2.victims, f.victims);
    assert f.victims == [] ==> m2.victims + f.victims == m2.victims;
    AcceptUnknownBuff(m2.(victims := m.victims + f.victims), f.unknown, depth);
  }

  lemma BuffParseIsMerge(m: BuffData, f: BuffData, depth: nat)
    requires BuffWellFormed(f)
    ensures ParseFrom(ApplyBuff, m, EncodeBuff(f), depth)
         == if BuffReadable(f, depth) then Some(MergeBuff(m, f)) else None
  {
    ParseEncoded(ApplyBuff, m, BuffRecords(f), depth);
    AcceptBuff(m, f, depth);
  }

  lemma MergeIntoNoBuff(f: BuffData)
    ensures MergeBuff(NO_BUFF, f) == CanonicalBuff(f)
  {
    assert [] + f.victims == f.victims && [] + f.unknown == f.unknown;
  }

  lemma BuffRoundTrip(f: BuffData, depth: nat)
    requires BuffWellFormed(f)
    ensures ParseFrom(ApplyBuff, NO_BUFF, EncodeBuff(f), depth)
         == if BuffReadable(f, depth) then Some(CanonicalBuff(f)) else None
  {
    BuffParseIsMerge(NO_BUFF, f, depth);
    MergeIntoNoBuff(f);
  }

  lemma BuffConcatIsMerge(a: BuffData, b: BuffData, depth: nat)
    requires BuffWellFormed(a) && BuffWellFormed(b)
    ensures ParseFrom(ApplyBuff, NO_BUFF, EncodeBuff(a) + EncodeBuff(b), depth)
         == if BuffReadable(a, depth) && BuffReadable(b, depth) then Some(MergeBuff(CanonicalBuff(a), b)) else None
  {
    BuffRoundTrip(a, depth);
    ParseEncodedConcat(ApplyBuff, NO_BUFF, BuffRecords(a), BuffRecords(b), depth);
    BuffParseIsMerge(CanonicalBuff(a), b, depth);
  }

  lemma {:induction false} BuffStaysWellFormed(m: BuffData, bs: seq<byte>, depth: nat)
    requires BuffWellFormed(m)
    ensures var r := ParseFrom(ApplyBuff, m, bs, depth); r.Some? ==> BuffWellFormed(r.value)
    decreases |bs|
  {
    if bs != [] && ReadRecord(bs, depth).Some? {
      var Some((r, rest)) := ReadRecord(bs, depth);
      var m' := ApplyBuff(m, r, depth);
      if m'.Some? {
        BuffStaysWellFormed(m'.value, rest, depth);
      }
    }
  }
}
