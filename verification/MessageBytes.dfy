/** The bytes of every message, field by field with their tags, in the order in which they are written. */
module MessageBytes {
  import opened Prelude
  import opened Wire
  import opened Scalars
  import opened GameObjects
  import opened Packets

  /** A number, unless it is zero. */
  function VarintField(tag: byte, v: uint64): seq<byte>
  {
    if v == 0 then [] else [tag] + EncodeVarint(v)
  }

  /** An int32 or enum: ten bytes when it is negative. */
  function IntField(tag: byte, v: int32): seq<byte>
  {
    VarintField(tag, if v < 0 then v + 0x1_0000_0000_0000_0000 else v)
  }

  /** Bytes with their length, unless there are none. */
  function BytesField(tag: byte, data: seq<byte>): seq<byte>
  {
    if data == [] then [] else SubField(tag, data)
  }

  /** A sub-message with its length, empty or not. */
  function SubField(tag: byte, data: seq<byte>): seq<byte>
  {
    [tag] + (EncodeVarint(|data|) + data)
  }

  function SubFields(tag: byte, list: seq<seq<byte>>): seq<byte>
  {
    if list == [] then [] else SubField(tag, list[0]) + SubFields(tag, list[1..])
  }

  /** A float, unless it is a zero of either sign: the lowest byte first. */
  function FloatField(tag: byte, bits: uint32): seq<byte>
  {
    if bits % 0x8000_0000 == 0 then []
    else [tag, bits % 0x100, bits / 0x100 % 0x100, bits / 0x1_0000 % 0x100, bits / 0x100_0000]
  }

  lemma SmallTags(num: FieldNumber, wireType: nat)
    requires num < 16 && wireType < 8
    ensures EncodeVarint(Tag(num, wireType)) == [8 * num + wireType]
  {
  }

  lemma VarintFieldIs(num: FieldNumber, v: uint64, more: seq<Record>)
    requires num < 16
    ensures EncodeRecords(VarintUnlessZero(num, v) + more) == VarintField(8 * num, v) + EncodeRecords(more)
  {
    EncodeConcat(VarintUnlessZero(num, v), more);
    SmallTags(num, 0);
    OneRecord(Varint(num, v));
  }

  lemma IntFieldIs(num: FieldNumber, v: int32, more: seq<Record>)
    requires num < 16
    ensures EncodeRecords(IntUnlessZero(num, v) + more) == IntField(8 * num, v) + EncodeRecords(more)
  {
    VarintFieldIs(num, SignExtend(v), more);
  }

  lemma SubFieldIs(num: FieldNumber, data: seq<byte>, more: seq<Record>)
    requires num < 16
    ensures EncodeRecords([Bytes(num, data)] + more) == SubField(8 * num + 2, data) + EncodeRecords(more)
  {
    EncodeConcat([Bytes(num, data)], more);
    SmallTags(num, 2);
    OneRecord(Bytes(num, data));
  }

  lemma BytesFieldIs(num: FieldNumber, data: seq<byte>, more: seq<Record>)
    requires num < 16
    ensures EncodeRecords(BytesUnlessEmpty(num, data) + more) == BytesField(8 * num + 2, data) + EncodeRecords(more)
  {
    if data == [] {
      assert [] + more == more;
    } else {
      SubFieldIs(num, data, more);
    }
  }

  lemma FourBytes(bits: uint32)
    ensures LittleEndian(bits, 4) == [bits % 0x100, bits / 0x100 % 0x100, bits / 0x1_0000 % 0x100, bits / 0x100_0000]
  {
    assert bits / 256 / 256 == bits / 0x1_0000 && bits / 256 / 256 / 256 == bits / 0x100_0000;
    assert LittleEndian(bits / 256 / 256 / 256 / 256, 0) == [];
    assert LittleEndian(bits / 256 / 256 / 256, 1) == [bits / 0x100_0000];
    assert LittleEndian(bits / 256 / 256, 2) == [bits / 0x1_0000 % 256] + [bits / 0x100_0000];
  }

  lemma FloatFieldIs(num: FieldNumber, bits: uint32, more: seq<Record>)
    requires num < 16
    ensures EncodeRecords(FloatUnlessZero(num, bits) + more) == FloatField(8 * num + 5, bits) + EncodeRecords(more)
  {
    EncodeConcat(FloatUnlessZero(num, bits), more);
    SmallTags(num, 5);
    FourBytes(bits);
    OneRecord(Fixed32(num, bits));
  }

  lemma ObjectBytes(m: ObjectInfo)
    ensures EncodeObject(m)
         == VarintField(0x08, m.objectId) + (IntField(0x10, m.objectType) + (IntField(0x18, m.state)
          + (IntField(0x20, m.dir) + (BytesField(0x2A, m.name) + (IntField(0x30, m.hp) + (IntField(0x38, m.maxHp)
          + (IntField(0x40, m.attack) + (IntField(0x48, m.defence) + (IntField(0x50, m.posX)
          + (IntField(0x58, m.posY) + EncodeRecords(m.unknown)))))))))))
  {
    hide VarintField, IntField, BytesField, EncodeRecords, IntUnlessZero, VarintUnlessZero, BytesUnlessEmpty;
    var s11 := IntUnlessZero(11, m.posY) + m.unknown;
    var s10 := IntUnlessZero(10, m.posX) + s11;
    var s9 := IntUnlessZero(9, m.defence) + s10;
    var s8 := IntUnlessZero(8, m.attack) + s9;
    var s7 := IntUnlessZero(7, m.maxHp) + s8;
    var s6 := IntUnlessZero(6, m.hp) + s7;
    var s5 := BytesUnlessEmpty(5, m.name) + s6;
    var s4 := IntUnlessZero(4, m.dir) + s5;
    var s3 := IntUnlessZero(3, m.state) + s4;
    var s2 := IntUnlessZero(2, m.objectType) + s3;
    IntFieldIs(11, m.posY, m.unknown);
    IntFieldIs(10, m.posX, s11);
    IntFieldIs(9, m.defence, s10);
    IntFieldIs(8, m.attack, s9);
    IntFieldIs(7, m.maxHp, s8);
    IntFieldIs(6, m.hp, s7);
    BytesFieldIs(5, m.name, s6);
    IntFieldIs(4, m.dir, s5);
    IntFieldIs(3, m.state, s4);
    IntFieldIs(2, m.objectType, s3);
    VarintFieldIs(1, m.objectId, s2);
  }

  lemma BuffBytes(m: BuffData)
    ensures EncodeBuff(m)
         == VarintField(0x08, m.buffId) + (FloatField(0x15, m.remainTime)
          + (BytesField(0x1A, EncodePacked(m.victims)) + EncodeRecords(m.unknown)))
  {
    hide VarintField, FloatField, BytesField, EncodeRecords, VarintUnlessZero, FloatUnlessZero, BytesUnlessEmpty;
    var s3 := BytesUnlessEmpty(3, EncodePacked(m.victims)) + m.unknown;
    BytesFieldIs(3, EncodePacked(m.victims), m.unknown);
    FloatFieldIs(2, m.remainTime, s3);
    VarintFieldIs(1, m.buffId, FloatUnlessZero(2, m.remainTime) + s3);
  }

  lemma SubFieldsCons(tag: byte, first: seq<byte>, list: seq<seq<byte>>)
    ensures SubFields(tag, [first] + list) == SubField(tag, first) + SubFields(tag, list)
  {
    assert ([first] + list)[1..] == list;
  }

  function EncodedBuffs(buffs: seq<BuffData>): seq<seq<byte>>
  {
    seq(|buffs|, k requires 0 <= k < |buffs| => EncodeBuff(buffs[k]))
  }

  function EncodedObjects(objects: seq<ObjectInfo>): seq<seq<byte>>
  {
    seq(|objects|, k requires 0 <= k < |objects| => EncodeObject(objects[k]))
  }

  lemma MoreBuffs(buffs: seq<BuffData>)
    requires buffs != []
    ensures BuffListRecords(buffs) == [Bytes(4, EncodeBuff(buffs[0]))] + BuffListRecords(buffs[1..])
    ensures EncodedBuffs(buffs) == [EncodeBuff(buffs[0])] + EncodedBuffs(buffs[1..])
  {
    hide EncodeBuff;
  }

  lemma {:induction false} BuffListBytes(buffs: seq<BuffData>, more: seq<Record>)
    ensures EncodeRecords(BuffListRecords(buffs) + more) == SubFields(0x22, EncodedBuffs(buffs)) + EncodeRecords(more)
  {
    if buffs == [] {
      assert [] + more == more;
    } else {
      hide EncodeRecords, SubField, SubFields, EncodeBuff, BuffListRecords, EncodedBuffs;
      var list, first := BuffListRecords(buffs[1..]), EncodeBuff(buffs[0]);
      BuffListBytes(buffs[1..], more);
      SubFieldIs(4, first, list + more);
      MoreBuffs(buffs);
      Regroup([Bytes(4, first)], list, more);
      SubFieldsCons(0x22, first, EncodedBuffs(buffs[1..]));
      Regroup(SubField(0x22, first), SubFields(0x22, EncodedBuffs(buffs[1..])), EncodeRecords(more));
    }
  }

  lemma MoreObjects(objects: seq<ObjectInfo>)
    requires objects != []
    ensures ObjectListRecords(objects) == [Bytes(1, EncodeObject(objects[0]))] + ObjectListRecords(objects[1..])
    ensures EncodedObjects(objects) == [EncodeObject(objects[0])] + EncodedObjects(objects[1..])
  {
    hide EncodeObject;
  }

  lemma {:induction false} ObjectListBytes(objects: seq<ObjectInfo>, more: seq<Record>)
    ensures EncodeRecords(ObjectListRecords(objects) + more)
         == SubFields(0x0A, EncodedObjects(objects)) + EncodeRecords(more)
  {
    if objects == [] {
      assert [] + more == more;
    } else {
      hide EncodeRecords, SubField, SubFields, EncodeObject, ObjectListRecords, EncodedObjects;
      var list, first := ObjectListRecords(objects[1..]), EncodeObject(objects[0]);
      ObjectListBytes(objects[1..], more);
      SubFieldIs(1, first, list + more);
      MoreObjects(objects);
      Regroup([Bytes(1, first)], list, more);
      SubFieldsCons(0x0A, first, EncodedObjects(objects[1..]));
      Regroup(SubField(0x0A, first), SubFields(0x0A, EncodedObjects(objects[1..])), EncodeRecords(more));
    }
  }

  lemma TestBytes(m: STest)
    ensures EncodeTest(m)
         == VarintField(0x08, m.id) + (VarintField(0x10, m.hp) + (VarintField(0x18, m.attack)
          + (SubFields(0x22, EncodedBuffs(m.buffs)) + EncodeRecords(m.unknown))))
  {
    hide VarintField, SubFields, EncodeRecords, VarintUnlessZero, BuffListRecords;
    var s4 := BuffListRecords(m.buffs) + m.unknown;
    var s3 := VarintUnlessZero(3, m.attack) + s4;
    BuffListBytes(m.buffs, m.unknown);
    VarintFieldIs(3, m.attack, s4);
    VarintFieldIs(2, m.hp, s3);
    VarintFieldIs(1, m.id, VarintUnlessZero(2, m.hp) + s3);
  }

  lemma AddBytes(m: SAddObject)
    ensures EncodeAdd(m) == SubFields(0x0A, EncodedObjects(m.objects)) + EncodeRecords(m.unknown)
  {
    ObjectListBytes(m.objects, m.unknown);
  }

  lemma RemoveBytes(m: SRemoveObject)
    ensures EncodeRemove(m) == BytesField(0x0A, EncodePacked(m.ids)) + EncodeRecords(m.unknown)
  {
    BytesFieldIs(1, EncodePacked(m.ids), m.unknown);
  }

  lemma AttackBytes(m: SAttack)
    ensures EncodeAttack(m)
         == (if m.target.None? then [] else SubField(0x0A, EncodeObject(m.target.value)))
          + ((if m.attacker.None? then [] else SubField(0x12, EncodeObject(m.attacker.value)))
          + EncodeRecords(m.unknown))
  {
    hide EncodeRecords, EncodeObject, SubField;
    var more := ObjectIfPresent(2, m.attacker) + m.unknown;
    assert [] + more == more && [] + m.unknown == m.unknown;
    if m.attacker.Some? {
      SubFieldIs(2, EncodeObject(m.attacker.value), m.unknown);
    }
    if m.target.Some? {
      SubFieldIs(1, EncodeObject(m.target.value), more);
    }
  }
}
