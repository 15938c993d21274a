/** What each message makes of the bytes it is given, in terms of the records in them. */
module MessageMeanings {
  import opened Prelude
  import opened Wire
  import opened Scalars
  import opened GameObjects
  import opened Packets
  import opened Meanings

  // ----- ObjectInfo -----

  const OBJECT_FIELDS: set<(int, int)> :=
    {(1, 0), (2, 0), (3, 0), (4, 0), (5, 2), (6, 0), (7, 0), (8, 0), (9, 0), (10, 0), (11, 0)}

  predicate NamesAreUtf8(rs: seq<Record>)
  {
    forall r | r in rs && r.Bytes? && r.num == 5 :: ValidUtf8(r.data)
  }

  /** The ObjectInfo after the records: each field as its last record says, or as it was. */
  function ObjectFrom(m: ObjectInfo, rs: seq<Record>): ObjectInfo
  {
    ObjectInfo(
      LastVarint(rs, 1, m.objectId), LastInt(rs, 2, m.objectType), LastInt(rs, 3, m.state), LastInt(rs, 4, m.dir),
      LastBytes(rs, 5, m.name), LastInt(rs, 6, m.hp), LastInt(rs, 7, m.maxHp), LastInt(rs, 8, m.attack),
      LastInt(rs, 9, m.defence), LastInt(rs, 10, m.posX), LastInt(rs, 11, m.posY),
      m.unknown + Unknown(rs, OBJECT_FIELDS))
  }

  lemma {:induction false} ObjectTakesRecords(m: ObjectInfo, rs: seq<Record>, depth: nat)
    ensures Accept(ApplyObject, m, rs, depth)
         == if AllFit(rs, depth) && NamesAreUtf8(rs) then Some(ObjectFrom(m, rs)) else None
  {
    if rs == [] {
      assert m.unknown + [] == m.unknown;
    } else {
      hide Accept, ValidUtf8, ToInt32, Fits, AllFit;
      var n := |rs| - 1;
      AcceptSnoc(ApplyObject, m, rs, depth);
      AllFitSnoc(rs, depth);
      ObjectTakesRecords(m, rs[..n], depth);
      assert rs == rs[..n] + [rs[n]];
      ObjectTakesOne(m, rs, depth);
    }
  }

  lemma ObjectTakesOne(m: ObjectInfo, rs: seq<Record>, depth: nat)
    requires rs != []
    ensures var n := |rs| - 1; var r := rs[n];
      ApplyObject(ObjectFrom(m, rs[..n]), r, depth)
      == if r.Bytes? && r.num == 5 && !ValidUtf8(r.data) then None else Some(ObjectFrom(m, rs))
  {
    hide ValidUtf8, ToInt32;
    UnknownSnoc(m.unknown, rs, OBJECT_FIELDS);
    var r := rs[|rs| - 1];
    assert (r.num, WireType(r)) in OBJECT_FIELDS <==> ObjectKnows(r);
  }

  lemma UnknownSnoc(before: seq<Record>, rs: seq<Record>, known: set<(int, int)>)
    requires rs != []
    ensures var n := |rs| - 1;
      before + Unknown(rs, known)
      == if (rs[n].num, WireType(rs[n])) in known then before + Unknown(rs[..n], known)
         else before + Unknown(rs[..n], known) + [rs[n]]
  {
    var n := |rs| - 1;
    assert Unknown(rs[..n], known) + [] == Unknown(rs[..n], known);
  }

  /** A parse gives what the records in the bytes mean; it fails when they are no records or a name is not UTF-8. */
  lemma ObjectParseMeans(m: ObjectInfo, bs: seq<byte>, depth: nat)
    ensures ParseFrom(ApplyObject, m, bs, depth)
         == var rs := RecordsOf(bs, depth);
            if rs.Some? && NamesAreUtf8(rs.value) then Some(ObjectFrom(m, rs.value)) else None
  {
    ParseIsByRecords(ApplyObject, m, bs, depth);
    if RecordsOf(bs, depth).Some? {
      ObjectTakesRecords(m, RecordsOf(bs, depth).value, depth);
    }
  }

  // ----- BuffData -----

  const BUFF_FIELDS: set<(int, int)> := {(1, 0), (2, 5), (3, 0), (3, 2)}

  /** The BuffData after the records, when every packed list in them can be read. */
  function BuffFrom(m: BuffData, rs: seq<Record>): Option<BuffData>
  {
    match Numbers(rs, 3)
    case None => None
    case Some(victims) =>
      Some(BuffData(LastVarint(rs, 1, m.buffId), LastFixed32(rs, 2, m.remainTime), m.victims + victims,
        m.unknown + Unknown(rs, BUFF_FIELDS)))
  }

  lemma {:induction false} BuffTakesRecords(m: BuffData, rs: seq<Record>, depth: nat)
    ensures Accept(ApplyBuff, m, rs, depth) == if AllFit(rs, depth) then BuffFrom(m, rs) else None
  {
    if rs == [] {
      assert m.unknown + [] == m.unknown && m.victims + [] == m.victims;
    } else {
      hide Accept, Fits, AllFit;
      var n := |rs| - 1;
      AcceptSnoc(ApplyBuff, m, rs, depth);
      AllFitSnoc(rs, depth);
      BuffTakesRecords(m, rs[..n], depth);
      if BuffFrom(m, rs[..n]).Some? {
        BuffTakesOne(m, rs, depth);
      }
    }
  }

  lemma BuffTakesOne(m: BuffData, rs: seq<Record>, depth: nat)
    requires rs != [] && BuffFrom(m, rs[..|rs| - 1]).Some?
    ensures var n := |rs| - 1; ApplyBuff(BuffFrom(m, rs[..n]).value, rs[n], depth) == BuffFrom(m, rs)
  {
    hide ReadPacked;
    UnknownSnoc(m.unknown, rs, BUFF_FIELDS);
    var n := |rs| - 1;
    var r := rs[n];
    assert (r.num, WireType(r)) in BUFF_FIELDS <==> BuffKnows(r);
    var list := m.victims + Numbers(rs[..n], 3).value;
    assert list + [] == list;
    if NumbersIn(r, 3).Some? {
      NumbersSnoc(m.victims, rs, 3);
    }
    if r.Bytes? && r.num == 3 {
      ReadPackedAppends(list, r.data);
    }
  }

  lemma NumbersSnoc(before: seq<uint64>, rs: seq<Record>, num: int)
    requires rs != [] && Numbers(rs[..|rs| - 1], num).Some? && NumbersIn(rs[|rs| - 1], num).Some?
    ensures Numbers(rs, num).Some?
    ensures before + Numbers(rs, num).value
         == before + Numbers(rs[..|rs| - 1], num).value + NumbersIn(rs[|rs| - 1], num).value
  {
  }

  lemma BuffParseMeans(m: BuffData, bs: seq<byte>, depth: nat)
    ensures ParseFrom(ApplyBuff, m, bs, depth)
         == match RecordsOf(bs, depth) case None => None case Some(rs) => BuffFrom(m, rs)
  {
    ParseIsByRecords(ApplyBuff, m, bs, depth);
    if RecordsOf(bs, depth).Some? {
      BuffTakesRecords(m, RecordsOf(bs, depth).value, depth);
    }
  }

  /**
   * However the victims are cut into packed and unpacked records, and whatever comes before, between and after them,
   * they are read in wire order behind those there were, and the other fields are as the other records say.
   */
  lemma MixedVictimsAreRead(m: BuffData, ps: seq<Part>, depth: nat)
    requires OthersAreOther(ps, 3)
    ensures ParseFrom(ApplyBuff, m, EncodeRecords(PartRecords(ps, 3)), depth)
         == if !AllFit(PartRecords(ps, 3), depth) then None
            else Some(BuffData(LastVarint(Others(ps), 1, m.buffId), LastFixed32(Others(ps), 2, m.remainTime),
                               m.victims + PartNumbers(ps), m.unknown + Unknown(Others(ps), BUFF_FIELDS)))
  {
    BuffParseMeans(m, EncodeRecords(PartRecords(ps, 3)), depth);
    RecordsOfEncoded(PartRecords(ps, 3), depth);
    NumbersOfParts(ps, 3);
    OtherFieldsOfParts(ps, 3, 1, BUFF_FIELDS, m.buffId, m.remainTime);
    OtherFieldsOfParts(ps, 3, 2, BUFF_FIELDS, m.buffId, m.remainTime);
  }

  /** With nothing but victims, nothing but the list changes. */
  lemma VictimsAlone(m: BuffData, ps: seq<Part>, depth: nat)
    requires AllFit(PartRecords(ps, 3), depth) && forall p | p in ps :: !p.Other?
    ensures ParseFrom(ApplyBuff, m, EncodeRecords(PartRecords(ps, 3)), depth)
         == Some(m.(victims := m.victims + PartNumbers(ps)))
  {
    MixedVictimsAreRead(m, ps, depth);
    NoOthers(ps);
    assert m.unknown + [] == m.unknown;
  }

  lemma {:induction false} NoOthers(ps: seq<Part>)
    requires forall p | p in ps :: !p.Other?
    ensures Others(ps) == []
  {
    if ps == [] {
    } else {
      NoOthers(ps[..|ps| - 1]);
    }
  }

  // ----- S_TEST -----

  const TEST_FIELDS: set<(int, int)> := {(1, 0), (2, 0), (3, 0), (4, 2)}

  /** One list element, from the bytes of its record. */
  function ReadBuff(data: seq<byte>, depth: nat): Option<BuffData>
  {
    if depth == 0 then None
    else match RecordsOf(data, depth - 1) case None => None case Some(rs) => BuffFrom(NO_BUFF, rs)
  }

  /** The list elements in the records, in order; None when one cannot be read. */
  function BuffsIn(rs: seq<Record>, depth: nat): Option<seq<BuffData>>
  {
    if rs == [] then Some([])
    else
      var before, r := BuffsIn(rs[..|rs| - 1], depth), rs[|rs| - 1];
      if !(r.Bytes? && r.num == 4) then before
      else if before.None? || ReadBuff(r.data, depth).None? then None
      else Some(before.value + [ReadBuff(r.data, depth).value])
  }

  function TestFrom(m: STest, rs: seq<Record>, depth: nat): Option<STest>
  {
    match BuffsIn(rs, depth)
    case None => None
    case Some(buffs) =>
      Some(STest(LastVarint(rs, 1, m.id), LastUint32(rs, 2, m.hp), LastUint32(rs, 3, m.attack), m.buffs + buffs,
        m.unknown + Unknown(rs, TEST_FIELDS)))
  }

  lemma {:induction false} TestTakesRecords(m: STest, rs: seq<Record>, depth: nat)
    ensures Accept(ApplyTest, m, rs, depth) == if AllFit(rs, depth) then TestFrom(m, rs, depth) else None
  {
    if rs == [] {
      assert m.unknown + [] == m.unknown && m.buffs + [] == m.buffs;
    } else {
      hide Accept, Fits, AllFit;
      var n := |rs| - 1;
      AcceptSnoc(ApplyTest, m, rs, depth);
      AllFitSnoc(rs, depth);
      TestTakesRecords(m, rs[..n], depth);
      if TestFrom(m, rs[..n], depth).Some? {
        TestTakesOne(m, rs, depth);
      }
    }
  }

  lemma TestTakesOne(m: STest, rs: seq<Record>, depth: nat)
    requires rs != [] && TestFrom(m, rs[..|rs| - 1], depth).Some?
    ensures var n := |rs| - 1; ApplyTest(TestFrom(m, rs[..n], depth).value, rs[n], depth) == TestFrom(m, rs, depth)
  {
    hide ToUint32, BuffFrom, RecordsOf, ParseFrom;
    UnknownSnoc(m.unknown, rs, TEST_FIELDS);
    var n := |rs| - 1;
    var r := rs[n];
    assert (r.num, WireType(r)) in TEST_FIELDS <==> TestKnows(r);
    if r.Bytes? && r.num == 4 && depth > 0 {
      BuffParseMeans(NO_BUFF, r.data, depth - 1);
      if ReadBuff(r.data, depth).Some? {
        Regroup(m.buffs, BuffsIn(rs[..n], depth).value, [ReadBuff(r.data, depth).value]);
      }
    }
  }

  lemma TestParseMeans(m: STest, bs: seq<byte>, depth: nat)
    ensures ParseFrom(ApplyTest, m, bs, depth)
         == match RecordsOf(bs, depth) case None => None case Some(rs) => TestFrom(m, rs, depth)
  {
    ParseIsByRecords(ApplyTest, m, bs, depth);
    if RecordsOf(bs, depth).Some? {
      TestTakesRecords(m, RecordsOf(bs, depth).value, depth);
    }
  }

  /** The records of list elements whose victims are cut in any way. */
  function CutBuffs(list: seq<seq<Part>>): seq<Record>
  {
    seq(|list|, k requires 0 <= k < |list| => Bytes(4, EncodeRecords(PartRecords(list[k], 3))))
  }

  function BuffOfParts(ps: seq<Part>): BuffData
  {
    BuffData(LastVarint(Others(ps), 1, 0), LastFixed32(Others(ps), 2, 0), PartNumbers(ps),
      Unknown(Others(ps), BUFF_FIELDS))
  }

  function BuffsOfParts(list: seq<seq<Part>>): seq<BuffData>
  {
    seq(|list|, k requires 0 <= k < |list| => BuffOfParts(list[k]))
  }

  /** An S_TEST reads such elements behind those it has, each with its victims in wire order. */
  lemma MixedVictimsInTest(m: STest, list: seq<seq<Part>>, depth: nat)
    requires depth > 0 && AllFit(CutBuffs(list), depth)
    requires forall ps | ps in list :: OthersAreOther(ps, 3) && AllFit(PartRecords(ps, 3), depth - 1)
    ensures ParseFrom(ApplyTest, m, EncodeRecords(CutBuffs(list)), depth)
         == Some(m.(buffs := m.buffs + BuffsOfParts(list)))
  {
    TestParseMeans(m, EncodeRecords(CutBuffs(list)), depth);
    RecordsOfEncoded(CutBuffs(list), depth);
    CutBuffsAreRead(list, depth, m);
    assert m.unknown + [] == m.unknown;
  }

  lemma {:induction false} CutBuffsAreRead(list: seq<seq<Part>>, depth: nat, m: STest)
    requires depth > 0
    requires forall ps | ps in list :: OthersAreOther(ps, 3) && AllFit(PartRecords(ps, 3), depth - 1)
    ensures BuffsIn(CutBuffs(list), depth) == Some(BuffsOfParts(list))
    ensures LastVarint(CutBuffs(list), 1, m.id) == m.id && LastUint32(CutBuffs(list), 2, m.hp) == m.hp
    ensures LastUint32(CutBuffs(list), 3, m.attack) == m.attack && Unknown(CutBuffs(list), TEST_FIELDS) == []
  {
    if list == [] {
      assert CutBuffs(list) == [] && BuffsOfParts(list) == [];
    } else {
      hide BuffOfParts, BuffsOfParts, BuffsIn, LastVarint, LastUint32, Unknown, ReadBuff, OthersAreOther, AllFit,
        CutBuffs;
      var n := |list| - 1;
      CutBuffsAreRead(list[..n], depth, m);
      CutBuffIsRead(list[n], depth);
      OneMoreCutBuff(list);
      OneMoreBuff(CutBuffs(list[..n]), EncodeRecords(PartRecords(list[n], 3)), depth, m);
    }
  }

  lemma OneMoreCutBuff(list: seq<seq<Part>>)
    requires list != []
    ensures var n := |list| - 1;
      && CutBuffs(list) == CutBuffs(list[..n]) + [Bytes(4, EncodeRecords(PartRecords(list[n], 3)))]
      && BuffsOfParts(list) == BuffsOfParts(list[..n]) + [BuffOfParts(list[n])]
  {
    hide BuffOfParts, EncodeRecords, PartRecords;
  }

  lemma OneMoreBuff(rs: seq<Record>, data: seq<byte>, depth: nat, m: STest)
    ensures BuffsIn(rs, depth).Some? && ReadBuff(data, depth).Some? ==>
      BuffsIn(rs + [Bytes(4, data)], depth) == Some(BuffsIn(rs, depth).value + [ReadBuff(data, depth).value])
    ensures LastVarint(rs + [Bytes(4, data)], 1, m.id) == LastVarint(rs, 1, m.id)
    ensures LastUint32(rs + [Bytes(4, data)], 2, m.hp) == LastUint32(rs, 2, m.hp)
    ensures LastUint32(rs + [Bytes(4, data)], 3, m.attack) == LastUint32(rs, 3, m.attack)
    ensures Unknown(rs + [Bytes(4, data)], TEST_FIELDS) == Unknown(rs, TEST_FIELDS)
  {
    hide ReadBuff;
    assert (rs + [Bytes(4, data)])[..|rs|] == rs;
    UnknownOfSnoc(rs, Bytes(4, data), TEST_FIELDS);
  }

  lemma CutBuffIsRead(ps: seq<Part>, depth: nat)
    requires depth > 0 && OthersAreOther(ps, 3) && AllFit(PartRecords(ps, 3), depth - 1)
    ensures ReadBuff(EncodeRecords(PartRecords(ps, 3)), depth) == Some(BuffOfParts(ps))
  {
    MixedVictimsAreRead(NO_BUFF, ps, depth - 1);
    BuffParseMeans(NO_BUFF, EncodeRecords(PartRecords(ps, 3)), depth - 1);
    assert [] + PartNumbers(ps) == PartNumbers(ps);
    assert [] + Unknown(Others(ps), BUFF_FIELDS) == Unknown(Others(ps), BUFF_FIELDS);
  }

  // ----- S_AddObject -----

  const ADD_FIELDS: set<(int, int)> := {(1, 2)}

  function ReadObject(o: ObjectInfo, data: seq<byte>, depth: nat): Option<ObjectInfo>
  {
    if depth == 0 then None
    else
      var rs := RecordsOf(data, depth - 1);
      if rs.Some? && NamesAreUtf8(rs.value) then Some(ObjectFrom(o, rs.value)) else None
  }

  /** The list elements in the records, in order; None when one cannot be read. */
  function ObjectsIn(rs: seq<Record>, depth: nat): Option<seq<ObjectInfo>>
  {
    if rs == [] then Some([])
    else
      var before, r := ObjectsIn(rs[..|rs| - 1], depth), rs[|rs| - 1];
      if !(r.Bytes? && r.num == 1) then before
      else if before.None? || ReadObject(NO_OBJECT, r.data, depth).None? then None
      else Some(before.value + [ReadObject(NO_OBJECT, r.data, depth).value])
  }

  function AddFrom(m: SAddObject, rs: seq<Record>, depth: nat): Option<SAddObject>
  {
    match ObjectsIn(rs, depth)
    case None => None
    case Some(objects) => Some(SAddObject(m.objects + objects, m.unknown + Unknown(rs, ADD_FIELDS)))
  }

  lemma {:induction false} AddTakesRecords(m: SAddObject, rs: seq<Record>, depth: nat)
    ensures Accept(ApplyAdd, m, rs, depth) == if AllFit(rs, depth) then AddFrom(m, rs, depth) else None
  {
    if rs == [] {
      assert m.unknown + [] == m.unknown && m.objects + [] == m.objects;
    } else {
      hide Accept, Fits, AllFit;
      var n := |rs| - 1;
      AcceptSnoc(ApplyAdd, m, rs, depth);
      AllFitSnoc(rs, depth);
      AddTakesRecords(m, rs[..n], depth);
      if AddFrom(m, rs[..n], depth).Some? {
        AddTakesOne(m, rs, depth);
      }
    }
  }

  lemma AddTakesOne(m: SAddObject, rs: seq<Record>, depth: nat)
    requires rs != [] && AddFrom(m, rs[..|rs| - 1], depth).Some?
    ensures var n := |rs| - 1; ApplyAdd(AddFrom(m, rs[..n], depth).value, rs[n], depth) == AddFrom(m, rs, depth)
  {
    hide ObjectFrom, RecordsOf, ParseFrom, NamesAreUtf8;
    UnknownSnoc(m.unknown, rs, ADD_FIELDS);
    var n := |rs| - 1;
    var r := rs[n];
    assert (r.num, WireType(r)) in ADD_FIELDS <==> AddKnows(r);
    if r.Bytes? && r.num == 1 && depth > 0 {
      ObjectParseMeans(NO_OBJECT, r.data, depth - 1);
      if ReadObject(NO_OBJECT, r.data, depth).Some? {
        Regroup(m.objects, ObjectsIn(rs[..n], depth).value, [ReadObject(NO_OBJECT, r.data, depth).value]);
      }
    }
  }

  lemma AddParseMeans(m: SAddObject, bs: seq<byte>, depth: nat)
    ensures ParseFrom(ApplyAdd, m, bs, depth)
         == match RecordsOf(bs, depth) case None => None case Some(rs) => AddFrom(m, rs, depth)
  {
    ParseIsByRecords(ApplyAdd, m, bs, depth);
    if RecordsOf(bs, depth).Some? {
      AddTakesRecords(m, RecordsOf(bs, depth).value, depth);
    }
  }

  // ----- S_RemoveObject -----

  const REMOVE_FIELDS: set<(int, int)> := {(1, 0), (1, 2)}

  function RemoveFrom(m: SRemoveObject, rs: seq<Record>): Option<SRemoveObject>
  {
    match Numbers(rs, 1)
    case None => None
    case Some(ids) => Some(SRemoveObject(m.ids + ids, m.unknown + Unknown(rs, REMOVE_FIELDS)))
  }

  lemma {:induction false} RemoveTakesRecords(m: SRemoveObject, rs: seq<Record>, depth: nat)
    ensures Accept(ApplyRemove, m, rs, depth) == if AllFit(rs, depth) then RemoveFrom(m, rs) else None
  {
    if rs == [] {
      assert m.unknown + [] == m.unknown && m.ids + [] == m.ids;
    } else {
      hide Accept, Fits, AllFit;
      var n := |rs| - 1;
      AcceptSnoc(ApplyRemove, m, rs, depth);
      AllFitSnoc(rs, depth);
      RemoveTakesRecords(m, rs[..n], depth);
      if RemoveFrom(m, rs[..n]).Some? {
        RemoveTakesOne(m, rs, depth);
      }
    }
  }

  lemma RemoveTakesOne(m: SRemoveObject, rs: seq<Record>, depth: nat)
    requires rs != [] && RemoveFrom(m, rs[..|rs| - 1]).Some?
    ensures var n := |rs| - 1; ApplyRemove(RemoveFrom(m, rs[..n]).value, rs[n], depth) == RemoveFrom(m, rs)
  {
    hide ReadPacked;
    UnknownSnoc(m.unknown, rs, REMOVE_FIELDS);
    var n := |rs| - 1;
    var r := rs[n];
    assert (r.num, WireType(r)) in REMOVE_FIELDS <==> RemoveKnows(r);
    var list := m.ids + Numbers(rs[..n], 1).value;
    assert list + [] == list;
    if NumbersIn(r, 1).Some? {
      NumbersSnoc(m.ids, rs, 1);
    }
    if r.Bytes? && r.num == 1 {
      ReadPackedAppends(list, r.data);
    }
  }

  lemma RemoveParseMeans(m: SRemoveObject, bs: seq<byte>, depth: nat)
    ensures ParseFrom(ApplyRemove, m, bs, depth)
         == match RecordsOf(bs, depth) case None => None case Some(rs) => RemoveFrom(m, rs)
  {
    ParseIsByRecords(ApplyRemove, m, bs, depth);
    if RecordsOf(bs, depth).Some? {
      RemoveTakesRecords(m, RecordsOf(bs, depth).value, depth);
    }
  }

  /** The ids may be cut in any way, too, with other records anywhere between them. */
  lemma MixedIdsAreRead(m: SRemoveObject, ps: seq<Part>, depth: nat)
    requires OthersAreOther(ps, 1)
    ensures ParseFrom(ApplyRemove, m, EncodeRecords(PartRecords(ps, 1)), depth)
         == if !AllFit(PartRecords(ps, 1), depth) then None
            else Some(SRemoveObject(m.ids + PartNumbers(ps), m.unknown + Unknown(Others(ps), REMOVE_FIELDS)))
  {
    RemoveParseMeans(m, EncodeRecords(PartRecords(ps, 1)), depth);
    RecordsOfEncoded(PartRecords(ps, 1), depth);
    NumbersOfParts(ps, 1);
    OtherFieldsOfParts(ps, 1, 2, REMOVE_FIELDS, 0, 0);
  }

  // ----- S_Attack -----

  const ATTACK_FIELDS: set<(int, int)> := {(1, 2), (2, 2)}

  lemma ObjectFromConcat(o: ObjectInfo, a: seq<Record>, b: seq<Record>)
    ensures ObjectFrom(ObjectFrom(o, a), b) == ObjectFrom(o, a + b)
    ensures NamesAreUtf8(a + b) <==> NamesAreUtf8(a) && NamesAreUtf8(b)
  {
    hide LastVarint, LastInt, LastBytes, Unknown, ValidUtf8;
    ScalarsConcat(a, b, 1, o.objectId, o.objectType, o.name);
    ScalarsConcat(a, b, 2, o.objectId, o.objectType, o.name);
    ScalarsConcat(a, b, 3, o.objectId, o.state, o.name);
    ScalarsConcat(a, b, 4, o.objectId, o.dir, o.name);
    ScalarsConcat(a, b, 5, o.objectId, o.dir, o.name);
    ScalarsConcat(a, b, 6, o.objectId, o.hp, o.name);
    ScalarsConcat(a, b, 7, o.objectId, o.maxHp, o.name);
    ScalarsConcat(a, b, 8, o.objectId, o.attack, o.name);
    ScalarsConcat(a, b, 9, o.objectId, o.defence, o.name);
    ScalarsConcat(a, b, 10, o.objectId, o.posX, o.name);
    ScalarsConcat(a, b, 11, o.objectId, o.posY, o.name);
    UnknownConcat(a, b, OBJECT_FIELDS);
    Regroup(o.unknown, Unknown(a, OBJECT_FIELDS), Unknown(b, OBJECT_FIELDS));
  }

  /**
   * A sub-message after the records: as it was when none of them is of its field, else with all the records inside
   * those taken together, over what there was or over an empty one.
   */
  function SubFrom(o: Option<ObjectInfo>, rs: seq<Record>, num: int, depth: nat): Option<Option<ObjectInfo>>
  {
    var inner := InnerRecords(rs, num, depth);
    if !HasPayload(rs, num) then Some(o)
    else if inner.None? || !NamesAreUtf8(inner.value) then None
    else Some(Some(ObjectFrom(OrDefault(o), inner.value)))
  }

  function AttackFrom(m: SAttack, rs: seq<Record>, depth: nat): Option<SAttack>
  {
    var target, attacker := SubFrom(m.target, rs, 1, depth), SubFrom(m.attacker, rs, 2, depth);
    if target.None? || attacker.None? then None
    else Some(SAttack(target.value, attacker.value, m.unknown + Unknown(rs, ATTACK_FIELDS)))
  }

  lemma {:induction false} NoInnerRecords(rs: seq<Record>, num: int, depth: nat)
    requires !HasPayload(rs, num)
    ensures InnerRecords(rs, num, depth) == Some([])
  {
    if rs == [] {
    } else {
      NoInnerRecords(rs[..|rs| - 1], num, depth);
    }
  }

  lemma HasPayloadSnoc(rs: seq<Record>, num: int)
    requires rs != []
    ensures var n := |rs| - 1;
      HasPayload(rs, num) <==> HasPayload(rs[..n], num) || (rs[n].Bytes? && rs[n].num == num)
  {
    var n := |rs| - 1;
    if HasPayload(rs[..n], num) {
      var i :| 0 <= i < n && rs[..n][i].Bytes? && rs[..n][i].num == num;
      assert rs[i].Bytes?;
    }
  }

  /** One more record of the field, or one that is not of it. */
  lemma SubTakesOne(o: Option<ObjectInfo>, rs: seq<Record>, num: int, depth: nat)
    requires rs != []
    ensures var n := |rs| - 1; var r, before := rs[n], SubFrom(o, rs[..n], num, depth);
      SubFrom(o, rs, num, depth)
      == if !(r.Bytes? && r.num == num) then before
         else if before.None? then None
         else
           match ReadObject(OrDefault(before.value), r.data, depth)
           case None => None
           case Some(next) => Some(Some(next))
  {
    hide ObjectFrom, NamesAreUtf8, RecordsOf;
    var n := |rs| - 1;
    HasPayloadSnoc(rs, num);
    if !HasPayload(rs[..n], num) {
      NoInnerRecords(rs[..n], num, depth);
    }
    var inner := InnerRecords(rs[..n], num, depth);
    if rs[n].Bytes? && rs[n].num == num && depth > 0 && inner.Some? && RecordsOf(rs[n].data, depth - 1).Some? {
      var more := RecordsOf(rs[n].data, depth - 1).value;
      ObjectFromConcat(OrDefault(o), inner.value, more);
      NothingInFront(OrDefault(o), more);
      assert [] + more == more;
    }
  }

  lemma NothingInFront(o: ObjectInfo, rs: seq<Record>)
    ensures NamesAreUtf8([]) && ObjectFrom(o, []) == o
  {
    assert o.unknown + [] == o.unknown;
  }

  lemma {:induction false} AttackTakesRecords(m: SAttack, rs: seq<Record>, depth: nat)
    ensures Accept(ApplyAttack, m, rs, depth) == if AllFit(rs, depth) then AttackFrom(m, rs, depth) else None
  {
    if rs == [] {
      assert m.unknown + [] == m.unknown;
    } else {
      hide Accept, Fits, AllFit;
      var n := |rs| - 1;
      AcceptSnoc(ApplyAttack, m, rs, depth);
      AllFitSnoc(rs, depth);
      AttackTakesRecords(m, rs[..n], depth);
      AttackTakesOne(m, rs, depth);
    }
  }

  lemma AttackTakesOne(m: SAttack, rs: seq<Record>, depth: nat)
    requires rs != []
    ensures var n := |rs| - 1; var before := AttackFrom(m, rs[..n], depth);
      AttackFrom(m, rs, depth) == if before.None? then None else ApplyAttack(before.value, rs[n], depth)
  {
    hide ObjectFrom, RecordsOf, ParseFrom, NamesAreUtf8, SubFrom, InnerRecords;
    UnknownSnoc(m.unknown, rs, ATTACK_FIELDS);
    var n := |rs| - 1;
    var r := rs[n];
    assert (r.num, WireType(r)) in ATTACK_FIELDS <==> AttackKnows(r);
    SubTakesOne(m.target, rs, 1, depth);
    SubTakesOne(m.attacker, rs, 2, depth);
    var before := AttackFrom(m, rs[..n], depth);
    if before.Some? && r.Bytes? && depth > 0 {
      if r.num == 1 {
        ObjectParseMeans(OrDefault(before.value.target), r.data, depth - 1);
      } else if r.num == 2 {
        ObjectParseMeans(OrDefault(before.value.attacker), r.data, depth - 1);
      }
    }
  }

  lemma AttackParseMeans(m: SAttack, bs: seq<byte>, depth: nat)
    ensures ParseFrom(ApplyAttack, m, bs, depth)
         == match RecordsOf(bs, depth) case None => None case Some(rs) => AttackFrom(m, rs, depth)
  {
    ParseIsByRecords(ApplyAttack, m, bs, depth);
    if RecordsOf(bs, depth).Some? {
      AttackTakesRecords(m, RecordsOf(bs, depth).value, depth);
    }
  }
}
