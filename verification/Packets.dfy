/** The packets: lists of structures, optional structures, and lists of ids. */
module Packets {
  import opened Prelude
  import opened Wire
  import opened Scalars
  import opened GameObjects

  // ----- S_TEST -----

  datatype STest = STest(id: uint64, hp: uint32, attack: uint32, buffs: seq<BuffData>, unknown: seq<Record>)

  const NO_TEST := STest(0, 0, 0, [], [])

  predicate TestKnows(r: Record)
  {
    match r
    case Varint(num, _) => num <= 3
    case Bytes(num, _) => num == 4
    case _ => false
  }

  function ApplyTest(m: STest, r: Record, depth: nat): Option<STest>
  {
    if !TestKnows(r) then Some(m.(unknown := m.unknown + [r]))
    else match r
      case Varint(num, v) =>
        Some(if num == 1 then m.(id := v)
             else if num == 2 then m.(hp := ToUint32(v))
             else m.(attack := ToUint32(v)))
      case Bytes(_, data) =>
        match ParseSub(ApplyBuff, NO_BUFF, data, depth)
        case None => None
        case Some(b) => Some(m.(buffs := m.buffs + [b]))
  }

  function BuffListRecords(buffs: seq<BuffData>): seq<Record>
  {
    if buffs == [] then [] else [Bytes(4, EncodeBuff(buffs[0]))] + BuffListRecords(buffs[1..])
  }

  function TestRecords(m: STest): seq<Record>
  {
    VarintUnlessZero(1, m.id)
    + (VarintUnlessZero(2, m.hp) + (VarintUnlessZero(3, m.attack) + (BuffListRecords(m.buffs) + m.unknown)))
  }

  function EncodeTest(m: STest): seq<byte>
  {
    EncodeRecords(TestRecords(m))
  }

  function CanonicalBuffs(buffs: seq<BuffData>): seq<BuffData>
  {
    seq(|buffs|, i requires 0 <= i < |buffs| => CanonicalBuff(buffs[i]))
  }

  lemma CanonicalHead(buffs: seq<BuffData>)
    requires buffs != []
    ensures CanonicalBuffs(buffs)[0] == CanonicalBuff(buffs[0])
    ensures CanonicalBuffs(buffs)[1..] == CanonicalBuffs(buffs[1..])
  {
  }

  /** MergeFrom: each element of the list of `from` is merged into a new element. */
  function MergeTest(m: STest, from: STest): STest
  {
    STest(LastWins(m.id, from.id), LastWins(m.hp, from.hp), LastWins(m.attack, from.attack),
      m.buffs + CanonicalBuffs(from.buffs), m.unknown + from.unknown)
  }

  predicate TestWellFormed(m: STest)
  {
    && (forall r | r in m.unknown :: !TestKnows(r))
    && (forall i | 0 <= i < |m.buffs| :: BuffWellFormed(m.buffs[i]))
  }

  /** A sub-message a reader accepts: short enough, one nesting level left, readable with one level less. */
  predicate BuffFieldReadable(b: BuffData, depth: nat)
  {
    depth > 0 && |EncodeBuff(b)| <= MAX_LENGTH && BuffReadable(b, depth - 1)
  }

  predicate BuffListReadable(buffs: seq<BuffData>, depth: nat)
  {
    forall i | 0 <= i < |buffs| :: BuffFieldReadable(buffs[i], depth)
  }

  predicate TestReadable(m: STest, depth: nat)
  {
    BuffListReadable(m.buffs, depth) && AllFit(m.unknown, depth)
  }

  lemma {:induction false} AcceptUnknownTest(m: STest, rs: seq<Record>, depth: nat)
    requires forall r | r in rs :: !TestKnows(r)
    ensures Accept(ApplyTest, m, rs, depth)
         == if AllFit(rs, depth) then Some(m.(unknown := m.unknown + rs)) else None
    decreases |rs|
  {
    if rs == [] {
      assert m.unknown + rs == m.unknown;
    } else {
      var m' := m.(unknown := m.unknown + [rs[0]]);
      AcceptUnknownTest(m', rs[1..], depth);
      assert m'.unknown + rs[1..] == m.unknown + rs;
      assert rs == [rs[0]] + rs[1..];
    }
  }

  /** One written list element. */
  lemma AcceptBuffField(m: STest, b: BuffData, depth: nat)
    requires BuffWellFormed(b)
    ensures
      var r := Bytes(4, EncodeBuff(b));
      (if Fits(r, depth) then ApplyTest(m, r, depth) else None)
      == if BuffFieldReadable(b, depth) then Some(m.(buffs := m.buffs + [CanonicalBuff(b)])) else None
  {
    if depth > 0 {
      BuffParseIsMerge(NO_BUFF, b, depth - 1);
      MergeIntoNoBuff(b);
    }
  }

  lemma BuffListReadableHead(buffs: seq<BuffData>, depth: nat)
    requires buffs != []
    ensures BuffListReadable(buffs, depth)
       <==> BuffFieldReadable(buffs[0], depth) && BuffListReadable(buffs[1..], depth)
  {
    assert buffs == [buffs[0]] + buffs[1..];
  }

  /** Written list elements are appended one by one; one that cannot be read fails the whole. */
  lemma {:induction false} AcceptBuffList(m: STest, buffs: seq<BuffData>, depth: nat)
    requires forall i | 0 <= i < |buffs| :: BuffWellFormed(buffs[i])
    ensures Accept(ApplyTest, m, BuffListRecords(buffs), depth)
         == if BuffListReadable(buffs, depth) then Some(m.(buffs := m.buffs + CanonicalBuffs(buffs))) else None
    decreases |buffs|
  {
    if buffs == [] {
      assert m.buffs + CanonicalBuffs(buffs) == m.buffs;
    } else {
      hide Accept, ApplyTest, BuffFieldReadable, BuffListReadable, Fits;
      var b, more := buffs[0], buffs[1..];
      BuffListReadableHead(buffs, depth);
      AcceptCons(ApplyTest, m, Bytes(4, EncodeBuff(b)), BuffListRecords(more), depth);
      AcceptBuffField(m, b, depth);
      if BuffFieldReadable(b, depth) {
        var m' := m.(buffs := m.buffs + [CanonicalBuff(b)]);
        AcceptBuffList(m', more, depth);
        CanonicalHead(buffs);
        AppendHead(m.buffs, CanonicalBuffs(buffs));
      }
    }
  }

  lemma AcceptTestTail(m: STest, f: STest, depth: nat)
    requires TestWellFormed(f)
    ensures Accept(ApplyTest, m, BuffListRecords(f.buffs) + f.unknown, depth)
         == if TestReadable(f, depth)
            then Some(m.(buffs := m.buffs + CanonicalBuffs(f.buffs), unknown := m.unknown + f.unknown)) else None
  {
    AcceptConcat(ApplyTest, m, BuffListRecords(f.buffs), f.unknown, depth);
    AcceptBuffList(m, f.buffs, depth);
    AcceptUnknownTest(m.(buffs := m.buffs + CanonicalBuffs(f.buffs)), f.unknown, depth);
  }

  /** Taking in one optional scalar and then the rest. */
  lemma TestScalarThen(m: STest, num: FieldNumber, v: uint64, more: seq<Record>, depth: nat)
    requires num <= 3
    ensures Accept(ApplyTest, m, VarintUnlessZero(num, v) + more, depth)
         == Accept(ApplyTest, if v == 0 then m else ApplyTest(m, Varint(num, v), depth).value, more, depth)
  {
    AcceptConcat(ApplyTest, m, VarintUnlessZero(num, v), more, depth);
    AcceptOne(ApplyTest, m, Varint(num, v), depth);
  }

  lemma AcceptTest(m: STest, f: STest, depth: nat)
    requires TestWellFormed(f)
    ensures Accept(ApplyTest, m, TestRecords(f), depth)
         == if TestReadable(f, depth) then Some(MergeTest(m, f)) else None
  {
    hide Accept, BuffListRecords, CanonicalBuffs;
    var s4 := BuffListRecords(f.buffs) + f.unknown;
    var s3 := VarintUnlessZero(3, f.attack) + s4;
    var s2 := VarintUnlessZero(2, f.hp) + s3;
    TestScalarThen(m, 1, f.id, s2, depth);
    var m1 := m.(id := LastWins(m.id, f.id));
    TestScalarThen(m1, 2, f.hp, s3, depth);
    var m2 := m1.(hp := LastWins(m.hp, f.hp));
    TestScalarThen(m2, 3, f.attack, s4, depth);
    AcceptTestTail(m2.(attack := LastWins(m.attack, f.attack)), f, depth);
  }

  /** Parsing the bytes of `f` into `m` merges `f` into `m`; it fails exactly when `f` is not readable. */
  lemma TestParseIsMerge(m: STest, f: STest, depth: nat)
    requires TestWellFormed(f)
    ensures ParseFrom(ApplyTest, m, EncodeTest(f), depth)
         == if TestReadable(f, depth) then Some(MergeTest(m, f)) else None
  {
    ParseEncoded(ApplyTest, m, TestRecords(f), depth);
    AcceptTest(m, f, depth);
  }

  function CanonicalTest(m: STest): STest
  {
    m.(buffs := CanonicalBuffs(m.buffs))
  }

  lemma TestRoundTrip(f: STest, depth: nat)
    requires TestWellFormed(f)
    ensures ParseFrom(ApplyTest, NO_TEST, EncodeTest(f), depth)
         == if TestReadable(f, depth) then Some(CanonicalTest(f)) else None
  {
    TestParseIsMerge(NO_TEST, f, depth);
    assert [] + CanonicalBuffs(f.buffs) == CanonicalBuffs(f.buffs) && [] + f.unknown == f.unknown;
  }

  lemma TestConcatIsMerge(a: STest, b: STest, depth: nat)
    requires TestWellFormed(a) && TestWellFormed(b)
    ensures ParseFrom(ApplyTest, NO_TEST, EncodeTest(a) + EncodeTest(b), depth)
         == if TestReadable(a, depth) && TestReadable(b, depth) then Some(MergeTest(CanonicalTest(a), b)) else None
  {
    TestRoundTrip(a, depth);
    ParseEncodedConcat(ApplyTest, NO_TEST, TestRecords(a), TestRecords(b), depth);
    TestParseIsMerge(CanonicalTest(a), b, depth);
  }

  lemma ApplyTestStaysWellFormed(m: STest, r: Record, depth: nat)
    requires TestWellFormed(m)
    ensures var m' := ApplyTest(m, r, depth); m'.Some? ==> TestWellFormed(m'.value)
  {
    if TestKnows(r) && r.Bytes? && depth > 0 {
      BuffStaysWellFormed(NO_BUFF, r.data, depth - 1);
    }
  }

  /** Whatever bytes are parsed, a well-formed packet stays well-formed. */
  lemma {:induction false} TestStaysWellFormed(m: STest, bs: seq<byte>, depth: nat)
    requires TestWellFormed(m)
    ensures var r := ParseFrom(ApplyTest, m, bs, depth); r.Some? ==> TestWellFormed(r.value)
    decreases |bs|
  {
    hide ApplyTest, TestWellFormed;
    if bs != [] && ReadRecord(bs, depth).Some? {
      var Some((r, rest)) := ReadRecord(bs, depth);
      var m' := ApplyTest(m, r, depth);
      if m'.Some? {
        ApplyTestStaysWellFormed(m, r, depth);
        TestStaysWellFormed(m'.value, rest, depth);
      }
    }
  }

  // ----- S_AddObject -----

  datatype SAddObject = SAddObject(objects: seq<ObjectInfo>, unknown: seq<Record>)

  const NO_ADD := SAddObject([], [])

  predicate AddKnows(r: Record)
  {
    r.Bytes? && r.num == 1
  }

  function ApplyAdd(m: SAddObject, r: Record, depth: nat): Option<SAddObject>
  {
    if !AddKnows(r) then Some(m.(unknown := m.unknown + [r]))
    else
      match ParseSub(ApplyObject, NO_OBJECT, r.data, depth)
      case None => None
      case Some(o) => Some(m.(objects := m.objects + [o]))
  }

  function ObjectListRecords(objects: seq<ObjectInfo>): seq<Record>
  {
    if objects == [] then [] else [Bytes(1, EncodeObject(objects[0]))] + ObjectListRecords(objects[1..])
  }

  function EncodeAdd(m: SAddObject): seq<byte>
  {
    EncodeRecords(ObjectListRecords(m.objects) + m.unknown)
  }

  function MergeAdd(m: SAddObject, from: SAddObject): SAddObject
  {
    SAddObject(m.objects + from.objects, m.unknown + from.unknown)
  }

  predicate AddWellFormed(m: SAddObject)
  {
    && (forall r | r in m.unknown :: !AddKnows(r))
    && (forall i | 0 <= i < |m.objects| :: ObjectWellFormed(m.objects[i]))
  }

  predicate ObjectFieldReadable(o: ObjectInfo, depth: nat)
  {
    depth > 0 && |EncodeObject(o)| <= MAX_LENGTH && ObjectReadable(o, depth - 1)
  }

  predicate ObjectListReadable(objects: seq<ObjectInfo>, depth: nat)
  {
    forall i | 0 <= i < |objects| :: ObjectFieldReadable(objects[i], depth)
  }

  predicate AddReadable(m: SAddObject, depth: nat)
  {
    ObjectListReadable(m.objects, depth) && AllFit(m.unknown, depth)
  }

  lemma {:induction false} AcceptUnknownAdd(m: SAddObject, rs: seq<Record>, depth: nat)
    requires forall r | r in rs :: !AddKnows(r)
    ensures Accept(ApplyAdd, m, rs, depth)
         == if AllFit(rs, depth) then Some(m.(unknown := m.unknown + rs)) else None
    decreases |rs|
  {
    if rs == [] {
      assert m.unknown + rs == m.unknown;
    } else {
      var m' := m.(unknown := m.unknown + [rs[0]]);
      AcceptUnknownAdd(m', rs[1..], depth);
      assert m'.unknown + rs[1..] == m.unknown + rs;
      AllFitHead(rs, depth);
    }
  }

  lemma AcceptObjectField(m: SAddObject, o: ObjectInfo, depth: nat)
    requires ObjectWellFormed(o)
    ensures
      var r := Bytes(1, EncodeObject(o));
      (if Fits(r, depth) then ApplyAdd(m, r, depth) else None)
      == if ObjectFieldReadable(o, depth) then Some(m.(objects := m.objects + [o])) else None
  {
    if depth > 0 {
      ObjectParseIsMerge(NO_OBJECT, o, depth - 1);
      assert [] + o.unknown == o.unknown;
    }
  }

  lemma ObjectListReadableHead(objects: seq<ObjectInfo>, depth: nat)
    requires objects != []
    ensures ObjectListReadable(objects, depth)
       <==> ObjectFieldReadable(objects[0], depth) && ObjectListReadable(objects[1..], depth)
  {
    assert objects == [objects[0]] + objects[1..];
  }

  lemma {:induction false} AcceptObjectList(m: SAddObject, objects: seq<ObjectInfo>, depth: nat)
    requires forall i | 0 <= i < |objects| :: ObjectWellFormed(objects[i])
    ensures Accept(ApplyAdd, m, ObjectListRecords(objects), depth)
         == if ObjectListReadable(objects, depth) then Some(m.(objects := m.objects + objects)) else None
    decreases |objects|
  {
    if objects == [] {
      assert m.objects + objects == m.objects;
    } else {
      hide Accept, ApplyAdd, ObjectFieldReadable, ObjectListReadable, Fits;
      var o, more := objects[0], objects[1..];
      ObjectListReadableHead(objects, depth);
      AcceptCons(ApplyAdd, m, Bytes(1, EncodeObject(o)), ObjectListRecords(more), depth);
      AcceptObjectField(m, o, depth);
      if ObjectFieldReadable(o, depth) {
        var m' := m.(objects := m.objects + [o]);
        AcceptObjectList(m', more, depth);
        AppendHead(m.objects, objects);
      }
    }
  }

  lemma AddParseIsMerge(m: SAddObject, f: SAddObject, depth: nat)
    requires AddWellFormed(f)
    ensures ParseFrom(ApplyAdd, m, EncodeAdd(f), depth)
         == if AddReadable(f, depth) then Some(MergeAdd(m, f)) else None
  {
    ParseEncoded(ApplyAdd, m, ObjectListRecords(f.objects) + f.unknown, depth);
    AcceptConcat(ApplyAdd, m, ObjectListRecords(f.objects), f.unknown, depth);
    AcceptObjectList(m, f.objects, depth);
    AcceptUnknownAdd(m.(objects := m.objects + f.objects), f.unknown, depth);
  }

  lemma AddRoundTrip(f: SAddObject, depth: nat)
    requires AddWellFormed(f)
    ensures ParseFrom(ApplyAdd, NO_ADD, EncodeAdd(f), depth) == if AddReadable(f, depth) then Some(f) else None
  {
    AddParseIsMerge(NO_ADD, f, depth);
    assert [] + f.objects == f.objects && [] + f.unknown == f.unknown;
  }

  lemma AddConcatIsMerge(a: SAddObject, b: SAddObject, depth: nat)
    requires AddWellFormed(a) && AddWellFormed(b)
    ensures ParseFrom(ApplyAdd, NO_ADD, EncodeAdd(a) + EncodeAdd(b), depth)
         == if AddReadable(a, depth) && AddReadable(b, depth) then Some(MergeAdd(a, b)) else None
  {
    AddRoundTrip(a, depth);
    ParseEncodedConcat(ApplyAdd, NO_ADD, ObjectListRecords(a.objects) + a.unknown,
      ObjectListRecords(b.objects) + b.unknown, depth);
    AddParseIsMerge(a, b, depth);
  }

  lemma ApplyAddStaysWellFormed(m: SAddObject, r: Record, depth: nat)
    requires AddWellFormed(m)
    ensures var m' := ApplyAdd(m, r, depth); m'.Some? ==> AddWellFormed(m'.value)
  {
    if AddKnows(r) && depth > 0 {
      ObjectStaysWellFormed(NO_OBJECT, r.data, depth - 1);
    }
  }

  /** Whatever bytes are parsed, a well-formed packet stays well-formed. */
  lemma {:induction false} AddStaysWellFormed(m: SAddObject, bs: seq<byte>, depth: nat)
    requires AddWellFormed(m)
    ensures var r := ParseFrom(ApplyAdd, m, bs, depth); r.Some? ==> AddWellFormed(r.value)
    decreases |bs|
  {
    hide ApplyAdd, AddWellFormed;
    if bs != [] && ReadRecord(bs, depth).Some? {
      var Some((r, rest)) := ReadRecord(bs, depth);
      var m' := ApplyAdd(m, r, depth);
      if m'.Some? {
        ApplyAddStaysWellFormed(m, r, depth);
        AddStaysWellFormed(m'.value, rest, depth);
      }
    }
  }

  // ----- S_RemoveObject -----

  datatype SRemoveObject = SRemoveObject(ids: seq<uint64>, unknown: seq<Record>)

  const NO_REMOVE := SRemoveObject([], [])

  predicate RemoveKnows(r: Record)
  {
    (r.Bytes? || r.Varint?) && r.num == 1
  }

  function ApplyRemove(m: SRemoveObject, r: Record, depth: nat): Option<SRemoveObject>
  {
    if !RemoveKnows(r) then Some(m.(unknown := m.unknown + [r]))
    else match r
      case Varint(_, v) => Some(m.(ids := m.ids + [v]))
      case Bytes(_, data) =>
        match ReadPacked(m.ids, data)
        case None => None
        case Some(ids) => Some(m.(ids := ids))
  }

  function EncodeRemove(m: SRemoveObject): seq<byte>
  {
    EncodeRecords(BytesUnlessEmpty(1, EncodePacked(m.ids)) + m.unknown)
  }

  function MergeRemove(m: SRemoveObject, from: SRemoveObject): SRemoveObject
  {
    SRemoveObject(m.ids + from.ids, m.unknown + from.unknown)
  }

  predicate RemoveWellFormed(m: SRemoveObject)
  {
    forall r | r in m.unknown :: !RemoveKnows(r)
  }

  predicate RemoveReadable(m: SRemoveObject, depth: nat)
  {
    |EncodePacked(m.ids)| <= MAX_LENGTH && AllFit(m.unknown, depth)
  }

  lemma {:induction false} AcceptUnknownRemove(m: SRemoveObject, rs: seq<Record>, depth: nat)
    requires forall r | r in rs :: !RemoveKnows(r)
    ensures Accept(ApplyRemove, m, rs, depth)
         == if AllFit(rs, depth) then Some(m.(unknown := m.unknown + rs)) else None
    decreases |rs|
  {
    if rs == [] {
      assert m.unknown + rs == m.unknown;
    } else {
      var m' := m.(unknown := m.unknown + [rs[0]]);
      AcceptUnknownRemove(m', rs[1..], depth);
      assert m'.unknown + rs[1..] == m.unknown + rs;
      AllFitHead(rs, depth);
    }
  }

  lemma RemoveParseIsMerge(m: SRemoveObject, f: SRemoveObject, depth: nat)
    requires RemoveWellFormed(f)
    ensures ParseFrom(ApplyRemove, m, EncodeRemove(f), depth)
         == if RemoveReadable(f, depth) then Some(MergeRemove(m, f)) else None
  {
    var packed := BytesUnlessEmpty(1, EncodePacked(f.ids));
    ParseEncoded(ApplyRemove, m, packed + f.unknown, depth);
    AcceptConcat(ApplyRemove, m, packed, f.unknown, depth);
    AcceptOne(ApplyRemove, m, Bytes(1, EncodePacked(f.ids)), depth);
    PackedRoundTrip(m.ids, f.ids);
    assert f.ids == [] ==> m.ids + f.ids == m.ids;
    AcceptUnknownRemove(m.(ids := m.ids + f.ids), f.unknown, depth);
  }

  lemma RemoveRoundTrip(f: SRemoveObject, depth: nat)
    requires RemoveWellFormed(f)
    ensures ParseFrom(ApplyRemove, NO_REMOVE, EncodeRemove(f), depth)
         == if RemoveReadable(f, depth) then Some(f) else None
  {
    RemoveParseIsMerge(NO_REMOVE, f, depth);
    assert [] + f.ids == f.ids && [] + f.unknown == f.unknown;
  }

  lemma RemoveConcatIsMerge(a: SRemoveObject, b: SRemoveObject, depth: nat)
    requires RemoveWellFormed(a) && RemoveWellFormed(b)
    ensures ParseFrom(ApplyRemove, NO_REMOVE, EncodeRemove(a) + EncodeRemove(b), depth)
         == if RemoveReadable(a, depth) && RemoveReadable(b, depth) then Some(MergeRemove(a, b)) else None
  {
    RemoveRoundTrip(a, depth);
    ParseEncodedConcat(ApplyRemove, NO_REMOVE, BytesUnlessEmpty(1, EncodePacked(a.ids)) + a.unknown,
      BytesUnlessEmpty(1, EncodePacked(b.ids)) + b.unknown, depth);
    RemoveParseIsMerge(a, b, depth);
  }

  lemma ApplyRemoveStaysWellFormed(m: SRemoveObject, r: Record, depth: nat)
    requires RemoveWellFormed(m)
    ensures var m' := ApplyRemove(m, r, depth); m'.Some? ==> RemoveWellFormed(m'.value)
  {
  }

  /** Whatever bytes are parsed, a well-formed packet stays well-formed. */
  lemma {:induction false} RemoveStaysWellFormed(m: SRemoveObject, bs: seq<byte>, depth: nat)
    requires RemoveWellFormed(m)
    ensures var r := ParseFrom(ApplyRemove, m, bs, depth); r.Some? ==> RemoveWellFormed(r.value)
    decreases |bs|
  {
    hide ApplyRemove, RemoveWellFormed;
    if bs != [] && ReadRecord(bs, depth).Some? {
      var Some((r, rest)) := ReadRecord(bs, depth);
      var m' := ApplyRemove(m, r, depth);
      if m'.Some? {
        ApplyRemoveStaysWellFormed(m, r, depth);
        RemoveStaysWellFormed(m'.value, rest, depth);
      }
    }
  }

  /** A stretch of a repeated field as some writer may put it on the wire. */
  datatype Piece = OneByOne(v: uint64) | PackedTogether(vs: seq<uint64>)

  function PieceRecord(p: Piece): Record
  {
    match p
    case OneByOne(v) => Varint(1, v)
    case PackedTogether(vs) => Bytes(1, EncodePacked(vs))
  }

  function PieceRecords(ps: seq<Piece>): seq<Record>
  {
    if ps == [] then [] else [PieceRecord(ps[0])] + PieceRecords(ps[1..])
  }

  function PieceValue(p: Piece): seq<uint64>
  {
    match p
    case OneByOne(v) => [v]
    case PackedTogether(vs) => vs
  }

  function PieceValues(ps: seq<Piece>): seq<uint64>
  {
    if ps == [] then [] else PieceValue(ps[0]) + PieceValues(ps[1..])
  }

  lemma {:induction false} AcceptPieces(m: SRemoveObject, ps: seq<Piece>, depth: nat)
    requires AllFit(PieceRecords(ps), depth)
    ensures Accept(ApplyRemove, m, PieceRecords(ps), depth) == Some(m.(ids := m.ids + PieceValues(ps)))
    decreases |ps|
  {
    if ps == [] {
      assert m.ids + PieceValues(ps) == m.ids;
    } else {
      hide Accept, ApplyRemove, AllFit, Fits, PieceRecord, PieceValue;
      var first, more := ps[0], ps[1..];
      AllFitHead(PieceRecords(ps), depth);
      assert PieceRecords(ps)[1..] == PieceRecords(more);
      AcceptCons(ApplyRemove, m, PieceRecord(first), PieceRecords(more), depth);
      AcceptPiece(m, first, depth);
      AcceptPieces(m.(ids := m.ids + PieceValue(first)), more, depth);
      Regroup(m.ids, PieceValue(first), PieceValues(more));
    }
  }

  lemma AcceptPiece(m: SRemoveObject, p: Piece, depth: nat)
    ensures ApplyRemove(m, PieceRecord(p), depth) == Some(m.(ids := m.ids + PieceValue(p)))
  {
    if p.PackedTogether? {
      PackedRoundTrip(m.ids, p.vs);
    }
  }

  /** However a list is cut into packed and unpacked records, it is read back in wire order. */
  lemma MixedPackingReadsTheList(m: SRemoveObject, ps: seq<Piece>, depth: nat)
    requires AllFit(PieceRecords(ps), depth)
    ensures ParseFrom(ApplyRemove, m, EncodeRecords(PieceRecords(ps)), depth)
         == Some(m.(ids := m.ids + PieceValues(ps)))
  {
    ParseEncoded(ApplyRemove, m, PieceRecords(ps), depth);
    AcceptPieces(m, ps, depth);
  }

  // ----- S_Attack -----

  datatype SAttack = SAttack(target: Option<ObjectInfo>, attacker: Option<ObjectInfo>, unknown: seq<Record>)

  const NO_ATTACK := SAttack(None, None, [])

  predicate AttackKnows(r: Record)
  {
    r.Bytes? && r.num <= 2
  }

  function OrDefault(o: Option<ObjectInfo>): ObjectInfo
  {
    match o case None => NO_OBJECT case Some(v) => v
  }

  function ApplyAttack(m: SAttack, r: Record, depth: nat): Option<SAttack>
  {
    if !AttackKnows(r) then Some(m.(unknown := m.unknown + [r]))
    else
      match ParseSub(ApplyObject, OrDefault(if r.num == 1 then m.target else m.attacker), r.data, depth)
      case None => None
      case Some(o) => Some(if r.num == 1 then m.(target := Some(o)) else m.(attacker := Some(o)))
  }

  function ObjectIfPresent(num: FieldNumber, o: Option<ObjectInfo>): seq<Record>
  {
    match o
    case None => []
    case Some(v) => [Bytes(num, EncodeObject(v))]
  }

  function AttackRecords(m: SAttack): seq<Record>
  {
    ObjectIfPresent(1, m.target) + (ObjectIfPresent(2, m.attacker) + m.unknown)
  }

  function EncodeAttack(m: SAttack): seq<byte>
  {
    EncodeRecords(AttackRecords(m))
  }

  function MergeOptional(a: Option<ObjectInfo>, b: Option<ObjectInfo>): Option<ObjectInfo>
  {
    match b
    case None => a
    case Some(from) => Some(MergeObject(OrDefault(a), from))
  }

  function MergeAttack(m: SAttack, from: SAttack): SAttack
  {
    SAttack(MergeOptional(m.target, from.target), MergeOptional(m.attacker, from.attacker), m.unknown + from.unknown)
  }

  predicate AttackWellFormed(m: SAttack)
  {
    && (forall r | r in m.unknown :: !AttackKnows(r))
    && (m.target.Some? ==> ObjectWellFormed(m.target.value))
    && (m.attacker.Some? ==> ObjectWellFormed(m.attacker.value))
  }

  predicate AttackReadable(m: SAttack, depth: nat)
  {
    && (m.target.Some? ==> ObjectFieldReadable(m.target.value, depth))
    && (m.attacker.Some? ==> ObjectFieldReadable(m.attacker.value, depth))
    && AllFit(m.unknown, depth)
  }

  lemma {:induction false} AcceptUnknownAttack(m: SAttack, rs: seq<Record>, depth: nat)
    requires forall r | r in rs :: !AttackKnows(r)
    ensures Accept(ApplyAttack, m, rs, depth)
         == if AllFit(rs, depth) then Some(m.(unknown := m.unknown + rs)) else None
    decreases |rs|
  {
    if rs == [] {
      assert m.unknown + rs == m.unknown;
    } else {
      var m' := m.(unknown := m.unknown + [rs[0]]);
      AcceptUnknownAttack(m', rs[1..], depth);
      assert m'.unknown + rs[1..] == m.unknown + rs;
      AllFitHead(rs, depth);
    }
  }

  /** One optional sub-message: merged into what is there, or into a new one. */
  lemma AcceptAttackField(m: SAttack, num: FieldNumber, o: Option<ObjectInfo>, depth: nat)
    requires num <= 2 && (o.Some? ==> ObjectWellFormed(o.value))
    ensures Accept(ApplyAttack, m, ObjectIfPresent(num, o), depth)
         == if o.Some? && !ObjectFieldReadable(o.value, depth) then None
            else if num == 1 then Some(m.(target := MergeOptional(m.target, o)))
            else Some(m.(attacker := MergeOptional(m.attacker, o)))
  {
    if o.Some? {
      hide Accept, ObjectReadable, MergeObject, EncodeObject, ObjectWellFormed;
      AcceptOne(ApplyAttack, m, Bytes(num, EncodeObject(o.value)), depth);
      if depth > 0 {
        ObjectParseIsMerge(OrDefault(if num == 1 then m.target else m.attacker), o.value, depth - 1);
      }
    }
  }

  lemma AttackParseIsMerge(m: SAttack, f: SAttack, depth: nat)
    requires AttackWellFormed(f)
    ensures ParseFrom(ApplyAttack, m, EncodeAttack(f), depth)
         == if AttackReadable(f, depth) then Some(MergeAttack(m, f)) else None
  {
    ParseEncoded(ApplyAttack, m, AttackRecords(f), depth);
    var s2 := ObjectIfPresent(2, f.attacker) + f.unknown;
    AcceptConcat(ApplyAttack, m, ObjectIfPresent(1, f.target), s2, depth);
    AcceptAttackField(m, 1, f.target, depth);
    var m1 := m.(target := MergeOptional(m.target, f.target));
    AcceptConcat(ApplyAttack, m1, ObjectIfPresent(2, f.attacker), f.unknown, depth);
    AcceptAttackField(m1, 2, f.attacker, depth);
    var m2 := m1.(attacker := MergeOptional(m.attacker, f.attacker));
    AcceptUnknownAttack(m2, f.unknown, depth);
  }

  /** Present sub-messages stay present, even when they write no bytes of their own. */
  lemma AttackRoundTrip(f: SAttack, depth: nat)
    requires AttackWellFormed(f)
    ensures ParseFrom(ApplyAttack, NO_ATTACK, EncodeAttack(f), depth)
         == if AttackReadable(f, depth) then Some(f) else None
  {
    AttackParseIsMerge(NO_ATTACK, f, depth);
    assert [] + f.unknown == f.unknown;
    assert f.target.Some? ==> [] + f.target.value.unknown == f.target.value.unknown;
    assert f.attacker.Some? ==> [] + f.attacker.value.unknown == f.attacker.value.unknown;
  }

  lemma AttackConcatIsMerge(a: SAttack, b: SAttack, depth: nat)
    requires AttackWellFormed(a) && AttackWellFormed(b)
    ensures ParseFrom(ApplyAttack, NO_ATTACK, EncodeAttack(a) + EncodeAttack(b), depth)
         == if AttackReadable(a, depth) && AttackReadable(b, depth) then Some(MergeAttack(a, b)) else None
  {
    AttackRoundTrip(a, depth);
    ParseEncodedConcat(ApplyAttack, NO_ATTACK, AttackRecords(a), AttackRecords(b), depth);
    AttackParseIsMerge(a, b, depth);
  }

  lemma ApplyAttackStaysWellFormed(m: SAttack, r: Record, depth: nat)
    requires AttackWellFormed(m)
    ensures var m' := ApplyAttack(m, r, depth); m'.Some? ==> AttackWellFormed(m'.value)
  {
    if AttackKnows(r) && depth > 0 {
      ObjectStaysWellFormed(OrDefault(if r.num == 1 then m.target else m.attacker), r.data, depth - 1);
    }
  }

  /** Whatever bytes are parsed, a well-formed packet stays well-formed. */
  lemma {:induction false} AttackStaysWellFormed(m: SAttack, bs: seq<byte>, depth: nat)
    requires AttackWellFormed(m)
    ensures var r := ParseFrom(ApplyAttack, m, bs, depth); r.Some? ==> AttackWellFormed(r.value)
    decreases |bs|
  {
    hide ApplyAttack, AttackWellFormed;
    if bs != [] && ReadRecord(bs, depth).Some? {
      var Some((r, rest)) := ReadRecord(bs, depth);
      var m' := ApplyAttack(m, r, depth);
      if m'.Some? {
        ApplyAttackStaysWellFormed(m, r, depth);
        AttackStaysWellFormed(m'.value, rest, depth);
      }
    }
  }
}
