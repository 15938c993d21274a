/** The generated classes BuffData and ObjectInfo: fields updated in place, sizes cached between two calls. */
module ObjectMessages {
  import opened Prelude
  import opened Wire
  import opened Scalars
  import opened GameObjects
  import opened WireReader
  import opened WireWriter

  class BuffDataMessage {
    var buffId: uint64
    var remainTime: uint32
    var victims: seq<uint64>
    var unknown: seq<Record>
    var victimsCachedByteSize: int32
    var cachedSize: int32

    constructor ()
      ensures Value() == NO_BUFF
    {
      buffId, remainTime, victims, unknown := 0, 0, [], [];
      victimsCachedByteSize, cachedSize := 0, 0;
    }

    function Value(): BuffData
      reads this
    {
      BuffData(buffId, remainTime, victims, unknown)
    }

    /** The caches hold the sizes of the present value, which is small enough to be written. */
    ghost predicate Sized()
      reads this
    {
      |EncodeBuff(Value())| <= INT_MAX
      && cachedSize == |EncodeBuff(Value())|
      && victimsCachedByteSize == |EncodePacked(victims)|
    }

    /** The switch of the parse loop: one field after its tag. */
    method ParseField(tag: uint32, buf: seq<byte>, p: nat, limit: nat, depth: nat) returns (ok: bool, next: nat)
      requires p <= limit <= |buf|
      modifies this
      ensures
        var payload := ReadPayload(tag, buf[p..limit], depth);
        var m := if payload.None? then None else ApplyBuff(old(Value()), payload.value.0, depth);
        (ok <==> m.Some?) &&
        (ok ==> m.value == Value() && p <= next <= limit && payload.value.1 == buf[next..limit])
    {
      if tag == 8 {
        PayloadOfVarint(tag, buf[p..limit], depth);
        ok, buffId, next := ReadVarintAt(buf, p, limit);
      } else if tag == 21 {
        PayloadOfFixed32(tag, buf[p..limit], depth);
        ok, remainTime, next := ReadFixed32At(buf, p, limit);
      } else if tag == 26 {
        PayloadOfBytes(tag, buf[p..limit], depth);
        ok, victims, next := ReadPackedAt(victims, buf, p, limit);
      } else if tag == 24 {
        PayloadOfVarint(tag, buf[p..limit], depth);
        var v;
        ok, v, next := ReadVarintAt(buf, p, limit);
        victims := victims + [v];
      } else {
        var r;
        ok, r, next := ReadUnknownAt(tag, buf, p, limit, depth);
        unknown := unknown + [r];
      }
    }

    /** _InternalParse up to `limit`, together with the check that the parse ended there. */
    method InternalParse(buf: seq<byte>, start: nat, limit: nat, depth: nat) returns (ok: bool)
      requires start <= limit <= |buf|
      modifies this
      ensures ok <==> ParseFrom(ApplyBuff, old(Value()), buf[start..limit], depth).Some?
      ensures ok ==> ParseFrom(ApplyBuff, old(Value()), buf[start..limit], depth) == Some(Value())
    {
      hide ReadPayload, ApplyBuff, ReadTag;
      var ptr := start;
      ghost var result := ParseFrom(ApplyBuff, Value(), buf[start..limit], depth);
      while ptr < limit
        invariant start <= ptr <= limit
        invariant ParseFrom(ApplyBuff, Value(), buf[ptr..limit], depth) == result
      {
        var good, tag, q := ReadTagAt(buf, ptr, limit);
        if !good { return false; }
        ParseTurn(ApplyBuff, Value(), buf[ptr..limit], tag, buf[q..limit], depth);
        if tag == 0 || tag % 8 == 4 {
          PayloadRefused(tag, buf[q..limit], depth);
          return false;
        }
        good, q := ParseField(tag, buf, q, limit, depth);
        if !good { return false; }
        ptr := q;
      }
      return true;
    }

    /** ParseMessage: a length, then this message within that limit, one nesting level down. */
    method ParseMessage(buf: seq<byte>, p: nat, limit: nat, depth: nat) returns (ok: bool, next: nat)
      requires p <= limit <= |buf|
      modifies this
      ensures
        var d := ReadDelimited(buf[p..limit]);
        var m := if d.None? then None else ParseSub(ApplyBuff, old(Value()), d.value.0, depth);
        (ok <==> m.Some?) && (ok ==> m.value == Value() && p < next <= limit && d.value.1 == buf[next..limit])
    {
      var good, size, start := ReadSizeAt(buf, p, limit);
      if !good || size > limit - start || depth == 0 { return false, p; }
      assert buf[start..limit][..size] == buf[start..start + size];
      assert buf[start..limit][size..] == buf[start + size..limit];
      ok := InternalParse(buf, start, start + size, depth - 1);
      next := start + size;
    }

    /** _InternalSerialize: the packed length is taken from the cache. */
    method InternalSerialize(out: seq<byte>) returns (r: seq<byte>)
      requires Sized()
      ensures r == out + EncodeBuff(Value())
    {
      r := WriteVarintUnlessZero(1, buffId, out);
      r := WriteFloatUnlessZero(2, remainTime, r);
      r := WritePackedIfSized(3, victims, victimsCachedByteSize, r);
      r := WriteUnknown(unknown, r);
      BuffBytes(Value(), out);
    }

    /** ByteSizeLong: computes the size and leaves both caches filled. */
    method ByteSizeLong() returns (total: nat)
      modifies `victimsCachedByteSize, `cachedSize
      ensures SameSize(total, |EncodeBuff(Value())|)
      ensures total <= 0x7FFF_FFFF || |EncodeBuff(Value())| <= 0x7FFF_FFFF ==> total == |EncodeBuff(Value())|
      ensures total <= INT_MAX ==> Sized()
    {
      var dataSize := PackedSize(victims);
      total := PackedFieldSize(dataSize);
      victimsCachedByteSize := AsInt32(dataSize);
      total := total + VarintFieldSize(buffId);
      total := total + FloatFieldSize(remainTime);
      var unknownSize := UnknownSize(unknown);
      total := total + unknownSize;
      cachedSize := AsInt32(total);
      BuffSize(Value(), unknownSize);
    }

    /** MessageSize: this message behind its length. */
    method MessageSize() returns (size: nat)
      modifies `victimsCachedByteSize, `cachedSize
      ensures Value() == old(Value())
      ensures SameSize(size, |EncodeVarint(|EncodeBuff(Value())|)| + |EncodeBuff(Value())|)
      ensures size <= INT_MAX ==> Sized()
    {
      var n := ByteSizeLong();
      LengthDelimitedSizeIsSame(n, |EncodeBuff(Value())|);
      size := LengthDelimitedSize(n);
    }

    method MergeFrom(from: BuffDataMessage)
      requires from != this
      modifies this
      ensures Value() == MergeBuff(old(Value()), from.Value())
    {
      unknown := unknown + from.unknown;
      victims := victims + from.victims;
      if from.buffId != 0 {
        buffId := from.buffId;
      }
      if !IsFloatZero(from.remainTime) {
        remainTime := from.remainTime;
      }
    }

    method Clear()
      modifies this
      ensures Value() == NO_BUFF
    {
      victims, buffId, remainTime, unknown := [], 0, 0, [];
    }
  }

  /** The bytes of a BuffData, piece by piece, after `out`. */
  lemma BuffBytes(m: BuffData, out: seq<byte>)
    ensures out + EncodeBuff(m)
         == out + EncodeRecords(VarintUnlessZero(1, m.buffId)) + EncodeRecords(FloatUnlessZero(2, m.remainTime))
              + EncodeRecords(BytesUnlessEmpty(3, EncodePacked(m.victims))) + EncodeRecords(m.unknown)
  {
    var b, c, d := FloatUnlessZero(2, m.remainTime), BytesUnlessEmpty(3, EncodePacked(m.victims)), m.unknown;
    EncodeConcat(VarintUnlessZero(1, m.buffId), b + (c + d));
    EncodeConcat(b, c + d);
    EncodeConcat(c, d);
  }

  lemma BuffLength(m: BuffData)
    ensures |EncodeBuff(m)|
         == |EncodeRecords(VarintUnlessZero(1, m.buffId))| + |EncodeRecords(FloatUnlessZero(2, m.remainTime))|
          + |EncodeRecords(BytesUnlessEmpty(3, EncodePacked(m.victims)))| + |EncodeRecords(m.unknown)|
  {
    BuffBytes(m, []);
  }

  /** The sizes ByteSizeLong adds up. */
  lemma BuffSize(m: BuffData, unknownSize: nat)
    requires SameSize(unknownSize, |EncodeRecords(m.unknown)|)
    ensures
      var total := PackedFieldSize(|EncodePacked(m.victims)|) + VarintFieldSize(m.buffId)
        + FloatFieldSize(m.remainTime) + unknownSize;
      SameSize(total, |EncodeBuff(m)|) &&
      (total <= INT_MAX ==> AsInt32(total) == total && AsInt32(|EncodePacked(m.victims)|) == |EncodePacked(m.victims)|)
  {
    BuffLength(m);
    var n := |EncodePacked(m.victims)|;
    var total := PackedFieldSize(n) + VarintFieldSize(m.buffId) + FloatFieldSize(m.remainTime) + unknownSize;
    if total <= INT_MAX {
      SmallCast(total);
      SmallCast(n);
    }
    VarintFieldSizeIsLength(1, m.buffId);
    FloatFieldSizeIsLength(2, m.remainTime);
    PackedFieldSizeIsSame(3, m.victims);
  }

  class ObjectInfoMessage {
    var objectId: uint64
    var objectType: int32
    var state: int32
    var dir: int32
    var name: seq<byte>
    var hp: int32
    var maxHp: int32
    var attack: int32
    var defence: int32
    var posX: int32
    var posY: int32
    var unknown: seq<Record>
    var cachedSize: int32

    constructor ()
      ensures Value() == NO_OBJECT
    {
      objectId, objectType, state, dir, name := 0, 0, 0, 0, [];
      hp, maxHp, attack, defence, posX, posY, unknown, cachedSize := 0, 0, 0, 0, 0, 0, [], 0;
    }

    function Value(): ObjectInfo
      reads this
    {
      ObjectInfo(objectId, objectType, state, dir, name, hp, maxHp, attack, defence, posX, posY, unknown)
    }

    ghost predicate Sized()
      reads this
    {
      |EncodeObject(Value())| <= INT_MAX && cachedSize == |EncodeObject(Value())|
    }

    /** The switch of the parse loop: one field after its tag. */
    method ParseField(tag: uint32, buf: seq<byte>, p: nat, limit: nat, depth: nat) returns (ok: bool, next: nat)
      requires p <= limit <= |buf|
      modifies this
      ensures
        var payload := ReadPayload(tag, buf[p..limit], depth);
        var m := if payload.None? then None else ApplyObject(old(Value()), payload.value.0, depth);
        (ok <==> m.Some?) &&
        (ok ==> m.value == Value() && p <= next <= limit && payload.value.1 == buf[next..limit])
    {
      if tag == 8 {
        PayloadOfVarint(tag, buf[p..limit], depth);
        ok, objectId, next := ReadVarintAt(buf, p, limit);
      } else if tag == 42 {
        PayloadOfBytes(tag, buf[p..limit], depth);
        ok, name, next := ReadBytesAt(buf, p, limit);
        ok := ok && ValidUtf8(name);
      } else if tag in {16, 24, 32, 48, 56, 64, 72, 80, 88} {
        PayloadOfVarint(tag, buf[p..limit], depth);
        var v;
        ok, v, next := ReadVarintAt(buf, p, limit);
        SetInt(tag / 8, ToInt32(v));
      } else {
        var r;
        ok, r, next := ReadUnknownAt(tag, buf, p, limit, depth);
        unknown := unknown + [r];
      }
    }

    /** The setters of the int32 and enum fields, by field number. */
    method SetInt(num: FieldNumber, v: int32)
      requires 2 <= num <= 4 || 6 <= num <= 11
      modifies this
      ensures Value() == WithInt(old(Value()), num, v)
    {
      match num {
        case 2 => objectType := v;
        case 3 => state := v;
        case 4 => dir := v;
        case 6 => hp := v;
        case 7 => maxHp := v;
        case 8 => attack := v;
        case 9 => defence := v;
        case 10 => posX := v;
        case _ => posY := v;
      }
    }

    /** _InternalParse up to `limit`, together with the check that the parse ended there. */
    method InternalParse(buf: seq<byte>, start: nat, limit: nat, depth: nat) returns (ok: bool)
      requires start <= limit <= |buf|
      modifies this
      ensures ok <==> ParseFrom(ApplyObject, old(Value()), buf[start..limit], depth).Some?
      ensures ok ==> ParseFrom(ApplyObject, old(Value()), buf[start..limit], depth) == Some(Value())
    {
      hide ReadPayload, ApplyObject, ReadTag;
      var ptr := start;
      ghost var result := ParseFrom(ApplyObject, Value(), buf[start..limit], depth);
      while ptr < limit
        invariant start <= ptr <= limit
        invariant ParseFrom(ApplyObject, Value(), buf[ptr..limit], depth) == result
      {
        var good, tag, q := ReadTagAt(buf, ptr, limit);
        if !good { return false; }
        ParseTurn(ApplyObject, Value(), buf[ptr..limit], tag, buf[q..limit], depth);
        if tag == 0 || tag % 8 == 4 {
          PayloadRefused(tag, buf[q..limit], depth);
          return false;
        }
        good, q := ParseField(tag, buf, q, limit, depth);
        if !good { return false; }
        ptr := q;
      }
      return true;
    }

    /** ParseMessage: a length, then this message within that limit, one nesting level down. */
    method ParseMessage(buf: seq<byte>, p: nat, limit: nat, depth: nat) returns (ok: bool, next: nat)
      requires p <= limit <= |buf|
      modifies this
      ensures
        var d := ReadDelimited(buf[p..limit]);
        var m := if d.None? then None else ParseSub(ApplyObject, old(Value()), d.value.0, depth);
        (ok <==> m.Some?) && (ok ==> m.value == Value() && p < next <= limit && d.value.1 == buf[next..limit])
    {
      var good, size, start := ReadSizeAt(buf, p, limit);
      if !good || size > limit - start || depth == 0 { return false, p; }
      assert buf[start..limit][..size] == buf[start..start + size];
      assert buf[start..limit][size..] == buf[start + size..limit];
      ok := InternalParse(buf, start, start + size, depth - 1);
      next := start + size;
    }

    method InternalSerialize(out: seq<byte>) returns (r: seq<byte>)
      ensures r == out + EncodeObject(Value())
    {
      r := WriteVarintUnlessZero(1, objectId, out);
      r := WriteVarintUnlessZero(2, SignExtend(objectType), r);
      r := WriteVarintUnlessZero(3, SignExtend(state), r);
      r := WriteVarintUnlessZero(4, SignExtend(dir), r);
      r := WriteStringUnlessEmpty(5, name, r);
      ObjectHeadBytes(Value(), out);
      ObjectTailBytes(Value(), r);
      r := WriteVarintUnlessZero(6, SignExtend(hp), r);
      r := WriteVarintUnlessZero(7, SignExtend(maxHp), r);
      r := WriteVarintUnlessZero(8, SignExtend(attack), r);
      r := WriteVarintUnlessZero(9, SignExtend(defence), r);
      r := WriteVarintUnlessZero(10, SignExtend(posX), r);
      r := WriteVarintUnlessZero(11, SignExtend(posY), r);
      r := WriteUnknown(unknown, r);
    }

    /** ByteSizeLong: computes the size and leaves it in the cache. */
    method ByteSizeLong() returns (total: nat)
      modifies `cachedSize
      ensures SameSize(total, |EncodeObject(Value())|)
      ensures total <= 0x7FFF_FFFF || |EncodeObject(Value())| <= 0x7FFF_FFFF ==> total == |EncodeObject(Value())|
      ensures total <= INT_MAX ==> Sized()
    {
      total := StringFieldSize(name);
      total := total + VarintFieldSize(objectId);
      total := total + IntFieldSize(objectType);
      total := total + IntFieldSize(state);
      total := total + IntFieldSize(dir);
      total := total + IntFieldSize(hp);
      total := total + IntFieldSize(maxHp);
      total := total + IntFieldSize(attack);
      total := total + IntFieldSize(defence);
      total := total + IntFieldSize(posX);
      total := total + IntFieldSize(posY);
      var unknownSize := UnknownSize(unknown);
      total := total + unknownSize;
      cachedSize := AsInt32(total);
      ObjectSize(Value(), unknownSize);
      if total <= INT_MAX { SmallCast(total); }
    }

    /** MessageSize: this message behind its length. */
    method MessageSize() returns (size: nat)
      modifies `cachedSize
      ensures Value() == old(Value())
      ensures SameSize(size, |EncodeVarint(|EncodeObject(Value())|)| + |EncodeObject(Value())|)
      ensures size <= INT_MAX ==> Sized()
    {
      var n := ByteSizeLong();
      LengthDelimitedSizeIsSame(n, |EncodeObject(Value())|);
      size := LengthDelimitedSize(n);
    }

    method MergeFrom(from: ObjectInfoMessage)
      requires from != this
      modifies this
      ensures Value() == MergeObject(old(Value()), from.Value())
    {
      var f := from.Value();
      unknown := unknown + f.unknown;
      if |f.name| > 0 { name := f.name; }
      MergeKind(f);
      MergeStats(f);
    }

    /** The part of MergeFrom that says what and how the object is. */
    method MergeKind(f: ObjectInfo)
      modifies `objectId, `objectType, `state, `dir
      ensures objectId == LastWins(old(objectId), f.objectId) && objectType == LastWins(old(objectType), f.objectType)
      ensures state == LastWins(old(state), f.state) && dir == LastWins(old(dir), f.dir)
    {
      if f.objectId != 0 { objectId := f.objectId; }
      if f.objectType != 0 { objectType := f.objectType; }
      if f.state != 0 { state := f.state; }
      if f.dir != 0 { dir := f.dir; }
    }

    /** The part of MergeFrom that carries its numbers. */
    method MergeStats(f: ObjectInfo)
      modifies `hp, `maxHp, `attack, `defence, `posX, `posY
      ensures hp == LastWins(old(hp), f.hp) && maxHp == LastWins(old(maxHp), f.maxHp)
      ensures attack == LastWins(old(attack), f.attack) && defence == LastWins(old(defence), f.defence)
      ensures posX == LastWins(old(posX), f.posX) && posY == LastWins(old(posY), f.posY)
    {
      if f.hp != 0 { hp := f.hp; }
      if f.maxHp != 0 { maxHp := f.maxHp; }
      if f.attack != 0 { attack := f.attack; }
      if f.defence != 0 { defence := f.defence; }
      if f.posX != 0 { posX := f.posX; }
      if f.posY != 0 { posY := f.posY; }
    }
  }

  lemma ObjectHeadBytes(m: ObjectInfo, out: seq<byte>)
    ensures out + EncodeObject(m)
         == out + EncodeRecords(VarintUnlessZero(1, m.objectId)) + EncodeRecords(IntUnlessZero(2, m.objectType))
              + EncodeRecords(IntUnlessZero(3, m.state)) + EncodeRecords(IntUnlessZero(4, m.dir))
              + EncodeRecords(BytesUnlessEmpty(5, m.name)) + EncodeRecords(ObjectTail(m))
  {
    var s5 := BytesUnlessEmpty(5, m.name) + ObjectTail(m);
    var s4 := IntUnlessZero(4, m.dir) + s5;
    var s3 := IntUnlessZero(3, m.state) + s4;
    var s2 := IntUnlessZero(2, m.objectType) + s3;
    WriteThen(out, VarintUnlessZero(1, m.objectId), s2);
    var r1 := out + EncodeRecords(VarintUnlessZero(1, m.objectId));
    WriteThen(r1, IntUnlessZero(2, m.objectType), s3);
    var r2 := r1 + EncodeRecords(IntUnlessZero(2, m.objectType));
    WriteThen(r2, IntUnlessZero(3, m.state), s4);
    var r3 := r2 + EncodeRecords(IntUnlessZero(3, m.state));
    WriteThen(r3, IntUnlessZero(4, m.dir), s5);
    var r4 := r3 + EncodeRecords(IntUnlessZero(4, m.dir));
    WriteThen(r4, BytesUnlessEmpty(5, m.name), ObjectTail(m));
  }

  lemma ObjectTailBytes(m: ObjectInfo, out: seq<byte>)
    ensures out + EncodeRecords(ObjectTail(m))
         == out + EncodeRecords(IntUnlessZero(6, m.hp)) + EncodeRecords(IntUnlessZero(7, m.maxHp))
              + EncodeRecords(IntUnlessZero(8, m.attack)) + EncodeRecords(IntUnlessZero(9, m.defence))
              + EncodeRecords(IntUnlessZero(10, m.posX)) + EncodeRecords(IntUnlessZero(11, m.posY))
              + EncodeRecords(m.unknown)
  {
    var s11 := IntUnlessZero(11, m.posY) + m.unknown;
    var s10 := IntUnlessZero(10, m.posX) + s11;
    var s9 := IntUnlessZero(9, m.defence) + s10;
    var s8 := IntUnlessZero(8, m.attack) + s9;
    var s7 := IntUnlessZero(7, m.maxHp) + s8;
    WriteThen(out, IntUnlessZero(6, m.hp), s7);
    var r6 := out + EncodeRecords(IntUnlessZero(6, m.hp));
    WriteThen(r6, IntUnlessZero(7, m.maxHp), s8);
    var r7 := r6 + EncodeRecords(IntUnlessZero(7, m.maxHp));
    WriteThen(r7, IntUnlessZero(8, m.attack), s9);
    var r8 := r7 + EncodeRecords(IntUnlessZero(8, m.attack));
    WriteThen(r8, IntUnlessZero(9, m.defence), s10);
    var r9 := r8 + EncodeRecords(IntUnlessZero(9, m.defence));
    WriteThen(r9, IntUnlessZero(10, m.posX), s11);
    var r10 := r9 + EncodeRecords(IntUnlessZero(10, m.posX));
    WriteThen(r10, IntUnlessZero(11, m.posY), m.unknown);
  }

  /** The sizes ByteSizeLong adds up. */
  lemma ObjectSize(m: ObjectInfo, unknownSize: nat)
    requires SameSize(unknownSize, |EncodeRecords(m.unknown)|)
    ensures SameSize(
      StringFieldSize(m.name) + VarintFieldSize(m.objectId) + IntFieldSize(m.objectType) + IntFieldSize(m.state)
      + IntFieldSize(m.dir) + IntFieldSize(m.hp) + IntFieldSize(m.maxHp) + IntFieldSize(m.attack)
      + IntFieldSize(m.defence) + IntFieldSize(m.posX) + IntFieldSize(m.posY) + unknownSize, |EncodeObject(m)|)
  {
    ObjectLength(m);
    VarintFieldSizeIsLength(1, m.objectId);
    IntFieldSizeIsLength(2, m.objectType);
    IntFieldSizeIsLength(3, m.state);
    IntFieldSizeIsLength(4, m.dir);
    StringFieldSizeIsSame(5, m.name);
    IntFieldSizeIsLength(6, m.hp);
    IntFieldSizeIsLength(7, m.maxHp);
    IntFieldSizeIsLength(8, m.attack);
    IntFieldSizeIsLength(9, m.defence);
    IntFieldSizeIsLength(10, m.posX);
    IntFieldSizeIsLength(11, m.posY);
  }

  lemma ObjectLength(m: ObjectInfo)
    ensures |EncodeObject(m)|
         == |EncodeRecords(VarintUnlessZero(1, m.objectId))| + |EncodeRecords(IntUnlessZero(2, m.objectType))|
          + |EncodeRecords(IntUnlessZero(3, m.state))| + |EncodeRecords(IntUnlessZero(4, m.dir))|
          + |EncodeRecords(BytesUnlessEmpty(5, m.name))| + |EncodeRecords(IntUnlessZero(6, m.hp))|
          + |EncodeRecords(IntUnlessZero(7, m.maxHp))| + |EncodeRecords(IntUnlessZero(8, m.attack))|
          + |EncodeRecords(IntUnlessZero(9, m.defence))| + |EncodeRecords(IntUnlessZero(10, m.posX))|
          + |EncodeRecords(IntUnlessZero(11, m.posY))| + |EncodeRecords(m.unknown)|
  {
    ObjectHeadBytes(m, []);
    ObjectTailBytes(m, []);
  }
}
