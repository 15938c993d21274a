/** The generated packet classes that hold one list: S_AddObject and S_RemoveObject. */
module ListPacketMessages {
  import opened Prelude
  import opened Wire
  import opened Scalars
  import opened GameObjects
  import opened Packets
  import opened WireReader
  import opened WireWriter
  import opened ObjectMessages
  import opened PacketMessages

  function ObjectValues(ms: seq<ObjectInfoMessage>): (vs: seq<ObjectInfo>)
    reads ms
    ensures |vs| == |ms| && forall i | 0 <= i < |ms| :: vs[i] == ms[i].Value()
  {
    if ms == [] then [] else [ms[0].Value()] + ObjectValues(ms[1..])
  }

  lemma ObjectValuesSnoc(ms: seq<ObjectInfoMessage>, last: ObjectInfoMessage)
    ensures ObjectValues(ms + [last]) == ObjectValues(ms) + [last.Value()]
  {
  }

  class SAddObjectMessage {
    var objects: seq<ObjectInfoMessage>
    var unknown: seq<Record>
    var cachedSize: int32

    constructor ()
      ensures Valid() && Value() == NO_ADD && objects == []
    {
      objects, unknown, cachedSize := [], [], 0;
    }

    ghost predicate Valid()
      reads this
    {
      Distinct(objects)
    }

    function Value(): SAddObject
      reads this, objects
    {
      SAddObject(ObjectValues(objects), unknown)
    }

    ghost predicate Sized()
      reads this, objects
    {
      |EncodeAdd(Value())| <= INT_MAX && cachedSize == |EncodeAdd(Value())|
      && forall i | 0 <= i < |objects| :: objects[i].Sized()
    }

    /** One list element: a new ObjectInfo, parsed in place. */
    method AddObject(buf: seq<byte>, p: nat, limit: nat, depth: nat) returns (ok: bool, next: nat)
      requires Valid() && p <= limit <= |buf|
      modifies `objects
      ensures Valid() && old(objects) <= objects && forall o | o in objects :: o in old(objects) || fresh(o)
      ensures
        var payload := ReadPayload(10, buf[p..limit], depth);
        var m := if payload.None? then None else ApplyAdd(old(Value()), payload.value.0, depth);
        (ok <==> m.Some?) &&
        (ok ==> m.value == Value() && p < next <= limit && payload.value.1 == buf[next..limit])
    {
      hide ReadPayload, ReadDelimited, ParseSub, ObjectValues;
      PayloadOfBytes(10, buf[p..limit], depth);
      var child := new ObjectInfoMessage();
      ok, next := child.ParseMessage(buf, p, limit, depth);
      if ok {
        ObjectValuesSnoc(objects, child);
        objects := objects + [child];
      }
    }

    /** The inner loop over list elements that follow each other directly, after the first tag. */
    method ParseObjects(buf: seq<byte>, p: nat, limit: nat, depth: nat) returns (ok: bool, next: nat)
      requires Valid() && p <= limit <= |buf|
      modifies `objects
      ensures Valid() && old(objects) <= objects && forall o | o in objects :: o in old(objects) || fresh(o)
      ensures ok ==> p < next <= limit
      ensures AfterPayload(ApplyAdd, old(Value()), ReadPayload(10, buf[p..limit], depth), depth)
           == if ok then ParseFrom(ApplyAdd, Value(), buf[next..limit], depth) else None
    {
      var q := p;
      ghost var result := AfterPayload(ApplyAdd, Value(), ReadPayload(10, buf[p..limit], depth), depth);
      while true
        invariant Valid() && p <= q <= limit
        invariant old(objects) <= objects && forall o | o in objects :: o in old(objects) || fresh(o)
        invariant AfterPayload(ApplyAdd, Value(), ReadPayload(10, buf[q..limit], depth), depth) == result
        decreases limit - q
      {
        ok, next := AddObject(buf, q, limit, depth);
        if !ok { return; }
        if next == limit || buf[next] != 10 { return; }
        SmallTag(buf[next..limit]);
        q := next + 1;
        assert buf[next..limit][1..] == buf[q..limit];
        ParseTurn(ApplyAdd, Value(), buf[next..limit], 10, buf[q..limit], depth);
      }
    }

    /** The switch of the parse loop. */
    method ParseField(tag: uint32, buf: seq<byte>, p: nat, limit: nat, depth: nat) returns (ok: bool, next: nat)
      requires Valid() && p <= limit <= |buf|
      modifies this
      ensures Valid() && old(objects) <= objects && forall o | o in objects :: o in old(objects) || fresh(o)
      ensures ok ==> p <= next <= limit
      ensures AfterPayload(ApplyAdd, old(Value()), ReadPayload(tag, buf[p..limit], depth), depth)
           == if ok then ParseFrom(ApplyAdd, Value(), buf[next..limit], depth) else None
    {
      hide ParseFrom, ReadDelimited, ParseSub;
      if tag == 10 {
        ok, next := ParseObjects(buf, p, limit, depth);
      } else {
        var r;
        ok, r, next := ReadUnknownAt(tag, buf, p, limit, depth);
        unknown := unknown + [r];
      }
    }

    /** _InternalParse up to `limit`, together with the check that the parse ended there. */
    method InternalParse(buf: seq<byte>, start: nat, limit: nat, depth: nat) returns (ok: bool)
      requires Valid() && start <= limit <= |buf|
      modifies this
      ensures Valid() && forall o | o in objects :: o in old(objects) || fresh(o)
      ensures ok <==> ParseFrom(ApplyAdd, old(Value()), buf[start..limit], depth).Some?
      ensures ok ==> ParseFrom(ApplyAdd, old(Value()), buf[start..limit], depth) == Some(Value())
    {
      hide ReadPayload, ApplyAdd, ReadTag;
      var ptr := start;
      ghost var result := ParseFrom(ApplyAdd, Value(), buf[start..limit], depth);
      while ptr < limit
        invariant Valid() && start <= ptr <= limit
        invariant forall o | o in objects :: o in old(objects) || fresh(o)
        invariant ParseFrom(ApplyAdd, Value(), buf[ptr..limit], depth) == result
      {
        var good, tag, q := ReadTagAt(buf, ptr, limit);
        if !good { return false; }
        ParseTurn(ApplyAdd, Value(), buf[ptr..limit], tag, buf[q..limit], depth);
        if tag == 0 || tag % 8 == 4 {
          PayloadRefused(tag, buf[q..limit], depth);
          return false;
        }
        good, q := ParseField(tag, buf, q, limit, depth);
        if !good { return false; }
        ptr := q;
      }
      return true;
    }

    /** _InternalSerialize: each element is written behind its cached size. */
    method InternalSerialize(out: seq<byte>) returns (r: seq<byte>)
      requires Sized()
      ensures r == out + EncodeAdd(Value())
    {
      hide EncodeAdd, EncodeRecords, ObjectListRecords, ObjectInfoMessage.Sized;
      r := WriteObjects(out);
      r := WriteUnknown(unknown, r);
      AddBytes(Value(), out);
    }

    method WriteObjects(out: seq<byte>) returns (r: seq<byte>)
      requires forall i | 0 <= i < |objects| :: objects[i].Sized()
      ensures r == out + EncodeRecords(ObjectListRecords(ObjectValues(objects)))
    {
      r := out;
      var i := 0;
      ghost var list := ObjectValues(objects);
      assert list[0..] == list;
      while i < |objects|
        invariant i <= |objects|
        invariant r + EncodeRecords(ObjectListRecords(list[i..])) == out + EncodeRecords(ObjectListRecords(list))
      {
        ObjectListStep(r, list, i);
        r := WriteTag(1, 2, r);
        r := WriteVarint(objects[i].cachedSize, r);
        r := objects[i].InternalSerialize(r);
        i := i + 1;
      }
    }

    /** ByteSizeLong: fills the caches of every element and of the packet. */
    method ByteSizeLong() returns (total: nat)
      requires Valid()
      modifies `cachedSize, objects`cachedSize
      ensures Valid() && Value() == old(Value())
      ensures SameSize(total, |EncodeAdd(Value())|)
      ensures total <= 0x7FFF_FFFF || |EncodeAdd(Value())| <= 0x7FFF_FFFF ==> total == |EncodeAdd(Value())|
      ensures total <= INT_MAX ==> Sized()
    {
      hide EncodeRecords, ObjectListRecords, VarintSize, ObjectInfoMessage.Sized;
      total := ObjectsSize();
      assert ObjectValues(objects) == old(ObjectValues(objects));
      var unknownSize := UnknownSize(unknown);
      total := total + unknownSize;
      cachedSize := AsInt32(total);
      AddLength(Value());
      if total <= INT_MAX { SmallCast(total); }
    }

    /** One tag byte for every element, then MessageSize of each. */
    method ObjectsSize() returns (total: nat)
      requires Valid()
      modifies objects`cachedSize
      ensures forall i | 0 <= i < |objects| :: objects[i].Value() == old(objects[i].Value())
      ensures SameSize(total, |EncodeRecords(ObjectListRecords(ObjectValues(objects)))|)
      ensures total <= INT_MAX ==> forall i | 0 <= i < |objects| :: objects[i].Sized()
    {
      hide EncodeObject, EncodeRecords, ObjectListRecords, EncodeVarint, VarintSize;
      hide ObjectInfoMessage.Sized, ObjectInfoMessage.Value, Distinct;
      ghost var list := ObjectValues(objects);
      total := |objects|;
      ghost var exact := 0;
      var i := 0;
      assert list[0..] == list;
      while i < |objects|
        invariant i <= |objects|
        invariant forall j | 0 <= j < |objects| :: objects[j].Value() == list[j]
        invariant total >= |objects| - i && SameSize(total - (|objects| - i), exact)
        invariant exact + |EncodeRecords(ObjectListRecords(list[i..]))| == |EncodeRecords(ObjectListRecords(list))|
        invariant total <= INT_MAX ==> forall j | 0 <= j < i :: objects[j].Sized()
      {
        ObjectListSizeStep(list, i);
        var n := objects[i].MessageSize();
        SameSizeSum(total - (|objects| - i), exact, 1 + n,
          1 + |EncodeVarint(|EncodeObject(list[i])|)| + |EncodeObject(list[i])|);
        total := total + n;
        exact := exact + 1 + |EncodeVarint(|EncodeObject(list[i])|)| + |EncodeObject(list[i])|;
        i := i + 1;
      }
      NoObjects(list);
      assert ObjectValues(objects) == list;
    }

    /** RepeatedPtrField::MergeFrom: each given element is merged into a new one at the end of the list. */
    method MergeFrom(from: SAddObjectMessage)
      requires Valid() && from.Valid() && from != this
      modifies this
      ensures Valid() && forall o | o in objects :: o in old(objects) || fresh(o)
      ensures Value() == MergeAdd(old(Value()), old(from.Value()))
    {
      hide ObjectValues;
      unknown := unknown + from.unknown;
      AddMerged(from.objects);
    }

    method AddMerged(others: seq<ObjectInfoMessage>)
      requires Valid()
      modifies `objects
      ensures Valid() && forall o | o in objects :: o in old(objects) || fresh(o)
      ensures ObjectValues(objects) == old(ObjectValues(objects)) + old(ObjectValues(others))
    {
      hide ObjectValues;
      ghost var before, list := ObjectValues(objects), ObjectValues(others);
      var i := 0;
      while i < |others|
        invariant i <= |others| && Valid()
        invariant forall o | o in objects :: o in old(objects) || fresh(o)
        invariant ObjectValues(others) == list
        invariant ObjectValues(objects) == before + list[..i]
      {
        TakeOneMore(before, list, i);
        AddOneMerged(others[i]);
        i := i + 1;
      }
      assert list[..|list|] == list;
    }

    method AddOneMerged(other: ObjectInfoMessage)
      requires Valid()
      modifies `objects
      ensures Valid() && forall o | o in objects :: o in old(objects) || fresh(o)
      ensures ObjectValues(objects) == old(ObjectValues(objects)) + [old(other.Value())]
    {
      hide ObjectValues, MergeObject;
      var child := new ObjectInfoMessage();
      child.MergeFrom(other);
      MergeIntoNoObject(other.Value());
      ObjectValuesSnoc(objects, child);
      objects := objects + [child];
    }

    /** ParseFromString: a flat buffer of the whole message, with the default nesting limit. */
    method ParseFromString(buf: seq<byte>) returns (ok: bool)
      requires Valid()
      modifies this
      ensures Valid() && forall o | o in objects :: fresh(o)
      ensures ok <==> ParseFrom(ApplyAdd, NO_ADD, buf, DEFAULT_DEPTH).Some?
      ensures ok ==> ParseFrom(ApplyAdd, NO_ADD, buf, DEFAULT_DEPTH) == Some(Value())
    {
      objects, unknown := [], [];
      assert buf[0..|buf|] == buf;
      ok := InternalParse(buf, 0, |buf|, DEFAULT_DEPTH);
    }

    /** AppendToString: sizes first, then, unless the message is over 2 GB, bytes that rely on the cached sizes. */
    method AppendToString(out: seq<byte>) returns (ok: bool, r: seq<byte>)
      requires Valid()
      modifies `cachedSize, objects`cachedSize
      ensures Valid() && Value() == old(Value())
      ensures ok <==> |EncodeAdd(Value())| <= INT_MAX
      ensures r == if ok then out + EncodeAdd(Value()) else out
    {
      var size := ByteSizeLong();
      if size > INT_MAX { return false, out; }
      r := InternalSerialize(out);
      ok := true;
    }
  }

  /** One list element: tag, length, and its own bytes. */
  lemma ObjectListStep(done: seq<byte>, list: seq<ObjectInfo>, i: nat)
    requires i < |list|
    ensures
      var bytes := EncodeObject(list[i]);
      done + EncodeVarint(Tag(1, 2)) + EncodeVarint(|bytes|) + bytes + EncodeRecords(ObjectListRecords(list[i + 1..]))
      == done + EncodeRecords(ObjectListRecords(list[i..]))
  {
    var bytes := EncodeObject(list[i]);
    assert list[i..][1..] == list[i + 1..];
    WriteThen(done, [Bytes(1, bytes)], ObjectListRecords(list[i + 1..]));
    OneRecord(Bytes(1, bytes));
    WholeBytesField(1, bytes, done);
  }

  lemma ObjectListSizeStep(list: seq<ObjectInfo>, i: nat)
    requires i < |list|
    ensures
      var n := |EncodeObject(list[i])|;
      |EncodeRecords(ObjectListRecords(list[i..]))|
      == 1 + |EncodeVarint(n)| + n + |EncodeRecords(ObjectListRecords(list[i + 1..]))|
  {
    ObjectListStep([], list, i);
    assert |EncodeVarint(Tag(1, 2))| == 1;
  }

  lemma NoObjects(list: seq<ObjectInfo>)
    ensures EncodeRecords(ObjectListRecords(list[|list|..])) == []
  {
  }

  lemma TakeOneMore(before: seq<ObjectInfo>, list: seq<ObjectInfo>, i: nat)
    requires i < |list|
    ensures before + list[..i] + [list[i]] == before + list[..i + 1]
  {
  }

  lemma MergeIntoNoObject(f: ObjectInfo)
    ensures MergeObject(NO_OBJECT, f) == f
  {
    assert [] + f.unknown == f.unknown;
  }

  lemma AddBytes(m: SAddObject, out: seq<byte>)
    ensures out + EncodeAdd(m) == out + EncodeRecords(ObjectListRecords(m.objects)) + EncodeRecords(m.unknown)
  {
    WriteThen(out, ObjectListRecords(m.objects), m.unknown);
  }

  lemma AddLength(m: SAddObject)
    ensures |EncodeAdd(m)| == |EncodeRecords(ObjectListRecords(m.objects))| + |EncodeRecords(m.unknown)|
  {
    AddBytes(m, []);
  }

  class SRemoveObjectMessage {
    var ids: seq<uint64>
    var unknown: seq<Record>
    var idsCachedByteSize: int32
    var cachedSize: int32

    constructor ()
      ensures Value() == NO_REMOVE
    {
      ids, unknown, idsCachedByteSize, cachedSize := [], [], 0, 0;
    }

    function Value(): SRemoveObject
      reads this
    {
      SRemoveObject(ids, unknown)
    }

    ghost predicate Sized()
      reads this
    {
      |EncodeRemove(Value())| <= INT_MAX
      && cachedSize == |EncodeRemove(Value())|
      && idsCachedByteSize == |EncodePacked(ids)|
    }

    /** The switch of the parse loop: the list comes packed or one number at a time. */
    method ParseField(tag: uint32, buf: seq<byte>, p: nat, limit: nat, depth: nat) returns (ok: bool, next: nat)
      requires p <= limit <= |buf|
      modifies this
      ensures
        var payload := ReadPayload(tag, buf[p..limit], depth);
        var m := if payload.None? then None else ApplyRemove(old(Value()), payload.value.0, depth);
        (ok <==> m.Some?) &&
        (ok ==> m.value == Value() && p <= next <= limit && payload.value.1 == buf[next..limit])
    {
      if tag == 10 {
        PayloadOfBytes(tag, buf[p..limit], depth);
        ok, ids, next := ReadPackedAt(ids, buf, p, limit);
      } else if tag == 8 {
        PayloadOfVarint(tag, buf[p..limit], depth);
        var v;
        ok, v, next := ReadVarintAt(buf, p, limit);
        ids := ids + [v];
      } else {
        var r;
        ok, r, next := ReadUnknownAt(tag, buf, p, limit, depth);
        unknown := unknown + [r];
      }
    }

    /** _InternalParse up to `limit`, together with the check that the parse ended there. */
    method InternalParse(buf: seq<byte>, start: nat, limit: nat, depth: nat) returns (ok: bool)
      requires start <= limit <= |buf|
      modifies this
      ensures ok <==> ParseFrom(ApplyRemove, old(Value()), buf[start..limit], depth).Some?
      ensures ok ==> ParseFrom(ApplyRemove, old(Value()), buf[start..limit], depth) == Some(Value())
    {
      hide ReadPayload, ApplyRemove, ReadTag;
      var ptr := start;
      ghost var result := ParseFrom(ApplyRemove, Value(), buf[start..limit], depth);
      while ptr < limit
        invariant start <= ptr <= limit
        invariant ParseFrom(ApplyRemove, Value(), buf[ptr..limit], depth) == result
      {
        var good, tag, q := ReadTagAt(buf, ptr, limit);
        if !good { return false; }
        ParseTurn(ApplyRemove, Value(), buf[ptr..limit], tag, buf[q..limit], depth);
        if tag == 0 || tag % 8 == 4 {
          PayloadRefused(tag, buf[q..limit], depth);
          return false;
        }
        good, q := ParseField(tag, buf, q, limit, depth);
        if !good { return false; }
        ptr := q;
      }
      return true;
    }

    /** _InternalSerialize: the packed length is taken from the cache. */
    method InternalSerialize(out: seq<byte>) returns (r: seq<byte>)
      requires Sized()
      ensures r == out + EncodeRemove(Value())
    {
      r := WritePackedIfSized(1, ids, idsCachedByteSize, out);
      r := WriteUnknown(unknown, r);
      WriteThen(out, BytesUnlessEmpty(1, EncodePacked(ids)), unknown);
    }

    /** ByteSizeLong: computes the size and leaves both caches filled. */
    method ByteSizeLong() returns (total: nat)
      modifies `idsCachedByteSize, `cachedSize
      ensures SameSize(total, |EncodeRemove(Value())|)
      ensures total <= 0x7FFF_FFFF || |EncodeRemove(Value())| <= 0x7FFF_FFFF ==> total == |EncodeRemove(Value())|
      ensures total <= INT_MAX ==> Sized()
    {
      var dataSize := PackedSize(ids);
      total := PackedFieldSize(dataSize);
      idsCachedByteSize := AsInt32(dataSize);
      var unknownSize := UnknownSize(unknown);
      total := total + unknownSize;
      cachedSize := AsInt32(total);
      PackedFieldSizeIsSame(1, ids);
      EncodeConcat(BytesUnlessEmpty(1, EncodePacked(ids)), unknown);
      if total <= INT_MAX {
        SmallCast(total);
        SmallCast(dataSize);
      }
    }

    method MergeFrom(from: SRemoveObjectMessage)
      requires from != this
      modifies this
      ensures Value() == MergeRemove(old(Value()), from.Value())
    {
      unknown := unknown + from.unknown;
      ids := ids + from.ids;
    }

    method ParseFromString(buf: seq<byte>) returns (ok: bool)
      modifies this
      ensures ok <==> ParseFrom(ApplyRemove, NO_REMOVE, buf, DEFAULT_DEPTH).Some?
      ensures ok ==> ParseFrom(ApplyRemove, NO_REMOVE, buf, DEFAULT_DEPTH) == Some(Value())
    {
      ids, unknown := [], [];
      assert buf[0..|buf|] == buf;
      ok := InternalParse(buf, 0, |buf|, DEFAULT_DEPTH);
    }

    method AppendToString(out: seq<byte>) returns (ok: bool, r: seq<byte>)
      modifies `idsCachedByteSize, `cachedSize
      ensures Value() == old(Value())
      ensures ok <==> |EncodeRemove(Value())| <= INT_MAX
      ensures r == if ok then out + EncodeRemove(Value()) else out
    {
      var size := ByteSizeLong();
      if size > INT_MAX { return false, out; }
      r := InternalSerialize(out);
      ok := true;
    }
  }
}
