/** The generated packet classes, which own the messages they hold. */
module PacketMessages {
  import opened Prelude
  import opened Wire
  import opened Scalars
  import opened GameObjects
  import opened Packets
  import opened WireReader
  import opened WireWriter
  import opened ObjectMessages

  const DEFAULT_DEPTH := 100

  function BuffValues(ms: seq<BuffDataMessage>): (vs: seq<BuffData>)
    reads ms
    ensures |vs| == |ms| && forall i | 0 <= i < |ms| :: vs[i] == ms[i].Value()
  {
    if ms == [] then [] else [ms[0].Value()] + BuffValues(ms[1..])
  }

  lemma BuffValuesSnoc(ms: seq<BuffDataMessage>, last: BuffDataMessage)
    ensures BuffValues(ms + [last]) == BuffValues(ms) + [last.Value()]
  {
  }

  ghost predicate Distinct<T>(s: seq<T>)
  {
    forall i, j | 0 <= i < j < |s| :: s[i] != s[j]
  }

  class STestMessage {
    var id: uint64
    var hp: uint32
    var attack: uint32
    var buffs: seq<BuffDataMessage>
    var unknown: seq<Record>
    var cachedSize: int32

    constructor ()
      ensures Valid() && Value() == NO_TEST && buffs == []
    {
      id, hp, attack, buffs, unknown, cachedSize := 0, 0, 0, [], [], 0;
    }

    ghost predicate Valid()
      reads this
    {
      Distinct(buffs)
    }

    function Value(): STest
      reads this, buffs
    {
      STest(id, hp, attack, BuffValues(buffs), unknown)
    }

    ghost predicate Sized()
      reads this, buffs
    {
      |EncodeTest(Value())| <= INT_MAX && cachedSize == |EncodeTest(Value())|
      && forall i | 0 <= i < |buffs| :: buffs[i].Sized()
    }

    /** One list element: a new BuffData, parsed in place. */
    method AddBuff(buf: seq<byte>, p: nat, limit: nat, depth: nat) returns (ok: bool, next: nat)
      requires Valid() && p <= limit <= |buf|
      modifies `buffs
      ensures Valid() && old(buffs) <= buffs && forall b | b in buffs :: b in old(buffs) || fresh(b)
      ensures
        var payload := ReadPayload(34, buf[p..limit], depth);
        var m := if payload.None? then None else ApplyTest(old(Value()), payload.value.0, depth);
        (ok <==> m.Some?) &&
        (ok ==> m.value == Value() && p < next <= limit && payload.value.1 == buf[next..limit])
    {
      hide ReadPayload, ReadDelimited, ParseSub, BuffValues;
      PayloadOfBytes(34, buf[p..limit], depth);
      var child := new BuffDataMessage();
      ok, next := child.ParseMessage(buf, p, limit, depth);
      if ok {
        BuffValuesSnoc(buffs, child);
        buffs := buffs + [child];
      }
    }

    /** The inner loop over list elements that follow each other directly, after the first tag. */
    method ParseBuffs(buf: seq<byte>, p: nat, limit: nat, depth: nat) returns (ok: bool, next: nat)
      requires Valid() && p <= limit <= |buf|
      modifies `buffs
      ensures Valid() && old(buffs) <= buffs && forall b | b in buffs :: b in old(buffs) || fresh(b)
      ensures ok ==> p < next <= limit
      ensures AfterPayload(ApplyTest, old(Value()), ReadPayload(34, buf[p..limit], depth), depth)
           == if ok then ParseFrom(ApplyTest, Value(), buf[next..limit], depth) else None
    {
      var q := p;
      ghost var result := AfterPayload(ApplyTest, Value(), ReadPayload(34, buf[p..limit], depth), depth);
      while true
        invariant Valid() && p <= q <= limit
        invariant old(buffs) <= buffs && forall b | b in buffs :: b in old(buffs) || fresh(b)
        invariant AfterPayload(ApplyTest, Value(), ReadPayload(34, buf[q..limit], depth), depth) == result
        decreases limit - q
      {
        ok, next := AddBuff(buf, q, limit, depth);
        if !ok { return; }
        if next == limit || buf[next] != 34 { return; }
        SmallTag(buf[next..limit]);
        q := next + 1;
        assert buf[next..limit][1..] == buf[q..limit];
        ParseTurn(ApplyTest, Value(), buf[next..limit], 34, buf[q..limit], depth);
      }
    }

    /** The scalar fields and the unknown ones. */
    method ParseScalar(tag: uint32, buf: seq<byte>, p: nat, limit: nat, depth: nat) returns (ok: bool, next: nat)
      requires tag != 34 && p <= limit <= |buf|
      modifies `id, `hp, `attack, `unknown
      ensures
        var payload := ReadPayload(tag, buf[p..limit], depth);
        var m := if payload.None? then None else ApplyTest(old(Value()), payload.value.0, depth);
        (ok <==> m.Some?) &&
        (ok ==> m.value == Value() && p <= next <= limit && payload.value.1 == buf[next..limit])
    {
      if tag in {8, 16, 24} {
        PayloadOfVarint(tag, buf[p..limit], depth);
        var v;
        ok, v, next := ReadVarintAt(buf, p, limit);
        match tag {
          case 8 => id := v;
          case 16 => hp := ToUint32(v);
          case _ => attack := ToUint32(v);
        }
      } else {
        var r;
        ok, r, next := ReadUnknownAt(tag, buf, p, limit, depth);
        unknown := unknown + [r];
      }
    }

    /** The switch of the parse loop; list elements that follow each other are taken in one turn. */
    method ParseField(tag: uint32, buf: seq<byte>, p: nat, limit: nat, depth: nat) returns (ok: bool, next: nat)
      requires Valid() && p <= limit <= |buf|
      modifies this
      ensures Valid() && old(buffs) <= buffs && forall b | b in buffs :: b in old(buffs) || fresh(b)
      ensures ok ==> p <= next <= limit
      ensures AfterPayload(ApplyTest, old(Value()), ReadPayload(tag, buf[p..limit], depth), depth)
           == if ok then ParseFrom(ApplyTest, Value(), buf[next..limit], depth) else None
    {
      hide ReadPayload, ParseFrom, ApplyTest;
      if tag == 34 {
        ok, next := ParseBuffs(buf, p, limit, depth);
      } else {
        ok, next := ParseScalar(tag, buf, p, limit, depth);
      }
    }

    /** _InternalParse up to `limit`, together with the check that the parse ended there. */
    method InternalParse(buf: seq<byte>, start: nat, limit: nat, depth: nat) returns (ok: bool)
      requires Valid() && start <= limit <= |buf|
      modifies this
      ensures Valid() && forall b | b in buffs :: b in old(buffs) || fresh(b)
      ensures ok <==> ParseFrom(ApplyTest, old(Value()), buf[start..limit], depth).Some?
      ensures ok ==> ParseFrom(ApplyTest, old(Value()), buf[start..limit], depth) == Some(Value())
    {
      hide ReadPayload, ApplyTest, ReadTag;
      var ptr := start;
      ghost var result := ParseFrom(ApplyTest, Value(), buf[start..limit], depth);
      while ptr < limit
        invariant Valid() && start <= ptr <= limit
        invariant forall b | b in buffs :: b in old(buffs) || fresh(b)
        invariant ParseFrom(ApplyTest, Value(), buf[ptr..limit], depth) == result
      {
        var good, tag, q := ReadTagAt(buf, ptr, limit);
        if !good { return false; }
        ParseTurn(ApplyTest, Value(), buf[ptr..limit], tag, buf[q..limit], depth);
        if tag == 0 || tag % 8 == 4 {
          PayloadRefused(tag, buf[q..limit], depth);
          return false;
        }
        good, q := ParseField(tag, buf, q, limit, depth);
        if !good { return false; }
        ptr := q;
      }
      return true;
    }

    /** _InternalSerialize: each element is written behind its cached size. */
    method InternalSerialize(out: seq<byte>) returns (r: seq<byte>)
      requires Sized()
      ensures r == out + EncodeTest(Value())
    {
      hide EncodeTest, EncodeRecords, BuffListRecords, VarintUnlessZero, BuffDataMessage.Sized;
      r := WriteVarintUnlessZero(1, id, out);
      r := WriteVarintUnlessZero(2, hp, r);
      r := WriteVarintUnlessZero(3, attack, r);
      r := WriteBuffs(r);
      r := WriteUnknown(unknown, r);
      TestBytes(Value(), out);
    }

    method WriteBuffs(out: seq<byte>) returns (r: seq<byte>)
      requires forall i | 0 <= i < |buffs| :: buffs[i].Sized()
      ensures r == out + EncodeRecords(BuffListRecords(BuffValues(buffs)))
    {
      r := out;
      var i := 0;
      ghost var list := BuffValues(buffs);
      assert list[0..] == list;
      while i < |buffs|
        invariant i <= |buffs|
        invariant r + EncodeRecords(BuffListRecords(list[i..])) == out + EncodeRecords(BuffListRecords(list))
      {
        BuffListStep(r, list, i);
        r := WriteTag(4, 2, r);
        r := WriteVarint(buffs[i].cachedSize, r);
        r := buffs[i].InternalSerialize(r);
        i := i + 1;
      }
    }

    /** ByteSizeLong: fills the caches of every element and of the packet. */
    method ByteSizeLong() returns (total: nat)
      requires Valid()
      modifies `cachedSize, buffs`victimsCachedByteSize, buffs`cachedSize
      ensures Valid() && Value() == old(Value())
      ensures SameSize(total, |EncodeTest(Value())|)
      ensures total <= 0x7FFF_FFFF || |EncodeTest(Value())| <= 0x7FFF_FFFF ==> total == |EncodeTest(Value())|
      ensures total <= INT_MAX ==> Sized()
    {
      hide EncodeRecords, BuffListRecords, VarintUnlessZero, VarintSize, BuffDataMessage.Sized;
      total := BuffsSize();
      assert BuffValues(buffs) == old(BuffValues(buffs));
      total := total + VarintFieldSize(id);
      total := total + VarintFieldSize(hp);
      total := total + VarintFieldSize(attack);
      var unknownSize := UnknownSize(unknown);
      total := total + unknownSize;
      cachedSize := AsInt32(total);
      TestLength(Value());
      VarintFieldSizeIsLength(1, id);
      VarintFieldSizeIsLength(2, hp);
      VarintFieldSizeIsLength(3, attack);
      if total <= INT_MAX { SmallCast(total); }
    }

    /** One tag byte for every element, then MessageSize of each. */
    method BuffsSize() returns (total: nat)
      requires Valid()
      modifies buffs`victimsCachedByteSize, buffs`cachedSize
      ensures forall i | 0 <= i < |buffs| :: buffs[i].Value() == old(buffs[i].Value())
      ensures SameSize(total, |EncodeRecords(BuffListRecords(BuffValues(buffs)))|)
      ensures total <= INT_MAX ==> forall i | 0 <= i < |buffs| :: buffs[i].Sized()
    {
      hide EncodeBuff, EncodeRecords, BuffListRecords, EncodeVarint, VarintSize;
      hide BuffDataMessage.Sized, BuffDataMessage.Value, Distinct;
      ghost var list := BuffValues(buffs);
      total := |buffs|;
      ghost var exact := 0;
      var i := 0;
      assert list[0..] == list;
      while i < |buffs|
        invariant i <= |buffs|
        invariant forall j | 0 <= j < |buffs| :: buffs[j].Value() == list[j]
        invariant total >= |buffs| - i && SameSize(total - (|buffs| - i), exact)
        invariant exact + |EncodeRecords(BuffListRecords(list[i..]))| == |EncodeRecords(BuffListRecords(list))|
        invariant total <= INT_MAX ==> forall j | 0 <= j < i :: buffs[j].Sized()
      {
        BuffListSizeStep(list, i);
        var n := buffs[i].MessageSize();
        SameSizeSum(total - (|buffs| - i), exact, 1 + n,
          1 + |EncodeVarint(|EncodeBuff(list[i])|)| + |EncodeBuff(list[i])|);
        total := total + n;
        exact := exact + 1 + |EncodeVarint(|EncodeBuff(list[i])|)| + |EncodeBuff(list[i])|;
        i := i + 1;
      }
      NoBuffs(list);
      assert BuffValues(buffs) == list;
    }

    /** RepeatedPtrField::MergeFrom for the list, then the scalars. */
    method MergeFrom(from: STestMessage)
      requires Valid() && from.Valid() && from != this
      modifies this
      ensures Valid() && forall b | b in buffs :: b in old(buffs) || fresh(b)
      ensures Value() == MergeTest(old(Value()), old(from.Value()))
    {
      hide CanonicalBuffs, BuffValues, LastWins, Distinct;
      unknown := unknown + from.unknown;
      AddMerged(from.buffs);
      MergeScalars(from);
    }

    method MergeScalars(from: STestMessage)
      modifies `id, `hp, `attack
      ensures id == LastWins(old(id), old(from.id)) && hp == LastWins(old(hp), old(from.hp))
      ensures attack == LastWins(old(attack), old(from.attack))
    {
      if from.id != 0 { id := from.id; }
      if from.hp != 0 { hp := from.hp; }
      if from.attack != 0 { attack := from.attack; }
    }

    /** Each given element is merged into a new one at the end of the list. */
    method AddMerged(others: seq<BuffDataMessage>)
      requires Valid()
      modifies `buffs
      ensures Valid() && forall b | b in buffs :: b in old(buffs) || fresh(b)
      ensures BuffValues(buffs) == old(BuffValues(buffs)) + CanonicalBuffs(old(BuffValues(others)))
    {
      hide CanonicalBuffs, CanonicalBuff;
      ghost var before := BuffValues(buffs);
      ghost var list := BuffValues(others);
      NoCanonicalBuffs(before, list);
      var i := 0;
      while i < |others|
        invariant i <= |others| && Valid()
        invariant forall b | b in buffs :: b in old(buffs) || fresh(b)
        invariant BuffValues(others) == list
        invariant BuffValues(buffs) == before + CanonicalBuffs(list[..i])
      {
        CanonicalSnoc(before, list, i);
        AddOneMerged(others[i]);
        i := i + 1;
      }
      assert list[..|list|] == list;
    }

    method AddOneMerged(other: BuffDataMessage)
      requires Valid()
      modifies `buffs
      ensures Valid() && forall b | b in buffs :: b in old(buffs) || fresh(b)
      ensures BuffValues(buffs) == old(BuffValues(buffs)) + [CanonicalBuff(old(other.Value()))]
    {
      hide CanonicalBuff, MergeBuff, BuffValues;
      var child := new BuffDataMessage();
      child.MergeFrom(other);
      MergeIntoNoBuff(other.Value());
      BuffValuesSnoc(buffs, child);
      buffs := buffs + [child];
    }

    /** Clear: the list's Clear clears each element before it drops them. */
    method Clear()
      requires Valid()
      modifies this, buffs
      ensures Valid() && Value() == NO_TEST && buffs == []
      ensures forall b | b in old(buffs) :: b.Value() == NO_BUFF
    {
      var i := 0;
      while i < |buffs|
        invariant i <= |buffs| && buffs == old(buffs) && forall j | 0 <= j < i :: buffs[j].Value() == NO_BUFF
      {
        buffs[i].Clear();
        i := i + 1;
      }
      id, hp, attack, buffs, unknown := 0, 0, 0, [], [];
    }

    /** ParseFromString: a flat buffer of the whole message, with the default nesting limit. */
    method ParseFromString(buf: seq<byte>) returns (ok: bool)
      requires Valid()
      modifies this, buffs
      ensures Valid() && forall b | b in buffs :: fresh(b)
      ensures ok <==> ParseFrom(ApplyTest, NO_TEST, buf, DEFAULT_DEPTH).Some?
      ensures ok ==> ParseFrom(ApplyTest, NO_TEST, buf, DEFAULT_DEPTH) == Some(Value())
    {
      Clear();
      assert buf[0..|buf|] == buf;
      ok := InternalParse(buf, 0, |buf|, DEFAULT_DEPTH);
    }

    /** AppendToString: sizes first, then, unless the message is over 2 GB, bytes that rely on the cached sizes. */
    method AppendToString(out: seq<byte>) returns (ok: bool, r: seq<byte>)
      requires Valid()
      modifies `cachedSize, buffs`victimsCachedByteSize, buffs`cachedSize
      ensures Valid() && Value() == old(Value())
      ensures ok <==> |EncodeTest(Value())| <= INT_MAX
      ensures r == if ok then out + EncodeTest(Value()) else out
    {
      var size := ByteSizeLong();
      if size > INT_MAX { return false, out; }
      r := InternalSerialize(out);
      ok := true;
    }
  }

  /** One list element: tag, length, and its own bytes. */
  lemma BuffListStep(done: seq<byte>, list: seq<BuffData>, i: nat)
    requires i < |list|
    ensures
      var bytes := EncodeBuff(list[i]);
      done + EncodeVarint(Tag(4, 2)) + EncodeVarint(|bytes|) + bytes + EncodeRecords(BuffListRecords(list[i + 1..]))
      == done + EncodeRecords(BuffListRecords(list[i..]))
  {
    var bytes := EncodeBuff(list[i]);
    assert list[i..][1..] == list[i + 1..];
    WriteThen(done, [Bytes(4, bytes)], BuffListRecords(list[i + 1..]));
    OneRecord(Bytes(4, bytes));
    WholeBytesField(4, bytes, done);
  }

  lemma BuffListSizeStep(list: seq<BuffData>, i: nat)
    requires i < |list|
    ensures
      var n := |EncodeBuff(list[i])|;
      |EncodeRecords(BuffListRecords(list[i..]))|
      == 1 + |EncodeVarint(n)| + n + |EncodeRecords(BuffListRecords(list[i + 1..]))|
  {
    BuffListStep([], list, i);
    assert |EncodeVarint(Tag(4, 2))| == 1;
  }

  lemma NoBuffs(list: seq<BuffData>)
    ensures EncodeRecords(BuffListRecords(list[|list|..])) == []
  {
  }

  lemma NoCanonicalBuffs(before: seq<BuffData>, list: seq<BuffData>)
    ensures before + CanonicalBuffs(list[..0]) == before
  {
  }

  lemma CanonicalSnoc(before: seq<BuffData>, list: seq<BuffData>, i: nat)
    requires i < |list|
    ensures before + CanonicalBuffs(list[..i]) + [CanonicalBuff(list[i])] == before + CanonicalBuffs(list[..i + 1])
  {
  }

  lemma TestBytes(m: STest, out: seq<byte>)
    ensures out + EncodeTest(m)
         == out + EncodeRecords(VarintUnlessZero(1, m.id)) + EncodeRecords(VarintUnlessZero(2, m.hp))
              + EncodeRecords(VarintUnlessZero(3, m.attack)) + EncodeRecords(BuffListRecords(m.buffs))
              + EncodeRecords(m.unknown)
  {
    var s4 := BuffListRecords(m.buffs) + m.unknown;
    var s3 := VarintUnlessZero(3, m.attack) + s4;
    var s2 := VarintUnlessZero(2, m.hp) + s3;
    WriteThen(out, VarintUnlessZero(1, m.id), s2);
    var r1 := out + EncodeRecords(VarintUnlessZero(1, m.id));
    WriteThen(r1, VarintUnlessZero(2, m.hp), s3);
    var r2 := r1 + EncodeRecords(VarintUnlessZero(2, m.hp));
    WriteThen(r2, VarintUnlessZero(3, m.attack), s4);
    var r3 := r2 + EncodeRecords(VarintUnlessZero(3, m.attack));
    WriteThen(r3, BuffListRecords(m.buffs), m.unknown);
  }

  lemma TestLength(m: STest)
    ensures |EncodeTest(m)|
         == |EncodeRecords(VarintUnlessZero(1, m.id))| + |EncodeRecords(VarintUnlessZero(2, m.hp))|
          + |EncodeRecords(VarintUnlessZero(3, m.attack))| + |EncodeRecords(BuffListRecords(m.buffs))|
          + |EncodeRecords(m.unknown)|
  {
    TestBytes(m, []);
  }

  lemma SmallTag(bs: seq<byte>)
    requires bs != [] && bs[0] < 128
    ensures ReadTag(bs) == Some((bs[0], bs[1..]))
  {
  }

  class SAttackMessage {
    var target: ObjectInfoMessage?
    var attacker: ObjectInfoMessage?
    var unknown: seq<Record>
    var cachedSize: int32

    constructor ()
      ensures Valid() && Value() == NO_ATTACK && target == null && attacker == null
    {
      target, attacker, unknown, cachedSize := null, null, [], 0;
    }

    /** The sub-messages the packet owns. */
    function Owned(): set<ObjectInfoMessage>
      reads this
    {
      (if target == null then {} else {target}) + (if attacker == null then {} else {attacker})
    }

    ghost predicate Valid()
      reads this
    {
      target != null ==> target != attacker
    }

    function Value(): SAttack
      reads this, Owned()
    {
      SAttack(if target == null then None else Some(target.Value()),
        if attacker == null then None else Some(attacker.Value()), unknown)
    }

    ghost predicate Sized()
      reads this, Owned()
    {
      |EncodeAttack(Value())| <= INT_MAX && cachedSize == |EncodeAttack(Value())|
      && forall o | o in Owned() :: o.Sized()
    }

    /** The switch of the parse loop: a sub-message is parsed into the one already there, or into a new one. */
    method ParseField(tag: uint32, buf: seq<byte>, p: nat, limit: nat, depth: nat) returns (ok: bool, next: nat)
      requires Valid() && p <= limit <= |buf|
      modifies this, Owned()
      ensures Valid() && forall o | o in Owned() :: o in old(Owned()) || fresh(o)
      ensures
        var payload := ReadPayload(tag, buf[p..limit], depth);
        var m := if payload.None? then None else ApplyAttack(old(Value()), payload.value.0, depth);
        (ok <==> m.Some?) &&
        (ok ==> m.value == Value() && p <= next <= limit && payload.value.1 == buf[next..limit])
    {
      hide ReadDelimited, ParseSub;
      if tag == 10 {
        PayloadOfBytes(tag, buf[p..limit], depth);
        if target == null { target := new ObjectInfoMessage(); }
        ok, next := target.ParseMessage(buf, p, limit, depth);
      } else if tag == 18 {
        PayloadOfBytes(tag, buf[p..limit], depth);
        if attacker == null { attacker := new ObjectInfoMessage(); }
        ok, next := attacker.ParseMessage(buf, p, limit, depth);
      } else {
        var r;
        ok, r, next := ReadUnknownAt(tag, buf, p, limit, depth);
        unknown := unknown + [r];
      }
    }

    /** _InternalParse up to `limit`, together with the check that the parse ended there. */
    method InternalParse(buf: seq<byte>, start: nat, limit: nat, depth: nat) returns (ok: bool)
      requires Valid() && start <= limit <= |buf|
      modifies this, Owned()
      ensures Valid() && forall o | o in Owned() :: o in old(Owned()) || fresh(o)
      ensures ok <==> ParseFrom(ApplyAttack, old(Value()), buf[start..limit], depth).Some?
      ensures ok ==> ParseFrom(ApplyAttack, old(Value()), buf[start..limit], depth) == Some(Value())
    {
      hide ReadPayload, ApplyAttack, ReadTag;
      var ptr := start;
      ghost var result := ParseFrom(ApplyAttack, Value(), buf[start..limit], depth);
      while ptr < limit
        invariant Valid() && start <= ptr <= limit
        invariant forall o | o in Owned() :: o in old(Owned()) || fresh(o)
        invariant ParseFrom(ApplyAttack, Value(), buf[ptr..limit], depth) == result
      {
        var good, tag, q := ReadTagAt(buf, ptr, limit);
        if !good { return false; }
        ParseTurn(ApplyAttack, Value(), buf[ptr..limit], tag, buf[q..limit], depth);
        if tag == 0 || tag % 8 == 4 {
          PayloadRefused(tag, buf[q..limit], depth);
          return false;
        }
        good, q := ParseField(tag, buf, q, limit, depth);
        if !good { return false; }
        ptr := q;
      }
      return true;
    }

    method InternalSerialize(out: seq<byte>) returns (r: seq<byte>)
      requires Sized()
      ensures r == out + EncodeAttack(Value())
    {
      r := out;
      if target != null {
        r := WriteSub(1, target, r);
      }
      if attacker != null {
        r := WriteSub(2, attacker, r);
      }
      r := WriteUnknown(unknown, r);
      AttackBytes(Value(), out);
    }

    /** InternalWriteMessage: tag, cached size, bytes. */
    static method WriteSub(num: FieldNumber, o: ObjectInfoMessage, out: seq<byte>) returns (r: seq<byte>)
      requires o.Sized()
      ensures r == out + EncodeRecords(ObjectIfPresent(num, Some(o.Value())))
    {
      r := WriteTag(num, 2, out);
      r := WriteVarint(o.cachedSize, r);
      r := o.InternalSerialize(r);
      WholeBytesField(num, EncodeObject(o.Value()), out);
      OneRecord(Bytes(num, EncodeObject(o.Value())));
    }

    method ByteSizeLong() returns (total: nat)
      requires Valid()
      modifies `cachedSize, Owned()`cachedSize
      ensures Valid() && Value() == old(Value()) && Owned() == old(Owned())
      ensures SameSize(total, |EncodeAttack(Value())|)
      ensures total <= 0x7FFF_FFFF || |EncodeAttack(Value())| <= 0x7FFF_FFFF ==> total == |EncodeAttack(Value())|
      ensures total <= INT_MAX ==> Sized()
    {
      hide EncodeObject, EncodeRecords, EncodeVarint;
      total := 0;
      if target != null {
        var n := target.MessageSize();
        total := total + 1 + n;
      }
      if attacker != null {
        var n := attacker.MessageSize();
        total := total + 1 + n;
      }
      var unknownSize := UnknownSize(unknown);
      total := total + unknownSize;
      cachedSize := AsInt32(total);
      AttackLength(Value());
      if total <= INT_MAX { SmallCast(total); }
    }

    method MergeFrom(from: SAttackMessage)
      requires Valid() && from.Valid() && from != this && Owned() !! from.Owned()
      modifies this, Owned()
      ensures Valid() && forall o | o in Owned() :: o in old(Owned()) || fresh(o)
      ensures Value() == MergeAttack(old(Value()), old(from.Value()))
    {
      hide MergeObject;
      unknown := unknown + from.unknown;
      if from.target != null {
        if target == null { target := new ObjectInfoMessage(); }
        target.MergeFrom(from.target);
      }
      if from.attacker != null {
        if attacker == null { attacker := new ObjectInfoMessage(); }
        attacker.MergeFrom(from.attacker);
      }
    }

    method ParseFromString(buf: seq<byte>) returns (ok: bool)
      requires Valid()
      modifies this
      ensures Valid() && forall o | o in Owned() :: fresh(o)
      ensures ok <==> ParseFrom(ApplyAttack, NO_ATTACK, buf, DEFAULT_DEPTH).Some?
      ensures ok ==> ParseFrom(ApplyAttack, NO_ATTACK, buf, DEFAULT_DEPTH) == Some(Value())
    {
      target, attacker, unknown := null, null, [];
      assert buf[0..|buf|] == buf;
      ok := InternalParse(buf, 0, |buf|, DEFAULT_DEPTH);
    }

    method AppendToString(out: seq<byte>) returns (ok: bool, r: seq<byte>)
      requires Valid()
      modifies `cachedSize, Owned()`cachedSize
      ensures Valid() && Value() == old(Value()) && Owned() == old(Owned())
      ensures ok <==> |EncodeAttack(Value())| <= INT_MAX
      ensures r == if ok then out + EncodeAttack(Value()) else out
    {
      var size := ByteSizeLong();
      if size > INT_MAX { return false, out; }
      r := InternalSerialize(out);
      ok := true;
    }
  }

  lemma AttackBytes(m: SAttack, out: seq<byte>)
    ensures out + EncodeAttack(m)
         == out + EncodeRecords(ObjectIfPresent(1, m.target)) + EncodeRecords(ObjectIfPresent(2, m.attacker))
              + EncodeRecords(m.unknown)
  {
    WriteThen(out, ObjectIfPresent(1, m.target), ObjectIfPresent(2, m.attacker) + m.unknown);
    WriteThen(out + EncodeRecords(ObjectIfPresent(1, m.target)), ObjectIfPresent(2, m.attacker), m.unknown);
  }

  lemma AttackLength(m: SAttack)
    ensures |EncodeAttack(m)| == SubLength(m.target) + SubLength(m.attacker) + |EncodeRecords(m.unknown)|
  {
    AttackBytes(m, []);
    SubLengthIsLength(1, m.target);
    SubLengthIsLength(2, m.attacker);
  }

  ghost function SubLength(o: Option<ObjectInfo>): nat
  {
    match o
    case None => 0
    case Some(v) => 1 + (|EncodeVarint(|EncodeObject(v)|)| + |EncodeObject(v)|)
  }

  lemma SubLengthIsLength(num: FieldNumber, o: Option<ObjectInfo>)
    requires num <= 2
    ensures |EncodeRecords(ObjectIfPresent(num, o))| == SubLength(o)
  {
    if o.Some? {
      OneRecord(Bytes(num, EncodeObject(o.value)));
    }
  }
}
