/**
 * Packets that go from one object to another through bytes: what ParseFromString makes of what AppendToString wrote.
 * A packet is lost exactly when it is over 2 GB or the reader refuses it.
 */
module PacketCopies {
  import opened Prelude
  import opened Wire
  import opened GameObjects
  import opened Packets
  import opened WireWriter
  import opened ObjectMessages
  import opened PacketMessages
  import opened ListPacketMessages
  import opened Meanings
  import opened MessageMeanings

  ghost predicate NoneShared<T>(s: seq<T>, t: seq<T>)
  {
    forall i, j | 0 <= i < |s| && 0 <= j < |t| :: s[i] != t[j]
  }

  /** The packet arrives exactly when it is small enough to be written and its reader accepts it; signs of zeros go. */
  method SendTest(a: STestMessage, b: STestMessage) returns (ok: bool)
    requires a.Valid() && b.Valid() && TestWellFormed(a.Value())
    requires b != a && NoneShared(a.buffs, b.buffs)
    modifies a`cachedSize, a.buffs`victimsCachedByteSize, a.buffs`cachedSize, b, b.buffs
    ensures a.Valid() && b.Valid() && a.Value() == old(a.Value())
    ensures ok <==> |EncodeTest(a.Value())| <= INT_MAX && TestReadable(a.Value(), DEFAULT_DEPTH)
    ensures ok ==> b.Value() == CanonicalTest(a.Value())
  {
    hide EncodeTest, ParseFrom, TestWellFormed, TestReadable, CanonicalTest, BuffValues, Distinct;
    var bytes;
    ok, bytes := a.AppendToString([]);
    if ok {
      TestRoundTrip(a.Value(), DEFAULT_DEPTH);
      assert [] + EncodeTest(a.Value()) == EncodeTest(a.Value());
      ok := b.ParseFromString(bytes);
    }
  }

  method AppendTestPair(a: STestMessage, c: STestMessage) returns (ok: bool, bytes: seq<byte>)
    requires a.Valid() && c.Valid() && (a == c || NoneShared(a.buffs, c.buffs))
    modifies a`cachedSize, a.buffs`victimsCachedByteSize, a.buffs`cachedSize
    modifies c`cachedSize, c.buffs`victimsCachedByteSize, c.buffs`cachedSize
    ensures a.Valid() && c.Valid() && a.Value() == old(a.Value()) && c.Value() == old(c.Value())
    ensures ok <==> |EncodeTest(a.Value())| <= INT_MAX && |EncodeTest(c.Value())| <= INT_MAX
    ensures ok ==> bytes == EncodeTest(a.Value()) + EncodeTest(c.Value())
  {
    hide EncodeTest, STestMessage.Value, Distinct;
    ok, bytes := a.AppendToString([]);
    if ok {
      ok, bytes := c.AppendToString(bytes);
    }
  }

  /** Two packets in one buffer arrive as one: the second merged into the first. */
  method SendTestPair(a: STestMessage, c: STestMessage, b: STestMessage) returns (ok: bool)
    requires a.Valid() && b.Valid() && c.Valid() && TestWellFormed(a.Value()) && TestWellFormed(c.Value())
    requires b != a && NoneShared(a.buffs, b.buffs)
    requires b != c && NoneShared(c.buffs, b.buffs)
    requires a == c || NoneShared(a.buffs, c.buffs)
    modifies a`cachedSize, a.buffs`victimsCachedByteSize, a.buffs`cachedSize
    modifies c`cachedSize, c.buffs`victimsCachedByteSize, c.buffs`cachedSize
    modifies b, b.buffs
    ensures a.Valid() && b.Valid() && c.Valid() && a.Value() == old(a.Value()) && c.Value() == old(c.Value())
    ensures ok <==>
      && |EncodeTest(a.Value())| <= INT_MAX && TestReadable(a.Value(), DEFAULT_DEPTH)
      && |EncodeTest(c.Value())| <= INT_MAX && TestReadable(c.Value(), DEFAULT_DEPTH)
    ensures ok ==> b.Value() == MergeTest(CanonicalTest(a.Value()), c.Value())
  {
    hide EncodeTest, ParseFrom, TestWellFormed, TestReadable, MergeTest, CanonicalTest, BuffValues, Distinct;
    var bytes;
    ok, bytes := AppendTestPair(a, c);
    if ok {
      TestConcatIsMerge(a.Value(), c.Value(), DEFAULT_DEPTH);
      ok := b.ParseFromString(bytes);
    }
  }

  /** The packet arrives exactly when it is small enough to be written and its reader accepts it, and arrives whole. */
  method SendAdd(a: SAddObjectMessage, b: SAddObjectMessage) returns (ok: bool)
    requires a.Valid() && b.Valid() && AddWellFormed(a.Value())
    requires b != a
    modifies a`cachedSize, a.objects`cachedSize, b
    ensures a.Valid() && b.Valid() && a.Value() == old(a.Value())
    ensures ok <==> |EncodeAdd(a.Value())| <= INT_MAX && AddReadable(a.Value(), DEFAULT_DEPTH)
    ensures ok ==> b.Value() == a.Value()
  {
    hide EncodeAdd, ParseFrom, AddWellFormed, AddReadable, ObjectValues, Distinct;
    var bytes;
    ok, bytes := a.AppendToString([]);
    if ok {
      AddRoundTrip(a.Value(), DEFAULT_DEPTH);
      assert [] + EncodeAdd(a.Value()) == EncodeAdd(a.Value());
      ok := b.ParseFromString(bytes);
    }
  }

  method AppendAddPair(a: SAddObjectMessage, c: SAddObjectMessage) returns (ok: bool, bytes: seq<byte>)
    requires a.Valid() && c.Valid() && (a == c || NoneShared(a.objects, c.objects))
    modifies a`cachedSize, a.objects`cachedSize
    modifies c`cachedSize, c.objects`cachedSize
    ensures a.Valid() && c.Valid() && a.Value() == old(a.Value()) && c.Value() == old(c.Value())
    ensures ok <==> |EncodeAdd(a.Value())| <= INT_MAX && |EncodeAdd(c.Value())| <= INT_MAX
    ensures ok ==> bytes == EncodeAdd(a.Value()) + EncodeAdd(c.Value())
  {
    hide EncodeAdd, SAddObjectMessage.Value, Distinct;
    ok, bytes := a.AppendToString([]);
    if ok {
      ok, bytes := c.AppendToString(bytes);
    }
  }

  /** Two packets in one buffer arrive as one: the second merged into the first. */
  method SendAddPair(a: SAddObjectMessage, c: SAddObjectMessage, b: SAddObjectMessage) returns (ok: bool)
    requires a.Valid() && b.Valid() && c.Valid() && AddWellFormed(a.Value()) && AddWellFormed(c.Value())
    requires b != a && b != c
    requires a == c || NoneShared(a.objects, c.objects)
    modifies a`cachedSize, a.objects`cachedSize
    modifies c`cachedSize, c.objects`cachedSize
    modifies b
    ensures a.Valid() && b.Valid() && c.Valid() && a.Value() == old(a.Value()) && c.Value() == old(c.Value())
    ensures ok <==>
      && |EncodeAdd(a.Value())| <= INT_MAX && AddReadable(a.Value(), DEFAULT_DEPTH)
      && |EncodeAdd(c.Value())| <= INT_MAX && AddReadable(c.Value(), DEFAULT_DEPTH)
    ensures ok ==> b.Value() == MergeAdd(a.Value(), c.Value())
  {
    hide EncodeAdd, ParseFrom, AddWellFormed, AddReadable, ObjectValues, Distinct, MergeAdd;
    var bytes;
    ok, bytes := AppendAddPair(a, c);
    if ok {
      AddConcatIsMerge(a.Value(), c.Value(), DEFAULT_DEPTH);
      ok := b.ParseFromString(bytes);
    }
  }

  /** The packet arrives exactly when it is small enough to be written and its reader accepts it, and arrives whole. */
  method SendRemove(a: SRemoveObjectMessage, b: SRemoveObjectMessage) returns (ok: bool)
    requires RemoveWellFormed(a.Value())
    requires b != a
    modifies a`idsCachedByteSize, a`cachedSize, b
    ensures a.Value() == old(a.Value())
    ensures ok <==> |EncodeRemove(a.Value())| <= INT_MAX && RemoveReadable(a.Value(), DEFAULT_DEPTH)
    ensures ok ==> b.Value() == a.Value()
  {
    hide EncodeRemove, ParseFrom, RemoveWellFormed, RemoveReadable;
    var bytes;
    ok, bytes := a.AppendToString([]);
    if ok {
      RemoveRoundTrip(a.Value(), DEFAULT_DEPTH);
      assert [] + EncodeRemove(a.Value()) == EncodeRemove(a.Value());
      ok := b.ParseFromString(bytes);
    }
  }

  method AppendRemovePair(a: SRemoveObjectMessage, c: SRemoveObjectMessage) returns (ok: bool, bytes: seq<byte>)
    modifies a`idsCachedByteSize, a`cachedSize
    modifies c`idsCachedByteSize, c`cachedSize
    ensures a.Value() == old(a.Value()) && c.Value() == old(c.Value())
    ensures ok <==> |EncodeRemove(a.Value())| <= INT_MAX && |EncodeRemove(c.Value())| <= INT_MAX
    ensures ok ==> bytes == EncodeRemove(a.Value()) + EncodeRemove(c.Value())
  {
    hide EncodeRemove;
    ok, bytes := a.AppendToString([]);
    if ok {
      ok, bytes := c.AppendToString(bytes);
    }
  }

  /** Two packets in one buffer arrive as one: the second merged into the first. */
  method SendRemovePair(a: SRemoveObjectMessage, c: SRemoveObjectMessage, b: SRemoveObjectMessage) returns (ok: bool)
    requires RemoveWellFormed(a.Value()) && RemoveWellFormed(c.Value())
    requires b != a && b != c
    modifies a`idsCachedByteSize, a`cachedSize
    modifies c`idsCachedByteSize, c`cachedSize
    modifies b
    ensures a.Value() == old(a.Value()) && c.Value() == old(c.Value())
    ensures ok <==>
      && |EncodeRemove(a.Value())| <= INT_MAX && RemoveReadable(a.Value(), DEFAULT_DEPTH)
      && |EncodeRemove(c.Value())| <= INT_MAX && RemoveReadable(c.Value(), DEFAULT_DEPTH)
    ensures ok ==> b.Value() == MergeRemove(a.Value(), c.Value())
  {
    hide EncodeRemove, ParseFrom, RemoveWellFormed, RemoveReadable, MergeRemove;
    var bytes;
    ok, bytes := AppendRemovePair(a, c);
    if ok {
      RemoveConcatIsMerge(a.Value(), c.Value(), DEFAULT_DEPTH);
      ok := b.ParseFromString(bytes);
    }
  }

  /** The packet arrives exactly when it is small enough to be written and its reader accepts it, and arrives whole. */
  method SendAttack(a: SAttackMessage, b: SAttackMessage) returns (ok: bool)
    requires a.Valid() && b.Valid() && AttackWellFormed(a.Value())
    requires b != a
    modifies a`cachedSize, a.Owned()`cachedSize, b
    ensures a.Valid() && b.Valid() && a.Value() == old(a.Value())
    ensures ok <==> |EncodeAttack(a.Value())| <= INT_MAX && AttackReadable(a.Value(), DEFAULT_DEPTH)
    ensures ok ==> b.Value() == a.Value()
  {
    hide EncodeAttack, ParseFrom, AttackWellFormed, AttackReadable;
    var bytes;
    ok, bytes := a.AppendToString([]);
    if ok {
      AttackRoundTrip(a.Value(), DEFAULT_DEPTH);
      assert [] + EncodeAttack(a.Value()) == EncodeAttack(a.Value());
      ok := b.ParseFromString(bytes);
    }
  }

  method AppendAttackPair(a: SAttackMessage, c: SAttackMessage) returns (ok: bool, bytes: seq<byte>)
    requires a.Valid() && c.Valid() && (a == c || a.Owned() !! c.Owned())
    modifies a`cachedSize, a.Owned()`cachedSize
    modifies c`cachedSize, c.Owned()`cachedSize
    ensures a.Valid() && c.Valid() && a.Value() == old(a.Value()) && c.Value() == old(c.Value())
    ensures ok <==> |EncodeAttack(a.Value())| <= INT_MAX && |EncodeAttack(c.Value())| <= INT_MAX
    ensures ok ==> bytes == EncodeAttack(a.Value()) + EncodeAttack(c.Value())
  {
    hide EncodeAttack;
    ok, bytes := a.AppendToString([]);
    if ok {
      ok, bytes := c.AppendToString(bytes);
    }
  }

  /** Two packets in one buffer arrive as one: the second merged into the first. */
  method SendAttackPair(a: SAttackMessage, c: SAttackMessage, b: SAttackMessage) returns (ok: bool)
    requires a.Valid() && b.Valid() && c.Valid() && AttackWellFormed(a.Value()) && AttackWellFormed(c.Value())
    requires b != a && b != c
    requires a == c || a.Owned() !! c.Owned()
    modifies a`cachedSize, a.Owned()`cachedSize
    modifies c`cachedSize, c.Owned()`cachedSize
    modifies b
    ensures a.Valid() && b.Valid() && c.Valid() && a.Value() == old(a.Value()) && c.Value() == old(c.Value())
    ensures ok <==>
      && |EncodeAttack(a.Value())| <= INT_MAX && AttackReadable(a.Value(), DEFAULT_DEPTH)
      && |EncodeAttack(c.Value())| <= INT_MAX && AttackReadable(c.Value(), DEFAULT_DEPTH)
    ensures ok ==> b.Value() == MergeAttack(a.Value(), c.Value())
  {
    hide EncodeAttack, ParseFrom, AttackWellFormed, AttackReadable, MergeAttack;
    var bytes;
    ok, bytes := AppendAttackPair(a, c);
    if ok {
      AttackConcatIsMerge(a.Value(), c.Value(), DEFAULT_DEPTH);
      ok := b.ParseFromString(bytes);
    }
  }

  /** A field that no packet knows, inside n groups. */
  function Nested(n: nat): Record
  {
    if n == 0 then Varint(15, 0) else Group(15, [Nested(n - 1)])
  }

  lemma {:induction false} NestedFits(n: nat, depth: nat)
    ensures Fits(Nested(n), depth) <==> n <= depth
  {
    if n == 0 {
    } else if depth > 0 {
      NestedFits(n - 1, depth - 1);
      assert Nested(n).fields == [Nested(n - 1)] && Nested(n - 1) in Nested(n).fields;
    }
  }

  /** ParseFromString goes a hundred levels deep and no deeper. */
  lemma NestingLimit(n: nat)
    ensures ParseFrom(ApplyRemove, NO_REMOVE, EncodeRecords([Nested(n)]), DEFAULT_DEPTH)
         == if n <= 100 then Some(SRemoveObject([], [Nested(n)])) else None
  {
    var rs := [Nested(n)];
    NestedFits(n, DEFAULT_DEPTH);
    assert rs[0] in rs;
    RemoveParseMeans(NO_REMOVE, EncodeRecords(rs), DEFAULT_DEPTH);
    RecordsOfEncoded(rs, DEFAULT_DEPTH);
    NestedIsOther(n);
    assert [] + rs == rs && NumbersIn(rs[0], 1) == Some([]);
    UnknownOfSnoc([], rs[0], REMOVE_FIELDS);
    assert Unknown(rs, REMOVE_FIELDS) == rs;
    NoNumbers(rs[0], 1);
    assert RemoveFrom(NO_REMOVE, rs) == Some(SRemoveObject([], rs));
  }

  lemma NoNumbers(r: Record, num: int)
    requires NumbersIn(r, num) == Some([])
    ensures Numbers([r], num) == Some([])
  {
    var none: seq<uint64> := [];
    assert [r][..0] == [] && none + none == none;
  }

  lemma NestedIsOther(n: nat)
    ensures Nested(n).num == 15
  {
  }
}
