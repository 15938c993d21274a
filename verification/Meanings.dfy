/**
 * What a sequence of records means, field by field and whatever its order: the last record of a scalar field wins,
 * the numbers of a repeated field are strung together, and what no field takes is kept.
 */
module Meanings {
  import opened Prelude
  import opened Wire
  import opened Scalars

  /** The records that the bytes consist of, when they do. */
  function RecordsOf(bs: seq<byte>, depth: nat): Option<seq<Record>>
    decreases |bs|
  {
    if bs == [] then Some([])
    else
      match ReadRecord(bs, depth)
      case None => None
      case Some((r, rest)) =>
        match RecordsOf(rest, depth)
        case None => None
        case Some(rs) => Some([r] + rs)
  }

  /** What can be read could have been written. */
  lemma {:induction false} ReadFits(bs: seq<byte>, depth: nat)
    requires ReadRecord(bs, depth).Some?
    ensures Fits(ReadRecord(bs, depth).value.0, depth)
    decreases |bs|, 0
  {
    var Some((tag, rest)) := ReadTag(bs);
    if tag % 8 == 3 {
      GroupFits(rest, tag / 8, depth - 1);
    }
  }

  lemma {:induction false} GroupFits(bs: seq<byte>, num: FieldNumber, depth: nat)
    requires ReadGroup(bs, num, depth).Some?
    ensures AllFit(ReadGroup(bs, num, depth).value.0, depth)
    decreases |bs|, 1
  {
    if ReadTag(bs).value.0 == Tag(num, 4) {
    } else {
      ReadFits(bs, depth);
      GroupFits(ReadRecord(bs, depth).value.1, num, depth);
    }
  }

  /** A parser takes in the records that the bytes consist of, one after the other, and refuses all other bytes. */
  lemma {:induction false} ParseIsByRecords<M>(apply: Apply<M>, m: M, bs: seq<byte>, depth: nat)
    ensures ParseFrom(apply, m, bs, depth)
         == match RecordsOf(bs, depth) case None => None case Some(rs) => Accept(apply, m, rs, depth)
    ensures RecordsOf(bs, depth).Some? ==> AllFit(RecordsOf(bs, depth).value, depth)
    decreases |bs|
  {
    if bs == [] {
    } else if ReadRecord(bs, depth).Some? {
      var Some((r, rest)) := ReadRecord(bs, depth);
      ReadFits(bs, depth);
      ParseIsByRecords(apply, m, rest, depth);
      if apply(m, r, depth).Some? {
        ParseIsByRecords(apply, apply(m, r, depth).value, rest, depth);
      }
      if RecordsOf(rest, depth).Some? {
        AcceptCons(apply, m, r, RecordsOf(rest, depth).value, depth);
      }
    }
  }

  lemma {:induction false} RecordsOfEncoded(rs: seq<Record>, depth: nat)
    ensures RecordsOf(EncodeRecords(rs), depth) == if AllFit(rs, depth) then Some(rs) else None
  {
    if rs == [] {
    } else {
      AllFitHead(rs, depth);
      RecordRoundTrip(rs[0], EncodeRecords(rs[1..]), depth);
      RecordsOfEncoded(rs[1..], depth);
      assert rs == [rs[0]] + rs[1..];
    }
  }

  lemma AcceptSnoc<M>(apply: Apply<M>, m: M, rs: seq<Record>, depth: nat)
    requires rs != []
    ensures var n := |rs| - 1; var before := Accept(apply, m, rs[..n], depth);
      Accept(apply, m, rs, depth)
      == if before.None? || !Fits(rs[n], depth) then None else apply(before.value, rs[n], depth)
  {
    var n := |rs| - 1;
    assert rs == rs[..n] + [rs[n]];
    AcceptConcat(apply, m, rs[..n], [rs[n]], depth);
    var before := Accept(apply, m, rs[..n], depth);
    if before.Some? {
      AcceptOne(apply, before.value, rs[n], depth);
    }
  }

  lemma AllFitSnoc(rs: seq<Record>, depth: nat)
    requires rs != []
    ensures AllFit(rs, depth) <==> AllFit(rs[..|rs| - 1], depth) && Fits(rs[|rs| - 1], depth)
  {
    assert rs == rs[..|rs| - 1] + [rs[|rs| - 1]];
  }

  // ----- scalar fields -----

  function LastVarint(rs: seq<Record>, num: int, before: uint64): uint64
  {
    if rs == [] then before
    else
      var r := rs[|rs| - 1];
      if r.Varint? && r.num == num then r.v else LastVarint(rs[..|rs| - 1], num, before)
  }

  /** An int32 or enum field keeps the low 32 bits. */
  function LastInt(rs: seq<Record>, num: int, before: int32): int32
  {
    if rs == [] then before
    else
      var r := rs[|rs| - 1];
      if r.Varint? && r.num == num then ToInt32(r.v) else LastInt(rs[..|rs| - 1], num, before)
  }

  function LastUint32(rs: seq<Record>, num: int, before: uint32): uint32
  {
    if rs == [] then before
    else
      var r := rs[|rs| - 1];
      if r.Varint? && r.num == num then ToUint32(r.v) else LastUint32(rs[..|rs| - 1], num, before)
  }

  function LastFixed32(rs: seq<Record>, num: int, before: uint32): uint32
  {
    if rs == [] then before
    else
      var r := rs[|rs| - 1];
      if r.Fixed32? && r.num == num then r.bits else LastFixed32(rs[..|rs| - 1], num, before)
  }

  function LastBytes(rs: seq<Record>, num: int, before: seq<byte>): seq<byte>
  {
    if rs == [] then before
    else
      var r := rs[|rs| - 1];
      if r.Bytes? && r.num == num then r.data else LastBytes(rs[..|rs| - 1], num, before)
  }

  /** The records of no known field: a field is known by its number and its wire type. */
  function Unknown(rs: seq<Record>, known: set<(int, int)>): seq<Record>
  {
    if rs == [] then []
    else
      var r := rs[|rs| - 1];
      Unknown(rs[..|rs| - 1], known) + if (r.num, WireType(r)) in known then [] else [r]
  }

  // ----- repeated numbers -----

  /** The numbers that one record adds to a list: itself, or what is packed in it; None when that is no packed list. */
  function NumbersIn(r: Record, num: int): Option<seq<uint64>>
  {
    if r.Varint? && r.num == num then Some([r.v])
    else if r.Bytes? && r.num == num then ReadPacked([], r.data)
    else Some([])
  }

  function Numbers(rs: seq<Record>, num: int): Option<seq<uint64>>
  {
    if rs == [] then Some([])
    else
      var before, last := Numbers(rs[..|rs| - 1], num), NumbersIn(rs[|rs| - 1], num);
      if before.None? || last.None? then None else Some(before.value + last.value)
  }

  lemma {:induction false} ReadPackedAppends(list: seq<uint64>, bs: seq<byte>)
    ensures ReadPacked(list, bs) == match ReadPacked([], bs) case None => None case Some(vs) => Some(list + vs)
    decreases |bs|
  {
    if bs == [] {
      assert list + [] == list;
    } else if ReadVarint(bs).Some? {
      var Some((v, rest)) := ReadVarint(bs);
      ReadPackedAppends(list + [v], rest);
      ReadPackedAppends([v], rest);
      var more := ReadPacked([], rest);
      if more.Some? {
        Regroup(list, [v], more.value);
      }
      assert [] + [v] == [v];
    }
  }

  /** A stretch of a message as some writer may put it: numbers of one field, packed or not, or another record. */
  datatype Part = OneNumber(v: uint64) | PackedNumbers(vs: seq<uint64>) | Other(r: Record)

  function PartRecord(p: Part, num: FieldNumber): Record
  {
    match p
    case OneNumber(v) => Varint(num, v)
    case PackedNumbers(vs) => Bytes(num, EncodePacked(vs))
    case Other(r) => r
  }

  function PartRecords(ps: seq<Part>, num: FieldNumber): seq<Record>
  {
    seq(|ps|, k requires 0 <= k < |ps| => PartRecord(ps[k], num))
  }

  /** The numbers, in the order of the parts. */
  function PartNumbers(ps: seq<Part>): seq<uint64>
  {
    if ps == [] then []
    else
      var p := ps[|ps| - 1];
      PartNumbers(ps[..|ps| - 1])
      + match p case OneNumber(v) => [v] case PackedNumbers(vs) => vs case Other(_) => []
  }

  /** The other records, in their order. */
  function Others(ps: seq<Part>): seq<Record>
  {
    if ps == [] then []
    else Others(ps[..|ps| - 1]) + if ps[|ps| - 1].Other? then [ps[|ps| - 1].r] else []
  }

  /** None of the other records is one of the list's. */
  predicate OthersAreOther(ps: seq<Part>, num: int)
  {
    forall p | p in ps && p.Other? :: !(p.r.num == num && (p.r.Varint? || p.r.Bytes?))
  }

  lemma {:induction false} NumbersOfParts(ps: seq<Part>, num: FieldNumber)
    requires OthersAreOther(ps, num)
    ensures Numbers(PartRecords(ps, num), num) == Some(PartNumbers(ps))
  {
    if ps == [] {
    } else {
      var n := |ps| - 1;
      NumbersOfParts(ps[..n], num);
      PartRecordsSnoc(ps, num);
      if ps[n].PackedNumbers? {
        PackedRoundTrip([], ps[n].vs);
        assert [] + ps[n].vs == ps[n].vs;
      }
    }
  }

  lemma PartRecordsSnoc(ps: seq<Part>, num: FieldNumber)
    requires ps != []
    ensures var n := |ps| - 1; var rs := PartRecords(ps, num);
      rs[..n] == PartRecords(ps[..n], num) && rs[n] == PartRecord(ps[n], num) && |rs| == |ps|
  {
  }

  lemma OthersSnoc(ps: seq<Part>)
    requires ps != []
    ensures var n := |ps| - 1; Others(ps) == if ps[n].Other? then Others(ps[..n]) + [ps[n].r] else Others(ps[..n])
  {
    assert Others(ps[..|ps| - 1]) + [] == Others(ps[..|ps| - 1]);
  }

  lemma ScalarsOfSnoc(rs: seq<Record>, r: Record, num: int, v: uint64, bits: uint32)
    ensures LastVarint(rs + [r], num, v) == if r.Varint? && r.num == num then r.v else LastVarint(rs, num, v)
    ensures LastFixed32(rs + [r], num, bits)
         == if r.Fixed32? && r.num == num then r.bits else LastFixed32(rs, num, bits)
  {
    assert (rs + [r])[..|rs|] == rs;
  }

  lemma UnknownOfSnoc(rs: seq<Record>, r: Record, known: set<(int, int)>)
    ensures Unknown(rs + [r], known)
         == if (r.num, WireType(r)) in known then Unknown(rs, known) else Unknown(rs, known) + [r]
  {
    assert (rs + [r])[..|rs|] == rs;
    assert Unknown(rs, known) + [] == Unknown(rs, known);
  }

  lemma PartRecordsAre(ps: seq<Part>, num: FieldNumber)
    requires ps != []
    ensures PartRecords(ps, num) == PartRecords(ps[..|ps| - 1], num) + [PartRecord(ps[|ps| - 1], num)]
  {
  }

  /** What the other fields get does not depend on how the numbers are cut. */
  lemma {:induction false} OtherFieldsOfParts(ps: seq<Part>, num: FieldNumber, other: int, known: set<(int, int)>,
                                              v: uint64, bits: uint32)
    requires other != num && (num, 0) in known && (num, 2) in known && OthersAreOther(ps, num)
    ensures LastVarint(PartRecords(ps, num), other, v) == LastVarint(Others(ps), other, v)
    ensures LastFixed32(PartRecords(ps, num), other, bits) == LastFixed32(Others(ps), other, bits)
    ensures Unknown(PartRecords(ps, num), known) == Unknown(Others(ps), known)
  {
    if ps == [] {
    } else {
      hide LastVarint, LastFixed32, Unknown, Others, PartRecords;
      var n := |ps| - 1;
      OtherFieldsOfParts(ps[..n], num, other, known, v, bits);
      PartRecordsAre(ps, num);
      OthersSnoc(ps);
      var r := PartRecord(ps[n], num);
      ScalarsOfSnoc(PartRecords(ps[..n], num), r, other, v, bits);
      UnknownOfSnoc(PartRecords(ps[..n], num), r, known);
      ScalarsOfSnoc(Others(ps[..n]), r, other, v, bits);
      UnknownOfSnoc(Others(ps[..n]), r, known);
    }
  }

  // ----- records in two parts -----

  lemma SplitLast(a: seq<Record>, b: seq<Record>)
    requires b != []
    ensures (a + b)[..|a + b| - 1] == a + b[..|b| - 1] && (a + b)[|a + b| - 1] == b[|b| - 1] && a + b != []
  {
  }

  lemma {:induction false} ScalarsConcat(a: seq<Record>, b: seq<Record>, num: int, v: uint64, i: int32, data: seq<byte>)
    ensures LastVarint(a + b, num, v) == LastVarint(b, num, LastVarint(a, num, v))
    ensures LastInt(a + b, num, i) == LastInt(b, num, LastInt(a, num, i))
    ensures LastBytes(a + b, num, data) == LastBytes(b, num, LastBytes(a, num, data))
    decreases |b|
  {
    if b == [] {
      assert a + b == a;
    } else {
      hide ToInt32;
      SplitLast(a, b);
      ScalarsConcat(a, b[..|b| - 1], num, v, i, data);
    }
  }

  lemma {:induction false} UnknownConcat(a: seq<Record>, b: seq<Record>, known: set<(int, int)>)
    ensures Unknown(a + b, known) == Unknown(a, known) + Unknown(b, known)
    decreases |b|
  {
    if b == [] {
      assert a + b == a;
    } else {
      SplitLast(a, b);
      UnknownConcat(a, b[..|b| - 1], known);
    }
  }

  // ----- sub-messages -----

  predicate HasPayload(rs: seq<Record>, num: int)
  {
    exists i :: 0 <= i < |rs| && rs[i].Bytes? && rs[i].num == num
  }

  /** All records inside all records of a sub-message field, in order; None when one of those cannot be read. */
  function InnerRecords(rs: seq<Record>, num: int, depth: nat): Option<seq<Record>>
  {
    if rs == [] then Some([])
    else
      var before, r := InnerRecords(rs[..|rs| - 1], num, depth), rs[|rs| - 1];
      if !(r.Bytes? && r.num == num) then before
      else if depth == 0 || before.None? || RecordsOf(r.data, depth - 1).None? then None
      else Some(before.value + RecordsOf(r.data, depth - 1).value)
  }
}
