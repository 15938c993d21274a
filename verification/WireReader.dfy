/**
 The readers the generated parse loops call. They work on a flat buffer from position `p` up to `limit`
 and use the accumulate-then-correct trick of the source: every byte is added with its continuation bit
 still set, and the next step subtracts that bit again by adding the next byte less one.
 */
module WireReader {
  import opened Prelude
  import opened Wire
  import opened Scalars

  /** The number whose first `i` digits are the bytes of `bs` less their continuation bit, and whose rest is `v`. */
  ghost function Combine(bs: seq<byte>, i: nat, v: int): int
    requires i <= |bs|
  {
    if i == 0 then v else Combine(bs, i - 1, bs[i - 1] - 128 + 128 * v)
  }

  ghost predicate Continued(bs: seq<byte>, i: nat)
    requires i <= |bs|
  {
    forall j | 0 <= j < i :: bs[j] >= 128
  }

  /** After `i` continued bytes the simple form still has to read the rest, `i` digits up. */
  lemma {:induction false} AfterContinued(bs: seq<byte>, i: nat, max: nat)
    requires i <= |bs| && i <= max && Continued(bs, i)
    ensures
      var rest := ReadBase128(bs[i..], max - i);
      ReadBase128(bs, max) == if rest.None? then None else Some((Combine(bs, i, rest.value.0), rest.value.1))
  {
    if i == 0 {
      assert bs[0..] == bs;
    } else {
      AfterContinued(bs, i - 1, max);
      hide Continued;
      assert bs[i - 1..][1..] == bs[i..];
    }
  }

  /** The number ends with its `i`-th byte. */
  lemma LastDigit(bs: seq<byte>, i: nat, max: nat)
    requires i < |bs| && i < max && Continued(bs, i) && bs[i] < 128
    ensures ReadBase128(bs, max) == Some((Combine(bs, i, bs[i]), bs[i + 1..]))
  {
    AfterContinued(bs, i, max);
    assert bs[i..][1..] == bs[i + 1..];
  }

  /** The bytes or the permitted width run out before the number ends. */
  lemma NoLastDigit(bs: seq<byte>, i: nat, max: nat)
    requires i <= |bs| && i <= max && Continued(bs, i) && (i == |bs| || i == max)
    ensures ReadBase128(bs, max).None?
  {
    AfterContinued(bs, i, max);
  }

  /** Adding digit `v` less one to a sum that still carries the previous continuation bit, worth digit 1. */
  lemma {:induction false} NextDigit(bs: seq<byte>, i: nat, v: int)
    requires i <= |bs|
    ensures Combine(bs, i, v) == Combine(bs, i, 1) + (v - 1) * Pow(128, i)
  {
    if i == 0 {
    } else {
      var c: int := bs[i - 1];
      NextDigit(bs, i - 1, c - 128 + 128 * v);
      NextDigit(bs, i - 1, c);
      Scale(Pow(128, i - 1), c, v);
    }
  }

  lemma Scale(p: int, c: int, v: int)
    ensures (c - 128 + 128 * v - 1) * p - (c - 1) * p == (v - 1) * (128 * p)
  {
  }

  lemma ModAdd32(a: int, x: int)
    ensures (a % TWO_32 + x) % TWO_32 == (a + x) % TWO_32
  {
  }

  lemma ModAdd64(a: int, x: int)
    ensures (a % TWO_64 + x) % TWO_64 == (a + x) % TWO_64
  {
  }

  /** ReadTag and ReadTagFallback: at most five bytes, arithmetic modulo 2^32. */
  method ReadTagAt(buf: seq<byte>, p: nat, limit: nat) returns (ok: bool, tag: uint32, next: nat)
    requires p <= limit <= |buf|
    ensures ok <==> ReadTag(buf[p..limit]).Some?
    ensures ok ==> p < next <= limit && ReadTag(buf[p..limit]) == Some((tag, buf[next..limit]))
  {
    ghost var bs := buf[p..limit];
    tag, next := 0, p;
    if p == limit { NoLastDigit(bs, 0, 5); return false, 0, p; }
    var res: uint32 := buf[p];
    if res < 128 {
      LastDigit(bs, 0, 5);
      assert bs[1..] == buf[p + 1..limit];
      return true, res, p + 1;
    }
    var i := 1;
    while i < 5
      invariant 1 <= i <= 5 && i <= |bs| && Continued(bs, i)
      invariant res == Combine(bs, i, 1) % TWO_32
    {
      if p + i == limit { NoLastDigit(bs, i, 5); return false, 0, p; }
      var b: int := buf[p + i];
      NextDigit(bs, i, b);
      ModAdd32(Combine(bs, i, 1), (b - 1) * Pow(128, i));
      res := (res + (b - 1) * Pow(128, i)) % TWO_32;
      if b < 128 {
        LastDigit(bs, i, 5);
        assert bs[i + 1..] == buf[p + i + 1..limit];
        return true, res, p + i + 1;
      }
      i := i + 1;
    }
    NoLastDigit(bs, 5, 5);
    return false, 0, p;
  }

  /** VarintParse: the first two bytes in 32-bit arithmetic, the rest in VarintParseSlow64. */
  method ReadVarintAt(buf: seq<byte>, p: nat, limit: nat) returns (ok: bool, value: uint64, next: nat)
    requires p <= limit <= |buf|
    ensures ok <==> ReadVarint(buf[p..limit]).Some?
    ensures ok ==> p < next <= limit && ReadVarint(buf[p..limit]) == Some((value, buf[next..limit]))
  {
    ghost var bs := buf[p..limit];
    value, next := 0, p;
    if p == limit { NoLastDigit(bs, 0, 10); return false, 0, p; }
    var res: uint32 := buf[p];
    if res < 128 {
      LastDigit(bs, 0, 10);
      assert bs[1..] == buf[p + 1..limit];
      return true, res, p + 1;
    }
    if p + 1 == limit { NoLastDigit(bs, 1, 10); return false, 0, p; }
    var b: int := buf[p + 1];
    assert Combine(bs, 1, b) == bs[0] - 128 + 128 * b;
    res := (res + (b - 1) * 128) % TWO_32;
    if b < 128 {
      LastDigit(bs, 1, 10);
      assert bs[2..] == buf[p + 2..limit];
      return true, res, p + 2;
    }
    ok, value, next := ReadVarintSlow(buf, p, limit, res);
  }

  /** VarintParseSlow64: bytes 2 to 9, modulo 2^64; what would not fit in 64 bits is dropped. */
  method ReadVarintSlow(buf: seq<byte>, p: nat, limit: nat, start: uint32) returns (ok: bool, value: uint64, next: nat)
    requires p + 2 <= limit <= |buf| && Continued(buf[p..limit], 2)
    requires start == Combine(buf[p..limit], 2, 1)
    ensures ok <==> ReadVarint(buf[p..limit]).Some?
    ensures ok ==> p < next <= limit && ReadVarint(buf[p..limit]) == Some((value, buf[next..limit]))
  {
    ghost var bs := buf[p..limit];
    value, next := 0, p;
    var res: uint64 := start;
    var i := 2;
    while i < 10
      invariant 2 <= i <= 10 && i <= |bs| && Continued(bs, i)
      invariant res == Combine(bs, i, 1) % TWO_64
    {
      if p + i == limit { NoLastDigit(bs, i, 10); return false, 0, p; }
      var b: int := buf[p + i];
      NextDigit(bs, i, b);
      ModAdd64(Combine(bs, i, 1), (b - 1) * Pow(128, i));
      res := (res + (b - 1) * Pow(128, i)) % TWO_64;
      if b < 128 {
        LastDigit(bs, i, 10);
        assert bs[i + 1..] == buf[p + i + 1..limit];
        return true, res, p + i + 1;
      }
      i := i + 1;
    }
    NoLastDigit(bs, 10, 10);
    return false, 0, p;
  }

  /** ReadSize and ReadSizeFallback: at most five bytes, and the fifth must leave the value below the limit. */
  method ReadSizeAt(buf: seq<byte>, p: nat, limit: nat) returns (ok: bool, size: nat, next: nat)
    requires p <= limit <= |buf|
    ensures ok <==> ReadSize(buf[p..limit]).Some?
    ensures ok ==> p < next <= limit && size <= MAX_LENGTH && ReadSize(buf[p..limit]) == Some((size, buf[next..limit]))
  {
    ghost var bs := buf[p..limit];
    size, next := 0, p;
    if p == limit { NoLastDigit(bs, 0, 5); return false, 0, p; }
    var res: uint32 := buf[p];
    if res < 128 {
      LastDigit(bs, 0, 5);
      assert bs[1..] == buf[p + 1..limit];
      return true, res, p + 1;
    }
    var i := 1;
    while i < 4
      invariant 1 <= i <= 4 && i <= |bs| && Continued(bs, i)
      invariant res == Combine(bs, i, 1) && Pow(128, i) <= res < 2 * Pow(128, i)
    {
      if p + i == limit { NoLastDigit(bs, i, 5); return false, 0, p; }
      var b: int := buf[p + i];
      SmallPowers(i);
      NextDigit(bs, i, b);
      DigitBounds(b, Pow(128, i));
      res := res + (b - 1) * Pow(128, i);
      if b < 128 {
        LastDigit(bs, i, 5);
        assert bs[i + 1..] == buf[p + i + 1..limit];
        return true, res, p + i + 1;
      }
      i := i + 1;
    }
    SmallPowers(4);
    ok, size, next := ReadSizeEnd(buf, p, limit, res);
  }

  /** The fifth byte of a length. */
  method ReadSizeEnd(buf: seq<byte>, p: nat, limit: nat, start: uint32) returns (ok: bool, size: nat, next: nat)
    requires p + 4 <= limit <= |buf| && Continued(buf[p..limit], 4)
    requires start == Combine(buf[p..limit], 4, 1) && 0x1000_0000 <= start < 0x2000_0000
    ensures ok <==> ReadSize(buf[p..limit]).Some?
    ensures ok ==> p < next <= limit && size <= MAX_LENGTH && ReadSize(buf[p..limit]) == Some((size, buf[next..limit]))
  {
    ghost var bs := buf[p..limit];
    if p + 4 == limit { NoLastDigit(bs, 4, 5); return false, 0, p; }
    var b: int := buf[p + 4];
    SmallPowers(4);
    NextDigit(bs, 4, b);
    if b >= 8 {
      if b >= 128 {
        NoLastDigit(bs, 5, 5);
      } else {
        LastDigit(bs, 4, 5);
        assert Combine(bs, 4, b) >= 8 * 0x1000_0000;
      }
      return false, 0, p;
    }
    LastDigit(bs, 4, 5);
    var res: uint32 := start + (b - 1) * 0x1000_0000;
    assert bs[5..] == buf[p + 5..limit];
    if res > MAX_LENGTH { return false, 0, p; }
    return true, res, p + 5;
  }

  lemma DigitBounds(b: int, p: int)
    requires 0 <= b < 256 && 0 <= p
    ensures -p <= (b - 1) * p <= 254 * p
    ensures b >= 128 ==> (b - 1) * p >= 127 * p
  {
  }

  lemma SmallPowers(i: nat)
    requires 1 <= i <= 4
    ensures Pow(128, i) == if i == 1 then 128 else if i == 2 then 0x4000 else if i == 3 then 0x20_0000 else 0x1000_0000
  {
    assert Pow(128, 3) == 128 * Pow(128, 2);
    assert Pow(128, 4) == 128 * Pow(128, 3);
  }

  /** UnalignedLoad of four or eight little-endian bytes. */
  method ReadFixed32At(buf: seq<byte>, p: nat, limit: nat) returns (ok: bool, bits: uint32, next: nat)
    requires p <= limit <= |buf|
    ensures ok <==> ReadFixed32(buf[p..limit]).Some?
    ensures ok ==> p < next <= limit && ReadFixed32(buf[p..limit]) == Some((bits, buf[next..limit]))
  {
    if limit - p < 4 { return false, 0, p; }
    var word := buf[p..p + 4];
    FromLittleEndianBound(word);
    FixedWidths();
    assert word == buf[p..limit][..4] && buf[p..limit][4..] == buf[p + 4..limit];
    return true, FromLittleEndian(word), p + 4;
  }

  method ReadFixed64At(buf: seq<byte>, p: nat, limit: nat) returns (ok: bool, v: uint64, next: nat)
    requires p <= limit <= |buf|
    ensures ok <==> ReadFixed64(buf[p..limit]).Some?
    ensures ok ==> p < next <= limit && ReadFixed64(buf[p..limit]) == Some((v, buf[next..limit]))
  {
    if limit - p < 8 { return false, 0, p; }
    var word := buf[p..p + 8];
    FromLittleEndianBound(word);
    FixedWidths();
    assert word == buf[p..limit][..8] && buf[p..limit][8..] == buf[p + 8..limit];
    return true, FromLittleEndian(word), p + 8;
  }

  /** ReadSize, then that many bytes. */
  method ReadBytesAt(buf: seq<byte>, p: nat, limit: nat) returns (ok: bool, data: seq<byte>, next: nat)
    requires p <= limit <= |buf|
    ensures ok <==> ReadDelimited(buf[p..limit]).Some?
    ensures ok ==> p < next <= limit && ReadDelimited(buf[p..limit]) == Some((data, buf[next..limit]))
    ensures ok ==> |data| <= next - p && data == buf[next - |data|..next]
  {
    var good, size, start := ReadSizeAt(buf, p, limit);
    if !good || size > limit - start { return false, [], p; }
    data, next := buf[start..start + size], start + size;
    assert buf[start..limit][..size] == data && buf[start..limit][size..] == buf[next..limit];
    return true, data, next;
  }

  /** UnknownFieldParse: the payload after `tag`, read by its wire type and kept as a record. */
  method ReadUnknownAt(tag: uint32, buf: seq<byte>, p: nat, limit: nat, depth: nat)
    returns (ok: bool, r: Record, next: nat)
    requires p <= limit <= |buf|
    ensures ok <==> ReadPayload(tag, buf[p..limit], depth).Some?
    ensures ok ==> p <= next <= limit && ReadPayload(tag, buf[p..limit], depth) == Some((r, buf[next..limit]))
    decreases depth, limit - p, 0
  {
    var num := tag / 8;
    r := Varint(1, 0);
    if num == 0 { return false, r, p; }
    match tag % 8 {
      case 0 =>
        var good, v, q := ReadVarintAt(buf, p, limit);
        return good, Varint(num, v), q;
      case 1 =>
        var good, v, q := ReadFixed64At(buf, p, limit);
        return good, Fixed64(num, v), q;
      case 2 =>
        var good, data, q := ReadBytesAt(buf, p, limit);
        return good, Bytes(num, data), q;
      case 3 =>
        if depth == 0 { return false, r, p; }
        var good, fields, q := ReadGroupAt(num, buf, p, limit, depth - 1);
        return good, Group(num, fields), q;
      case 5 =>
        var good, bits, q := ReadFixed32At(buf, p, limit);
        return good, Fixed32(num, bits), q;
      case _ =>
        return false, r, p;
    }
  }

  /** ParseGroup with the loop of WireFormatParser: records until a tag that ends a group, which must be its own. */
  method ReadGroupAt(num: FieldNumber, buf: seq<byte>, p: nat, limit: nat, depth: nat)
    returns (ok: bool, fields: seq<Record>, next: nat)
    requires p <= limit <= |buf|
    ensures ok <==> ReadGroup(buf[p..limit], num, depth).Some?
    ensures ok ==> p < next <= limit && ReadGroup(buf[p..limit], num, depth) == Some((fields, buf[next..limit]))
    decreases depth, limit - p, 1
  {
    fields, next := [], p;
    ghost var all := ReadGroup(buf[p..limit], num, depth);
    assert all.Some? ==> fields + all.value.0 == all.value.0;
    while true
      invariant p <= next <= limit
      invariant ReadGroup(buf[next..limit], num, depth).Some? <==> all.Some?
      invariant all.Some? ==> all.value == Prepend(fields, ReadGroup(buf[next..limit], num, depth).value)
      decreases limit - next
    {
      var good, tag, q := ReadTagAt(buf, next, limit);
      if !good { return false, fields, p; }
      if tag == 0 || tag % 8 == 4 {
        if tag == Tag(num, 4) {
          assert fields + [] == fields;
          return true, fields, q;
        }
        assert ReadPayload(tag, buf[q..limit], depth).None?;
        assert ReadRecord(buf[next..limit], depth).None?;
        return false, fields, p;
      }
      GroupStep(buf[next..limit], num, depth);
      var r;
      good, r, q := ReadUnknownAt(tag, buf, q, limit, depth);
      if !good { return false, fields, p; }
      if all.Some? {
        AppendOne(fields, r, ReadGroup(buf[q..limit], num, depth).value.0);
      }
      fields, next := fields + [r], q;
    }
  }

  ghost function Prepend(fields: seq<Record>, rest: (seq<Record>, seq<byte>)): (seq<Record>, seq<byte>)
  {
    (fields + rest.0, rest.1)
  }

  lemma AppendOne<T>(a: seq<T>, x: T, b: seq<T>)
    ensures a + ([x] + b) == (a + [x]) + b
  {
  }

  /** ReadPackedVarint: a length, then varints up to exactly that limit, each added to `list`. */
  method ReadPackedAt(list: seq<uint64>, buf: seq<byte>, p: nat, limit: nat)
    returns (ok: bool, r: seq<uint64>, next: nat)
    requires p <= limit <= |buf|
    ensures var d := ReadDelimited(buf[p..limit]);
      if d.None? then !ok
      else (ok <==> ReadPacked(list, d.value.0).Some?) &&
           (ok ==> p < next <= limit && ReadPacked(list, d.value.0).value == r && d.value.1 == buf[next..limit])
  {
    r := list;
    var good, size, q := ReadSizeAt(buf, p, limit);
    if !good || size > limit - q { return false, list, p; }
    var end := q + size;
    ghost var data := buf[q..end];
    assert buf[q..limit][..size] == data && buf[q..limit][size..] == buf[end..limit];
    while q < end
      invariant p < q <= end
      invariant ReadPacked(r, buf[q..end]) == ReadPacked(list, data)
    {
      var more, v, q' := ReadVarintAt(buf, q, end);
      if !more { return false, list, p; }
      r, q := r + [v], q';
    }
    return true, r, end;
  }
}
