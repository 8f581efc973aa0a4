/**
 * The reader and writer that protons generates code against, as the Protocol Buffers encoding specification
 * describes them (sections "Base 128 Varints", "Message Structure" and "Length-Delimited Records").
 */
module Wire {
  import opened ByteStrings
  import opened Wrappers

  const U64_LIMIT := 0x1_0000_0000_0000_0000

  type u32 = x: int | 0 <= x < 0x1_0000_0000
  type i64 = x: int | -0x8000_0000_0000_0000 <= x < 0x8000_0000_0000_0000

  /** A varint holds at most ten groups of seven bits. */
  const VARINT_BYTES: nat := 10

  /** Outcome of reading at a position: `Failed` is the thrown RangeError, `next` the position after the value. */
  datatype Read<+T> = Failed | Got(value: T, next: nat)

  function Varint(n: nat): (bs: Bytes)
    ensures |bs| >= 1
  {
    if n < 128 then [n] else [n % 128 + 128] + Varint(n / 128)
  }

  function ReadVarint(buf: Bytes, pos: nat, budget: nat): (r: Read<nat>)
    ensures r.Got? ==> pos < r.next <= |buf|
    decreases budget
  {
    if budget == 0 || pos >= |buf| then Failed
    else if buf[pos] < 128 then Got(buf[pos], pos + 1)
    else
      match ReadVarint(buf, pos + 1, budget - 1)
      case Failed => Failed
      case Got(v, next) => Got(buf[pos] - 128 + 128 * v, next)
  }

  function ReadUint32(buf: Bytes, pos: nat): (r: Read<u32>)
    ensures r.Got? ==> pos < r.next <= |buf|
  {
    match ReadVarint(buf, pos, VARINT_BYTES)
    case Failed => Failed
    case Got(v, next) => Got(v % U32_LIMIT, next)
  }

  function ReadBytes(buf: Bytes, pos: nat): (r: Read<Bytes>)
    ensures r.Got? ==> pos < r.next <= |buf|
  {
    match ReadUint32(buf, pos)
    case Failed => Failed
    case Got(length, p) => if p + length > |buf| then Failed else Got(buf[p..p + length], p + length)
  }

  /** ZigZag maps signed integers to naturals so that small magnitudes stay short. */
  function ZigZag(v: int): (n: nat) { if v >= 0 then 2 * v else -2 * v - 1 }

  function UnZigZag(n: nat): (v: int) { if n % 2 == 0 then n / 2 else -(n / 2) - 1 }

  function ReadSint64(buf: Bytes, pos: nat): (r: Read<i64>)
    ensures r.Got? ==> pos < r.next <= |buf|
  {
    match ReadVarint(buf, pos, VARINT_BYTES)
    case Failed => Failed
    case Got(v, next) => Got(UnZigZag(v % U64_LIMIT), next)
  }

  function ReadBool(buf: Bytes, pos: nat): (r: Read<bool>)
    ensures r.Got? ==> pos < r.next <= |buf|
  {
    match ReadUint32(buf, pos)
    case Failed => Failed
    case Got(v, next) => Got(v != 0, next)
  }

  function SkipFixed(buf: Bytes, pos: nat, width: nat): (r: Read<()>)
    requires width > 0
    ensures r.Got? ==> pos < r.next <= |buf|
  {
    if pos + width > |buf| then Failed else Got((), pos + width)
  }

  /** Skips the value of a field of the given wire type. */
  function SkipType(buf: Bytes, pos: nat, wireType: nat): (r: Read<()>)
    requires pos <= |buf|
    ensures r.Got? ==> pos < r.next <= |buf|
    decreases |buf| - pos, 1
  {
    match wireType
    case 0 => (match ReadVarint(buf, pos, VARINT_BYTES) case Failed => Failed case Got(_, p) => Got((), p))
    case 1 => SkipFixed(buf, pos, 8)
    case 2 => (match ReadBytes(buf, pos) case Failed => Failed case Got(_, p) => Got((), p))
    case 3 => SkipGroup(buf, pos)
    case 5 => SkipFixed(buf, pos, 4)
    case _ => Failed
  }

  /** Skips fields up to and including the end-group tag. */
  function SkipGroup(buf: Bytes, pos: nat): (r: Read<()>)
    requires pos <= |buf|
    ensures r.Got? ==> pos < r.next <= |buf|
    decreases |buf| - pos, 0
  {
    match ReadUint32(buf, pos)
    case Failed => Failed
    case Got(tag, p) =>
      if tag % 8 == 4 then Got((), p)
      else
        match SkipType(buf, p, tag % 8)
        case Failed => Failed
        case Got(_, q) => SkipGroup(buf, q)
  }

  /** The number a list of bytes stands for in groups of seven bits, least significant first. */
  function GroupsValue(bs: Bytes): nat {
    if bs == [] then 0 else (bs[0] as nat) % 128 + 128 * GroupsValue(bs[1..])
  }

  /** A varint is its number in groups of seven bits; the top bit is set on all bytes but the last. */
  lemma {:induction false} VarintIsBase128(n: nat)
    ensures GroupsValue(Varint(n)) == n
    ensures forall i | 0 <= i < |Varint(n)| :: Varint(n)[i] >= 128 <==> i < |Varint(n)| - 1
    ensures |Varint(n)| > 1 ==> Varint(n)[|Varint(n)| - 1] != 0
  {
    if n < 128 {
      assert [n][1..] == [];
    } else {
      VarintIsBase128(n / 128);
      var rest := Varint(n / 128);
      assert Varint(n) == [n % 128 + 128] + rest && Varint(n)[1..] == rest;
      assert forall i | 0 < i < |Varint(n)| :: Varint(n)[i] == rest[i - 1];
    }
  }

  lemma {:induction false} TooManyGroups(buf: Bytes, pos: nat, budget: nat)
    requires pos + budget <= |buf| && forall i | pos <= i < pos + budget :: buf[i] >= 128
    ensures ReadVarint(buf, pos, budget).Failed?
    decreases budget
  {
    if budget > 0 {
      TooManyGroups(buf, pos + 1, budget - 1);
    }
  }

  /** Ten bytes with the top bit set are an error. */
  lemma TenGroupsAtMost(buf: Bytes, pos: nat)
    requires pos + 10 <= |buf| && forall i | pos <= i < pos + 10 :: buf[i] >= 128
    ensures ReadUint32(buf, pos).Failed? && ReadSint64(buf, pos).Failed? && SkipType(buf, pos, 0).Failed?
  {
    hide ReadVarint;
    TooManyGroups(buf, pos, 10);
  }

  /** Varints are self-delimiting and inverted by the reader. */
  lemma {:induction false} VarintReadBack(buf: Bytes, pos: nat, n: nat, budget: nat)
    requires At(buf, pos, Varint(n)) && |Varint(n)| <= budget
    ensures ReadVarint(buf, pos, budget) == Got(n, pos + |Varint(n)|)
    decreases n
  {
    if n < 128 {
      AtByte(buf, pos, n);
    } else {
      AtSplit(buf, pos, [n % 128 + 128], Varint(n / 128));
      AtByte(buf, pos, n % 128 + 128);
      VarintReadBack(buf, pos + 1, n / 128, budget - 1);
    }
  }

  function Pow128(k: nat): nat { if k == 0 then 1 else 128 * Pow128(k - 1) }

  lemma {:induction false} VarintLength(n: nat, k: nat)
    requires 1 <= k && n < Pow128(k)
    ensures |Varint(n)| <= k
  {
    if k > 1 && n >= 128 {
      VarintLength(n / 128, k - 1);
    } else if k == 1 {
      assert Pow128(1) == 128 * Pow128(0);
    }
  }

  /** Ten bytes are enough for 64 bits. */
  lemma Varint64Length(n: nat)
    requires n < U64_LIMIT
    ensures |Varint(n)| <= VARINT_BYTES
  {
    assert Pow128(5) == 0x8_0000_0000 by {
      assert Pow128(2) == 0x4000 && Pow128(3) == 0x20_0000;
    }
    assert Pow128(7) == 128 * 128 * Pow128(5);
    assert Pow128(9) == 128 * 128 * Pow128(7);
    VarintLength(n, VARINT_BYTES);
  }

  lemma Uint32ReadBack(buf: Bytes, pos: nat, n: u32)
    requires At(buf, pos, Varint(n))
    ensures ReadUint32(buf, pos) == Got(n, pos + |Varint(n)|)
  {
    hide Varint, ReadVarint;
    Varint64Length(n);
    VarintReadBack(buf, pos, n, VARINT_BYTES);
  }

  lemma {:induction false} BytesReadBack(buf: Bytes, pos: nat, v: Bytes)
    requires |v| < U32_LIMIT && At(buf, pos, Varint(|v|) + v)
    ensures ReadBytes(buf, pos) == Got(v, pos + |Varint(|v|)| + |v|)
  {
    hide Varint, ReadUint32;
    AtSplit(buf, pos, Varint(|v|), v);
    Uint32ReadBack(buf, pos, |v|);
  }

  lemma ZigZagInverse(v: i64)
    ensures ZigZag(v) < U64_LIMIT && UnZigZag(ZigZag(v) % U64_LIMIT) == v
  {}

  /** Numbers are numbered by magnitude, a negative one before the positive one: 0, -1, 1, -2, 2, ... */
  lemma ZigZagByMagnitude(v: int, w: int)
    ensures ZigZag(0) == 0 && ZigZag(v) >= 0
    ensures (if v < 0 then -v else v) < (if w < 0 then -w else w) ==> ZigZag(v) < ZigZag(w)
    ensures v > 0 ==> ZigZag(v) == ZigZag(-v) + 1
    ensures v >= 0 ==> ZigZag(-v - 1) == ZigZag(v) + 1
  {}

  /** A length that reaches beyond the buffer is an error. */
  lemma BytesNeedAll(buf: Bytes, pos: nat, n: nat)
    requires n < U32_LIMIT && At(buf, pos, Varint(n)) && pos + |Varint(n)| + n > |buf|
    ensures ReadBytes(buf, pos).Failed?
  {
    hide Varint, ReadVarint;
    Uint32ReadBack(buf, pos, n);
  }

  lemma Sint64ReadBack(buf: Bytes, pos: nat, v: i64)
    requires At(buf, pos, Varint(ZigZag(v)))
    ensures ReadSint64(buf, pos) == Got(v, pos + |Varint(ZigZag(v))|)
  {
    hide ZigZag, UnZigZag, Varint, ReadVarint;
    ZigZagInverse(v);
    Varint64Length(ZigZag(v));
    VarintReadBack(buf, pos, ZigZag(v), VARINT_BYTES);
  }

  lemma BoolReadBack(buf: Bytes, pos: nat, b: bool)
    requires At(buf, pos, Varint(if b then 1 else 0))
    ensures ReadBool(buf, pos) == Got(b, pos + 1)
  {}

  /** The value `r` reads, weighted by `scale` and added to the groups read before it. */
  ghost function Scaled(r: Read<nat>, value: nat, scale: nat): Read<nat> {
    match r
    case Failed => Failed
    case Got(v, next) => Got(value + scale * v, next)
  }

  lemma ScaledStep(buf: Bytes, pos: nat, budget: nat, value: nat, scale: nat)
    requires budget > 0 && pos < |buf| && buf[pos] >= 128
    ensures scale * (buf[pos] - 128) >= 0
    ensures Scaled(ReadVarint(buf, pos, budget), value, scale)
         == Scaled(ReadVarint(buf, pos + 1, budget - 1), value + scale * (buf[pos] - 128), scale * 128)
  {
    var d: nat := buf[pos] - 128;
    match ReadVarint(buf, pos + 1, budget - 1)
    case Failed =>
    case Got(v, _) => assert scale * (d + 128 * v) == scale * d + scale * 128 * v;
  }

  lemma ScaledAtStart(r: Read<nat>)
    ensures Scaled(r, 0, 1) == r
  {}

  lemma ScaledEnd(buf: Bytes, pos: nat, budget: nat, value: nat, scale: nat)
    requires budget > 0 && pos < |buf| && buf[pos] < 128
    ensures scale * buf[pos] >= 0
    ensures Scaled(ReadVarint(buf, pos, budget), value, scale) == Got(value + scale * buf[pos], pos + 1)
  {}

  lemma NothingLeft(buf: Bytes, pos: nat, budget: nat, value: nat, scale: nat)
    requires budget == 0 || pos >= |buf|
    ensures Scaled(ReadVarint(buf, pos, budget), value, scale) == Failed
  {}

  /** The cursor protons reads from. */
  class Reader {
    const buf: Bytes
    var pos: nat

    predicate Valid()
      reads this
    {
      pos <= |buf|
    }

    constructor (buf: Bytes)
      ensures this.buf == buf && pos == 0 && Valid()
    {
      this.buf := buf;
      pos := 0;
    }

    /** What a read from `start` that was specified as `spec` leaves behind. */
    ghost predicate Advanced<T>(spec: Read<T>, r: Option<T>)
      reads this
    {
      match spec
      case Failed => r.None?
      case Got(v, next) => r == Some(v) && pos == next
    }

    method ReadRawVarint() returns (r: Option<nat>)
      requires Valid()
      modifies this
      ensures Valid() && Advanced(ReadVarint(buf, old(pos), VARINT_BYTES), r)
    {
      hide ReadVarint;
      var value: nat, scale: nat, budget: nat := 0, 1, VARINT_BYTES;
      ScaledAtStart(ReadVarint(buf, pos, VARINT_BYTES));
      while budget > 0 && pos < |buf|
        invariant Valid() && scale > 0
        invariant Scaled(ReadVarint(buf, pos, budget), value, scale) == ReadVarint(buf, old(pos), VARINT_BYTES)
        decreases budget
      {
        var b: nat := buf[pos];
        if b < 128 {
          ScaledEnd(buf, pos, budget, value, scale);
          pos := pos + 1;
          return Some(value + scale * b);
        }
        ScaledStep(buf, pos, budget, value, scale);
        value, scale, budget, pos := value + scale * (b - 128), scale * 128, budget - 1, pos + 1;
      }
      NothingLeft(buf, pos, budget, value, scale);
      r := None;
    }

    method Uint32() returns (r: Option<u32>)
      requires Valid()
      modifies this
      ensures Valid() && Advanced(ReadUint32(buf, old(pos)), r)
    {
      var v := ReadRawVarint();
      r := if v.Some? then Some(v.value % U32_LIMIT) else None;
    }

    method Sint64() returns (r: Option<i64>)
      requires Valid()
      modifies this
      ensures Valid() && Advanced(ReadSint64(buf, old(pos)), r)
    {
      var v := ReadRawVarint();
      r := if v.Some? then Some(UnZigZag(v.value % U64_LIMIT)) else None;
    }

    method Bool() returns (r: Option<bool>)
      requires Valid()
      modifies this
      ensures Valid() && Advanced(ReadBool(buf, old(pos)), r)
    {
      var v := Uint32();
      r := if v.Some? then Some(v.value != 0) else None;
    }

    method TakeBytes() returns (r: Option<Bytes>)
      requires Valid()
      modifies this
      ensures Valid() && Advanced(ReadBytes(buf, old(pos)), r)
    {
      var length := Uint32();
      if length.None? || pos + length.value > |buf| {
        return None;
      }
      r := Some(buf[pos..pos + length.value]);
      pos := pos + length.value;
    }

    static ghost predicate SameOutcome(a: Read<()>, b: Read<()>) {
      a.Got? == b.Got? && (a.Got? ==> a.next == b.next)
    }

    method SkipWidth(width: nat) returns (r: Option<()>)
      requires Valid() && width > 0
      modifies this
      ensures Valid() && Advanced(SkipFixed(buf, old(pos), width), r)
    {
      if pos + width > |buf| {
        return None;
      }
      pos := pos + width;
      r := Some(());
    }

    method Skip(wireType: nat) returns (r: Option<()>)
      requires Valid()
      modifies this
      ensures Valid() && Advanced(SkipType(buf, old(pos), wireType), r)
      decreases |buf| - pos, 1
    {
      match wireType {
        case 0 =>
          var v := ReadRawVarint();
          r := if v.Some? then Some(()) else None;
        case 1 => r := SkipWidth(8);
        case 2 =>
          var v := TakeBytes();
          r := if v.Some? then Some(()) else None;
        case 3 => r := SkipFields();
        case 5 => r := SkipWidth(4);
        case _ => r := None;
      }
    }

    method SkipFields() returns (r: Option<()>)
      requires Valid()
      modifies this
      ensures Valid() && Advanced(SkipGroup(buf, old(pos)), r)
      decreases |buf| - pos, 0
    {
      ghost var start := pos;
      while true
        invariant Valid() && start <= pos
        invariant SameOutcome(SkipGroup(buf, pos), SkipGroup(buf, start))
        decreases |buf| - pos
      {
        var tag := Uint32();
        if tag.None? {
          return None;
        }
        if tag.value % 8 == 4 {
          assert SkipGroup(buf, start).value == ();
          return Some(());
        }
        var skipped := Skip(tag.value % 8);
        if skipped.None? {
          return None;
        }
      }
    }
  }

  /** The output protons appends to; `Fork` opens a length-delimited record and `Ldelim` closes it. */
  class Writer {
    var out: Bytes
    var forks: seq<Bytes>

    constructor ()
      ensures out == [] && forks == []
    {
      out, forks := [], [];
    }

    method Uint(n: nat)
      modifies this`out
      ensures out == old(out) + Varint(n)
    {
      var rest := n;
      while rest > 127
        invariant out + Varint(rest) == old(out) + Varint(n)
      {
        assert Varint(rest) == [rest % 128 + 128] + Varint(rest / 128);
        out := out + [rest % 128 + 128];
        rest := rest / 128;
      }
      out := out + [rest];
    }

    method Put(v: Bytes)
      modifies this`out
      ensures out == old(out) + Varint(|v|) + v
    {
      Uint(|v|);
      out := out + v;
    }

    method Fork()
      modifies this
      ensures out == [] && forks == [old(out)] + old(forks)
    {
      out, forks := [], [out] + forks;
    }

    method Ldelim()
      requires forks != []
      modifies this
      ensures out == old(forks[0]) + Varint(|old(out)|) + old(out) && forks == old(forks)[1..]
    {
      var record := out;
      out, forks := forks[0], forks[1..];
      Put(record);
    }
  }
}
