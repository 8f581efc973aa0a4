/** Result types shared by the components. `Err` stands for a thrown exception. */
module Wrappers {

  datatype Option<+T> = None | Some(value: T)

  datatype Result<+T, +E> = Ok(value: T) | Err(error: E)
}

/** JavaScript's Set and Map keep the order in which elements come. */
module InsertionOrder {

  /** Insertion into a JavaScript Set, kept in insertion order. */
  function SetAdd<T(==)>(s: seq<T>, x: T): seq<T> { if x in s then s else s + [x] }

  /** `Array.from(new Set(xs))`: each value at its first occurrence. */
  function Distinct<T(==)>(xs: seq<T>): seq<T> {
    if xs == [] then [] else SetAdd(Distinct(xs[..|xs| - 1]), xs[|xs| - 1])
  }

  lemma {:induction false} DistinctMembers<T>(xs: seq<T>, x: T)
    ensures x in Distinct(xs) <==> x in xs
    decreases |xs|
  {
    if xs != [] {
      DistinctMembers(xs[..|xs| - 1], x);
      assert xs == xs[..|xs| - 1] + [xs[|xs| - 1]];
    }
  }

  lemma DistinctAppend<T>(xs: seq<T>, x: T)
    ensures Distinct(xs + [x]) == SetAdd(Distinct(xs), x)
  {}

  /** No value occurs twice, and values come in the order of their first occurrence: longer lists only add behind. */
  lemma {:induction false} DistinctInOrder<T>(xs: seq<T>, k: nat)
    requires k <= |xs|
    ensures forall i, j | 0 <= i < j < |Distinct(xs)| :: Distinct(xs)[i] != Distinct(xs)[j]
    ensures Distinct(xs[..k]) <= Distinct(xs)
    decreases |xs|
  {
    if k == |xs| {
      assert xs[..k] == xs;
    }
    if xs != [] {
      var init := xs[..|xs| - 1];
      if k < |xs| {
        assert init[..k] == xs[..k];
        DistinctInOrder(init, k);
      } else {
        DistinctInOrder(init, 0);
      }
    }
  }

  lemma {:induction false} DistinctIdempotent<T>(xs: seq<T>)
    ensures Distinct(Distinct(xs)) == Distinct(xs)
    decreases |xs|
  {
    if xs != [] {
      var rest, x := xs[..|xs| - 1], xs[|xs| - 1];
      DistinctIdempotent(rest);
      if x !in Distinct(rest) {
        DistinctAppend(Distinct(rest), x);
      }
    }
  }
}

/** Byte strings as JavaScript's Uint8Array and DataView see them. */
module ByteStrings {

  type u8 = x: int | 0 <= x < 256

  type Bytes = seq<u8>

  const U16_LIMIT := 0x1_0000
  const U32_LIMIT := 0x1_0000_0000

  /** `segment` occupies `buf` from `pos` on. */
  ghost predicate At(buf: Bytes, pos: nat, segment: Bytes) {
    pos + |segment| <= |buf| && buf[pos..pos + |segment|] == segment
  }

  lemma AtSplit(buf: Bytes, pos: nat, a: Bytes, b: Bytes)
    requires At(buf, pos, a + b)
    ensures At(buf, pos, a) && At(buf, pos + |a|, b)
  {
    var s := buf[pos..pos + |a + b|];
    assert s[..|a|] == a && s[|a|..] == b;
    assert s[..|a|] == buf[pos..pos + |a|];
    assert s[|a|..] == buf[pos + |a|..pos + |a| + |b|];
  }

  lemma AtByte(buf: Bytes, pos: nat, b: u8)
    requires At(buf, pos, [b])
    ensures pos < |buf| && buf[pos] == b
  {
    assert buf[pos..pos + 1][0] == buf[pos];
  }

  lemma ConcatAssociative(a: Bytes, b: Bytes, c: Bytes)
    ensures a + b + c == a + (b + c)
  {}

  function Join(parts: seq<Bytes>): Bytes {
    if parts == [] then [] else parts[0] + Join(parts[1..])
  }

  /** Writing the `i`-th part keeps what is written plus what is left the same. */
  lemma JoinStep(parts: seq<Bytes>, i: nat, before: Bytes, after: Bytes)
    requires i < |parts| && after == before + parts[i]
    ensures after + Join(parts[i + 1..]) == before + Join(parts[i..])
    ensures i + 1 == |parts| ==> after == before + Join(parts[i..])
  {}

  /** The index that `slice` uses for the bound `i`: negative bounds count from the end, all are clamped. */
  function SliceBound(length: nat, i: int): (r: nat)
    ensures r <= length
    ensures 0 <= i <= length ==> r == i
  {
    if i < 0 then (if length + i < 0 then 0 else length + i)
    else if i > length then length else i
  }

  /** Uint8Array.prototype.slice. */
  function Slice(s: Bytes, start: int, end: int): (r: Bytes)
    ensures 0 <= start <= end <= |s| ==> r == s[start..end]
  {
    var a, b := SliceBound(|s|, start), SliceBound(|s|, end);
    if a < b then s[a..b] else []
  }

  /** Negative bounds count from the end, and do not reach beyond the beginning. */
  lemma SliceFromEnd(s: Bytes, k: int)
    requires k > 0
    ensures Slice(s, -k, |s|) == if k <= |s| then s[|s| - k..] else s
    ensures Slice(s, 0, -k) == if k <= |s| then s[..|s| - k] else []
  {}

  /** The two bytes DataView.setUint16 stores, big endian; larger values wrap. */
  function U16Bytes(n: nat): (r: Bytes)
    ensures |r| == 2
  {
    [n / 256 % 256, n % 256]
  }

  /** DataView.getUint16, big endian. */
  function U16At(s: Bytes, i: nat): (r: nat)
    requires i + 1 < |s|
    ensures r < U16_LIMIT
  {
    var hi: int, lo: int := s[i], s[i + 1];
    256 * hi + lo
  }

  /** The two lowest base-256 digits make up the number modulo 2^16. */
  lemma TwoDigits(n: nat, upper: nat, low: nat, rest: nat, high: nat)
    requires n == 256 * upper + low && upper == 256 * rest + high && low < 256 && high < 256
    ensures n % U16_LIMIT == 256 * high + low
  {
    assert n == U16_LIMIT * rest + (256 * high + low);
  }

  lemma U16BigEndian(n: nat)
    ensures 256 * (U16Bytes(n)[0] as int) + U16Bytes(n)[1] as int == n % U16_LIMIT
  {
    TwoDigits(n, n / 256, n % 256, n / 256 / 256, n / 256 % 256);
  }

  lemma U16RoundTrip(s: Bytes, i: nat, n: nat)
    requires At(s, i, U16Bytes(n))
    ensures U16At(s, i) == n % U16_LIMIT
  {
    var segment := s[i..i + 2];
    assert segment == U16Bytes(n) && s[i] == segment[0] && s[i + 1] == segment[1];
    TwoDigits(n, n / 256, n % 256, n / 256 / 256, n / 256 % 256);
  }
}
