/** What decoding makes of an encoded shard record, for every record. */
module ShardRoundTrip {
  import opened Bits
  import opened ByteStrings
  import opened ShardCodec
  import opened Wrappers

  ghost predicate AllBelow(shards: seq<nat>, bound: nat) {
    forall i | 0 <= i < |shards| :: shards[i] < bound
  }

  ghost predicate Increasing(shards: seq<nat>) {
    forall i, j | 0 <= i < j < |shards| :: shards[i] < shards[j]
  }

  function Wrapped(shards: seq<nat>): seq<nat> {
    seq(|shards|, i requires 0 <= i < |shards| => shards[i] % U16_LIMIT)
  }

  // ---- Index lists ----

  lemma {:induction false} IndicesReadBack(buf: Bytes, offset: nat, shards: seq<nat>)
    requires At(buf, offset, IndexBytes(shards))
    ensures IndicesFrom(buf, offset, |shards|) == Some(Wrapped(shards))
    decreases |shards|
  {
    if shards != [] {
      AtSplit(buf, offset, U16Bytes(shards[0]), IndexBytes(shards[1..]));
      U16RoundTrip(buf, offset, shards[0]);
      IndicesReadBack(buf, offset + 2, shards[1..]);
      assert Wrapped(shards) == [shards[0] % U16_LIMIT] + Wrapped(shards[1..]);
    } else {
      assert Wrapped(shards) == [];
    }
  }

  lemma IndexListDecodes(info: ShardInfo)
    requires |info.shards| < RSV_THRESHOLD
    ensures var bytes := Encode(info).value;
            |bytes| % 2 == 1 && Decode(bytes) == Ok(ShardInfo(info.clusterId % U16_LIMIT, Wrapped(info.shards)))
  {
    var head, tail := U16Bytes(info.clusterId), IndexBytes(info.shards);
    var bytes := head + [|info.shards|] + tail;
    assert bytes[0..2] == head && bytes[2] == |info.shards| && bytes[3..3 + |tail|] == tail;
    U16RoundTrip(bytes, 0, info.clusterId);
    IndicesReadBack(bytes, 3, info.shards);
  }

  lemma {:induction false} IndicesNeedBytes(bytes: Bytes, offset: nat, n: nat)
    ensures IndicesFrom(bytes, offset, n).Some? <==> n == 0 || offset + 2 * n <= |bytes|
    decreases n
  {
    if n > 0 {
      IndicesNeedBytes(bytes, offset + 2, n - 1);
    }
  }

  /** Decoding fails exactly on fewer than three bytes and on index lists shorter than their count announces. */
  lemma DecodeFailsExactly(bytes: Bytes)
    ensures Decode(bytes).Err? <==>
              |bytes| < 3 || (|bytes| != RSV_LENGTH && |bytes| < 3 + 2 * (bytes[2] as nat))
  {
    if |bytes| >= 3 {
      IndicesNeedBytes(bytes, 3, bytes[2]);
    }
  }

  // ---- Bit vectors ----

  lemma SameBit(i: nat, s: nat)
    ensures i / 8 == s / 8 && 7 - i % 8 == 7 - s % 8 <==> i == s
  {}

  lemma {:induction false} PutBitsSets(buf: Bytes, shards: seq<nat>)
    requires |buf| == RSV_LENGTH
    ensures PutBits(buf, shards).Some? <==> AllBelow(shards, RSV_BITS)
    ensures PutBits(buf, shards).Some? ==>
              var r := PutBits(buf, shards).value;
              && r[..2] == buf[..2]
              && forall i: nat | i < RSV_BITS :: ShardBit(r, i) <==> ShardBit(buf, i) || i in shards
    decreases |shards|
  {
    if shards != [] {
      var s, rest := shards[0], shards[1..];
      assert shards == [s] + rest;
      if s < RSV_BITS {
        var k := s / 8 + 2;
        var next := buf[k := WithBit(buf[k], 7 - s % 8)];
        forall i: nat | i < RSV_BITS
          ensures ShardBit(next, i) <==> ShardBit(buf, i) || i == s
        {
          SameBit(i, s);
        }
        PutBitsSets(next, rest);
        assert AllBelow(rest, RSV_BITS) <==> AllBelow(shards, RSV_BITS);
      } else {
        assert !AllBelow(shards, RSV_BITS);
      }
    }
  }

  lemma ZeroBits(start: Bytes, clusterId: nat)
    requires start == U16Bytes(clusterId) + Zeros(RSV_LENGTH - 2)
    ensures forall i: nat | i < RSV_BITS :: !ShardBit(start, i)
  {}

  lemma {:induction false} BitsAreMembers(bytes: Bytes, i: nat, s: nat)
    requires |bytes| == RSV_LENGTH && i <= RSV_BITS
    ensures s in BitsFrom(bytes, i) <==> i <= s < RSV_BITS && ShardBit(bytes, s)
    decreases RSV_BITS - i
  {
    hide ShardBit;
    if i < RSV_BITS {
      BitsAreMembers(bytes, i + 1, s);
    }
  }

  lemma {:induction false} BitsAreIncreasing(bytes: Bytes, i: nat)
    requires |bytes| == RSV_LENGTH && i <= RSV_BITS
    ensures Increasing(BitsFrom(bytes, i))
    decreases RSV_BITS - i
  {
    hide ShardBit;
    if i < RSV_BITS {
      BitsAreIncreasing(bytes, i + 1);
      var rest := BitsFrom(bytes, i + 1);
      forall k | 0 <= k < |rest|
        ensures rest[k] > i
      {
        BitsAreMembers(bytes, i + 1, rest[k]);
      }
    }
  }

  lemma {:induction false} BitVectorDecodes(info: ShardInfo)
    requires |info.shards| >= RSV_THRESHOLD
    ensures Encode(info).Ok? <==> AllBelow(info.shards, RSV_BITS)
    ensures Encode(info).Ok? ==>
              var decoded := Decode(Encode(info).value);
              && decoded.Ok? && decoded.value.clusterId == info.clusterId % U16_LIMIT
              && Increasing(decoded.value.shards)
              && forall s: nat :: s in decoded.value.shards <==> s in info.shards
  {
    hide ShardBit, PutBits, BitsFrom;
    var start := U16Bytes(info.clusterId) + Zeros(RSV_LENGTH - 2);
    PutBitsSets(start, info.shards);
    if AllBelow(info.shards, RSV_BITS) {
      var bytes := PutBits(start, info.shards).value;
      ZeroBits(start, info.clusterId);
      BitsAreIncreasing(bytes, 0);
      forall s: nat
        ensures s in BitsFrom(bytes, 0) <==> s in info.shards
      {
        BitsAreMembers(bytes, 0, s);
        if s in info.shards {
          var k :| 0 <= k < |info.shards| && info.shards[k] == s;
        }
      }
      assert bytes[0..2] == start[..2] == U16Bytes(info.clusterId);
      U16RoundTrip(bytes, 0, info.clusterId);
    }
  }

  // ---- Identity ----

  lemma HasMember(b: seq<nat>)
    requires b != []
    ensures exists s: nat :: s in b
  {
    assert b[0] in b;
  }

  lemma {:induction false} IncreasingUnique(a: seq<nat>, b: seq<nat>)
    requires Increasing(a) && Increasing(b)
    requires forall s: nat :: s in a <==> s in b
    ensures a == b
    decreases |a|
  {
    if a == [] {
      if b != [] {
        HasMember(b);
      }
    } else {
      assert a[0] in b && b != [];
      assert b[0] in a;
      assert a[0] == b[0];
      forall s: nat
        ensures s in a[1..] <==> s in b[1..]
      {
        assert s in a <==> s == a[0] || s in a[1..];
        assert s in b <==> s == b[0] || s in b[1..];
      }
      IncreasingUnique(a[1..], b[1..]);
    }
  }

  /** The records the format can carry unchanged. */
  ghost predicate Representable(info: ShardInfo) {
    && info.clusterId < U16_LIMIT
    && if |info.shards| < RSV_THRESHOLD then AllBelow(info.shards, U16_LIMIT)
       else AllBelow(info.shards, RSV_BITS) && Increasing(info.shards)
  }

  lemma EncodeIndexList(info: ShardInfo)
    requires |info.shards| < RSV_THRESHOLD
    ensures Encode(info).Ok?
  {}

  lemma WrappedUnchanged(shards: seq<nat>)
    ensures Wrapped(shards) == shards <==> AllBelow(shards, U16_LIMIT)
  {}

  /** decodeRelayShard undoes encodeRelayShard exactly on the representable records. */
  lemma RoundTripExactly(info: ShardInfo)
    ensures (Encode(info).Ok? && Decode(Encode(info).value) == Ok(info)) <==> Representable(info)
  {
    hide Encode, Decode;
    if |info.shards| < RSV_THRESHOLD {
      IndexListDecodes(info);
      WrappedUnchanged(info.shards);
      EncodeIndexList(info);
    } else {
      BitVectorDecodes(info);
      if Encode(info).Ok? && Increasing(info.shards) {
        IncreasingUnique(Decode(Encode(info).value).value.shards, info.shards);
      }
    }
  }

  // ---- The bytes ----

  function Big16(high: u8, low: u8): nat { 256 * (high as int) + low as int }

  /** The value of the bit of a shard in its byte: the foremost shard has the highest bit. */
  function Weight(shard: nat): nat { [128, 64, 32, 16, 8, 4, 2, 1][shard % 8] }

  /** The bit of shard `s` in a vector behind the two bytes of the cluster. */
  predicate VectorHas(bytes: Bytes, s: nat)
    requires |bytes| == 130 && s < 1024
  {
    (bytes[2 + s / 8] as int) / Weight(s) % 2 == 1
  }

  lemma ProductGrows(x: nat, y: nat, d: nat)
    ensures x <= y ==> x * d <= y * d
  {}

  lemma QuotientIs(a: nat, d: nat, q: nat, r: nat)
    requires d > 0 && a == q * d + r && r < d
    ensures a / d == q
  {
    assert (a / d) * d + a % d == q * d + r;
    ProductGrows(a / d + 1, q, d);
    ProductGrows(q + 1, a / d, d);
  }

  lemma NestedQuotient(a: nat, m: nat)
    requires m > 0
    ensures a / (2 * m) == a / 2 / m
  {
    var q := a / 2 / m;
    var r := a / 2 % m;
    assert a == 2 * (q * m + r) + a % 2;
    assert a == q * (2 * m) + (2 * r + a % 2) && 0 <= 2 * r + a % 2 < 2 * m;
    QuotientIs(a, 2 * m, q, 2 * r + a % 2);
  }

  lemma {:induction false} HasBitIsDigit(a: nat, k: nat)
    ensures HasBit(a, k) <==> a / Shl1(k) % 2 == 1
    decreases k
  {
    HasBitHalves(a, k);
    if k > 0 {
      HasBitIsDigit(a / 2, k - 1);
      var m := Shl1(k - 1);
      NestedQuotient(a, m);
    }
  }

  lemma PowersOfTwo()
    ensures Shl1(0) == 1 && Shl1(1) == 2 && Shl1(2) == 4 && Shl1(3) == 8
    ensures Shl1(4) == 16 && Shl1(5) == 32 && Shl1(6) == 64 && Shl1(7) == 128
  {
    assert Shl1(3) == 8;
    assert Shl1(5) == 32;
  }

  lemma ShardBitIsVectorBit(bytes: Bytes, s: nat)
    requires |bytes| == 130 && s < 1024
    ensures ShardBit(bytes, s) <==> VectorHas(bytes, s)
  {
    HasBitIsDigit(bytes[2 + s / 8], 7 - s % 8);
    PowersOfTwo();
  }

  lemma {:induction false} IndexBytesAt(shards: seq<nat>)
    ensures var b := IndexBytes(shards);
            forall i | 0 <= i < |shards| :: Big16(b[2 * i], b[2 * i + 1]) == shards[i] % 65536
  {
    hide U16Bytes;
    if shards != [] {
      U16BigEndian(shards[0]);
      IndexBytesAt(shards[1..]);
      var b, rest := IndexBytes(shards), IndexBytes(shards[1..]);
      assert b == U16Bytes(shards[0]) + rest;
      forall i | 0 < i < |shards|
        ensures Big16(b[2 * i], b[2 * i + 1]) == shards[i] % 65536
      {
        assert b[2 * i] == rest[2 * (i - 1)] && b[2 * i + 1] == rest[2 * (i - 1) + 1];
        assert shards[i] == shards[1..][i - 1];
      }
    }
  }

  /** A list of fewer than 64: cluster, count, and each index, all big endian. */
  lemma IndexListBytes(info: ShardInfo)
    requires |info.shards| < 64
    ensures Encode(info).Ok?
    ensures var b := Encode(info).value;
            && |b| == 3 + 2 * |info.shards| && Big16(b[0], b[1]) == info.clusterId % 65536 && b[2] == |info.shards|
            && forall i | 0 <= i < |info.shards| :: Big16(b[3 + 2 * i], b[4 + 2 * i]) == info.shards[i] % 65536
  {
    U16BigEndian(info.clusterId);
    IndexBytesAt(info.shards);
  }

  /** Otherwise: cluster and 1024 bits, of which exactly those of the shards are set. */
  lemma BitVectorBytes(info: ShardInfo)
    requires |info.shards| >= 64 && Encode(info).Ok?
    ensures var b := Encode(info).value;
            && |b| == 130 && Big16(b[0], b[1]) == info.clusterId % 65536
            && forall s: nat | s < 1024 :: VectorHas(b, s) <==> s in info.shards
  {
    hide PutBits, ShardBit, U16Bytes, VectorHas;
    var start := U16Bytes(info.clusterId) + Zeros(RSV_LENGTH - 2);
    PutBitsSets(start, info.shards);
    ZeroBits(start, info.clusterId);
    U16BigEndian(info.clusterId);
    var b := Encode(info).value;
    assert b[0] == b[..2][0] && b[1] == b[..2][1];
    assert start[..2] == U16Bytes(info.clusterId);
    forall s: nat | s < 1024
      ensures VectorHas(b, s) <==> s in info.shards
    {
      ShardBitIsVectorBit(b, s);
    }
  }

  lemma {:induction false} IndicesAt(bytes: Bytes, offset: nat, n: nat)
    requires IndicesFrom(bytes, offset, n).Some?
    ensures |IndicesFrom(bytes, offset, n).value| == n && (n > 0 ==> offset + 2 * n <= |bytes|)
    ensures forall i | 0 <= i < n ::
              IndicesFrom(bytes, offset, n).value[i] == Big16(bytes[offset + 2 * i], bytes[offset + 2 * i + 1])
    decreases n
  {
    IndicesNeedBytes(bytes, offset, n);
    if n > 0 {
      IndicesAt(bytes, offset + 2, n - 1);
      var rest := IndicesFrom(bytes, offset + 2, n - 1).value;
      forall i | 0 < i < n
        ensures IndicesFrom(bytes, offset, n).value[i] == Big16(bytes[offset + 2 * i], bytes[offset + 2 * i + 1])
      {
        assert IndicesFrom(bytes, offset, n).value[i] == rest[i - 1];
        assert offset + 2 + 2 * (i - 1) == offset + 2 * i;
      }
    }
  }

  /** What decoding makes of any bytes: 130 of them are a vector, others a list of as many indices as they announce. */
  lemma DecodedExactly(bytes: Bytes)
    requires Decode(bytes).Ok?
    ensures var info := Decode(bytes).value;
            && |bytes| >= 3 && info.clusterId == Big16(bytes[0], bytes[1])
            && (|bytes| == 130 ==>
                  && Increasing(info.shards)
                  && forall s: nat :: s in info.shards <==> s < 1024 && VectorHas(bytes, s))
            && (|bytes| != 130 ==>
                  && |info.shards| == bytes[2] as int && |bytes| >= 3 + 2 * |info.shards|
                  && forall i | 0 <= i < |info.shards| ::
                       info.shards[i] == Big16(bytes[3 + 2 * i], bytes[4 + 2 * i]))
  {
    hide BitsFrom, ShardBit, VectorHas, IndicesFrom;
    DecodeFailsExactly(bytes);
    if |bytes| == 130 {
      BitsAreIncreasing(bytes, 0);
      forall s: nat
        ensures s in BitsFrom(bytes, 0) <==> s < 1024 && VectorHas(bytes, s)
      {
        BitsAreMembers(bytes, 0, s);
        if s < 1024 {
          ShardBitIsVectorBit(bytes, s);
        }
      }
    } else {
      IndicesAt(bytes, 3, bytes[2]);
    }
  }
}
