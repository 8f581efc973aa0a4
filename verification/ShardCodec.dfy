/**
 * The relay shard record of 51/WAKU2-RELAY-SHARD: a list of indices for fewer than 64 shards ("rs"), a bit vector
 * of 1024 bits otherwise ("rsv").
 */
module ShardCodec {
  import opened Bits
  import opened ByteStrings
  import opened Wrappers

  datatype ShardInfo = ShardInfo(clusterId: nat, shards: seq<nat>)

  const RSV_THRESHOLD: nat := 64
  const RSV_LENGTH: nat := 130
  const RSV_BITS: nat := 1024

  const INSUFFICIENT := "Insufficient data"
  const UNEXPECTED_END := "Unexpected end of data"
  const OUT_OF_BOUNDS := "Offset is outside the bounds of the DataView"

  /** byte | (1 << bit). */
  function WithBit(b: u8, bit: nat): (r: u8)
    requires bit < 8
    ensures forall j: nat :: HasBit(r, j) <==> j == bit || HasBit(b, j)
  {
    ByteWidth();
    MaskMonotone(bit, 8);
    OrFits(b, Shl1(bit), 8);
    forall j: nat
      ensures HasBit(BitOr(b, Shl1(bit)), j) <==> j == bit || HasBit(b, j)
    {
      OrSetsOneBit(b, bit, j);
    }
    BitOr(b, Shl1(bit))
  }

  // ---- Encoding ----

  function IndexBytes(shards: seq<nat>): (r: Bytes)
    ensures |r| == 2 * |shards|
  {
    if shards == [] then [] else U16Bytes(shards[0]) + IndexBytes(shards[1..])
  }

  /** Sets the bit of each shard in turn; None when one lies behind the vector. */
  function PutBits(buf: Bytes, shards: seq<nat>): (r: Option<Bytes>)
    ensures r.Some? ==> |r.value| == |buf|
    decreases |shards|
  {
    if shards == [] then Some(buf)
    else
      var i := shards[0] / 8 + 2;
      if i >= |buf| then None
      else PutBits(buf[i := WithBit(buf[i], 7 - shards[0] % 8)], shards[1..])
  }

  function Zeros(n: nat): (r: Bytes)
    ensures |r| == n && forall i | 0 <= i < n :: r[i] == 0
  {
    seq(n, i => 0)
  }

  function Encode(info: ShardInfo): Result<Bytes, string> {
    if |info.shards| >= RSV_THRESHOLD then
      match PutBits(U16Bytes(info.clusterId) + Zeros(RSV_LENGTH - 2), info.shards)
      case None => Err(OUT_OF_BOUNDS)
      case Some(buf) => Ok(buf)
    else
      Ok(U16Bytes(info.clusterId) + [|info.shards|] + IndexBytes(info.shards))
  }

  method SetU16(view: array<u8>, offset: nat, n: nat)
    requires offset + 1 < view.Length
    modifies view
    ensures view[..] == old(view[..])[..offset] + U16Bytes(n) + old(view[..])[offset + 2..]
  {
    ghost var was := view[..];
    var high: u8, low: u8 := n / 256 % 256, n % 256;
    view[offset] := high;
    view[offset + 1] := low;
    assert view[..] == was[..offset] + [high, low] + was[offset + 2..];
  }

  method PutBitVector(view: array<u8>, shards: seq<nat>) returns (ok: bool)
    modifies view
    ensures PutBits(old(view[..]), shards) == if ok then Some(view[..]) else None
  {
    hide WithBit;
    for k := 0 to |shards|
      invariant PutBits(view[..], shards[k..]) == PutBits(old(view[..]), shards)
    {
      assert shards[k..][0] == shards[k] && shards[k..][1..] == shards[k + 1..];
      var byteIndex := shards[k] / 8 + 2;
      if byteIndex >= view.Length {
        return false;
      }
      ghost var before := view[..];
      view[byteIndex] := WithBit(view[byteIndex], 7 - shards[k] % 8);
      assert view[..] == before[byteIndex := view[byteIndex]];
    }
    ok := true;
  }

  lemma {:induction false} IndexBytesAppend(shards: seq<nat>, last: nat)
    ensures IndexBytes(shards + [last]) == IndexBytes(shards) + U16Bytes(last)
  {
    if shards == [] {
      assert [last][1..] == [] && shards + [last] == [last];
    } else {
      assert (shards + [last])[0] == shards[0] && (shards + [last])[1..] == shards[1..] + [last];
      IndexBytesAppend(shards[1..], last);
    }
  }

  method PutIndexList(view: array<u8>, shards: seq<nat>)
    requires view.Length == 3 + 2 * |shards|
    modifies view
    ensures view[..] == old(view[..3]) + IndexBytes(shards)
  {
    var offset := 3;
    ghost var head := view[..3];
    for i := 0 to |shards|
      invariant offset == 3 + 2 * i
      invariant view[..offset] == head + IndexBytes(shards[..i])
    {
      ghost var before := view[..];
      SetU16(view, offset, shards[i]);
      IndexBytesAppend(shards[..i], shards[i]);
      assert shards[..i] + [shards[i]] == shards[..i + 1];
      assert view[..offset + 2] == before[..offset] + U16Bytes(shards[i]);
      offset := offset + 2;
    }
    assert shards[..|shards|] == shards && view[..offset] == view[..];
  }

  method EncodeRelayShard(info: ShardInfo) returns (r: Result<Bytes, string>)
    ensures r == Encode(info)
  {
    hide IndexBytes, PutBits;
    var shards := info.shards;
    var totalLength := if |shards| >= 64 then 130 else 3 + 2 * |shards|;
    var view := new u8[totalLength](_ => 0);
    assert view[..] == Zeros(totalLength);
    SetU16(view, 0, info.clusterId);
    assert view[..] == U16Bytes(info.clusterId) + Zeros(totalLength - 2);
    if |shards| >= 64 {
      var ok := PutBitVector(view, shards);
      if !ok {
        return Err(OUT_OF_BOUNDS);
      }
    } else {
      view[2] := |shards|;
      assert view[..3] == U16Bytes(info.clusterId) + [|shards|];
      PutIndexList(view, shards);
    }
    r := Ok(view[..]);
  }

  // ---- Decoding ----

  predicate ShardBit(bytes: Bytes, i: nat)
    requires |bytes| == RSV_LENGTH && i < RSV_BITS
  {
    HasBit(bytes[i / 8 + 2], 7 - i % 8)
  }

  function BitsFrom(bytes: Bytes, i: nat): seq<nat>
    requires |bytes| == RSV_LENGTH && i <= RSV_BITS
    decreases RSV_BITS - i
  {
    if i == RSV_BITS then []
    else (if ShardBit(bytes, i) then [i] else []) + BitsFrom(bytes, i + 1)
  }

  /** `n` indices from byte `offset` on; None when the data ends before. */
  function IndicesFrom(bytes: Bytes, offset: nat, n: nat): Option<seq<nat>>
    decreases n
  {
    if n == 0 then Some([])
    else if offset + 1 >= |bytes| then None
    else
      match IndicesFrom(bytes, offset + 2, n - 1)
      case None => None
      case Some(rest) => Some([U16At(bytes, offset)] + rest)
  }

  function Decode(bytes: Bytes): Result<ShardInfo, string> {
    if |bytes| < 3 then Err(INSUFFICIENT)
    else if |bytes| == RSV_LENGTH then Ok(ShardInfo(U16At(bytes, 0), BitsFrom(bytes, 0)))
    else
      match IndicesFrom(bytes, 3, bytes[2])
      case None => Err(UNEXPECTED_END)
      case Some(shards) => Ok(ShardInfo(U16At(bytes, 0), shards))
  }

  lemma BitsEnd(bytes: Bytes)
    requires |bytes| == RSV_LENGTH
    ensures BitsFrom(bytes, RSV_BITS) == []
  {}

  lemma BitsOnce(bytes: Bytes, i: nat, shards: seq<nat>)
    requires |bytes| == RSV_LENGTH && i < RSV_BITS
    ensures shards + BitsFrom(bytes, i)
         == (if BitAnd(bytes[i / 8 + 2], Shl1(7 - i % 8)) != 0 then shards + [i] else shards) + BitsFrom(bytes, i + 1)
  {}

  method ReadBitVector(bytes: Bytes) returns (shards: seq<nat>)
    requires |bytes| == RSV_LENGTH
    ensures shards == BitsFrom(bytes, 0)
  {
    hide BitsFrom, BitAnd, Shl1;
    shards := [];
    var i := 0;
    BitsEnd(bytes);
    while i < RSV_BITS
      invariant i <= RSV_BITS && shards + BitsFrom(bytes, i) == BitsFrom(bytes, 0)
    {
      var byteIndex := i / 8 + 2;
      var bitIndex := 7 - i % 8;
      BitsOnce(bytes, i, shards);
      if BitAnd(bytes[byteIndex], Shl1(bitIndex)) != 0 {
        shards := shards + [i];
      }
      i := i + 1;
    }
  }

  ghost function Continued(read: seq<nat>, r: Option<seq<nat>>): Option<seq<nat>> {
    match r
    case None => None
    case Some(rest) => Some(read + rest)
  }

  lemma ContinuedOnce(bytes: Bytes, offset: nat, n: nat, read: seq<nat>)
    requires n > 0
    ensures Continued(read, IndicesFrom(bytes, offset, n))
         == if offset + 1 >= |bytes| then None
            else Continued(read + [U16At(bytes, offset)], IndicesFrom(bytes, offset + 2, n - 1))
  {
    if offset + 1 < |bytes| {
      var rest := IndicesFrom(bytes, offset + 2, n - 1);
      if rest.Some? {
        assert read + ([U16At(bytes, offset)] + rest.value) == read + [U16At(bytes, offset)] + rest.value;
      }
    }
  }

  method ReadIndexList(bytes: Bytes) returns (shards: Option<seq<nat>>)
    requires |bytes| >= 3
    ensures shards == IndicesFrom(bytes, 3, bytes[2])
  {
    var numIndices: nat := bytes[2];
    var read: seq<nat>, offset, i := [], 3, 0;
    ghost var whole := IndicesFrom(bytes, 3, numIndices);
    assert whole.Some? ==> [] + whole.value == whole.value;
    while i < numIndices
      invariant i <= numIndices && offset == 3 + 2 * i
      invariant Continued(read, IndicesFrom(bytes, offset, numIndices - i)) == whole
    {
      ContinuedOnce(bytes, offset, numIndices - i, read);
      if offset + 1 >= |bytes| {
        return None;
      }
      read, offset, i := read + [U16At(bytes, offset)], offset + 2, i + 1;
    }
    assert read + [] == read;
    shards := Some(read);
  }

  method DecodeRelayShard(bytes: Bytes) returns (r: Result<ShardInfo, string>)
    ensures r == Decode(bytes)
  {
    hide BitsFrom, IndicesFrom;
    if |bytes| < 3 {
      return Err(INSUFFICIENT);
    }
    var clusterId := U16At(bytes, 0);
    if |bytes| == 130 {
      var shards := ReadBitVector(bytes);
      r := Ok(ShardInfo(clusterId, shards));
    } else {
      var shards := ReadIndexList(bytes);
      r := if shards.None? then Err(UNEXPECTED_END) else Ok(ShardInfo(clusterId, shards.value));
    }
  }
}
