/** The ENR `multiaddrs` field: addresses one after the other, each behind its 16-bit length. */
module MultiaddrList {
  import opened ByteStrings
  import opened Wrappers

  const MULTIADDR_LENGTH_SIZE: nat := 2

  const PEER_ID_PRESENT := "`multiaddr` field MUST not contain peer id"
  const OUT_OF_BOUNDS := "Start offset is outside the bounds of the buffer"
  const INVALID := "invalid multiaddr"

  /** What the multiaddr library says about bytes: whether they parse, and whether the address names a peer. */
  datatype Library = Library(parses: Bytes -> bool, hasPeerId: Bytes -> bool)

  function Chunk(address: Bytes): (r: Bytes)
    ensures |r| == MULTIADDR_LENGTH_SIZE + |address|
  {
    U16Bytes(|address|) + address
  }

  function Chunks(addresses: seq<Bytes>): Bytes {
    if addresses == [] then [] else Chunks(addresses[..|addresses| - 1]) + Chunk(addresses[|addresses| - 1])
  }

  predicate PeerIdFree(lib: Library, addresses: seq<Bytes>) {
    forall i | 0 <= i < |addresses| :: !lib.hasPeerId(addresses[i])
  }

  function Encode(lib: Library, addresses: seq<Bytes>): Result<Bytes, string> {
    if PeerIdFree(lib, addresses) then Ok(Chunks(addresses)) else Err(PEER_ID_PRESENT)
  }

  method TotalLength(addresses: seq<Bytes>) returns (n: nat)
    ensures n == |Chunks(addresses)|
  {
    n := 0;
    for i := 0 to |addresses|
      invariant n == |Chunks(addresses[..i])|
    {
      assert addresses[..i + 1][..i] == addresses[..i];
      n := n + MULTIADDR_LENGTH_SIZE + |addresses[i]|;
    }
    assert addresses[..|addresses|] == addresses;
  }

  /** `bytes.set(source, index)`. */
  method SetBytes(bytes: array<u8>, index: nat, source: Bytes)
    requires index + |source| <= bytes.Length
    modifies bytes
    ensures bytes[..] == old(bytes[..])[..index] + source + old(bytes[..])[index + |source|..]
  {
    for i := 0 to |source|
      invariant bytes[..] == old(bytes[..])[..index] + source[..i] + old(bytes[..])[index + i..]
    {
      bytes[index + i] := source[i];
    }
    assert source[..|source|] == source;
  }

  lemma {:induction false} ChunksPrefix(addresses: seq<Bytes>, i: nat)
    requires i <= |addresses|
    ensures |Chunks(addresses[..i])| <= |Chunks(addresses)|
    decreases |addresses| - i
  {
    if i < |addresses| {
      assert addresses[..i + 1][..i] == addresses[..i];
      ChunksPrefix(addresses, i + 1);
    } else {
      assert addresses[..i] == addresses;
    }
  }

  lemma NoChunks()
    ensures Chunks([]) == []
  {}

  lemma ChunksOnce(addresses: seq<Bytes>, i: nat)
    requires i < |addresses|
    ensures Chunks(addresses[..i + 1]) == Chunks(addresses[..i]) + Chunk(addresses[i])
  {
    assert addresses[..i + 1][..i] == addresses[..i];
  }

  /** Writes one length and address at `index` and moves on. */
  method SetChunk(bytes: array<u8>, index: nat, address: Bytes) returns (next: nat)
    requires index + |Chunk(address)| <= bytes.Length
    modifies bytes
    ensures next == index + |Chunk(address)| && bytes[..next] == old(bytes[..index]) + Chunk(address)
  {
    ghost var done := bytes[..index];
    SetBytes(bytes, index, U16Bytes(|address|));
    assert bytes[..index + 2] == done + U16Bytes(|address|);
    SetBytes(bytes, index + MULTIADDR_LENGTH_SIZE, address);
    next := index + MULTIADDR_LENGTH_SIZE + |address|;
    assert bytes[..next] == done + U16Bytes(|address|) + address;
  }

  /** encodeMultiaddrs; the buffer it allocates is filled exactly. */
  method EncodeMultiaddrs(lib: Library, addresses: seq<Bytes>) returns (r: Result<Bytes, string>)
    ensures r == Encode(lib, addresses)
  {
    hide Chunks;
    var totalLength := TotalLength(addresses);
    NoChunks();
    var bytes := new u8[totalLength](_ => 0);
    var index := 0;
    for i := 0 to |addresses|
      invariant index == |Chunks(addresses[..i])| && index <= totalLength
      invariant bytes[..index] == Chunks(addresses[..i])
      invariant PeerIdFree(lib, addresses[..i])
    {
      if lib.hasPeerId(addresses[i]) {
        return Err(PEER_ID_PRESENT);
      }
      ChunksOnce(addresses, i);
      ChunksPrefix(addresses, i + 1);
      index := SetChunk(bytes, index, addresses[i]);
    }
    assert addresses[..|addresses|] == addresses && bytes[..index] == bytes[..];
    r := Ok(bytes[..]);
  }

  /** The addresses from `index` on. The slice of the last one may come out short; a lone byte cannot be read. */
  function DecodeFrom(lib: Library, bytes: Bytes, index: nat): Result<seq<Bytes>, string>
    decreases |bytes| - index
  {
    if index >= |bytes| then Ok([])
    else if index + 1 >= |bytes| then Err(OUT_OF_BOUNDS)
    else
      var start := index + MULTIADDR_LENGTH_SIZE;
      var size := U16At(bytes, index);
      var address := Slice(bytes, start, start + size);
      if !lib.parses(address) then Err(INVALID)
      else
        match DecodeFrom(lib, bytes, start + size)
        case Err(e) => Err(e)
        case Ok(rest) => Ok([address] + rest)
  }

  ghost function Prepended(before: seq<Bytes>, r: Result<seq<Bytes>, string>): Result<seq<Bytes>, string> {
    match r
    case Err(e) => Err(e)
    case Ok(rest) => Ok(before + rest)
  }

  lemma PrependedNothing(r: Result<seq<Bytes>, string>, before: seq<Bytes>)
    ensures Prepended([], r) == r
    ensures Prepended(before, Ok([])) == Ok(before)
  {
    assert before + [] == before;
    if r.Ok? {
      assert [] + r.value == r.value;
    }
  }

  lemma PrependedOnce(lib: Library, bytes: Bytes, index: nat, before: seq<Bytes>)
    requires index < |bytes|
    ensures Prepended(before, DecodeFrom(lib, bytes, index))
         == if index + 1 >= |bytes| then Err(OUT_OF_BOUNDS)
            else
              var start, size := index + MULTIADDR_LENGTH_SIZE, U16At(bytes, index);
              var address := Slice(bytes, start, start + size);
              if !lib.parses(address) then Err(INVALID)
              else Prepended(before + [address], DecodeFrom(lib, bytes, start + size))
    ensures Prepended([], DecodeFrom(lib, bytes, 0)) == DecodeFrom(lib, bytes, 0)
  {
    PrependedNothing(DecodeFrom(lib, bytes, 0), []);
    if index + 1 < |bytes| {
      var start, size := index + MULTIADDR_LENGTH_SIZE, U16At(bytes, index);
      var address := Slice(bytes, start, start + size);
      var rest := DecodeFrom(lib, bytes, start + size);
      if rest.Ok? {
        assert before + ([address] + rest.value) == before + [address] + rest.value;
      }
    }
  }

  /** decodeMultiaddrs, which ends on every input. */
  method DecodeMultiaddrs(lib: Library, bytes: Bytes) returns (r: Result<seq<Bytes>, string>)
    ensures r == DecodeFrom(lib, bytes, 0)
  {
    var multiaddrs: seq<Bytes>, index := [], 0;
    while index < |bytes|
      invariant Prepended(multiaddrs, DecodeFrom(lib, bytes, index)) == Prepended([], DecodeFrom(lib, bytes, 0))
      decreases |bytes| - index
    {
      PrependedOnce(lib, bytes, index, multiaddrs);
      if index + 1 >= |bytes| {
        return Err(OUT_OF_BOUNDS);
      }
      var size := U16At(bytes, index);
      index := index + MULTIADDR_LENGTH_SIZE;
      var address := Slice(bytes, index, index + size);
      index := index + size;
      if !lib.parses(address) {
        return Err(INVALID);
      }
      multiaddrs := multiaddrs + [address];
    }
    PrependedNothing(DecodeFrom(lib, bytes, 0), multiaddrs);
    r := Ok(multiaddrs);
  }

  // ---- Round trip ----

  /** Encoding a concatenation concatenates the encodings. */
  lemma {:induction false} ChunksConcat(a: seq<Bytes>, b: seq<Bytes>)
    ensures Chunks(a + b) == Chunks(a) + Chunks(b)
    decreases |b|
  {
    if b == [] {
      assert a + b == a;
    } else {
      assert (a + b)[..|a + b| - 1] == a + b[..|b| - 1];
      ChunksConcat(a, b[..|b| - 1]);
      ConcatAssociative(Chunks(a), Chunks(b[..|b| - 1]), Chunk(b[|b| - 1]));
    }
  }

  ghost predicate AllParse(lib: Library, addresses: seq<Bytes>) {
    forall i | 0 <= i < |addresses| :: lib.parses(addresses[i])
  }

  ghost predicate AllShort(addresses: seq<Bytes>) {
    forall i | 0 <= i < |addresses| :: |addresses[i]| < U16_LIMIT
  }

  lemma SingleChunk(address: Bytes)
    ensures Chunks([address]) == Chunk(address)
  {}

  lemma HeadChunk(bytes: Bytes, index: nat, addresses: seq<Bytes>)
    requires addresses != [] && At(bytes, index, Chunks(addresses))
    ensures var first := addresses[0];
            && At(bytes, index, Chunk(first)) && At(bytes, index + |Chunk(first)|, Chunks(addresses[1..]))
            && |Chunks(addresses)| == |Chunk(first)| + |Chunks(addresses[1..])|
  {
    hide Chunk, Chunks;
    var first := [addresses[0]];
    assert addresses == first + addresses[1..];
    ChunksConcat(first, addresses[1..]);
    SingleChunk(addresses[0]);
    AtSplit(bytes, index, Chunk(addresses[0]), Chunks(addresses[1..]));
  }

  lemma ChunkReadBack(bytes: Bytes, index: nat, address: Bytes)
    requires At(bytes, index, Chunk(address))
    ensures U16At(bytes, index) == |address| % U16_LIMIT
    ensures |address| < U16_LIMIT ==> Slice(bytes, index + 2, index + 2 + |address|) == address
  {
    AtSplit(bytes, index, U16Bytes(|address|), address);
    U16RoundTrip(bytes, index, |address|);
  }

  lemma {:induction false} ShortAddressesDecode(lib: Library, bytes: Bytes, index: nat, addresses: seq<Bytes>)
    requires AllParse(lib, addresses) && AllShort(addresses)
    requires At(bytes, index, Chunks(addresses)) && index + |Chunks(addresses)| == |bytes|
    ensures DecodeFrom(lib, bytes, index) == Ok(addresses)
    decreases |addresses|
  {
    hide Chunks, Chunk, Slice, U16At;
    if addresses == [] {
      NoChunks();
    } else {
      HeadChunk(bytes, index, addresses);
      ChunkReadBack(bytes, index, addresses[0]);
      ShortAddressesDecode(lib, bytes, index + |Chunk(addresses[0])|, addresses[1..]);
      assert addresses == [addresses[0]] + addresses[1..];
    }
  }

  lemma SliceAtMost(s: Bytes, start: nat, size: nat)
    ensures |Slice(s, start, start + size)| <= size
  {}

  /** An address of 2^16 bytes or more is not read back: its length wraps. */
  lemma {:induction false} LongAddressIsLost(lib: Library, bytes: Bytes, index: nat, addresses: seq<Bytes>)
    requires !AllShort(addresses)
    requires At(bytes, index, Chunks(addresses))
    ensures DecodeFrom(lib, bytes, index) != Ok(addresses)
    decreases |addresses|
  {
    hide Chunks, Chunk, Slice, U16At;
    HeadChunk(bytes, index, addresses);
    var first := addresses[0];
    ChunkReadBack(bytes, index, first);
    if |first| >= U16_LIMIT {
      SliceAtMost(bytes, index + 2, |first| % U16_LIMIT);
    } else {
      LongAddressIsLost(lib, bytes, index + |Chunk(first)|, addresses[1..]);
    }
  }

  /**
   * Encoding refuses exactly the lists with a peer id in some address. For others that parse, decodeMultiaddrs undoes
   * encodeMultiaddrs exactly when each address is shorter than 2^16 bytes.
   */
  lemma RoundTripExactly(lib: Library, addresses: seq<Bytes>)
    requires AllParse(lib, addresses)
    ensures Encode(lib, addresses).Err? <==> exists i | 0 <= i < |addresses| :: lib.hasPeerId(addresses[i])
    ensures Encode(lib, addresses).Ok? ==>
              (DecodeFrom(lib, Encode(lib, addresses).value, 0) == Ok(addresses) <==> AllShort(addresses))
  {
    hide DecodeFrom, Chunks;
    var bytes := Chunks(addresses);
    assert bytes[0..0 + |bytes|] == bytes;
    if AllShort(addresses) {
      ShortAddressesDecode(lib, bytes, 0, addresses);
    } else {
      LongAddressIsLost(lib, bytes, 0, addresses);
    }
  }

  // ---- The bytes ----

  /** Each address stands behind its length, big endian. */
  lemma ChunkBytes(address: Bytes)
    ensures Chunks([]) == []
    ensures |Chunks([address])| == 2 + |address| && Chunks([address])[2..] == address
    ensures 256 * (Chunks([address])[0] as int) + Chunks([address])[1] as int == |address| % 65536
  {
    hide U16Bytes;
    NoChunks();
    SingleChunk(address);
    U16BigEndian(|address|);
  }

  lemma PrependedTwice(a: seq<Bytes>, b: seq<Bytes>, r: Result<seq<Bytes>, string>)
    ensures Prepended(a, Prepended(b, r)) == Prepended(a + b, r)
  {
    if r.Ok? {
      assert a + (b + r.value) == a + b + r.value;
    }
  }

  /** The list of addresses at the front is read, and then what follows it. */
  lemma {:induction false} PrefixDecodes(lib: Library, bytes: Bytes, index: nat, addresses: seq<Bytes>)
    requires AllParse(lib, addresses) && AllShort(addresses) && At(bytes, index, Chunks(addresses))
    ensures DecodeFrom(lib, bytes, index)
         == Prepended(addresses, DecodeFrom(lib, bytes, index + |Chunks(addresses)|))
    decreases |addresses|
  {
    hide Chunks, Chunk, Slice, U16At;
    if addresses == [] {
      NoChunks();
      PrependedNothing(DecodeFrom(lib, bytes, index), []);
    } else {
      HeadChunk(bytes, index, addresses);
      ChunkReadBack(bytes, index, addresses[0]);
      var next := index + |Chunk(addresses[0])|;
      PrefixDecodes(lib, bytes, next, addresses[1..]);
      PrependedOnce(lib, bytes, index, []);
      assert addresses == [addresses[0]] + addresses[1..];
      var rest := DecodeFrom(lib, bytes, index + |Chunks(addresses)|);
      PrependedTwice([addresses[0]], addresses[1..], rest);
      PrependedNothing(DecodeFrom(lib, bytes, index), []);
    }
  }

  /** The bytes at `index` up to the end are `tail`. */
  lemma TailAlone(lib: Library, bytes: Bytes, index: nat, tail: Bytes)
    requires index <= |bytes| && bytes[index..] == tail
    ensures var r := DecodeFrom(lib, bytes, index);
            && (tail == [] ==> r == Ok([]))
            && (|tail| == 1 ==> r == Err(OUT_OF_BOUNDS))
            && (|tail| >= 2 ==>
                  var n := 256 * (tail[0] as int) + tail[1] as int;
                  var address := tail[2..if n < |tail| - 2 then 2 + n else |tail|];
                  && (!lib.parses(address) ==> r == Err(INVALID))
                  && (lib.parses(address) && n >= |tail| - 2 ==> r == Ok([address])))
  {
    if |tail| >= 2 {
      assert bytes[index] == tail[0] && bytes[index + 1] == tail[1];
      var n := U16At(bytes, index);
      var address := tail[2..if n < |tail| - 2 then 2 + n else |tail|];
      assert Slice(bytes, index + 2, index + 2 + n) == address;
      assert n >= |tail| - 2 ==> DecodeFrom(lib, bytes, index + 2 + n) == Ok([]);
      assert [address] + [] == [address];
    }
  }

  /**
   * What decoding makes of anything behind a list of addresses: a lone byte is an error; the address that a length
   * announces comes out short at the end of the data, and the library decides about it as about any other.
   */
  lemma TailDecodes(lib: Library, addresses: seq<Bytes>, tail: Bytes)
    requires AllParse(lib, addresses) && AllShort(addresses)
    ensures var r := DecodeFrom(lib, Chunks(addresses) + tail, 0);
            && (tail == [] ==> r == Ok(addresses))
            && (|tail| == 1 ==> r == Err(OUT_OF_BOUNDS))
            && (|tail| >= 2 ==>
                  var n := 256 * (tail[0] as int) + tail[1] as int;
                  var address := tail[2..if n < |tail| - 2 then 2 + n else |tail|];
                  && (!lib.parses(address) ==> r == Err(INVALID))
                  && (lib.parses(address) && n >= |tail| - 2 ==> r == Ok(addresses + [address])))
  {
    hide Chunks, DecodeFrom;
    var bytes := Chunks(addresses) + tail;
    var n := |Chunks(addresses)|;
    assert bytes[0..0 + n] == Chunks(addresses) && bytes[n..] == tail;
    PrefixDecodes(lib, bytes, 0, addresses);
    TailAlone(lib, bytes, n, tail);
    assert addresses + [] == addresses;
  }
}
