/** `NetworkConnector` of ledboard.py (repeated in main.py with a different
    `send_timeout` default): how a frame of pixel values becomes the UDP
    payloads it sends. The socket, the destination and the pause between
    datagrams are left out; what is modelled is the sequence of payloads
    handed to `sendto`. */
module Transport {

  import opened Arith
  import opened Errors
  import opened Geometry

  /** A character of a Python 2 byte string, by its code. */
  newtype byte = b: int | 0 <= b < 256

  /** `packet_start`: the byte that opens the first datagram of a frame. */
  const PacketStart: byte := 0x80

  /** The default `maxsend_size`. */
  const DefaultMaxSendSize: nat := 512

  /** `chr(v)` succeeds: `v` is in `range(256)`. */
  predicate IsByte(v: int) {
    0 <= v < 256
  }

  predicate AllBytes(data: seq<int>) {
    forall i :: 0 <= i < |data| ==> IsByte(data[i])
  }

  /** One byte per value, in order. */
  function ToBytes(data: seq<int>): (r: seq<byte>)
    requires AllBytes(data)
    ensures |r| == |data|
    ensures forall i :: 0 <= i < |r| ==> r[i] as int == data[i]
  {
    if data == [] then [] else [data[0] as byte] + ToBytes(data[1..])
  }

  lemma ToBytesConcat(a: seq<int>, b: seq<int>)
    requires AllBytes(a) && AllBytes(b)
    ensures AllBytes(a + b) && ToBytes(a + b) == ToBytes(a) + ToBytes(b)
  {
    assert AllBytes(a + b) by {
      forall i | 0 <= i < |a + b| ensures IsByte((a + b)[i]) {
        if i >= |a| { assert (a + b)[i] == b[i - |a|]; }
      }
    }
    var l, r := ToBytes(a + b), ToBytes(a) + ToBytes(b);
    forall i | 0 <= i < |l| ensures l[i] == r[i] {
      if i < |a| {
        assert l[i] as int == a[i] == r[i] as int;
      } else {
        assert l[i] as int == b[i - |a|] == r[i] as int;
      }
    }
  }

  /** The range of a C `long` on the LP64 platforms Python 2 runs on: `chr`
      parses its argument as one. */
  const LongMin: int := -0x8000_0000_0000_0000
  const LongMax: int := 0x7fff_ffff_ffff_ffff

  /** What `chr(v)` raises for a value outside `range(256)`: OverflowError
      when `v` does not fit a C `long`, ValueError otherwise. */
  function ChrError(v: int): (e: Error)
    requires !IsByte(v)
    ensures e == OverflowError <==> v < LongMin || v > LongMax
    ensures e == ValueError <==> LongMin <= v <= LongMax
  {
    if LongMin <= v <= LongMax then ValueError else OverflowError
  }

  /** The first value `chr` rejects. */
  function FirstNonByte(data: seq<int>): (k: nat)
    requires !AllBytes(data)
    ensures k < |data| && !IsByte(data[k])
    ensures forall j :: 0 <= j < k ==> IsByte(data[j])
  {
    FirstNonByteFrom(data, 0)
  }

  /** The first value from `i` on that `chr` rejects, every value before `i` being a byte. */
  function FirstNonByteFrom(data: seq<int>, i: nat): (k: nat)
    requires !AllBytes(data) && i <= |data| && forall j :: 0 <= j < i ==> IsByte(data[j])
    ensures i <= k < |data| && !IsByte(data[k])
    ensures forall j :: 0 <= j < k ==> IsByte(data[j])
    decreases |data| - i
  {
    if !IsByte(data[i]) then i else FirstNonByteFrom(data, i + 1)
  }

  /** What `compress` returns, or what `chr` raises at the first value it rejects. */
  function Compressed(data: seq<int>): Result<seq<byte>> {
    if AllBytes(data) then Ok(ToBytes(data)) else Err(ChrError(data[FirstNonByte(data)]))
  }

  /** `compress`: one `chr(byte)` per value. Raises, at the first value
      outside `range(256)`, ValueError, or OverflowError for a value beyond
      a C `long`. */
  method Compress(data: seq<int>) returns (r: Result<seq<byte>>)
    ensures r.Err? <==> exists i :: 0 <= i < |data| && !IsByte(data[i])
    ensures r.Ok? ==> |r.value| == |data| && forall i :: 0 <= i < |data| ==> r.value[i] as int == data[i]
    ensures r.Err? ==> exists k :: 0 <= k < |data| && !IsByte(data[k]) && (forall j :: 0 <= j < k ==> IsByte(data[j]))
                                   && r.error == ChrError(data[k])
    ensures r == Compressed(data)
  {
    var compressed: seq<byte> := [];
    for i := 0 to |data|
      invariant |compressed| == i
      invariant forall j :: 0 <= j < i ==> IsByte(data[j]) && compressed[j] as int == data[j]
    {
      if !IsByte(data[i]) {
        assert FirstNonByte(data) == i;
        return Err(ChrError(data[i]));
      }
      compressed := compressed + [data[i] as byte];
    }
    assert compressed == ToBytes(data);
    r := Ok(compressed);
  }

  /** Chunk `i` ends inside the data while `i < n / size`. */
  lemma ChunkFits(n: int, size: int, i: int)
    requires size > 0 && 0 <= i < n / size
    ensures 0 <= i * size && i * size + size <= n
  {
    MulNonneg(i, size);
    MulMono(i + 1, n / size, size);
    assert n == (n / size) * size + n % size;
    assert (i + 1) * size == i * size + size;
  }

  /** Chunk `i`: `data[i*size : (i+1)*size]`. */
  function ChunkAt<T>(data: seq<T>, size: nat, i: nat): (r: seq<T>)
    requires size > 0 && i < |data| / size
    ensures |r| == size
  {
    ChunkFits(|data|, size, i);
    data[i * size .. i * size + size]
  }

  /** `chunked`: the generator's `(it, chunk)` pairs as a list. Only whole
      chunks are produced: the loop runs while `it < len(data) / chunksize`. */
  method Chunked<T>(data: seq<T>, chunkSize: nat) returns (chunks: seq<(nat, seq<T>)>)
    requires chunkSize > 0
    ensures |chunks| == |data| / chunkSize
    ensures forall i :: 0 <= i < |chunks| ==> chunks[i] == (i, ChunkAt(data, chunkSize, i))
  {
    chunks := [];
    var it := 0;
    var count := |data| / chunkSize;  // `len(data) / chunksize`, the same on every evaluation of the loop condition
    while it < count
      invariant it <= count
      invariant |chunks| == it
      invariant forall i :: 0 <= i < it ==> chunks[i] == (i, ChunkAt(data, chunkSize, i))
    {
      ChunkFits(|data|, chunkSize, it);
      var index := it * chunkSize;
      var chunk := data[index .. index + chunkSize];
      assert chunk == ChunkAt(data, chunkSize, it);
      chunks := chunks + [(it, chunk)];
      it := it + 1;
    }
  }

  /** The first `k` chunk payloads. */
  function Payloads<T>(data: seq<T>, size: nat, k: nat): (r: seq<seq<T>>)
    requires size > 0 && k <= |data| / size
    ensures |r| == k
    ensures forall j :: 0 <= j < k ==> r[j] == ChunkAt(data, size, j)
  {
    if k == 0 then [] else Payloads(data, size, k - 1) + [ChunkAt(data, size, k - 1)]
  }

  /** The chunk payloads `chunked` yields, in order. */
  function ChunkList<T>(data: seq<T>, size: nat): seq<seq<T>>
    requires size > 0
  {
    Payloads(data, size, |data| / size)
  }

  /** The chunks, joined, are the data up to the last whole chunk. */
  lemma {:induction false} PayloadsJoin<T>(data: seq<T>, size: nat, k: nat)
    requires size > 0 && k <= |data| / size
    ensures 0 <= k * size <= |data|
    ensures Flatten(Payloads(data, size, k)) == data[..k * size]
  {
    if k == 0 {
      assert k * size == 0;
    } else {
      var before, after := (k - 1) * size, k * size;
      ChunkFits(|data|, size, k - 1);
      MulStep(k, size);
      PayloadsJoin(data, size, k - 1);
      var last := ChunkAt(data, size, k - 1);
      assert last == data[before .. after];
      FlattenConcat(Payloads(data, size, k - 1), [last]);
      assert Flatten([last]) == last + Flatten([]);
      assert data[..before] + data[before .. after] == data[..after];
    }
  }

  /** The payloads actually sent for one `send_packet` call, and how it
      ended: `Done`, or `Raised` with the exception `chr` raises inside
      `compress` (the datagrams before it are already sent by then). */
  datatype Transmission = Transmission(datagrams: seq<seq<byte>>, outcome: Outcome)

  /** Datagram `i` of a chunked frame: `packet_start` only in front of chunk 0
      (the source tests `if i:`). */
  function Marked(i: nat, payload: seq<byte>): seq<byte> {
    if i == 0 then [PacketStart] + payload else payload
  }

  /** The loop of `send_packet` over `chunks`, numbered from `i`. */
  function SendChunks(chunks: seq<seq<int>>, i: nat): Transmission {
    if chunks == [] then Transmission([], Done)
    else match Compressed(chunks[0])
      case Err(e) => Transmission([], Raised(e))
      case Ok(bytes) =>
        var rest := SendChunks(chunks[1..], i + 1);
        Transmission([Marked(i, bytes)] + rest.datagrams, rest.outcome)
  }

  /** `send_packet`: a single marked datagram when the data fits in
      `maxsend_size` values, otherwise one datagram per whole chunk. */
  function SendPacket(data: seq<int>, maxSendSize: nat): Transmission
    requires maxSendSize > 0
  {
    if |data| > maxSendSize then SendChunks(ChunkList(data, maxSendSize), 0)
    else match Compressed(data)
      case Err(e) => Transmission([], Raised(e))
      case Ok(bytes) => Transmission([[PacketStart] + bytes], Done)
  }

  /** The chunk loop sends chunk `j` as its `j`-th datagram, and stops at the
      first chunk holding a value `chr` rejects. */
  lemma {:induction false} SendChunksSpec(chunks: seq<seq<int>>, i: nat)
    ensures var t := SendChunks(chunks, i);
      && |t.datagrams| <= |chunks|
      && (forall j :: 0 <= j < |t.datagrams| ==>
            AllBytes(chunks[j]) && t.datagrams[j] == Marked(i + j, ToBytes(chunks[j])))
      && (t.outcome.Done? ==> |t.datagrams| == |chunks|)
      && (t.outcome.Raised? ==>
            && |t.datagrams| < |chunks| && !AllBytes(chunks[|t.datagrams|])
            && t.outcome.error == ChrError(chunks[|t.datagrams|][FirstNonByte(chunks[|t.datagrams|])]))
  {
    if chunks != [] && AllBytes(chunks[0]) {
      var rest := chunks[1..];
      SendChunksSpec(rest, i + 1);
      var t := SendChunks(chunks, i);
      var tr := SendChunks(rest, i + 1);
      assert t.datagrams == [Marked(i, ToBytes(chunks[0]))] + tr.datagrams;
      forall j | 0 <= j < |t.datagrams|
        ensures AllBytes(chunks[j]) && t.datagrams[j] == Marked(i + j, ToBytes(chunks[j]))
      {
        if j > 0 {
          assert t.datagrams[j] == tr.datagrams[j - 1];
          assert chunks[j] == rest[j - 1];
        }
      }
    }
  }

  /** Without an exception from `chr`, chunks numbered from 1 on arrive unmarked: joined,
      they are the chunks' values as bytes. */
  lemma {:induction false} SendChunksJoin(chunks: seq<seq<int>>, i: nat)
    requires i >= 1 && forall j :: 0 <= j < |chunks| ==> AllBytes(chunks[j])
    ensures AllBytes(Flatten(chunks))
    ensures Flatten(SendChunks(chunks, i).datagrams) == ToBytes(Flatten(chunks))
  {
    if chunks != [] {
      var rest := chunks[1..];
      SendChunksJoin(rest, i + 1);
      ToBytesConcat(chunks[0], Flatten(rest));
      var tr := SendChunks(rest, i + 1);
      assert SendChunks(chunks, i).datagrams == [ToBytes(chunks[0])] + tr.datagrams;
      FlattenConcat([ToBytes(chunks[0])], tr.datagrams);
      assert Flatten([ToBytes(chunks[0])]) == ToBytes(chunks[0]) + Flatten([]);
    }
  }

  /** The chunks of data whose values are all bytes are all bytes. */
  lemma ChunksAreBytes(data: seq<int>, size: nat)
    requires size > 0 && AllBytes(data)
    ensures forall j :: 0 <= j < |ChunkList(data, size)| ==> AllBytes(ChunkList(data, size)[j])
  {
    forall j | 0 <= j < |ChunkList(data, size)|
      ensures AllBytes(ChunkList(data, size)[j])
    {
      ChunkFits(|data|, size, j);
    }
  }

  /** A frame that fits is one datagram, `packet_start` followed by every value. */
  lemma SendPacketFits(data: seq<int>, maxSendSize: nat)
    requires 0 < maxSendSize && |data| <= maxSendSize
    ensures var t := SendPacket(data, maxSendSize);
      && (AllBytes(data) ==> t == Transmission([[PacketStart] + ToBytes(data)], Done)
                             && |t.datagrams[0]| == |data| + 1)
      && (!AllBytes(data) ==> t == Transmission([], Raised(ChrError(data[FirstNonByte(data)]))))
  {
  }

  /** A frame longer than `maxsend_size` is sent as `len / maxsend_size`
      datagrams of whole chunks; only the first one starts with `packet_start`. */
  lemma SendPacketChunked(data: seq<int>, maxSendSize: nat)
    requires 0 < maxSendSize < |data| && AllBytes(data)
    ensures var t := SendPacket(data, maxSendSize);
      && t.outcome.Done?
      && |t.datagrams| == |data| / maxSendSize >= 1
      && AllBytes(ChunkAt(data, maxSendSize, 0))
      && t.datagrams[0] == [PacketStart] + ToBytes(ChunkAt(data, maxSendSize, 0))
      && |t.datagrams[0]| == maxSendSize + 1
      && (forall j :: 1 <= j < |t.datagrams| ==>
            AllBytes(ChunkAt(data, maxSendSize, j)) &&
            t.datagrams[j] == ToBytes(ChunkAt(data, maxSendSize, j)) &&
            |t.datagrams[j]| == maxSendSize)
  {
    DivModUnique(maxSendSize, maxSendSize, 1, 0);
    DivMono(maxSendSize, |data|, maxSendSize);
    var chunks := ChunkList(data, maxSendSize);
    ChunksAreBytes(data, maxSendSize);
    SendChunksSpec(chunks, 0);
    var t := SendPacket(data, maxSendSize);
    assert t == SendChunks(chunks, 0);
  }

  /** A chunked frame's datagrams are all raised or the whole chunk list. */
  lemma SendPacketRaisesIff(data: seq<int>, maxSendSize: nat)
    requires 0 < maxSendSize
    ensures SendPacket(data, maxSendSize).outcome.Raised? <==>
      if |data| <= maxSendSize then !AllBytes(data)
      else exists j :: 0 <= j < |data| / maxSendSize && !AllBytes(ChunkAt(data, maxSendSize, j))
  {
    if |data| > maxSendSize {
      var chunks := ChunkList(data, maxSendSize);
      SendChunksSpec(chunks, 0);
      var t := SendPacket(data, maxSendSize);
      if t.outcome.Raised? {
        assert !AllBytes(ChunkAt(data, maxSendSize, |t.datagrams|));
      }
    }
  }

  /** When `send_packet` raises, it raises what `chr` raises at the frame's
      first non-byte value, and that value lies in the part that would have
      been sent. */
  lemma SendPacketError(data: seq<int>, maxSendSize: nat)
    requires 0 < maxSendSize && SendPacket(data, maxSendSize).outcome.Raised?
    ensures !AllBytes(data) && FirstNonByte(data) < SentLength(|data|, maxSendSize)
    ensures SendPacket(data, maxSendSize).outcome.error == ChrError(data[FirstNonByte(data)])
  {
    var t := SendPacket(data, maxSendSize);
    if |data| <= maxSendSize {
      SendPacketFits(data, maxSendSize);
    } else {
      var chunks := ChunkList(data, maxSendSize);
      assert t == SendChunks(chunks, 0);
      SendChunksSpec(chunks, 0);
      var k := |t.datagrams|;
      assert forall j :: 0 <= j < |chunks| ==> chunks[j] == ChunkAt(data, maxSendSize, j);
      PrefixBytes(data, maxSendSize, k);
      FirstBadChunk(data, maxSendSize, k, k * maxSendSize);
      InWholeChunks(|data|, maxSendSize, k, FirstNonByte(chunks[k]));
    }
  }

  /** When chunk `k` is the first chunk holding a non-byte, the frame's first
      non-byte is that chunk's first one. */
  lemma FirstBadChunk(data: seq<int>, size: nat, k: nat, base: nat)
    requires size > 0 && k < |data| / size && base == k * size
    requires AllBytes(data[..base]) && !AllBytes(ChunkAt(data, size, k))
    ensures !AllBytes(data)
    ensures FirstNonByte(data) == base + FirstNonByte(ChunkAt(data, size, k))
    ensures data[FirstNonByte(data)] == ChunkAt(data, size, k)[FirstNonByte(ChunkAt(data, size, k))]
  {
    var chunk := ChunkAt(data, size, k);
    assert base + size <= |data| && chunk == data[base .. base + size] by {
      ChunkFits(|data|, size, k);
    }
    FirstNonByteAfter(data, base, size);
    var f := FirstNonByte(chunk);
    assert data[base + f] == chunk[f];
  }

  /** Value `r` of chunk `k` lies before the end of the last whole chunk. */
  lemma InWholeChunks(n: nat, size: nat, k: nat, r: nat)
    requires size > 0 && k < n / size && r < size
    ensures k * size + r < (n / size) * size
  {
    MulMono(k + 1, n / size, size);
    MulStep(k + 1, size);
  }

  /** The values before chunk `k` are bytes when the chunks before it are. */
  lemma PrefixBytes(data: seq<int>, size: nat, k: nat)
    requires size > 0 && k < |data| / size
    requires forall j :: 0 <= j < k ==> AllBytes(ChunkAt(data, size, j))
    ensures k * size <= |data| && AllBytes(data[..k * size])
  {
    ChunkFits(|data|, size, k);
    forall i | 0 <= i < k * size ensures IsByte(data[..k * size][i]) {
      EarlierChunk(data, size, k, i);
    }
  }

  /** With the values before `base` all bytes, the first non-byte of the
      slice from `base` on is the frame's first one. */
  lemma FirstNonByteAfter(data: seq<int>, base: nat, len: nat)
    requires base + len <= |data| && AllBytes(data[..base]) && !AllBytes(data[base .. base + len])
    ensures !AllBytes(data) && FirstNonByte(data) == base + FirstNonByte(data[base .. base + len])
  {
    var slice := data[base .. base + len];
    var f := FirstNonByte(slice);
    assert data[base + f] == slice[f];
    assert forall i :: 0 <= i < base + f ==> IsByte(data[i]) by {
      forall i | 0 <= i < base + f ensures IsByte(data[i]) {
        if i < base {
          assert data[..base][i] == data[i];
        } else {
          assert slice[i - base] == data[i];
        }
      }
    }
    FirstNonByteAt(data, base + f);
  }

  /** A value before chunk `k` is a value of an earlier chunk. */
  lemma EarlierChunk(data: seq<int>, size: nat, k: nat, i: int)
    requires size > 0 && k <= |data| / size && 0 <= i < k * size && i < |data|
    requires forall j :: 0 <= j < k ==> AllBytes(ChunkAt(data, size, j))
    ensures IsByte(data[i])
  {
    IndexInGrid(size, k, i);
    DivMod(i, size);
    var j, r := i / size, i % size;
    var chunk := ChunkAt(data, size, j);
    ChunkFits(|data|, size, j);
    assert chunk == data[j * size .. j * size + size];
    assert chunk[r] == data[i];
  }

  /** The first non-byte is the one every earlier value is a byte before. */
  lemma FirstNonByteAt(data: seq<int>, idx: int)
    requires 0 <= idx < |data| && !IsByte(data[idx])
    requires forall i :: 0 <= i < idx ==> IsByte(data[i])
    ensures !AllBytes(data) && FirstNonByte(data) == idx
  {
  }

  /** The number of values a receiver gets: all of them when the frame fits,
      otherwise the whole chunks only. */
  function SentLength(n: nat, maxSendSize: nat): nat
    requires maxSendSize > 0
  {
    if n <= maxSendSize then n else (n / maxSendSize) * maxSendSize
  }

  /** The bytes a receiver reassembles: the datagrams in order, with the
      `packet_start` of the first one dropped. */
  function Reassembled(t: Transmission): seq<byte> {
    if t.datagrams == [] || t.datagrams[0] == [] then []
    else t.datagrams[0][1..] + Flatten(t.datagrams[1..])
  }

  /** Without an exception from `chr`, the receiver gets exactly the first
      `SentLength` values, as bytes: those values are bytes, whatever the
      unsent tail holds. */
  lemma SendPacketReassembly(data: seq<int>, maxSendSize: nat)
    requires 0 < maxSendSize && SendPacket(data, maxSendSize).outcome.Done?
    ensures SentLength(|data|, maxSendSize) <= |data|
    ensures AllBytes(data[..SentLength(|data|, maxSendSize)])
    ensures Reassembled(SendPacket(data, maxSendSize)) == ToBytes(data[..SentLength(|data|, maxSendSize)])
  {
    WholeChunks(|data|, maxSendSize);
    if |data| <= maxSendSize {
      assert data[..|data|] == data;
    } else {
      DivModUnique(maxSendSize, maxSendSize, 1, 0);
      DivMono(maxSendSize, |data|, maxSendSize);
      var chunks := ChunkList(data, maxSendSize);
      var t := SendPacket(data, maxSendSize);
      assert t == SendChunks(chunks, 0);
      SendChunksSpec(chunks, 0);
      PayloadsJoin(data, maxSendSize, |data| / maxSendSize);
      assert chunks == [chunks[0]] + chunks[1..];
      FlattenConcat([chunks[0]], chunks[1..]);
      assert Flatten([chunks[0]]) == chunks[0] + Flatten([]);
      SendChunksJoin(chunks[1..], 1);
      assert t.datagrams[1..] == SendChunks(chunks[1..], 1).datagrams;
      ToBytesConcat(chunks[0], Flatten(chunks[1..]));
      assert t.datagrams[0][1..] == ToBytes(chunks[0]);
    }
  }

  /** A frame of bytes raises nothing. */
  lemma BytesNeverRaise(data: seq<int>, maxSendSize: nat)
    requires 0 < maxSendSize && AllBytes(data)
    ensures SendPacket(data, maxSendSize).outcome.Done?
  {
    if |data| > maxSendSize {
      SendPacketChunked(data, maxSendSize);
    }
  }

  /** The receiver gets the whole frame exactly when it fits in one datagram
      or its length is a multiple of `maxsend_size`; otherwise the values
      after the last whole chunk are never sent. */
  lemma FrameDeliveredIff(data: seq<int>, maxSendSize: nat)
    requires 0 < maxSendSize && AllBytes(data)
    ensures Reassembled(SendPacket(data, maxSendSize)) == ToBytes(data)
            <==> |data| <= maxSendSize || |data| % maxSendSize == 0
  {
    BytesNeverRaise(data, maxSendSize);
    SendPacketReassembly(data, maxSendSize);
    WholeChunks(|data|, maxSendSize);
    var len := SentLength(|data|, maxSendSize);
    if len == |data| {
      assert data[..len] == data;
    } else {
      assert |ToBytes(data[..len])| != |ToBytes(data)|;
    }
  }

  /** A 513-value frame sent with the default `maxsend_size` loses its last value. */
  lemma TailDropped()
    ensures var frame := seq(513, _ => 0);
      AllBytes(frame) && Reassembled(SendPacket(frame, DefaultMaxSendSize)) != ToBytes(frame)
  {
    var frame: seq<int> := seq(513, _ => 0);
    FrameDeliveredIff(frame, DefaultMaxSendSize);
  }

  /** The chunks `chunked` evidently means to yield: whole chunks of `size`
      values, then the remainder, if any, as a last shorter chunk. */
  function FlushedChunks<T>(data: seq<T>, size: nat): (r: seq<seq<T>>)
    requires size > 0
    ensures |r| >= 1
    decreases |data|
  {
    if |data| <= size then [data] else [data[..size]] + FlushedChunks(data[size..], size)
  }

  /** `len / size` rounded up, for a non-empty frame. */
  lemma CeilStep(m: int, size: int)
    requires m >= 1 && size > 0
    ensures m <= size ==> (m + size - 1) / size == 1
    ensures (m + size + size - 1) / size == (m + size - 1) / size + 1
  {
    if m <= size {
      DivModUnique(m + size - 1, size, 1, m - 1);
    }
    DivMod(m + size - 1, size);
    DivModUnique(m + size + size - 1, size, (m + size - 1) / size + 1, (m + size - 1) % size);
  }

  /** The flushed chunks number `len / size` rounded up (one, for a frame
      that fits). */
  lemma {:induction false} FlushedCount<T>(data: seq<T>, size: nat)
    requires size > 0
    ensures |FlushedChunks(data, size)| == if |data| <= size then 1 else (|data| + size - 1) / size
    decreases |data|
  {
    if |data| > size {
      var rest := data[size..];
      FlushedCount(rest, size);
      CeilStep(|rest|, size);
    }
  }

  /** Each flushed chunk holds at most `size` values, all but the last
      exactly `size`; joined, they are the whole frame. */
  lemma {:induction false} FlushedChunksJoin<T>(data: seq<T>, size: nat)
    requires size > 0
    ensures var r := FlushedChunks(data, size);
      && (forall j :: 0 <= j < |r| ==> |r[j]| <= size)
      && (forall j :: 0 <= j < |r| - 1 ==> |r[j]| == size)
      && Flatten(r) == data
    decreases |data|
  {
    var r := FlushedChunks(data, size);
    if |data| <= size {
      assert Flatten(r) == data + Flatten([]);
    } else {
      var rest := data[size..];
      FlushedChunksJoin(rest, size);
      var rr := FlushedChunks(rest, size);
      assert r == [data[..size]] + rr;
      forall j | 0 <= j < |r| ensures |r[j]| <= size && (j < |r| - 1 ==> |r[j]| == size) {
        if j > 0 { assert r[j] == rr[j - 1]; }
      }
      assert r[1..] == rr;
      assert data == data[..size] + rest;
    }
  }

  /** `send_packet` with the remainder flushed: the same marked first
      datagram and unmarked later ones, over the flushed chunks. A frame
      that fits is its own single chunk. */
  function SendPacketFlushed(data: seq<int>, maxSendSize: nat): Transmission
    requires maxSendSize > 0
  {
    SendChunks(FlushedChunks(data, maxSendSize), 0)
  }

  /** Every chunk of a frame of bytes is bytes. */
  lemma FlushedAreBytes(data: seq<int>, size: nat)
    requires size > 0 && AllBytes(data)
    ensures forall j :: 0 <= j < |FlushedChunks(data, size)| ==> AllBytes(FlushedChunks(data, size)[j])
    decreases |data|
  {
    if |data| > size {
      FlushedAreBytes(data[size..], size);
      var r, rr := FlushedChunks(data, size), FlushedChunks(data[size..], size);
      assert r == [data[..size]] + rr;
      forall j | 0 <= j < |r| ensures AllBytes(r[j]) {
        if j > 0 { assert r[j] == rr[j - 1]; }
      }
    }
  }

  /** A non-empty list of byte chunks, sent from number 0, reassembles to
      the chunks joined. */
  lemma SendChunksReassembly(chunks: seq<seq<int>>)
    requires chunks != [] && forall j :: 0 <= j < |chunks| ==> AllBytes(chunks[j])
    ensures AllBytes(Flatten(chunks))
    ensures var t := SendChunks(chunks, 0);
      t.outcome.Done? && |t.datagrams| == |chunks| && Reassembled(t) == ToBytes(Flatten(chunks))
  {
    SendChunksSpec(chunks, 0);
    var t := SendChunks(chunks, 0);
    var rest := chunks[1..];
    assert chunks == [chunks[0]] + rest;
    FlattenConcat([chunks[0]], rest);
    assert Flatten([chunks[0]]) == chunks[0] + Flatten([]);
    SendChunksJoin(rest, 1);
    assert t.datagrams[1..] == SendChunks(rest, 1).datagrams;
    assert t.datagrams[0][1..] == ToBytes(chunks[0]);
    ToBytesConcat(chunks[0], Flatten(rest));
  }

  /** With the remainder flushed, a frame of bytes always arrives whole, in
      `len / maxsend_size` rounded-up datagrams, the first one marked. */
  lemma SendPacketFlushedDelivers(data: seq<int>, maxSendSize: nat)
    requires 0 < maxSendSize && AllBytes(data)
    ensures var t := SendPacketFlushed(data, maxSendSize);
      && t.outcome.Done?
      && |t.datagrams| == (if |data| <= maxSendSize then 1 else (|data| + maxSendSize - 1) / maxSendSize)
      && t.datagrams[0][..1] == [PacketStart]
      && Reassembled(t) == ToBytes(data)
  {
    var chunks := FlushedChunks(data, maxSendSize);
    FlushedCount(data, maxSendSize);
    FlushedChunksJoin(data, maxSendSize);
    FlushedAreBytes(data, maxSendSize);
    SendChunksReassembly(chunks);
    SendChunksSpec(chunks, 0);
  }

  /** The flushed send and `send_packet` deliver the same bytes exactly when
      `send_packet` delivers the whole frame. */
  lemma FlushedAgreesIff(data: seq<int>, maxSendSize: nat)
    requires 0 < maxSendSize && AllBytes(data)
    ensures Reassembled(SendPacketFlushed(data, maxSendSize)) == Reassembled(SendPacket(data, maxSendSize))
            <==> |data| <= maxSendSize || |data| % maxSendSize == 0
  {
    SendPacketFlushedDelivers(data, maxSendSize);
    FrameDeliveredIff(data, maxSendSize);
  }
}
