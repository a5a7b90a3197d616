/**
 Chunked file transfer (packages/peer-client/src/transfer.ts): framing, the send loop, and
 the receiving side with duplicate, misaddressed and malformed chunks.
 */
module Transfer {
  import opened Wrappers

  type byte = b: int | 0 <= b < 256

  type Bytes = seq<byte>

  const TWO32 := 0x1_0000_0000

  // ---- Frames ----

  /** Four bytes, least significant first; `setUint32` keeps the index modulo 2^32. */
  function Header(index: nat): Bytes {
    var x := index % TWO32;
    [x % 256, x / 256 % 256, x / 65536 % 256, x / 16777216]
  }

  function EncodeChunk(index: nat, data: Bytes): Bytes {
    Header(index) + data
  }

  function ReadHeader(buffer: Bytes): nat
    requires |buffer| >= 4
  {
    buffer[0] as int + 256 * (buffer[1] as int) + 65536 * (buffer[2] as int) + 16777216 * (buffer[3] as int)
  }

  datatype DecodeError = TooShort

  datatype OfferError = TooLong

  datatype Frame = Frame(index: nat, data: Bytes)

  /** `getUint32` throws on a buffer without a full header. */
  function DecodeChunk(buffer: Bytes): Result<Frame, DecodeError> {
    if |buffer| < 4 then Err(TooShort) else Ok(Frame(ReadHeader(buffer), buffer[4..]))
  }

  lemma HeaderRoundTrip(index: nat)
    ensures |Header(index)| == 4 && ReadHeader(Header(index)) == index % TWO32
  {
    var x := index % TWO32;
    assert x == x % 256 + 256 * (x / 256);
    assert x / 256 == x / 256 % 256 + 256 * (x / 65536);
    assert x / 65536 == x / 65536 % 256 + 256 * (x / 16777216);
  }

  /** Decoding gives back the data, and the index exactly if it fits in 32 bits. */
  lemma ChunkRoundTrip(index: nat, data: Bytes)
    ensures DecodeChunk(EncodeChunk(index, data)) == Ok(Frame(index % TWO32, data))
    ensures DecodeChunk(EncodeChunk(index, data)) == Ok(Frame(index, data)) <==> index < TWO32
  {
    HeaderRoundTrip(index);
    var buffer := EncodeChunk(index, data);
    assert buffer[..4] == Header(index) && buffer[4..] == data;
    assert buffer[0] == Header(index)[0] && buffer[1] == Header(index)[1];
    assert buffer[2] == Header(index)[2] && buffer[3] == Header(index)[3];
  }

  /** No frame carries an index of 2^32 or more. */
  lemma DecodedIndexFits(buffer: Bytes)
    ensures DecodeChunk(buffer).Ok? ==> DecodeChunk(buffer).value.index < TWO32
  {
  }

  // ---- Cutting a file ----

  function Min(a: int, b: int): int {
    if a < b then a else b
  }

  /** `Math.ceil(size / chunkSize)`. */
  function TotalChunks(size: nat, chunkSize: nat): nat
    requires 0 < chunkSize
  {
    (size + chunkSize - 1) / chunkSize
  }

  /** The slice that the send loop takes for one index. */
  function Chunk(file: Bytes, chunkSize: nat, i: nat): Bytes
    requires i * chunkSize <= |file|
  {
    file[i * chunkSize..Min(i * chunkSize + chunkSize, |file|)]
  }

  lemma ChunkStarts(size: nat, chunkSize: nat, i: nat)
    requires 0 < chunkSize
    ensures i < TotalChunks(size, chunkSize) <==> i * chunkSize < size
  {
    var n := TotalChunks(size, chunkSize);
    var r := (size + chunkSize - 1) % chunkSize;
    assert size + chunkSize - 1 == n * chunkSize + r;
    if i < n {
      MulMono(i, n - 1, chunkSize);
      assert (n - 1) * chunkSize == n * chunkSize - chunkSize;
    } else {
      MulMono(n, i, chunkSize);
    }
  }

  lemma MulMono(a: nat, b: nat, c: nat)
    requires a <= b
    ensures a * c <= b * c
  {
    assert (b - a) * c >= 0;
  }

  function Concat(parts: seq<Bytes>): Bytes {
    if parts == [] then [] else Concat(parts[..|parts| - 1]) + parts[|parts| - 1]
  }

  /** All chunks of a file, as the loop cuts them. */
  function Chunks(file: Bytes, chunkSize: nat): seq<Bytes>
    requires 0 < chunkSize
  {
    seq(TotalChunks(|file|, chunkSize), i requires 0 <= i < TotalChunks(|file|, chunkSize) =>
      ChunkStarts(|file|, chunkSize, i); Chunk(file, chunkSize, i))
  }

  lemma {:induction false} ChunksConcat(file: Bytes, chunkSize: nat, k: nat)
    requires 0 < chunkSize && k <= TotalChunks(|file|, chunkSize)
    ensures Concat(Chunks(file, chunkSize)[..k]) == file[..Min(k * chunkSize, |file|)]
  {
    if k > 0 {
      var cs := Chunks(file, chunkSize);
      ChunksConcat(file, chunkSize, k - 1);
      ChunkStarts(|file|, chunkSize, k - 1);
      assert cs[..k][..k - 1] == cs[..k - 1];
      var start := (k - 1) * chunkSize;
      assert start + chunkSize == k * chunkSize;
      assert cs[k - 1] == Chunk(file, chunkSize, k - 1);
      SlicesJoin(file, start, Min(start + chunkSize, |file|));
    }
  }

  lemma SlicesJoin(file: Bytes, a: nat, b: nat)
    requires a <= b <= |file|
    ensures file[..a] + file[a..b] == file[..b]
  {
  }

  /** The chunks of a file put together are the file. */
  lemma ChunksAreFile(file: Bytes, chunkSize: nat)
    requires 0 < chunkSize
    ensures Concat(Chunks(file, chunkSize)) == file
  {
    var n := TotalChunks(|file|, chunkSize);
    ChunksConcat(file, chunkSize, n);
    ChunkStarts(|file|, chunkSize, n);
    assert Chunks(file, chunkSize)[..n] == Chunks(file, chunkSize);
    assert file[..|file|] == file;
  }

  /** The frame with number `i`. */
  function FrameBytes(file: Bytes, chunkSize: nat, i: nat): Bytes
    requires 0 < chunkSize && i < TotalChunks(|file|, chunkSize)
  {
    EncodeChunk(i, Chunks(file, chunkSize)[i])
  }

  /** The bytes in the first `k` chunks. */
  lemma BytesOut(file: Bytes, chunkSize: nat, k: nat)
    requires 0 < chunkSize && k <= TotalChunks(|file|, chunkSize)
    ensures |Concat(Chunks(file, chunkSize)[..k])| == Min(k * chunkSize, |file|)
    ensures k == TotalChunks(|file|, chunkSize) ==> |Concat(Chunks(file, chunkSize)[..k])| == |file|
  {
    ChunksConcat(file, chunkSize, k);
    ChunkStarts(|file|, chunkSize, k);
  }

  /** One round of the send loop. */
  method SendOne(file: Bytes, chunkSize: nat, index: nat) returns (frame: Bytes, sent: nat)
    requires 0 < chunkSize && index < TotalChunks(|file|, chunkSize)
    ensures frame == FrameBytes(file, chunkSize, index) && sent == |Chunks(file, chunkSize)[index]|
  {
    ChunkStarts(|file|, chunkSize, index);
    var start := index * chunkSize;
    var end := Min(start + chunkSize, |file|);
    var slice := file[start..end];
    assert slice == Chunk(file, chunkSize, index) == Chunks(file, chunkSize)[index];
    return EncodeChunk(index, slice), |slice|;
  }

  /** `sendNext`, stopped by a cancellation or a failed send when `stopAt` frames are out. */
  method SendLoop(file: Bytes, chunkSize: nat, stopAt: nat) returns (frames: seq<Bytes>, bytesSent: nat, completed: bool)
    requires 0 < chunkSize
    ensures |frames| == Min(stopAt, TotalChunks(|file|, chunkSize))
    ensures forall i | 0 <= i < |frames| :: frames[i] == FrameBytes(file, chunkSize, i)
    ensures completed <==> TotalChunks(|file|, chunkSize) <= stopAt
    ensures bytesSent == Min(|frames| * chunkSize, |file|)
    ensures completed ==> bytesSent == |file|
  {
    var totalChunks := TotalChunks(|file|, chunkSize);
    ghost var chunks := Chunks(file, chunkSize);
    frames, bytesSent := [], 0;
    var currentIndex := 0;
    while currentIndex < totalChunks && currentIndex < stopAt
      invariant currentIndex == |frames| <= Min(stopAt, totalChunks)
      invariant forall i | 0 <= i < |frames| :: frames[i] == FrameBytes(file, chunkSize, i)
      invariant bytesSent == |Concat(chunks[..currentIndex])|
    {
      var frame, sent := SendOne(file, chunkSize, currentIndex);
      frames := frames + [frame];
      assert chunks[..currentIndex + 1][..currentIndex] == chunks[..currentIndex];
      bytesSent := bytesSent + sent;
      currentIndex := currentIndex + 1;
    }
    completed := currentIndex >= totalChunks;
    BytesOut(file, chunkSize, currentIndex);
  }

  // ---- The receiving side ----

  type Slots = seq<Option<Bytes>>

  /** One incoming transfer; `received` is the counter the source keeps next to the slots. */
  datatype Receive = Receive(from: string, totalChunks: nat, chunks: Slots, received: nat)

  type Receiving = map<string, Receive>

  datatype Outcome = Absent | Missing(index: nat) | Assembled(file: Bytes)

  const PREFIX := "ft-"

  function NewReceive(from: string, totalChunks: nat): Receive {
    Receive(from, totalChunks, seq(totalChunks, _ => None), 0)
  }

  /** An `offer`; a second one under the same id starts over. No array has 2^32 slots or
      more: the attempt to make one throws before anything is stored. */
  function Offer(m: Receiving, id: string, totalChunks: nat, from: string): Receiving {
    if totalChunks >= TWO32 then m else m[id := NewReceive(from, totalChunks)]
  }

  /** A decoded chunk: out-of-range indices and filled slots are left alone. */
  function Fill(r: Receive, frame: Frame): Receive
    requires |r.chunks| == r.totalChunks
  {
    if frame.index >= r.totalChunks || r.chunks[frame.index].Some? then r
    else r.(chunks := r.chunks[frame.index := Some(frame.data)], received := r.received + 1)
  }

  /** `handleBinaryChunk`: the channel names the transfer, and only its sender may fill it. */
  function HandleChunk(m: Receiving, channel: string, from: string, buffer: Bytes): Receiving
    requires forall id <- m :: |m[id].chunks| == m[id].totalChunks
  {
    if !(PREFIX <= channel) then m
    else
      var id := channel[|PREFIX|..];
      if id !in m || m[id].from != from || DecodeChunk(buffer).Err? then m
      else m[id := Fill(m[id], DecodeChunk(buffer).value)]
  }

  function FirstMissing(slots: Slots): Option<nat> {
    if slots == [] then None
    else if slots[0].None? then Some(0)
    else match FirstMissing(slots[1..]) case None => None case Some(i) => Some(i + 1)
  }

  function Parts(slots: Slots): seq<Bytes> {
    if slots == [] then []
    else Parts(slots[..|slots| - 1]) + (match slots[|slots| - 1] case None => [] case Some(d) => [d])
  }

  /** `assembleFile`. */
  function Assemble(m: Receiving, id: string): Outcome {
    if id !in m then Absent
    else
      match FirstMissing(m[id].chunks)
      case Some(i) => Missing(i)
      case None => Assembled(Concat(Parts(m[id].chunks)))
  }

  function AfterAssemble(m: Receiving, id: string): Receiving {
    if Assemble(m, id).Assembled? then m - {id} else m
  }

  class FileReceiver {
    var receiving: Receiving

    ghost predicate Valid()
      reads this
    {
      forall id <- receiving :: |receiving[id].chunks| == receiving[id].totalChunks
    }

    constructor ()
      ensures Valid() && receiving == map[]
    {
      receiving := map[];
    }

    /** `new Array(n).fill(null)`, which throws for a length that no array can have. */
    static method NewSlots(n: nat) returns (slots: Result<Slots, OfferError>)
      ensures slots.Err? <==> n >= TWO32
      ensures slots.Ok? ==> |slots.value| == n && forall i | 0 <= i < n :: slots.value[i].None?
    {
      if n >= TWO32 { return Err(TooLong); }
      return Ok(seq(n, _ => None));
    }

    method HandleOffer(id: string, totalChunks: nat, from: string) returns (thrown: Option<OfferError>)
      requires Valid()
      modifies this
      ensures Valid() && receiving == Offer(old(receiving), id, totalChunks, from)
      ensures thrown == if totalChunks >= TWO32 then Some(TooLong) else None
    {
      var slots := NewSlots(totalChunks);
      if slots.Err? { return Some(TooLong); }
      assert slots.value == NewReceive(from, totalChunks).chunks;
      receiving := receiving[id := Receive(from, totalChunks, slots.value, 0)];
      return None;
    }

    method HandleBinaryChunk(buffer: Bytes, from: string, channel: string)
      requires Valid()
      modifies this
      ensures Valid() && receiving == HandleChunk(old(receiving), channel, from, buffer)
    {
      if !(PREFIX <= channel) { return; }
      var transferId := channel[|PREFIX|..];
      if transferId !in receiving { return; }
      var recv := receiving[transferId];
      if recv.from != from { return; }
      var decoded := DecodeChunk(buffer);
      if decoded.Err? || decoded.value.index >= recv.totalChunks { return; }
      var index := decoded.value.index;
      if recv.chunks[index].None? {
        recv := recv.(chunks := recv.chunks[index := Some(decoded.value.data)]);
        recv := recv.(received := recv.received + 1);
      }
      receiving := receiving[transferId := recv];
    }

    method AssembleFile(id: string) returns (outcome: Outcome)
      requires Valid()
      modifies this
      ensures Valid() && outcome == Assemble(old(receiving), id)
      ensures receiving == AfterAssemble(old(receiving), id)
    {
      if id !in receiving { return Absent; }
      var recv := receiving[id];
      var missing := FindMissing(recv.chunks);
      if missing.Some? { return Missing(missing.value); }
      var blob := Join(recv.chunks);
      receiving := receiving - {id};
      return Assembled(blob);
    }

    static method FindMissing(slots: Slots) returns (missing: Option<nat>)
      ensures missing == FirstMissing(slots)
      ensures missing.Some? ==> missing.value < |slots| && slots[missing.value].None?
      ensures missing.None? <==> forall i | 0 <= i < |slots| :: slots[i].Some?
    {
      for i := 0 to |slots|
        invariant forall k | 0 <= k < i :: slots[k].Some?
      {
        if slots[i].None? {
          FirstMissingAt(slots, i);
          return Some(i);
        }
      }
      NoneMissing(slots);
      return None;
    }

    /** The filter of the non-null parts and the `Blob` made of them. */
    static method Join(slots: Slots) returns (blob: Bytes)
      ensures blob == Concat(Parts(slots))
    {
      blob := [];
      for i := 0 to |slots|
        invariant blob == Concat(Parts(slots[..i]))
      {
        assert slots[..i + 1][..i] == slots[..i];
        ghost var before := Parts(slots[..i]);
        assert before + [] == before;
        if slots[i].Some? {
          assert (before + [slots[i].value])[..|before|] == before;
          blob := blob + slots[i].value;
        }
      }
      assert slots[..|slots|] == slots;
    }
  }

  lemma {:induction false} FirstMissingAt(slots: Slots, i: nat)
    requires i < |slots| && slots[i].None? && forall k | 0 <= k < i :: slots[k].Some?
    ensures FirstMissing(slots) == Some(i)
  {
    if i > 0 { FirstMissingAt(slots[1..], i - 1); }
  }

  lemma {:induction false} NoneMissing(slots: Slots)
    ensures FirstMissing(slots).None? <==> forall i | 0 <= i < |slots| :: slots[i].Some?
  {
    if slots != [] {
      NoneMissing(slots[1..]);
      if FirstMissing(slots).None? {
        forall i | 0 <= i < |slots| ensures slots[i].Some? {
          if i > 0 { assert slots[1..][i - 1] == slots[i]; }
        }
      } else if slots[0].Some? {
        var j :| 0 <= j < |slots[1..]| && slots[1..][j].None?;
        assert slots[j + 1].None?;
      }
    }
  }
}
