/** The request body on its way to the HTTP/3 layer: a producer appends chunks, the data
    reader offers bounded pieces of them in order. */
module RequestBody {

  type Bytes = seq<bv8>

  const MAX_BUFFERED := 4 * 1024 * 1024
  const MAX_READ := 64 * 1024
  const SIZE_MAX := 0xFFFF_FFFF_FFFF_FFFF
  const INT64_MAX := 0x7FFF_FFFF_FFFF_FFFF

  function Flatten(chunks: seq<Bytes>): Bytes {
    if chunks == [] then [] else chunks[0] + Flatten(chunks[1..])
  }

  lemma {:induction false} FlattenAppend(a: seq<Bytes>, b: seq<Bytes>)
    ensures Flatten(a + b) == Flatten(a) + Flatten(b)
  {
    if a == [] {
      assert a + b == b;
    } else {
      assert (a + b)[1..] == a[1..] + b;
      FlattenAppend(a[1..], b);
      assert a[0] + (Flatten(a[1..]) + Flatten(b)) == (a[0] + Flatten(a[1..])) + Flatten(b);
    }
  }

  lemma FlattenOne(chunk: Bytes)
    ensures Flatten([chunk]) == chunk
  {
    assert Flatten([]) == [];
    assert chunk + [] == chunk;
  }

  lemma FlattenHead(chunks: seq<Bytes>)
    requires chunks != []
    ensures Flatten(chunks) == chunks[0] + Flatten(chunks[1..])
  {
  }

  predicate NoEmptyChunk(chunks: seq<Bytes>) { forall i :: 0 <= i < |chunks| ==> chunks[i] != [] }

  lemma NothingLeft(chunks: seq<Bytes>)
    requires NoEmptyChunk(chunks)
    ensures Flatten(chunks) == [] <==> chunks == []
  {
  }

  predicate CanAdvance(offset: nat, amount: nat, limit: nat) { offset <= limit && amount <= limit - offset }

  function Min(a: nat, b: nat): nat { if a < b then a else b }

  /** What is left of the first chunk that is not exhausted. */
  function FrontLeft(chunks: seq<Bytes>, offset: nat): nat
    requires chunks == [] || offset <= |chunks[0]|
  {
    if chunks == [] then 0
    else if offset < |chunks[0]| then |chunks[0]| - offset
    else FrontLeft(chunks[1..], 0)
  }

  datatype AppendStatus = Ok | NoMem | InvalidArg

  /** A negative result, WOULDBLOCK, EOF without data, or data with or without EOF. */
  datatype Read = Failure | WouldBlock | End | Data(bytes: Bytes, eof: bool)

  class StreamingBody {
    var chunks: seq<Bytes>
    var chunkOffset: nat
    var buffered: nat
    var finished: bool
    var bodySent: nat
    const declared: int  // the declared length, negative when unknown
    ghost var appended: Bytes
    ghost var offered: Bytes

    ghost predicate Valid()
      reads this
    {
      && NoEmptyChunk(chunks)
      && (if chunks == [] then chunkOffset == 0 else chunkOffset <= |chunks[0]|)
      && chunkOffset <= |Flatten(chunks)|
      && appended == offered + Remaining()
      && buffered == |Remaining()| <= MAX_BUFFERED
      && bodySent == |offered| <= SIZE_MAX
      && declared <= INT64_MAX
      && (declared >= 0 ==> bodySent <= declared)
    }

    /** Bytes appended and not yet offered. */
    ghost function Remaining(): Bytes
      requires chunkOffset <= |Flatten(chunks)|
      reads this
    {
      Flatten(chunks)[chunkOffset..]
    }

    constructor (declaredLength: int)
      requires declaredLength <= INT64_MAX
      ensures Valid() && appended == [] && offered == [] && !finished && declared == declaredLength
      ensures chunks == [] && chunkOffset == 0
    {
      declared := declaredLength;
      chunks, chunkOffset, buffered, finished, bodySent := [], 0, 0, false, 0;
      appended, offered := [], [];
    }

    /** Takes the bytes whole or not at all. */
    method Append(data: Bytes, last: bool) returns (status: AppendStatus)
      requires Valid()
      modifies this`chunks, this`buffered, this`finished, this`appended
      ensures Valid()
      ensures chunks == if status == Ok && data != [] then old(chunks) + [data] else old(chunks)
      ensures status == NoMem <==> |data| + |old(appended)| - |offered| > MAX_BUFFERED
      ensures status == InvalidArg <==> old(finished) && |data| + |old(appended)| - |offered| <= MAX_BUFFERED
      ensures appended == if status == Ok then old(appended) + data else old(appended)
      ensures finished == if status == Ok then last else old(finished)
    {
      hide Flatten;
      if |data| > MAX_BUFFERED - buffered { return NoMem; }
      if finished { return InvalidArg; }
      if data != [] {
        FlattenAppend(chunks, [data]);
        FlattenOne(data);
        FlattenHeadKnown(chunks + [data]);
        ghost var was := Remaining();
        chunks := chunks + [data];
        buffered := buffered + |data|;
        assert Remaining() == was + data;
        appended := appended + data;
        assert appended == offered + Remaining();
      } else {
        assert appended + data == appended;
      }
      finished := last;
      return Ok;
    }

    /** Drops the chunks that have been offered whole. */
    method PopExhausted()
      requires Valid()
      modifies this`chunks, this`chunkOffset
      ensures Valid() && Remaining() == old(Remaining())
      ensures chunks != [] ==> chunkOffset < |chunks[0]|
      ensures chunks == [] <==> Remaining() == []
      ensures FrontLeft(chunks, chunkOffset) == old(FrontLeft(chunks, chunkOffset))
    {
      hide Flatten;
      ghost var rest := Remaining();
      while chunks != []
        invariant Valid() && Remaining() == rest
        invariant FrontLeft(chunks, chunkOffset) == old(FrontLeft(chunks, chunkOffset))
        decreases |chunks|
      {
        if chunkOffset != |chunks[0]| { break; }
        FlattenHead(chunks);
        FlattenHeadKnown(chunks[1..]);
        chunks := chunks[1..];
        chunkOffset := 0;
      }
      NothingLeft(chunks);
      FlattenHeadKnown(chunks);
      assert chunks == [] ==> Remaining() == [];
    }

    /** Moves `amount` bytes of the front chunk to the reader. */
    method Offer(amount: nat) returns (bytes: Bytes)
      requires Valid() && chunks != [] && 0 < amount <= |chunks[0]| - chunkOffset
      requires bodySent + amount <= SIZE_MAX && (declared >= 0 ==> bodySent + amount <= declared)
      modifies this`chunkOffset, this`buffered, this`bodySent, this`offered
      ensures Valid() && |bytes| == amount && offered == old(offered) + bytes
      ensures |chunks| == 1 && chunkOffset == |chunks[0]| <==> offered == appended
    {
      hide Flatten;
      ghost var rest := Remaining();
      FlattenHead(chunks);
      bytes := chunks[0][chunkOffset..chunkOffset + amount];
      assert bytes == rest[..amount] && rest == rest[..amount] + rest[amount..];
      assert (offered + bytes) + rest[amount..] == offered + rest;
      offered := offered + bytes;
      bodySent := bodySent + amount;
      buffered := buffered - amount;
      chunkOffset := chunkOffset + amount;
      assert Remaining() == rest[amount..];
      OnlyChunk(chunks, chunkOffset);
      assert rest[amount..] == [] ==> offered + rest[amount..] == offered;
    }

    /** The reader offers the next bytes in order, at most 64 KiB of the front chunk, and
        fails exactly when the declared length would be passed or was not reached. */
    method DataRead() returns (r: Read)
      requires Valid()
      modifies this`chunks, this`chunkOffset, this`buffered, this`bodySent, this`offered
      ensures Valid()
      ensures offered == if r.Data? then old(offered) + r.bytes else old(offered)
      ensures r.Data? ==> 1 <= |r.bytes| == Min(MAX_READ, old(FrontLeft(chunks, chunkOffset)))
      ensures r.Data? ==> (r.eof <==> finished && offered == appended)
      ensures r == End ==> finished && offered == appended && (declared >= 0 ==> |offered| == declared)
      ensures r == WouldBlock <==> !finished && old(offered) == appended
      ensures r == Failure <==>
                if old(offered) == appended then finished && declared >= 0 && |appended| != declared
                else
                  var next := |old(offered)| + Min(MAX_READ, old(FrontLeft(chunks, chunkOffset)));
                  next > SIZE_MAX || (declared >= 0 && next > declared)
    {
      hide Flatten;
      PopExhausted();
      if chunks == [] {
        assert appended == offered by { assert offered + [] == offered; }
        if !finished { return WouldBlock; }
        return if declared >= 0 && bodySent != declared then Failure else End;
      }
      assert offered != appended;
      var amount := Min(|chunks[0]| - chunkOffset, MAX_READ);
      if !CanAdvance(bodySent, amount, SIZE_MAX) { return Failure; }
      if declared >= 0 && (declared > SIZE_MAX || !CanAdvance(bodySent, amount, declared)) { return Failure; }
      var bytes := Offer(amount);
      return Data(bytes, finished && |chunks| == 1 && chunkOffset == |chunks[0]|);
    }
  }

  /** A body that is held whole. */
  class FixedBody {
    const body: Bytes
    var bodySent: nat
    ghost var offered: Bytes

    ghost predicate Valid()
      reads this
    {
      bodySent <= |body| && offered == body[..bodySent]
    }

    constructor (content: Bytes)
      ensures Valid() && body == content && offered == []
    {
      body, bodySent, offered := content, 0, [];
    }

    /** The end is flagged with the last bytes, and never before them. */
    method DataRead() returns (r: Read)
      requires Valid()
      modifies this
      ensures Valid()
      ensures r == End || (r.Data? && r.bytes != [])
      ensures r == End <==> old(offered) == body
      ensures r.Data? ==> offered == old(offered) + r.bytes && |r.bytes| == Min(MAX_READ, |body| - |old(offered)|)
      ensures r.Data? ==> (r.eof <==> offered == body)
      ensures r == End ==> offered == old(offered)
    {
      var remaining := |body| - bodySent;
      if remaining == 0 { return End; }
      var amount := Min(remaining, MAX_READ);
      var bytes := body[bodySent..bodySent + amount];
      bodySent := bodySent + amount;
      offered := offered + bytes;
      return Data(bytes, bodySent == |body|);
    }
  }

  /** Reading on, once the producer has finished, until the end of the stream is flagged
      or a read fails. A body shorter than declared gets away with an end of stream if and
      only if bytes were still buffered when the producer finished; a body of the declared
      length, or of no declared length, always ends well, and a longer one always fails. */
  method ReadToEnd(body: StreamingBody) returns (last: Read)
    requires body.Valid() && body.finished
    modifies body
    ensures body.Valid() && body.appended == old(body.appended)
    ensures last == Failure || last == End || (last.Data? && last.eof)
    ensures last == Failure <==>
              || |body.appended| > SIZE_MAX
              || (body.declared >= 0 && |body.appended| > body.declared)
              || (body.declared >= 0 && |body.appended| < body.declared && old(body.buffered) == 0)
    ensures last != Failure ==> body.offered == body.appended
  {
    ghost var all, held := body.appended, body.buffered;
    FrontFits(body.chunks, body.chunkOffset);
    last := body.DataRead();
    while last.Data? && !last.eof
      invariant body.Valid() && body.finished && body.appended == all && last != WouldBlock
      invariant last.Data? ==> held > 0 && (last.eof <==> body.offered == body.appended)
      invariant last == End ==>
                  held == 0 && body.offered == body.appended && (body.declared >= 0 ==> |all| == body.declared)
      invariant last == Failure ==>
                  || |all| > SIZE_MAX
                  || (body.declared >= 0 && |all| > body.declared)
                  || (body.declared >= 0 && |all| < body.declared && held == 0)
      decreases if last.Data? && !last.eof then 1 + |all| - |body.offered| else 0
    {
      FrontFits(body.chunks, body.chunkOffset);
      last := body.DataRead();
    }
  }

  /** The end of the stream can be flagged with the last data although fewer bytes were
      sent than declared: only the read that finds nothing left compares the two. */
  method ShortBodyEndsQuietly() returns (sent: nat, declared: int, r: Read)
    ensures r.Data? && r.eof && sent == 3 && declared == 5
  {
    var body := new StreamingBody(5);
    var status := body.Append([1, 2, 3], true);
    assert body.chunks == [[1, 2, 3]] && body.appended == [1, 2, 3];
    r := body.DataRead();
    assert |body.offered| == 3 && body.offered == body.appended;
    sent, declared := body.bodySent, body.declared;
  }

  /** The same short body is refused once its bytes have been read before it finishes. */
  method DrainedShortBodyFails() returns (first: Read, last: Read)
    ensures first.Data? && !first.eof && last == Failure
  {
    var body := new StreamingBody(5);
    var status := body.Append([1, 2, 3], false);
    assert body.chunks == [[1, 2, 3]] && body.appended == [1, 2, 3];
    first := body.DataRead();
    assert |body.offered| == 3 && body.offered == body.appended;
    status := body.Append([], true);
    assert body.appended + [] == body.appended;
    last := body.DataRead();
  }

  lemma FlattenHeadKnown(chunks: seq<Bytes>)
    ensures chunks != [] ==> Flatten(chunks) == chunks[0] + Flatten(chunks[1..])
    ensures chunks == [] ==> Flatten(chunks) == []
  {
  }

  lemma FrontFits(chunks: seq<Bytes>, offset: nat)
    requires chunks == [] || offset <= |chunks[0]|
    ensures FrontLeft(chunks, offset) + offset <= |Flatten(chunks)| + if chunks == [] then offset else 0
    decreases |chunks|
  {
    if chunks != [] {
      FlattenHead(chunks);
      if offset == |chunks[0]| { FrontFits(chunks[1..], 0); }
    }
  }

  lemma OnlyChunk(chunks: seq<Bytes>, offset: nat)
    requires chunks != [] && NoEmptyChunk(chunks) && offset <= |chunks[0]|
    ensures |Flatten(chunks)| >= |chunks[0]|
    ensures offset == |Flatten(chunks)| <==> |chunks| == 1 && offset == |chunks[0]|
  {
    FlattenHead(chunks);
    NothingLeft(chunks[1..]);
  }
}
