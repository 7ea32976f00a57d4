/** The response-streaming framer: a read-only stream that emits a serialised
    JSON header, then eight zero bytes, then the bytes of the wrapped payload
    stream, through ordinary `Read(buffer, offset, count)` calls. */
module ResponseFraming {
  import opened Common
  import opened StreamedResponses

  /** Number of zero bytes between the header and the payload. */
  const SentinelLength: nat := 8

  /** `n` zero bytes. */
  function Zeros(n: nat): (r: seq<byte>)
    ensures |r| == n
    ensures forall i :: 0 <= i < n ==> r[i] == 0
  {
    seq(n, _ => 0)
  }

  /** Everything the wrapper emits before the first payload byte. */
  function Frame(header: seq<byte>): (r: seq<byte>)
    ensures |r| == |header| + SentinelLength
    ensures r[..|header|] == header
    ensures forall i :: |header| <= i < |r| ==> r[i] == 0
  {
    header + Zeros(SentinelLength)
  }

  function Min(a: int, b: int): int
  {
    if a <= b then a else b
  }

  /** The wrapped payload stream: a byte sequence with a read cursor. Each
      `Read` delivers some number of the remaining bytes, at least one while
      any remain and room was asked for. */
  class PayloadSource {
    const data: seq<byte>
    var cursor: nat
    ghost var calls: nat      // how many times Read was called
    var disposals: nat        // how many times Dispose was called

    ghost predicate Valid()
      reads this
    {
      cursor <= |data|
    }

    constructor (data: seq<byte>)
      ensures Valid()
      ensures this.data == data && cursor == 0 && calls == 0 && disposals == 0
    {
      this.data := data;
      cursor := 0;
      calls := 0;
      disposals := 0;
    }

    /** `Stream.CanRead` of the payload stream. */
    function CanRead(): bool
    {
      true
    }

    method Read(buffer: array<byte>, offset: nat, count: nat) returns (k: nat)
      requires Valid()
      requires offset + count <= buffer.Length
      modifies this, buffer
      ensures Valid()
      ensures k <= count
      ensures k == 0 <==> (count == 0 || old(cursor) == |data|)
      ensures cursor == old(cursor) + k
      ensures buffer[offset..offset + k] == data[old(cursor)..cursor]
      // like `Stream.Read`, it may use all of `[offset, offset + count)`
      ensures forall i :: 0 <= i < buffer.Length && !(offset <= i < offset + count) ==> buffer[i] == old(buffer[i])
      ensures calls == old(calls) + 1 && disposals == old(disposals)
    {
      calls := calls + 1;
      if count == 0 || cursor == |data| {
        return 0;
      }
      // how many bytes arrive in this call is up to the stream
      k :| 1 <= k <= count && k <= |data| - cursor;
      forall i | 0 <= i < k {
        buffer[offset + i] := data[cursor + i];
      }
      cursor := cursor + k;
    }

    method Dispose()
      modifies this
      ensures disposals == old(disposals) + 1
      ensures cursor == old(cursor) && calls == old(calls)
    {
      disposals := disposals + 1;
    }
  }

  /** `StreamedResponseWrapper`. */
  class StreamedResponseWrapper {
    const input: PayloadSource
    const header: seq<byte>
    ghost const startCursor: nat
    var writtenBytes: nat
    var headerWritten: bool
    var disposed: bool

    ghost predicate Valid()
      reads this, input
    {
      && input.Valid()
      && startCursor <= input.cursor
      && writtenBytes <= |header| + SentinelLength
      && headerWritten == (writtenBytes == |header| + SentinelLength)
      && (!headerWritten ==> input.cursor == startCursor)
    }

    /** The whole byte stream the wrapper stands for. */
    ghost function Envelope(): seq<byte>
      requires startCursor <= |input.data|
    {
      Frame(header) + input.data[startCursor..]
    }

    /** The bytes the wrapper has returned so far, over all its reads. */
    ghost function Emitted(): (e: seq<byte>)
      reads this, input
      requires Valid()
      ensures |e| == writtenBytes + input.cursor - startCursor
    {
      Frame(header)[..writtenBytes] + input.data[startCursor..input.cursor]
    }

    /** True when every byte of the envelope has been returned. */
    ghost predicate AtEnd()
      reads this, input
    {
      headerWritten && input.cursor == |input.data|
    }

    constructor (response: StreamedResponse<PayloadSource>, serialize: ResponseMetadata -> seq<byte>)
      requires response.stream.Valid()
      ensures Valid()
      ensures header == serialize(response.Metadata())
      ensures input == response.stream && startCursor == input.cursor
      ensures writtenBytes == 0 && !headerWritten && !disposed
      ensures Emitted() == []
    {
      header := serialize(response.Metadata());
      input := response.stream;
      startCursor := response.stream.cursor;
      writtenBytes := 0;
      headerWritten := false;
      disposed := false;
    }

    function CanRead(): (b: bool)
      ensures b == input.CanRead()
    {
      input.CanRead()
    }

    function CanSeek(): (b: bool)
      ensures !b
    {
      false
    }

    function CanWrite(): (b: bool)
      ensures !b
    {
      false
    }

    function Length(): (r: Result<int>)
      ensures r == Failure(NotSupported)
    {
      Failure(NotSupported)
    }

    /** The `Position` getter: the payload position plus the framing bytes
        returned so far. */
    function Position(): (p: int)
      reads this, input
      requires Valid()
      ensures p == startCursor + |Emitted()|
    {
      input.cursor + writtenBytes
    }

    /** The `Position` setter. */
    method SetPosition(value: int) returns (r: Outcome)
      ensures r == Fail(NotSupported)
    {
      r := Fail(NotSupported);
    }

    method Read(buffer: array<byte>, offset: nat, count: nat) returns (r: nat)
      requires Valid()
      requires offset + count <= buffer.Length
      modifies this, input, buffer
      ensures Valid() && disposed == old(disposed) && input.disposals == old(input.disposals)
      ensures r <= count
      // the framing bytes are clamped: never more than the rest of the frame
      ensures writtenBytes == old(writtenBytes) + Min(count, |header| + SentinelLength - old(writtenBytes))
      ensures old(headerWritten) ==> headerWritten
      ensures old(input.cursor) <= input.cursor
      // what lands in the buffer: the rest of the frame, then payload bytes
      ensures buffer[offset..offset + r]
              == Frame(header)[old(writtenBytes)..writtenBytes] + input.data[old(input.cursor)..input.cursor]
      ensures forall i :: 0 <= i < buffer.Length && !(offset <= i < offset + count) ==> buffer[i] == old(buffer[i])
      ensures input.calls == old(input.calls) ==>
                forall i :: 0 <= i < buffer.Length && !(offset <= i < offset + r) ==> buffer[i] == old(buffer[i])
      ensures Emitted() == old(Emitted()) + buffer[offset..offset + r]
      // the payload stream is read only once the whole frame is out, and
      // then whenever room is left
      ensures input.calls == old(input.calls) + (if old(headerWritten) || count > |header| + SentinelLength - old(writtenBytes) then 1 else 0)
      // room left after the frame, and payload left: some payload arrives
      ensures count > |header| + SentinelLength - old(writtenBytes) && old(input.cursor) < |input.data|
              ==> input.cursor > old(input.cursor)
      ensures r == 0 <==> (count == 0 || old(AtEnd()))
    {
      if headerWritten {
        r := input.Read(buffer, offset, count);
        EmittedExtends(header, input.data, startCursor, writtenBytes, writtenBytes, old(input.cursor), input.cursor);
        return;
      }
      r := FrameThenRead(buffer, offset, count);
      EmittedExtends(header, input.data, startCursor, old(writtenBytes), writtenBytes, old(input.cursor), input.cursor);
    }

    /** Lines 68-98 of `Read`, while the frame is not yet complete: the rest
        of the frame, then, if room is left, one read of the payload stream. */
    method FrameThenRead(buffer: array<byte>, offset: nat, count: nat) returns (r: nat)
      requires Valid() && !headerWritten
      requires offset + count <= buffer.Length
      modifies this`writtenBytes, this`headerWritten, input, buffer
      ensures Valid() && input.disposals == old(input.disposals)
      ensures r <= count
      ensures writtenBytes == old(writtenBytes) + Min(count, |header| + SentinelLength - old(writtenBytes))
      ensures old(input.cursor) <= input.cursor
      ensures buffer[offset..offset + r]
              == Frame(header)[old(writtenBytes)..writtenBytes] + input.data[old(input.cursor)..input.cursor]
      ensures forall i :: 0 <= i < buffer.Length && !(offset <= i < offset + count) ==> buffer[i] == old(buffer[i])
      ensures input.calls == old(input.calls) ==>
                forall i :: 0 <= i < buffer.Length && !(offset <= i < offset + r) ==> buffer[i] == old(buffer[i])
      ensures input.calls == old(input.calls) + (if count > |header| + SentinelLength - old(writtenBytes) then 1 else 0)
      ensures count > |header| + SentinelLength - old(writtenBytes) && old(input.cursor) < |input.data|
              ==> input.cursor > old(input.cursor)
      ensures r == 0 <==> count == 0
    {
      var start := writtenBytes;
      var framed := WriteFraming(buffer, offset, count);
      var off, cnt := offset + framed, count - framed;
      headerWritten := writtenBytes >= |header| + SentinelLength;
      if cnt > 0 {
        ghost var before := buffer[..];
        var k := input.Read(buffer, off, cnt);
        assert buffer[offset..off] == before[offset..off];
        assert buffer[offset..off + k] == buffer[offset..off] + buffer[off..off + k];
        r := writtenBytes - start + k;
      } else {
        r := writtenBytes - start;
      }
    }

    /** The framing part of `Read`: copies the rest of the header, then zero
        bytes up to the end of the frame, each step clamped to the room left. */
    method WriteFraming(buffer: array<byte>, offset: nat, count: nat) returns (framed: nat)
      requires Valid() && !headerWritten
      requires offset + count <= buffer.Length
      modifies this`writtenBytes, buffer
      ensures framed == Min(count, |header| + SentinelLength - old(writtenBytes))
      ensures writtenBytes == old(writtenBytes) + framed
      ensures buffer[offset..offset + framed] == Frame(header)[old(writtenBytes)..writtenBytes]
      ensures forall i :: 0 <= i < buffer.Length && !(offset <= i < offset + framed) ==> buffer[i] == old(buffer[i])
    {
      var start := writtenBytes;
      var copied := CopyHeader(buffer, offset, count);
      ghost var afterHeader := buffer[..];
      var zeroed := WriteSentinel(buffer, offset + copied, count - copied);
      framed := copied + zeroed;
      assert forall j :: offset <= j < offset + framed ==> buffer[j] == Frame(header)[start + (j - offset)];
      assert forall j :: 0 <= j < framed ==> buffer[offset..offset + framed][j] == Frame(header)[start..writtenBytes][j];
    }

    /** Lines 70-77: the rest of the header, as much as fits. */
    method CopyHeader(buffer: array<byte>, offset: nat, count: nat) returns (n: nat)
      requires offset + count <= buffer.Length
      modifies this`writtenBytes, buffer
      ensures n == if old(writtenBytes) < |header| then Min(|header| - old(writtenBytes), count) else 0
      ensures writtenBytes == old(writtenBytes) + n
      ensures forall j :: offset <= j < offset + n ==> buffer[j] == header[old(writtenBytes) + (j - offset)]
      ensures forall j :: 0 <= j < buffer.Length && !(offset <= j < offset + n) ==> buffer[j] == old(buffer[j])
    {
      n := 0;
      if writtenBytes < |header| {
        var bytesToWrite := Min(|header| - writtenBytes, count);
        forall i | 0 <= i < bytesToWrite {
          buffer[offset + i] := header[writtenBytes + i];
        }
        writtenBytes := writtenBytes + bytesToWrite;
        n := bytesToWrite;
      }
    }

    /** Lines 80-90: zero bytes up to the end of the frame, as many as fit. */
    method WriteSentinel(buffer: array<byte>, offset: nat, count: nat) returns (n: nat)
      requires offset + count <= buffer.Length
      modifies this`writtenBytes, buffer
      ensures n == if old(writtenBytes) < |header| + SentinelLength
                   then Min(|header| + SentinelLength - old(writtenBytes), count) else 0
      ensures writtenBytes == old(writtenBytes) + n
      ensures forall j :: offset <= j < offset + n ==> buffer[j] == 0
      ensures forall j :: 0 <= j < buffer.Length && !(offset <= j < offset + n) ==> buffer[j] == old(buffer[j])
    {
      n := 0;
      if writtenBytes < |header| + SentinelLength {
        var bytesToWrite := Min(|header| + SentinelLength - writtenBytes, count);
        for i := 0 to bytesToWrite
          modifies buffer
          invariant forall j :: offset <= j < offset + i ==> buffer[j] == 0
          invariant forall j :: 0 <= j < buffer.Length && !(offset <= j < offset + i) ==> buffer[j] == old(buffer[j])
        {
          buffer[offset + i] := 0;
        }
        writtenBytes := writtenBytes + bytesToWrite;
        n := bytesToWrite;
      }
    }

    method Seek(offset: int, origin: SeekOrigin) returns (r: Result<int>)
      ensures r == Failure(NotSupported)
    {
      r := Failure(NotSupported);
    }

    method SetLength(value: int) returns (r: Outcome)
      ensures r == Fail(NotSupported)
    {
      r := Fail(NotSupported);
    }

    method Write(buffer: array<byte>, offset: int, count: int) returns (r: Outcome)
      ensures r == Fail(NotSupported)
    {
      r := Fail(NotSupported);
    }

    /** Releases the payload stream, on every call: there is no guard against
        a second release. */
    method Dispose()
      requires Valid()
      modifies this, input
      ensures Valid() && disposed
      ensures input.disposals == old(input.disposals) + 1
      ensures writtenBytes == old(writtenBytes) && headerWritten == old(headerWritten)
      ensures input.cursor == old(input.cursor) && input.calls == old(input.calls)
    {
      input.Dispose();
      disposed := true;
    }
  }

  datatype SeekOrigin = Begin | Current | End

  /** Wraps a fresh response around `payload` and reads it until a read
      returns 0, the `i`-th read asking for `sizes(i)` bytes. Whatever the
      read sizes, and however the payload stream splits its data, the bytes
      returned are exactly the header, eight zero bytes and the payload. */
  method ReadToEnd(payload: seq<byte>, statusCode: int, contentType: string,
                   serialize: ResponseMetadata -> seq<byte>, sizes: nat -> nat)
    returns (out: seq<byte>)
    requires forall i :: sizes(i) >= 1
    ensures out == serialize(ResponseMetadata(None, map["Content-Type" := contentType], statusCode))
                   + Zeros(8) + payload
  {
    var source := new PayloadSource(payload);
    var wrapper := new StreamedResponseWrapper(WithStatusCode(source, statusCode, contentType), serialize);
    out := [];
    var i := 0;
    while true
      invariant fresh(source) && fresh(wrapper) && wrapper.input == source
      invariant wrapper.Valid() && wrapper.startCursor == 0
      invariant out == wrapper.Emitted()
      decreases |wrapper.Envelope()| - |wrapper.Emitted()|
    {
      var buffer := new byte[sizes(i)];
      var n := wrapper.Read(buffer, 0, sizes(i));
      if n == 0 {
        break;
      }
      out := out + buffer[..n];
      i := i + 1;
    }
    assert wrapper.AtEnd();
    assert Frame(wrapper.header)[..wrapper.writtenBytes] == Frame(wrapper.header);
    assert payload[0..|payload|] == payload;
  }

  /** One read extends what has been emitted by the bytes it returned, as
      long as payload bytes are read only once the frame is complete. */
  lemma EmittedExtends(header: seq<byte>, data: seq<byte>, s: nat, w: nat, w': nat, c: nat, c': nat)
    requires w <= w' <= |header| + SentinelLength
    requires s <= c <= c' <= |data|
    requires w < w' ==> c == s
    ensures Frame(header)[..w'] + data[s..c']
            == (Frame(header)[..w] + data[s..c]) + (Frame(header)[w..w'] + data[c..c'])
  {
    var f := Frame(header);
    assert f[..w'] == f[..w] + f[w..w'];
    assert data[s..c'] == data[s..c] + data[c..c'];
  }
}
