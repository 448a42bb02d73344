/**
 Streaming decompression: the loops of compression.rs over a reader that may return short reads,
 proved to compute exactly the requested slice of the decoded stream.
 */
module Streaming {
  import opened Base
  import opened Pipeline

  /**
   A decoder being read from front to back. `Read` may hand out fewer bytes than asked for, at its
   own choice, but at least one unless the stream is used up; a stream that does not end cleanly
   reports an error once its decodable bytes are used up.
   */
  class Decoder {
    const stream: Stream
    var pos: nat

    constructor (s: Stream)
      ensures stream == s && pos == 0
    {
      stream := s;
      pos := 0;
    }

    ghost predicate Valid()
      reads this
    {
      pos <= |stream.output|
    }

    method Read(buffer: array<byte>, from: nat, to: nat) returns (n: Option<nat>)
      requires Valid() && from < to <= buffer.Length
      modifies this`pos, buffer
      ensures Valid()
      ensures n.None? <==> old(pos) == |stream.output| && !stream.clean
      ensures n.None? ==> pos == old(pos) && buffer[..] == old(buffer[..])
      ensures n.Some? ==> n.value <= to - from && pos == old(pos) + n.value
      ensures n.Some? ==> (n.value == 0 <==> old(pos) == |stream.output|)
      ensures n.Some? ==> forall k :: from <= k < from + n.value ==> buffer[k] == stream.output[old(pos) + k - from]
      ensures n.Some? ==>
        forall k :: 0 <= k < from || from + n.value <= k < buffer.Length ==> buffer[k] == old(buffer[k])
    {
      var left := |stream.output| - pos;
      if left == 0 {
        n := if stream.clean then Some(0) else None;
        return;
      }
      var count: nat :| 1 <= count <= left && count <= to - from;
      for i := 0 to count
        invariant pos == old(pos)
        invariant forall k :: from <= k < from + i ==> buffer[k] == stream.output[pos + k - from]
        invariant forall k :: 0 <= k < from || from + i <= k < buffer.Length ==> buffer[k] == old(buffer[k])
      {
        buffer[from + i] := stream.output[pos + i];
      }
      pos := pos + count;
      n := Some(count);
    }
  }

  /**
   The bytes [start, start + len) of a stream, cut off at its end. A stream that breaks off is an
   error only when the range needs more than it can produce.
   */
  function Slice(s: Stream, start: nat, len: nat): Result<Bytes> {
    var n := |s.output|;
    if s.clean || start + len <= n then Ok(s.output[Min(start, n)..Min(start + len, n)])
    else Err(Compression)
  }

  /** What `decompress_range` answers, as a function of the stored bytes. */
  function DecompressRange(p: Primitives, data: Bytes, start: nat, len: nat): Result<Option<Bytes>> {
    if data == [] then Ok(Some([]))
    else match TaggedStream(p, data)
      case None => Ok(None)
      case Some(s) =>
        match Slice(s, start, len)
        case Ok(bytes) => Ok(Some(bytes))
        case Err(e) => Err(e)
  }

  /** `CompressionManager`: its configuration never changes, its methods only read. */
  class CompressionManager {
    const config: CompressionConfig
    const primitives: Primitives

    constructor (p: Primitives, c: CompressionConfig)
      ensures config == c && primitives == p
    {
      config := c;
      primitives := p;
    }

    /** Skips `start` bytes, then collects up to `len`; both loops run over arbitrary short reads. */
    method ReadRange(data: Bytes, start: nat, len: nat) returns (r: Result<Option<Bytes>>)
      ensures r == DecompressRange(primitives, data, start, len)
    {
      if data == [] {
        return Ok(Some([]));
      }
      var selected := TaggedStream(primitives, data);
      if selected.None? {
        return Ok(None);
      }
      var reader := new Decoder(selected.value);
      ghost var n := |reader.stream.output|;

      var discard := new byte[65536];
      var remaining := start;
      while remaining > 0
        invariant fresh(reader) && fresh(discard) && discard.Length == 65536
        invariant reader.Valid() && 0 <= remaining <= start
        invariant reader.pos == start - remaining
        decreases remaining
      {
        var chunk := if remaining < discard.Length then remaining else discard.Length;
        var read := reader.Read(discard, 0, chunk);
        if read.None? {
          return Err(Compression);
        }
        if read.value == 0 {
          break;
        }
        remaining := remaining - read.value;
      }
      ghost var base := reader.pos;
      assert base == Min(start, n);

      var result := new byte[len];
      var filled := 0;
      while filled < len
        invariant fresh(reader) && fresh(result) && result.Length == len
        invariant reader.Valid() && filled <= len
        invariant reader.pos == base + filled
        invariant forall k :: 0 <= k < filled ==> result[k] == reader.stream.output[base + k]
        decreases len - filled
      {
        var read := reader.Read(result, filled, len);
        if read.None? {
          return Err(Compression);
        }
        if read.value == 0 {
          break;
        }
        filled := filled + read.value;
      }
      assert result[..filled] == reader.stream.output[base..base + filled];
      r := Ok(Some(result[..filled]));
    }

    /** The 4 KiB read loop of `decompress_zstd`. */
    method ReadZstd(data: Bytes) returns (r: Result<Bytes>)
      ensures r == DecompressZstd(primitives, data)
    {
      var selected := primitives.unzstd(data);
      if selected.None? {
        return Err(Compression);
      }
      var reader := new Decoder(selected.value);
      var decompressed: Bytes := [];
      var buffer := new byte[4096];
      while true
        invariant fresh(reader) && fresh(buffer) && buffer.Length == 4096
        invariant reader.Valid() && decompressed == reader.stream.output[..reader.pos]
        decreases |reader.stream.output| - reader.pos
      {
        ghost var start := reader.pos;
        var read := reader.Read(buffer, 0, buffer.Length);
        if read.None? {
          return Err(Compression);
        }
        if read.value == 0 {
          break;
        }
        assert buffer[..read.value] == reader.stream.output[start..reader.pos];
        decompressed := decompressed + buffer[..read.value];
      }
      assert decompressed == reader.stream.output;
      r := Ok(decompressed);
    }

    /** Pushes the tag byte, then the codec's output. */
    method CompressBuffer(data: Bytes) returns (r: Result<Bytes>)
      ensures r == Compress(primitives, config, data)
    {
      if !config.enabled || |data| < config.minSize || data == [] {
        return Ok(data);
      }
      var result: Bytes := [];
      var body: Option<Bytes>;
      if config.algorithm == "gzip" {
        result := [1];
        body := primitives.gzip(data, config.level);
      } else if config.algorithm == "zstd" {
        result := [2];
        body := primitives.zstd(data, config.level);
      } else {
        return Err(Compression);
      }
      if body.None? {
        return Err(Compression);
      }
      r := Ok(result + body.value);
    }
  }

  /** A streamed range is the slice of the full decode, for every range and every cleanly ending stream. */
  lemma RangeIsSliceOfDecode(p: Primitives, c: CompressionConfig, data: Bytes, start: nat, len: nat)
    requires c.enabled && (data == [] || TaggedStream(p, data).Some?) && Decompress(p, c, data).Ok?
    ensures var whole := Decompress(p, c, data).value;
            DecompressRange(p, data, start, len)
              == Ok(Some(whole[Min(start, |whole|)..Min(start + len, |whole|)]))
  {
  }

  /** A stream that breaks off still gives every range before the break, and no range beyond it. */
  lemma BrokenStreams(p: Primitives, data: Bytes, start: nat, len: nat, output: Bytes)
    requires data != [] && TaggedStream(p, data) == Some(Stream(output, false))
    ensures DecompressRange(p, data, start, len)
      == if start + len <= |output| then Ok(Some(output[start..start + len])) else Err(Compression)
  {
  }

  /** Bytes without a known tag, or that zstd does not begin to read, are left to the full decode. */
  lemma UnknownFormats(p: Primitives, data: Bytes, start: nat, len: nat)
    requires data != []
    ensures DecompressRange(p, data, start, len) == Ok(None) <==>
      (data[0] != 1 && data[0] != 2) || (data[0] == 2 && p.unzstd(data[1..]).None?)
  {
  }

  /** Consecutive ranges of a stream join up: reading in two parts is reading at once. */
  lemma RangesJoin(p: Primitives, data: Bytes, start: nat, len: nat, more: nat)
    requires data != [] && TaggedStream(p, data).Some? && TaggedStream(p, data).value.clean
    ensures var whole := DecompressRange(p, data, start, len + more);
            var first, second := DecompressRange(p, data, start, len), DecompressRange(p, data, start + len, more);
            && first.Ok? && first.value.Some? && second.Ok? && second.value.Some?
            && whole == Ok(Some(first.value.value + second.value.value))
  {
    var s := TaggedStream(p, data).value;
    var n := |s.output|;
    var a, b, c := Min(start, n), Min(start + len, n), Min(start + len + more, n);
    assert s.output[a..c] == s.output[a..b] + s.output[b..c];
  }
}
