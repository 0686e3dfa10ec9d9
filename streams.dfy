/** The chunked read loops: `while chunk := f.read(n)` / `while True: chunk =
    reader.read(n); if not chunk: break`. A source is a byte sequence read
    front to back; the consumer (hash object, compressor, output file) is an
    append-only sequence of the chunks handed to it. */
module Streams {
  import opened Base

  /** A readable binary stream: an opened file, or a zstd stream reader over a
      compressed file. A decompressing reader whose input is corrupt yields
      the bytes it could decode and then raises instead of reporting the end. */
  class Reader {
    const data: seq<Byte>
    const failsAtEnd: bool
    var pos: nat

    ghost predicate Valid()
      reads this
    {
      pos <= |data|
    }

    constructor (data: seq<Byte>, failsAtEnd: bool)
      ensures Valid() && this.data == data && this.failsAtEnd == failsAtEnd && pos == 0
    {
      this.data := data;
      this.failsAtEnd := failsAtEnd;
      pos := 0;
    }

    /** Python's `read(n)`: for n > 0 some non-empty prefix of the rest, of at
        most n bytes, while data remains (a stream reader may return short
        reads); for n == -1 all of the rest; for n == 0 nothing. A size below
        -1 is rejected (`ValueError`) and nothing is read. Otherwise `failed`
        is the decompressor's error, raised at the read that reaches the end of
        what it could decode. */
    method Read(n: int) returns (chunk: seq<Byte>, failed: bool)
      requires Valid()
      modifies this`pos
      ensures Valid() && old(pos) <= pos
      ensures chunk == data[old(pos)..pos]
      ensures failed <==> !ReadSizeOk(n) || (n != 0 && old(pos) == |data| && failsAtEnd)
      ensures !ReadSizeOk(n) ==> pos == old(pos)
      ensures ReadSizeOk(n) ==> (chunk == [] <==> n == 0 || old(pos) == |data|)
      ensures n > 0 ==> |chunk| <= n
      ensures n == -1 ==> pos == |data|
    {
      if !ReadSizeOk(n) {
        return [], true;
      }
      failed := n != 0 && pos == |data| && failsAtEnd;
      if n == 0 || pos == |data| {
        chunk := [];
      } else if n < 0 {
        chunk := data[pos..];
        pos := |data|;
      } else {
        var k :| 1 <= k <= n && k <= |data| - pos;
        chunk := data[pos..pos + k];
        pos := pos + k;
      }
    }
  }

  /** The sizes `read` accepts: -1 (everything) and the non-negative ones;
      both an opened file and a zstd stream reader raise `ValueError` below -1. */
  predicate ReadSizeOk(n: int)
  {
    n >= -1
  }

  /** What a chunked loop with chunk size `n` hands on of `data`: all of it for
      an accepted non-zero size, nothing for 0 or a rejected size. */
  function Fed(n: int, data: seq<Byte>): (r: seq<Byte>)
    ensures r == [] || r == data
    ensures r == data <==> data == [] || (n != 0 && ReadSizeOk(n))
  {
    if n != 0 && ReadSizeOk(n) then data else []
  }

  /** Every chunk is non-empty and, for a positive chunk size, at most that size. */
  predicate WellSized(chunks: seq<seq<Byte>>, n: int)
  {
    forall k :: 0 <= k < |chunks| ==> 0 < |chunks[k]| && (n > 0 ==> |chunks[k]| <= n)
  }

  /** Drives one chunked loop over `data` with chunk size `n` and returns the
      chunks handed to the consumer, in order, and `bytes_processed`. The loop
      stops at the first empty read (or at the reader's error): for any
      accepted non-zero chunk size the chunks concatenate to exactly the input;
      with chunk size 0 the very first read is empty and nothing is processed;
      a chunk size below -1 fails at the first read. */
  method StreamChunks(data: seq<Byte>, failsAtEnd: bool, n: int)
    returns (chunks: seq<seq<Byte>>, bytesProcessed: nat, failed: bool)
    ensures WellSized(chunks, n)
    ensures Flatten(chunks) == Fed(n, data)
    ensures n == 0 || !ReadSizeOk(n) ==> chunks == []
    ensures bytesProcessed == |Flatten(chunks)|
    ensures failed <==> !ReadSizeOk(n) || (n != 0 && failsAtEnd)
  {
    var src := new Reader(data, failsAtEnd);
    chunks, bytesProcessed, failed := [], 0, false;
    while true
      invariant src.Valid() && src.data == data && src.failsAtEnd == failsAtEnd
      invariant Flatten(chunks) == data[..src.pos]
      invariant bytesProcessed == src.pos
      invariant WellSized(chunks, n)
      invariant n == 0 || !ReadSizeOk(n) ==> chunks == []
      decreases |data| - src.pos
    {
      var chunk, err := src.Read(n);
      if err {
        failed := true;
        break;
      }
      if chunk == [] {
        break;
      }
      FlattenSnoc(chunks, chunk);
      chunks := chunks + [chunk];
      bytesProcessed := bytesProcessed + |chunk|;
    }
  }
}
