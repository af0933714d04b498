/** How `decode` splits the bytes it consumes into decoder calls: chunks of
    at most `MaxBytesPerDecoding` bytes, taken from the front. */
module Chunking {
  import opened StreamTypes

  /** `AbstractMp3Streamer::MAX_BYTES_PER_DECODING`. */
  const MaxBytesPerDecoding: nat := 2048

  function CeilDiv(n: nat, d: nat): nat
    requires d > 0
  {
    (n + d - 1) / d
  }

  /** The bytes of a chunk sequence, in order. */
  function Concat(cs: seq<seq<byte>>): seq<byte>
  {
    if |cs| == 0 then [] else cs[0] + Concat(cs[1..])
  }

  /** The frames the decoder returns for a chunk sequence, in chunk order. */
  function DecodeChunks(dec: seq<byte> -> seq<Frame>, cs: seq<seq<byte>>): seq<Frame>
  {
    if |cs| == 0 then [] else dec(cs[0]) + DecodeChunks(dec, cs[1..])
  }

  /** The chunks `decode` hands to the decoder for the bytes it consumes:
      full 2048-byte chunks from the front, then whatever is left. */
  function Chunks(bytes: seq<byte>): seq<seq<byte>>
    decreases |bytes|
  {
    if |bytes| == 0 then []
    else
      var c := Min(|bytes|, MaxBytesPerDecoding);
      [bytes[..c]] + Chunks(bytes[c..])
  }

  /** Every chunk is non-empty and at most 2048 bytes, only the last one may
      be short, the chunks cover the bytes exactly and in order, and there
      are ceil(n/2048) of them. */
  lemma {:induction false} ChunksShape(bytes: seq<byte>)
    ensures forall i :: 0 <= i < |Chunks(bytes)| ==> 0 < |Chunks(bytes)[i]| <= MaxBytesPerDecoding
    ensures forall i :: 0 <= i < |Chunks(bytes)| - 1 ==> |Chunks(bytes)[i]| == MaxBytesPerDecoding
    ensures Concat(Chunks(bytes)) == bytes
    ensures |Chunks(bytes)| == CeilDiv(|bytes|, MaxBytesPerDecoding)
    decreases |bytes|
  {
    if |bytes| > 0 {
      var c := Min(|bytes|, MaxBytesPerDecoding);
      var cs, rest := Chunks(bytes), Chunks(bytes[c..]);
      ChunksShape(bytes[c..]);
      assert cs == [bytes[..c]] + rest;
      assert cs[1..] == rest;
      assert forall i :: 1 <= i < |cs| ==> cs[i] == rest[i - 1];
      assert bytes[..c] + bytes[c..] == bytes;
    }
  }

  lemma {:induction false} ConcatAppend(a: seq<seq<byte>>, b: seq<seq<byte>>)
    ensures Concat(a + b) == Concat(a) + Concat(b)
    decreases |a|
  {
    if |a| == 0 {
      assert a + b == b;
    } else {
      assert (a + b)[1..] == a[1..] + b;
      ConcatAppend(a[1..], b);
    }
  }

  /** Decoding two chunk sequences one after the other appends their frames. */
  lemma {:induction false} DecodeChunksAppend(dec: seq<byte> -> seq<Frame>, a: seq<seq<byte>>, b: seq<seq<byte>>)
    ensures DecodeChunks(dec, a + b) == DecodeChunks(dec, a) + DecodeChunks(dec, b)
    decreases |a|
  {
    if |a| == 0 {
      assert a + b == b;
    } else {
      assert (a + b)[1..] == a[1..] + b;
      DecodeChunksAppend(dec, a[1..], b);
    }
  }

  /** Chunking a run of bytes whose length is a multiple of 2048 and then the
      bytes after it gives the same chunks as chunking everything at once. */
  lemma {:induction false} ChunksAppend(a: seq<byte>, b: seq<byte>)
    requires |a| % MaxBytesPerDecoding == 0
    ensures Chunks(a + b) == Chunks(a) + Chunks(b)
    decreases |a|
  {
    if |a| == 0 {
      assert a + b == b;
    } else {
      var c := MaxBytesPerDecoding;
      assert |a| >= c;
      assert |a[c..]| % c == 0 by {
        assert |a[c..]| == |a| - c;
      }
      var head, rest := a[..c], a[c..];
      ChunksFront(a + b);
      ChunksFront(a);
      assert (a + b)[..c] == head;
      assert (a + b)[c..] == rest + b;
      ChunksAppend(rest, b);
      calc {
        Chunks(a + b);
        [head] + Chunks(rest + b);
        [head] + (Chunks(rest) + Chunks(b));
        ([head] + Chunks(rest)) + Chunks(b);
        Chunks(a) + Chunks(b);
      }
    }
  }

  /** A run longer than one chunk gives a full first chunk. */
  lemma ChunksFront(bytes: seq<byte>)
    requires |bytes| >= MaxBytesPerDecoding
    ensures Chunks(bytes) == [bytes[..MaxBytesPerDecoding]] + Chunks(bytes[MaxBytesPerDecoding..])
  {
  }

  /** A run of at most 2048 bytes goes to the decoder as a single chunk. */
  lemma SingleChunk(c: seq<byte>)
    requires 0 < |c| <= MaxBytesPerDecoding
    ensures Chunks(c) == [c]
  {
    assert c[..|c|] == c;
  }

  /** The loop step of `decode`: after whole chunks, the next chunk of at
      most 2048 bytes is appended to the chunk sequence. */
  lemma ChunksSnoc(q: seq<byte>, p: nat, t: nat)
    requires p % MaxBytesPerDecoding == 0 && 0 < t <= MaxBytesPerDecoding && p + t <= |q|
    ensures Chunks(q[..p + t]) == Chunks(q[..p]) + [q[p..p + t]]
  {
    assert q[..p] + q[p..p + t] == q[..p + t];
    ChunksAppend(q[..p], q[p..p + t]);
    SingleChunk(q[p..p + t]);
  }

  lemma DecodeChunksSnoc(dec: seq<byte> -> seq<Frame>, cs: seq<seq<byte>>, c: seq<byte>)
    ensures DecodeChunks(dec, cs + [c]) == DecodeChunks(dec, cs) + dec(c)
  {
    DecodeChunksAppend(dec, cs, [c]);
    DecodeSingleChunk(dec, c);
  }

  lemma DecodeSingleChunk(dec: seq<byte> -> seq<Frame>, c: seq<byte>)
    ensures DecodeChunks(dec, [c]) == dec(c)
  {
    assert [c][1..] == [];
    assert dec(c) + [] == dec(c);
  }

  /** Chunking is determined by its contract: any chunk sequence with the
      same shape that covers the bytes is the one `Chunks` returns. */
  lemma {:induction false} ChunksUnique(bytes: seq<byte>, cs: seq<seq<byte>>)
    requires forall i :: 0 <= i < |cs| ==> 0 < |cs[i]| <= MaxBytesPerDecoding
    requires forall i :: 0 <= i < |cs| - 1 ==> |cs[i]| == MaxBytesPerDecoding
    requires Concat(cs) == bytes
    ensures cs == Chunks(bytes)
    decreases |cs|
  {
    if |cs| == 0 {
    } else {
      var c := Min(|bytes|, MaxBytesPerDecoding);
      var tail := cs[1..];
      if |tail| > 0 {
        assert |Concat(tail)| >= |tail[0]| == |cs[1]| > 0;
        assert |cs[0]| == MaxBytesPerDecoding;
      } else {
        assert Concat(tail) == [];
      }
      assert |cs[0]| == c;
      assert cs[0] == bytes[..c];
      assert Concat(tail) == bytes[c..];
      ChunksUnique(bytes[c..], tail);
      assert cs == [cs[0]] + tail;
    }
  }
}
