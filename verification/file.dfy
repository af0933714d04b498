/** `AudioFileStreamerNode`: the file variant. The whole file is queued when
    the stream is set; each render callback first decodes until enough
    frames are buffered for the request, then renders through the base. */
module FileStreamer {
  import opened StreamTypes
  import opened Chunking
  import opened Mp3Streamer

  /** Bytes decoded per read-ahead step (`decode(1024 + 1024)`). */
  const ReadAheadBytes: nat := 1024 + 1024

  /** The overriding `initialize`: base initialize, then the file becomes the
      device whether or not it opened, and everything it reads is queued.
      `contents` is `None` when the file cannot be opened; reading it then
      yields no bytes. */
  function FileInitialize(s: Streamer, path: string, contents: Option<seq<byte>>): (r: Streamer)
    ensures r.streaming <==> |path| > 0
    ensures r.device == Some(AudioFile(path))
    ensures r.queue == s.queue + (if contents.Some? then contents.value else [])
    ensures r.buffer == s.buffer
  {
    var read := if contents.Some? then contents.value else [];
    Initialize(s, path).(device := Some(AudioFile(path)), queue := s.queue + read)
  }

  /** `setStreamPath` on the file variant: after the stop, the queue holds
      exactly the bytes read from the file. */
  function FileSetStreamPath(s: Streamer, env: Env, path: string, contents: Option<seq<byte>>): (r: Streamer)
    ensures r.streaming <==> |path| > 0
    ensures r.device == Some(AudioFile(path))
    ensures r.queue == if contents.Some? then contents.value else []
  {
    FileInitialize(Stop(s, env), path, contents)
  }

  /** The constructor: a fresh engine set to the given file. */
  function NewFileStreamer(env: Env, path: string, contents: Option<seq<byte>>): (r: Streamer)
    ensures r.buffer == [] && r.device == Some(AudioFile(path))
    ensures r.queue == if contents.Some? then contents.value else []
  {
    FileSetStreamPath(Fresh, env, path, contents)
  }

  /** Where the source's read-ahead loop ends up: `Ready` when it exits with
      enough frames buffered, `Spins` when it reaches a state that no
      further iteration changes, so it never exits. */
  datatype ReadAheadOutcome = Ready(state: Streamer) | Spins(state: Streamer)

  /** The read-ahead loop as written: `decode(2048)` while fewer frames are
      buffered than requested. A decode with a device and queued bytes
      consumes at least one byte; otherwise it changes nothing, and the loop
      condition stays true forever. */
  function ReadAheadAsWritten(s: Streamer, env: Env, outFrames: nat): (r: ReadAheadOutcome)
    ensures r.Ready? ==> |r.state.buffer| >= outFrames
    ensures r.Spins? ==> |r.state.buffer| < outFrames && Decode(r.state, ReadAheadBytes, env.decode) == r.state
    ensures r.state.device == s.device && r.state.streaming == s.streaming
    ensures IsSuffix(r.state.queue, s.queue)
    decreases |s.queue|
  {
    if |s.buffer| >= outFrames then Ready(s)
    else if s.device.None? || |s.queue| == 0 then
      DecodeIdle(s, ReadAheadBytes, env.decode);
      Spins(s)
    else
      var next := Decode(s, ReadAheadBytes, env.decode);
      var r := ReadAheadAsWritten(next, env, outFrames);
      SuffixTrans(r.state.queue, next.queue, s.queue);
      r
  }

  /** The read-ahead loop with the exit it evidently needs: it also stops
      when there is no device or nothing left to decode. It always ends,
      with enough frames or with nothing more to decode. */
  function ReadAhead(s: Streamer, env: Env, outFrames: nat): (r: Streamer)
    ensures |r.buffer| >= outFrames || r.device.None? || |r.queue| == 0
    ensures r.device == s.device && r.streaming == s.streaming
    ensures IsSuffix(r.queue, s.queue)
    decreases |s.queue|
  {
    if |s.buffer| >= outFrames || s.device.None? || |s.queue| == 0 then s
    else
      var next := Decode(s, ReadAheadBytes, env.decode);
      var r := ReadAhead(next, env, outFrames);
      SuffixTrans(r.queue, next.queue, s.queue);
      r
  }

  /** Both loops decode the same chunks and agree wherever the source's loop
      exits; the source's loop spins exactly when the corrected one ends
      short of the request. */
  lemma {:induction false} ReadAheadAgrees(s: Streamer, env: Env, outFrames: nat)
    ensures ReadAheadAsWritten(s, env, outFrames).state == ReadAhead(s, env, outFrames)
    ensures ReadAheadAsWritten(s, env, outFrames).Spins? <==> |ReadAhead(s, env, outFrames).buffer| < outFrames
    decreases |s.queue|
  {
    if |s.buffer| < outFrames && s.device.Some? && |s.queue| > 0 {
      ReadAheadAgrees(Decode(s, ReadAheadBytes, env.decode), env, outFrames);
    }
  }

  /** The read-ahead hands the decoder the queued bytes in 2048-byte chunks
      from the front, and appends their frames: exactly the chunks and
      frames of one decode of everything it consumed. */
  lemma {:induction false} ReadAheadAccounting(s: Streamer, env: Env, outFrames: nat)
    ensures var r := ReadAhead(s, env, outFrames);
            r.buffer == s.buffer + DecodeChunks(env.decode, Chunks(Consumed(s, r)))
    decreases |s.queue|
  {
    var r := ReadAhead(s, env, outFrames);
    if |s.buffer| >= outFrames || s.device.None? || |s.queue| == 0 {
      assert Consumed(s, r) == [];
      assert s.buffer + [] == s.buffer;
    } else {
      var next := Decode(s, ReadAheadBytes, env.decode);
      ReadAheadAccounting(next, env, outFrames);
      assert r == ReadAhead(next, env, outFrames);
      var head, rest := Consumed(s, next), Consumed(next, r);
      DecodedFrames(s, ReadAheadBytes, env.decode);
      ConsumedSplit(s, next, r);
      if |head| != MaxBytesPerDecoding {
        assert |next.queue| == 0 && r == next;
        assert rest == [];
      }
      FramesCompose(s.buffer, next.buffer, r.buffer, env.decode, head, rest);
    }
  }

  /** The read-ahead stops at the first chunk that makes the buffer long
      enough: without the frames of the last chunk it decoded, fewer frames
      than requested are buffered. */
  lemma {:induction false} ReadAheadMinimal(s: Streamer, env: Env, outFrames: nat)
    ensures var r := ReadAhead(s, env, outFrames);
            var cs := Chunks(Consumed(s, r));
            |cs| > 0 ==> |r.buffer| - |env.decode(cs[|cs| - 1])| < outFrames
    decreases |s.queue|
  {
    var r := ReadAhead(s, env, outFrames);
    if |s.buffer| >= outFrames || s.device.None? || |s.queue| == 0 {
      assert Consumed(s, r) == [];
    } else {
      var next, head, rest := ReadAheadStep(s, env, outFrames);
      ReadAheadMinimal(next, env, outFrames);
      LastChunk(Consumed(s, r), head, rest);
    }
  }

  /** One iteration of the read-ahead: a single chunk `head` of at most 2048
      bytes leaves the queue and its frames are appended; the bytes `rest`
      consumed afterwards follow only a full chunk, and when there are none
      the loop has ended. */
  lemma ReadAheadStep(s: Streamer, env: Env, outFrames: nat)
    returns (next: Streamer, head: seq<byte>, rest: seq<byte>)
    requires |s.buffer| < outFrames && s.device.Some? && |s.queue| > 0
    ensures next == Decode(s, ReadAheadBytes, env.decode)
    ensures ReadAhead(s, env, outFrames) == ReadAhead(next, env, outFrames)
    ensures IsSuffix(ReadAhead(s, env, outFrames).queue, next.queue)
    ensures head == Consumed(s, next) && rest == Consumed(next, ReadAhead(s, env, outFrames))
    ensures 0 < |head| <= MaxBytesPerDecoding
    ensures |next.buffer| == |s.buffer| + |env.decode(head)|
    ensures Consumed(s, ReadAhead(s, env, outFrames)) == head + rest
    ensures rest != [] ==> |head| == MaxBytesPerDecoding
    ensures rest == [] ==> ReadAhead(s, env, outFrames) == next
  {
    next := Decode(s, ReadAheadBytes, env.decode);
    var r := ReadAhead(s, env, outFrames);
    head, rest := Consumed(s, next), Consumed(next, r);
    DecodedFrames(s, ReadAheadBytes, env.decode);
    ConsumedSplit(s, next, r);
    SingleChunk(head);
    DecodeSingleChunk(env.decode, head);
    if !(|next.buffer| >= outFrames || next.device.None? || |next.queue| == 0) {
      var after := Decode(next, ReadAheadBytes, env.decode);
      assert |after.queue| < |next.queue|;
    }
  }

  /** The last chunk of one chunk followed by more bytes: that chunk itself
      when no bytes follow, otherwise the last chunk of the rest. */
  lemma LastChunk(bytes: seq<byte>, head: seq<byte>, rest: seq<byte>)
    requires bytes == head + rest
    requires 0 < |head| <= MaxBytesPerDecoding
    requires |head| == MaxBytesPerDecoding || rest == []
    ensures rest == [] ==> Chunks(bytes) == [head]
    ensures rest != [] ==>
              (|Chunks(rest)| > 0 && |Chunks(bytes)| > 0 &&
               Chunks(bytes)[|Chunks(bytes)| - 1] == Chunks(rest)[|Chunks(rest)| - 1])
  {
    SingleChunk(head);
    if rest == [] {
      assert bytes == head;
    } else {
      ChunksAppend(head, rest);
      ChunksShape(rest);
    }
  }

  /** Frames decoded from a whole chunk and then from the bytes after it are
      the frames of chunking both at once. */
  lemma FramesCompose(b0: seq<Frame>, b1: seq<Frame>, b2: seq<Frame>, dec: seq<byte> -> seq<Frame>,
                      head: seq<byte>, rest: seq<byte>)
    requires b1 == b0 + DecodeChunks(dec, Chunks(head))
    requires b2 == b1 + DecodeChunks(dec, Chunks(rest))
    requires |head| == MaxBytesPerDecoding || rest == []
    ensures b2 == b0 + DecodeChunks(dec, Chunks(head + rest))
  {
    if |head| == MaxBytesPerDecoding {
      ChunksAppend(head, rest);
    } else {
      assert head + rest == head;
      assert Chunks(rest) == [];
      assert Chunks(head) + Chunks(rest) == Chunks(head);
    }
    DecodeChunksAppend(dec, Chunks(head), Chunks(rest));
  }

  /** With a device, the source's read-ahead spins exactly when decoding the
      whole queue would still leave fewer frames than requested. */
  lemma {:induction false} ReadAheadSpinsIff(s: Streamer, env: Env, outFrames: nat)
    requires s.device.Some?
    ensures ReadAheadAsWritten(s, env, outFrames).Spins?
        <==> |s.buffer| + |DecodeChunks(env.decode, Chunks(s.queue))| < outFrames
    decreases |s.queue|
  {
    if |s.buffer| < outFrames && |s.queue| > 0 {
      var next := Decode(s, ReadAheadBytes, env.decode);
      var c := Min(ReadAheadBytes, |s.queue|);
      assert next.queue == s.queue[c..];
      DecodedFrames(s, ReadAheadBytes, env.decode);
      assert Consumed(s, next) == s.queue[..c];
      SingleChunk(s.queue[..c]);
      DecodeSingleChunk(env.decode, s.queue[..c]);
      assert next.buffer == s.buffer + env.decode(s.queue[..c]);
      assert Chunks(s.queue) == [s.queue[..c]] + Chunks(s.queue[c..]);
      assert DecodeChunks(env.decode, Chunks(s.queue))
          == env.decode(s.queue[..c]) + DecodeChunks(env.decode, Chunks(s.queue[c..]));
      ReadAheadSpinsIff(next, env, outFrames);
    }
  }

  /** A render callback either returns with an effect or never returns. */
  datatype RenderOutcome = Returns(step: Step<Streamer>) | Hangs

  /** The overriding `processReplacing` as written: the read-ahead loop,
      then the base render. */
  function FileRenderAsWritten(s: Streamer, env: Env, targetRate: int, outFrames: nat): (r: RenderOutcome)
    ensures r.Hangs? <==> |ReadAhead(s, env, outFrames).buffer| < outFrames
    ensures r.Returns? ==> r.step == FileRender(s, env, targetRate, outFrames)
  {
    ReadAheadAgrees(s, env, outFrames);
    match ReadAheadAsWritten(s, env, outFrames)
    case Spins(_) => Hangs
    case Ready(t) => Returns(Render(t, env, targetRate, outFrames))
  }

  /** `processReplacing` with the corrected read-ahead: it always returns;
      the frames it takes and those still buffered are the old buffer
      followed by the frames decoded from the bytes it consumed; it takes
      min(outFrames, buffered) frames when no resampling is needed. */
  function FileRender(s: Streamer, env: Env, targetRate: int, outFrames: nat): (r: Step<Streamer>)
    ensures IsSuffix(r.state.queue, s.queue)
    ensures r.state.device == s.device && r.state.streaming == s.streaming
    ensures r.effect.input + r.state.buffer
              == s.buffer + DecodeChunks(env.decode, Chunks(Consumed(s, r.state)))
    ensures r.state.queue == ReadAhead(s, env, outFrames).queue
    ensures PlaysThroughBase(ReadAhead(s, env, outFrames), env, targetRate, outFrames, r.effect)
  {
    var t := ReadAhead(s, env, outFrames);
    ReadAheadAccounting(s, env, outFrames);
    Render(t, env, targetRate, outFrames)
  }

  /** Once every queued byte is decoded, a render asking for more frames
      than are buffered never returns: the end of every file. */
  lemma EndOfFileHangs(s: Streamer, env: Env, targetRate: int, outFrames: nat)
    requires |s.queue| == 0 && |s.buffer| < outFrames
    ensures FileRenderAsWritten(s, env, targetRate, outFrames) == Hangs
  {
  }

  /** A file that cannot be opened leaves an empty queue behind a device, so
      the first render that asks for any frame never returns. */
  lemma UnopenableFileHangs(env: Env, path: string, targetRate: int, outFrames: nat)
    requires outFrames > 0
    ensures FileRenderAsWritten(NewFileStreamer(env, path, None), env, targetRate, outFrames) == Hangs
  {
    EndOfFileHangs(NewFileStreamer(env, path, None), env, targetRate, outFrames);
  }
}
