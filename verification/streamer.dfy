/** The bookkeeping of `AbstractMp3Streamer`, shared by every variant:
    chunked decoding of the byte queue, the render callback's frame
    accounting, the resampling decision and the stop/initialize lifecycle. */
module Mp3Streamer {
  import opened StreamTypes
  import opened Chunking

  /** `decode(maxBytes)`: without a device nothing happens; otherwise the
      first min(maxBytes, |queue|) bytes leave the queue and the frames the
      decoder returns for their chunks are appended to the sample buffer.
      This is the reference definition; `DecodeBytes` is the source's loop. */
  function Decode(s: Streamer, maxBytes: nat, dec: seq<byte> -> seq<Frame>): (r: Streamer)
    ensures s.device.None? ==> r == s
    ensures r.device == s.device && r.streaming == s.streaming
    ensures |r.queue| <= |s.queue| && r.queue == s.queue[|s.queue| - |r.queue|..]
    ensures s.device.Some? ==> |s.queue| - |r.queue| == Min(maxBytes, |s.queue|)
    ensures |s.buffer| <= |r.buffer|
  {
    if s.device.None? then s
    else
      var n := Min(maxBytes, |s.queue|);
      s.(queue := s.queue[n..], buffer := s.buffer + DecodeChunks(dec, Chunks(s.queue[..n])))
  }

  /** The bytes taken from the front of the queue between two states. */
  function Consumed(before: Streamer, after: Streamer): seq<byte>
    requires |after.queue| <= |before.queue|
  {
    before.queue[..|before.queue| - |after.queue|]
  }

  /** The frames a decode appends are the decoder's output for the chunks
      of exactly the bytes it took from the queue. */
  lemma DecodedFrames(s: Streamer, maxBytes: nat, dec: seq<byte> -> seq<Frame>)
    ensures var r := Decode(s, maxBytes, dec);
            r.buffer == s.buffer + DecodeChunks(dec, Chunks(Consumed(s, r)))
  {
    var r := Decode(s, maxBytes, dec);
    if s.device.None? {
      assert Consumed(s, r) == [];
      assert s.buffer + [] == s.buffer;
    }
  }

  /** The bytes consumed over two steps are those of the first step
      followed by those of the second. */
  lemma ConsumedSplit(a: Streamer, b: Streamer, c: Streamer)
    requires IsSuffix(b.queue, a.queue) && IsSuffix(c.queue, b.queue)
    ensures |c.queue| <= |a.queue|
    ensures Consumed(a, c) == Consumed(a, b) + Consumed(b, c)
  {
    var n, k := |a.queue| - |b.queue|, |b.queue| - |c.queue|;
    assert b.queue == a.queue[n..];
    assert Consumed(b, c) == a.queue[n..n + k];
    assert a.queue[..n] + a.queue[n..n + k] == a.queue[..n + k];
  }

  /** Without a device or without queued bytes, `decode` changes nothing. */
  lemma DecodeIdle(s: Streamer, maxBytes: nat, dec: seq<byte> -> seq<Frame>)
    requires s.device.None? || |s.queue| == 0
    ensures Decode(s, maxBytes, dec) == s
  {
    if s.device.Some? {
      assert s.queue[..0] == [] && s.queue[0..] == s.queue;
      assert s.buffer + [] == s.buffer;
    }
  }

  /** The loop of `AbstractMp3Streamer::decode`, returning the chunks it
      passes to the decoder, in call order. */
  method DecodeBytes(s: Streamer, maxBytes: nat, dec: seq<byte> -> seq<Frame>)
    returns (r: Streamer, chunks: seq<seq<byte>>)
    ensures r == Decode(s, maxBytes, dec)
    ensures s.device.None? ==> chunks == []
    ensures forall i :: 0 <= i < |chunks| ==> 0 < |chunks[i]| <= MaxBytesPerDecoding
    ensures forall i :: 0 <= i < |chunks| - 1 ==> |chunks[i]| == MaxBytesPerDecoding
    ensures Concat(chunks) == s.queue[..|s.queue| - |r.queue|]
    ensures |chunks| == CeilDiv(|s.queue| - |r.queue|, MaxBytesPerDecoding)
    ensures r.buffer == s.buffer + DecodeChunks(dec, chunks)
  {
    if s.device.None? {
      r, chunks := s, [];
    } else {
      var total := Min(maxBytes, |s.queue|);
      var buffer := s.buffer;
      var processed := 0;
      chunks := [];
      if total > 0 {
        while processed < total
          invariant 0 <= processed <= total
          invariant processed % MaxBytesPerDecoding == 0 || processed == total
          invariant chunks == Chunks(s.queue[..processed])
          invariant buffer == s.buffer + DecodeChunks(dec, chunks)
          decreases total - processed
        {
          var toProcess := Min(total - processed, MaxBytesPerDecoding);
          var chunk := s.queue[processed..processed + toProcess];
          var decoded := dec(chunk);
          ChunksSnoc(s.queue, processed, toProcess);
          DecodeChunksSnoc(dec, chunks, chunk);
          processed := processed + toProcess;
          chunks := chunks + [chunk];
          buffer := buffer + decoded;
        }
      }
      if total == 0 {
        assert s.queue[..0] == [];
      }
      r := s.(queue := s.queue[processed..], buffer := buffer);
      DecodeLoopDone(s, maxBytes, dec, chunks, r);
    }
  }

  /** What the loop leaves behind is the reference decode, and its chunks
      have the shape of `Chunks`. */
  lemma DecodeLoopDone(s: Streamer, maxBytes: nat, dec: seq<byte> -> seq<Frame>,
                       chunks: seq<seq<byte>>, r: Streamer)
    requires s.device.Some?
    requires chunks == Chunks(s.queue[..Min(maxBytes, |s.queue|)])
    requires r == s.(queue := s.queue[Min(maxBytes, |s.queue|)..], buffer := s.buffer + DecodeChunks(dec, chunks))
    ensures r == Decode(s, maxBytes, dec)
    ensures forall i :: 0 <= i < |chunks| ==> 0 < |chunks[i]| <= MaxBytesPerDecoding
    ensures forall i :: 0 <= i < |chunks| - 1 ==> |chunks[i]| == MaxBytesPerDecoding
    ensures Concat(chunks) == s.queue[..|s.queue| - |r.queue|]
    ensures |chunks| == CeilDiv(|s.queue| - |r.queue|, MaxBytesPerDecoding)
  {
    ChunksShape(s.queue[..Min(maxBytes, |s.queue|)]);
  }

  /** `AbstractMp3Streamer::needResamplingFor`: never while not streaming,
      otherwise exactly when the target rate differs from the decoder's. */
  function NeedResampling(s: Streamer, env: Env, targetRate: int): (r: bool)
    ensures !s.streaming ==> !r
    ensures s.streaming ==> (r <==> targetRate != env.sampleRate)
  {
    if !s.streaming then false else targetRate != env.sampleRate
  }

  /** `getSamplesToRender`: the input frames to pull for `outLength` output
      frames; the resampler decides when resampling, otherwise it is
      `outLength` itself. */
  function SamplesToRender(s: Streamer, env: Env, targetRate: int, outLength: int): (r: int)
    ensures !NeedResampling(s, env, targetRate) ==> r == outLength
    ensures NeedResampling(s, env, targetRate) ==> r == env.inputLength(env.sampleRate, targetRate, outLength)
  {
    if NeedResampling(s, env, targetRate) then env.inputLength(env.sampleRate, targetRate, outLength)
    else outLength
  }

  /** The effect of the base render on the state `s`: nothing
      without streaming or frames; otherwise min(outLength, buffered)
      frames at the decoder's rate, or the resampler's input length for
      that many output frames, mixed unchanged or resampled, with the peak
      updated. */
  predicate PlaysThroughBase(s: Streamer, env: Env, targetRate: int, outFrames: nat, e: Effect)
  {
    (!s.streaming || |s.buffer| == 0 ==> e == NoEffect) &&
    (s.streaming && |s.buffer| > 0 && !NeedResampling(s, env, targetRate) ==>
       |e.input| == Min(outFrames, |s.buffer|)) &&
    (s.streaming && |s.buffer| > 0 && NeedResampling(s, env, targetRate) ==>
       |e.input| == (var k := SamplesToRender(s, env, targetRate, Min(outFrames, |s.buffer|));
                     if k <= 0 then 0 else Min(k, |s.buffer|))) &&
    (|e.input| == 0 ==> e == NoEffect) &&
    (|e.input| > 0 ==> e.peak == UpdatePeak) &&
    (|e.input| > 0 && !NeedResampling(s, env, targetRate) ==> e.out == Added(e.input)) &&
    (|e.input| > 0 && NeedResampling(s, env, targetRate) ==>
       e.out == Added(env.resample(e.input, Min(outFrames, |s.buffer|))))
  }

  /** The base `processReplacing`: with frames buffered and streaming on,
      take the frames to render from the front of the buffer, resample them
      when needed, mix the result into the output and update the peak; the
      frames not taken stay, in order, for the next callback. */
  function Render(s: Streamer, env: Env, targetRate: int, outFrames: nat): (r: Step<Streamer>)
    ensures |s.buffer| == 0 || !s.streaming ==> r == Step(s, NoEffect)
    ensures r.state.queue == s.queue && r.state.device == s.device && r.state.streaming == s.streaming
    ensures r.effect.input + r.state.buffer == s.buffer
    ensures PlaysThroughBase(s, env, targetRate, outFrames, r.effect)
  {
    if |s.buffer| == 0 || !s.streaming then Step(s, NoEffect)
    else
      var outLength := Min(outFrames, |s.buffer|);
      var toRender := SamplesToRender(s, env, targetRate, outLength);
      if toRender <= 0 then Step(s, NoEffect)
      else
        var taken := Min(toRender, |s.buffer|);
        var input := s.buffer[..taken];
        var produced := if NeedResampling(s, env, targetRate) then env.resample(input, outLength) else input;
        assert input + s.buffer[taken..] == s.buffer;
        Step(s.(buffer := s.buffer[taken..]), Effect(input, Added(produced), UpdatePeak))
  }

  /** `stopCurrentStream`: the queue is always emptied; an attached device is
      dropped together with the streaming flag and the buffer is zeroed.
      Without a device the buffer and the flag are left alone. */
  function Stop(s: Streamer, env: Env): (r: Streamer)
    ensures r.queue == [] && r.device == None
    ensures s.device.Some? ==> !r.streaming && r.buffer == env.zero(s.buffer)
    ensures s.device.None? ==> r.streaming == s.streaming && r.buffer == s.buffer
  {
    var t := if s.device.Some? then s.(device := None, buffer := env.zero(s.buffer), streaming := false) else s;
    t.(queue := [])
  }

  /** The base `initialize`: streaming exactly when the path is non-empty
      (a null path is an empty one here); nothing else changes. */
  function Initialize(s: Streamer, path: string): (r: Streamer)
    ensures r.streaming <==> |path| > 0
    ensures r == s.(streaming := r.streaming)
  {
    s.(streaming := |path| > 0)
  }

  /** `setStreamPath`: stop the current stream, then initialize for the new
      path. */
  function SetStreamPath(s: Streamer, env: Env, path: string): (r: Streamer)
    ensures r.queue == [] && r.device == None
    ensures r.streaming <==> |path| > 0
    ensures s.device.None? ==> r.buffer == s.buffer
  {
    Initialize(Stop(s, env), path)
  }

  /** A second stop changes nothing: queue, device, flag and buffer are as
      the first stop left them. */
  lemma StopIdempotent(s: Streamer, env: Env)
    ensures Stop(Stop(s, env), env) == Stop(s, env)
  {
  }

  /** A decode of `m` bytes followed by one of `m'` bytes is one decode of
      `m + m'` bytes when `m` is a whole number of chunks: the chunk
      boundaries line up, so the decoder sees the same chunks. */
  lemma {:induction false} DecodeCompose(s: Streamer, m: nat, m': nat, dec: seq<byte> -> seq<Frame>)
    requires m % MaxBytesPerDecoding == 0
    ensures Decode(Decode(s, m, dec), m', dec) == Decode(s, m + m', dec)
  {
    if s.device.Some? {
      var q := s.queue;
      var n1 := Min(m, |q|);
      var n := Min(m + m', |q|);
      var s1 := Decode(s, m, dec);
      assert s1.queue == q[n1..];
      var n2 := Min(m', |s1.queue|);
      assert n1 + n2 == n;
      assert q[..n1] + q[n1..][..n2] == q[..n];
      if n1 == m {
        ChunksAppend(q[..n1], q[n1..][..n2]);
      } else {
        assert n2 == 0 && n1 == n;
        assert q[n1..][..n2] == [];
        assert q[..n1] + [] == q[..n1];
        assert Chunks(q[n1..][..n2]) == [];
      }
      DecodeChunksAppend(dec, Chunks(q[..n1]), Chunks(q[n1..][..n2]));
      assert q[n1..][n2..] == q[n..];
    }
  }

  /** Renders with the decoder's own rate never depend on the resampler:
      the output is the consumed frames themselves. */
  lemma MatchingRatePassThrough(s: Streamer, env: Env, env': Env, outFrames: nat)
    requires env'.sampleRate == env.sampleRate
    ensures Render(s, env, env.sampleRate, outFrames) == Render(s, env', env.sampleRate, outFrames)
    ensures var r := Render(s, env, env.sampleRate, outFrames);
            r.effect.out == (if |r.effect.input| > 0 then Added(r.effect.input) else Untouched)
  {
  }

  /** A run of render callbacks with no decode in between, each asking for
      `requests[i]` output frames at the given target rate. */
  function RenderRun(s: Streamer, env: Env, targetRate: int, requests: seq<nat>): Step<Streamer>
    decreases |requests|
  {
    if |requests| == 0 then Step(s, NoEffect)
    else
      var first := Render(s, env, targetRate, requests[0]);
      var rest := RenderRun(first.state, env, targetRate, requests[1..]);
      Step(rest.state, rest.effect.(input := first.effect.input + rest.effect.input))
  }

  /** No frame is replayed or lost across callbacks: the frames taken by a
      run of renders, in order, followed by what is still buffered, are
      exactly the frames that were buffered before the run. */
  lemma {:induction false} RenderRunNoReplay(s: Streamer, env: Env, targetRate: int, requests: seq<nat>)
    ensures var r := RenderRun(s, env, targetRate, requests);
            r.effect.input + r.state.buffer == s.buffer
    ensures var r := RenderRun(s, env, targetRate, requests);
            r.state.queue == s.queue && r.state.device == s.device && r.state.streaming == s.streaming
    decreases |requests|
  {
    if |requests| > 0 {
      var first := Render(s, env, targetRate, requests[0]);
      var rest := RenderRun(first.state, env, targetRate, requests[1..]);
      RenderRunNoReplay(first.state, env, targetRate, requests[1..]);
      TakenThenLeft(s.buffer, first.effect.input, first.state.buffer, rest.effect.input, rest.state.buffer);
    }
  }

  lemma TakenThenLeft(b0: seq<Frame>, i1: seq<Frame>, b1: seq<Frame>, i2: seq<Frame>, b2: seq<Frame>)
    requires i1 + b1 == b0 && i2 + b2 == b1
    ensures (i1 + i2) + b2 == b0
  {
    assert (i1 + i2) + b2 == i1 + (i2 + b2);
  }
}
