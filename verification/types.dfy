/** Shared data model of the room streamer: bytes, frames, the engine's
    state record, the external collaborators and the effect of one render
    callback. */
module StreamTypes {

  /** One undecoded byte of the compressed stream. */
  newtype byte = x: int | 0 <= x < 256

  /** One sample per channel at a single instant. The sample values are
      floating point in the program and play no part in this model. */
  datatype Frame = Frame(samples: seq<real>)

  datatype Option<+T> = None | Some(value: T)

  /** The producer handle held in `device`: the HTTP reply of the network
      variant or the opened file of the file variant. */
  datatype Device = NetworkReply(url: string) | AudioFile(path: string)

  /** The bookkeeping state shared by every streamer variant:
      `queue` holds the bytes still to decode (FIFO), `buffer` the decoded
      frames waiting to be rendered, `device` the producer handle (null in
      the program is `None`) and `streaming` the flag set by `initialize`. */
  datatype Streamer = Streamer(
    queue: seq<byte>,
    buffer: seq<Frame>,
    device: Option<Device>,
    streaming: bool)

  /** The state right after construction: empty queue, zero-length buffer,
      no device, not streaming. */
  const Fresh: Streamer := Streamer([], [], None, false)

  /** Code this model cannot see, as plain total functions.
      - `decode`: the MP3 decoder applied to one chunk of bytes;
      - `sampleRate`: the decoder's sample rate;
      - `inputLength(sourceRate, targetRate, outLength)`: the number of
        input frames the resampler wants for `outLength` output frames;
      - `resample(input, outLength)`: the resampler's output;
      - `zero(buffer)`: the sample buffer after `SamplesBuffer::zero`. */
  datatype Env = Env(
    decode: seq<byte> -> seq<Frame>,
    sampleRate: int,
    inputLength: (int, int, int) -> int,
    resample: (seq<Frame>, int) -> seq<Frame>,
    zero: seq<Frame> -> seq<Frame>)

  /** What a render callback does to the caller's output buffer. */
  datatype Mix =
    | Untouched                     // returned without writing
    | Added(frames: seq<Frame>)     // these frames are mixed (added) into the output
    | Synthesized                   // the test oscillator wrote into the output

  /** What a render callback does to the peak meter. */
  datatype PeakAction = KeepPeak | UpdatePeak | ZeroPeak

  /** The observable effect of one render call: the frames taken from the
      front of the sample buffer, the output contribution and the peak. */
  datatype Effect = Effect(input: seq<Frame>, out: Mix, peak: PeakAction)

  /** The effect of a call that returns before doing anything. */
  const NoEffect: Effect := Effect([], Untouched, KeepPeak)

  /** A state transition together with the effect it produced. */
  datatype Step<S> = Step(state: S, effect: Effect)

  /** `xs` is what is left of `ys` after dropping some bytes from its front. */
  predicate IsSuffix(xs: seq<byte>, ys: seq<byte>)
  {
    |xs| <= |ys| && xs == ys[|ys| - |xs|..]
  }

  lemma SuffixTrans(xs: seq<byte>, ys: seq<byte>, zs: seq<byte>)
    requires IsSuffix(xs, ys) && IsSuffix(ys, zs)
    ensures IsSuffix(xs, zs)
  {
    assert zs[|zs| - |ys|..][|ys| - |xs|..] == zs[|zs| - |xs|..];
  }

  function Min(a: int, b: int): int
  {
    if a < b then a else b
  }
}
