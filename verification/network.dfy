/** `NinjamRoomStreamerNode`: the network variant. Bytes pushed by the HTTP
    reply are queued; every render callback decodes, and playback waits in
    `buffering` until `bufferTime` seconds of frames have accumulated. */
module NetworkStreamer {
  import opened StreamTypes
  import opened Chunking
  import opened Mp3Streamer

  /** Bytes decoded by each `decode(4096)` call of the render callback. */
  const RenderDecodeBytes: nat := 4096

  /** The message carried by the error signal of `on_reply_error`. */
  const ReplyErrorMessage: string := "ERROR playing room stream"

  /** The base state plus the prebuffering flag and the configured buffer
      time in seconds. */
  datatype Network = Network(base: Streamer, buffering: bool, bufferTime: int)

  /** Frames that must be buffered before playback starts. */
  function Threshold(ns: Network, env: Env): int
  {
    ns.bufferTime * env.sampleRate
  }

  /** The overriding `needResamplingFor`: never while not streaming or while
      buffering; otherwise the base decision, the rate mismatch. */
  function NetworkNeedResampling(ns: Network, env: Env, targetRate: int): (r: bool)
    ensures r <==> ns.base.streaming && !ns.buffering && targetRate != env.sampleRate
    ensures !ns.buffering ==> r == NeedResampling(ns.base, env, targetRate)
  {
    if !ns.base.streaming || ns.buffering then false
    else NeedResampling(ns.base, env, targetRate)
  }

  /** The overriding `initialize`: base initialize, then buffering, a zeroed
      buffer and an empty queue; a non-empty path opens an HTTP reply that
      becomes the device. */
  function NetworkInitialize(ns: Network, env: Env, path: string): (r: Network)
    ensures r.buffering && r.bufferTime == ns.bufferTime
    ensures r.base.queue == []
    ensures r.base.streaming <==> |path| > 0
    ensures r.base.device == if |path| > 0 then Some(NetworkReply(path)) else ns.base.device
    ensures r.base.buffer == env.zero(ns.base.buffer)
  {
    var s := Initialize(ns.base, path).(buffer := env.zero(ns.base.buffer), queue := []);
    var device := if |path| > 0 then Some(NetworkReply(path)) else s.device;
    Network(s.(device := device), true, ns.bufferTime)
  }

  /** `setStreamPath` on the network variant: stop, then the overriding
      initialize. A new session always starts buffering with an empty
      queue; it has a device exactly when the path is non-empty. */
  function NetworkSetStreamPath(ns: Network, env: Env, path: string): (r: Network)
    ensures r.buffering && r.bufferTime == ns.bufferTime
    ensures r.base.queue == []
    ensures r.base.streaming <==> |path| > 0
    ensures r.base.device == if |path| > 0 then Some(NetworkReply(path)) else None
  {
    NetworkInitialize(ns.(base := Stop(ns.base, env)), env, path)
  }

  /** The constructors: a fresh engine given a stream path ("" for none). */
  function NewNetwork(env: Env, path: string, bufferTime: int): (r: Network)
    ensures r.buffering && r.bufferTime == bufferTime
    ensures r.base.queue == [] && r.base.buffer == env.zero([])
    ensures r.base.streaming <==> |path| > 0
  {
    NetworkSetStreamPath(Network(Fresh, true, bufferTime), env, path)
  }

  /** `on_reply_read`: with a device that is open and readable, the bytes it
      delivers are appended to the queue; otherwise nothing changes. */
  function OnReplyRead(ns: Network, readable: bool, arrived: seq<byte>): (r: Network)
    ensures ns.base.device.Some? && readable ==> r.base.queue == ns.base.queue + arrived
    ensures r == ns.(base := ns.base.(queue := r.base.queue))
    ensures ns.base.device.None? || !readable ==> r == ns
  {
    if ns.base.device.None? then ns
    else if readable then ns.(base := ns.base.(queue := ns.base.queue + arrived))
    else ns
  }

  /** `on_reply_error`: raises the error signal and leaves the stream as it
      is, so already buffered audio keeps playing. */
  function OnReplyError(ns: Network): (r: (Network, string))
    ensures r.0 == ns && r.1 == ReplyErrorMessage
  {
    (ns, ReplyErrorMessage)
  }

  /** How many bytes a render callback decodes: 4096, plus another 4096
      when playing and the buffer looks short for the request. */
  function DecodeBudget(ns: Network, env: Env, targetRate: int, outFrames: nat): (m: nat)
    ensures m == RenderDecodeBytes || m == 2 * RenderDecodeBytes
    ensures ns.buffering ==> m == RenderDecodeBytes
    ensures m == 2 * RenderDecodeBytes <==>
              !ns.buffering && |ns.base.buffer| < SamplesToRender(ns.base, env, targetRate, outFrames)
  {
    // getSamplesToRender dispatches to the overriding needResamplingFor,
    // which agrees with the base decision here because buffering is off.
    if !ns.buffering && |ns.base.buffer| < SamplesToRender(ns.base, env, targetRate, outFrames)
    then 2 * RenderDecodeBytes else RenderDecodeBytes
  }

  /** The decode calls at the head of the render callback: the optional
      top-up `decode(4096)` and the unconditional one. Together they are a
      single decode of the whole budget, because 4096 is a whole number of
      chunks. */
  function DecodeBeforeRender(ns: Network, env: Env, targetRate: int, outFrames: nat): (s: Streamer)
    ensures s == Decode(ns.base, DecodeBudget(ns, env, targetRate, outFrames), env.decode)
  {
    var s0 := ns.base;
    var topUp := DecodeBudget(ns, env, targetRate, outFrames) == 2 * RenderDecodeBytes;
    var s1 := if topUp then Decode(s0, RenderDecodeBytes, env.decode) else s0;
    if topUp then
      DecodeCompose(s0, RenderDecodeBytes, RenderDecodeBytes, env.decode);
      Decode(s1, RenderDecodeBytes, env.decode)
    else
      Decode(s1, RenderDecodeBytes, env.decode)
  }

  /** The overriding `processReplacing`. After the decodes, a buffering
      stream stops buffering once the threshold is reached. A playing
      stream then renders through the base; a buffering one only zeroes the
      peak. */
  function NetworkRender(ns: Network, env: Env, targetRate: int, outFrames: nat): (r: Step<Network>)
    ensures r.state.bufferTime == ns.bufferTime
    ensures !ns.buffering ==> !r.state.buffering
    ensures ns.buffering ==>
              (r.state.buffering <==> |Decode(ns.base, RenderDecodeBytes, env.decode).buffer| < Threshold(ns, env))
    ensures r.state.buffering ==>
              r.effect == Effect([], Untouched, ZeroPeak) &&
              r.state.base == Decode(ns.base, RenderDecodeBytes, env.decode)
    ensures !r.state.buffering ==> r.effect.peak != ZeroPeak
    ensures r.state.base.device == ns.base.device && r.state.base.streaming == ns.base.streaming
    ensures var s2 := DecodeBeforeRender(ns, env, targetRate, outFrames);
            r.state.base.queue == s2.queue && r.effect.input + r.state.base.buffer == s2.buffer
    ensures var s2 := DecodeBeforeRender(ns, env, targetRate, outFrames);
            !r.state.buffering ==> PlaysThroughBase(s2, env, targetRate, outFrames, r.effect)
  {
    var s2 := DecodeBeforeRender(ns, env, targetRate, outFrames);
    assert ns.buffering ==> DecodeBudget(ns, env, targetRate, outFrames) == RenderDecodeBytes;
    AfterDecode(ns, s2, env, targetRate, outFrames)
  }

  /** The render callback after its decodes, on the decoded state `s2`. */
  function AfterDecode(ns: Network, s2: Streamer, env: Env, targetRate: int, outFrames: nat): (r: Step<Network>)
    ensures r.state.bufferTime == ns.bufferTime
    ensures !ns.buffering ==> !r.state.buffering
    ensures ns.buffering ==> (r.state.buffering <==> |s2.buffer| < Threshold(ns, env))
    ensures r.state.buffering ==> r.effect == Effect([], Untouched, ZeroPeak) && r.state.base == s2
    ensures !r.state.buffering ==> r.effect.peak != ZeroPeak
    ensures r.state.base.device == s2.device && r.state.base.streaming == s2.streaming
    ensures r.state.base.queue == s2.queue && r.effect.input + r.state.base.buffer == s2.buffer
    ensures !r.state.buffering ==> PlaysThroughBase(s2, env, targetRate, outFrames, r.effect)
  {
    if ns.buffering && |s2.buffer| < Threshold(ns, env) then
      assert [] + s2.buffer == s2.buffer;
      Step(Network(s2, true, ns.bufferTime), Effect([], Untouched, ZeroPeak))
    else
      var played := Render(s2, env, targetRate, outFrames);
      Step(Network(played.state, false, ns.bufferTime), played.effect)
  }

  /** No frame is lost or duplicated by a network render: the frames it
      plays, followed by what stays buffered, are the frames buffered
      before plus the decoder's output for exactly the bytes it consumed. */
  lemma NetworkRenderAccounting(ns: Network, env: Env, targetRate: int, outFrames: nat)
    ensures var r := NetworkRender(ns, env, targetRate, outFrames);
            IsSuffix(r.state.base.queue, ns.base.queue) &&
            r.effect.input + r.state.base.buffer
              == ns.base.buffer + DecodeChunks(env.decode, Chunks(Consumed(ns.base, r.state.base)))
  {
    var m := DecodeBudget(ns, env, targetRate, outFrames);
    var s2 := DecodeBeforeRender(ns, env, targetRate, outFrames);
    var r := NetworkRender(ns, env, targetRate, outFrames);
    DecodedFrames(ns.base, m, env.decode);
    assert Consumed(ns.base, r.state.base) == Consumed(ns.base, s2);
  }

  /** A render callback decodes between min(4096, |queue|) bytes, when it
      has a device, and 8192 bytes, taken from the front of the queue. */
  lemma NetworkRenderConsumption(ns: Network, env: Env, targetRate: int, outFrames: nat)
    ensures var r := NetworkRender(ns, env, targetRate, outFrames);
            |r.state.base.queue| <= |ns.base.queue| &&
            |ns.base.queue| - |r.state.base.queue| <= 2 * RenderDecodeBytes &&
            (ns.base.device.Some? ==>
               |ns.base.queue| - |r.state.base.queue| >= Min(RenderDecodeBytes, |ns.base.queue|))
  {
    var m := DecodeBudget(ns, env, targetRate, outFrames);
    var s2 := DecodeBeforeRender(ns, env, targetRate, outFrames);
    assert s2 == Decode(ns.base, m, env.decode);
  }

  /** The events the network variant reacts to within one session. */
  datatype Event =
    | RenderCall(targetRate: int, outFrames: nat)
    | ReplyRead(readable: bool, arrived: seq<byte>)
    | ReplyError
    | StopCall

  function Apply(ns: Network, env: Env, e: Event): Network
  {
    match e
    case RenderCall(rate, frames) => NetworkRender(ns, env, rate, frames).state
    case ReplyRead(readable, arrived) => OnReplyRead(ns, readable, arrived)
    case ReplyError => OnReplyError(ns).0
    case StopCall => ns.(base := Stop(ns.base, env))
  }

  /** The state after a session's events, in order. */
  function Run(ns: Network, env: Env, events: seq<Event>): Network
    decreases |events|
  {
    if |events| == 0 then ns else Run(Apply(ns, env, events[0]), env, events[1..])
  }

  /** Only `initialize` sets `buffering`: once playback has started, no
      event of the session puts the stream back into buffering. */
  lemma {:induction false} BufferingIsOneWay(ns: Network, env: Env, events: seq<Event>)
    requires !ns.buffering
    ensures !Run(ns, env, events).buffering
    decreases |events|
  {
    if |events| > 0 {
      BufferingIsOneWay(Apply(ns, env, events[0]), env, events[1..]);
    }
  }

  /** The bytes of the readable reply reads among the events, in order. */
  function Arrived(events: seq<Event>): seq<byte>
    decreases |events|
  {
    if |events| == 0 then []
    else
      ArrivedBy(events[0]) + Arrived(events[1..])
  }

  predicate NoStop(events: seq<Event>)
  {
    forall i :: 0 <= i < |events| ==> !events[i].StopCall?
  }

  lemma SuffixAppend(xs: seq<byte>, ys: seq<byte>, zs: seq<byte>)
    requires IsSuffix(xs, ys)
    ensures IsSuffix(xs + zs, ys + zs)
  {
    assert (ys + zs)[|ys + zs| - |xs + zs|..] == ys[|ys| - |xs|..] + zs;
  }

  /** The bytes one event delivers to the queue. */
  function ArrivedBy(e: Event): seq<byte>
  {
    if e.ReplyRead? && e.readable then e.arrived else []
  }

  /** One event other than a stop keeps the device and leaves a suffix of
      the old queue followed by the bytes it delivers. */
  lemma ApplyKeepsFifo(ns: Network, env: Env, e: Event)
    requires ns.base.device.Some? && !e.StopCall?
    ensures IsSuffix(Apply(ns, env, e).base.queue, ns.base.queue + ArrivedBy(e))
    ensures Apply(ns, env, e).base.device == ns.base.device
  {
    if !(e.ReplyRead? && e.readable) {
      assert ns.base.queue + ArrivedBy(e) == ns.base.queue;
    }
  }

  /** The byte queue is FIFO over a session with a device: at every point it
      holds a suffix of the bytes it started with followed by every byte
      the reply delivered, in arrival order, and the device stays. */
  lemma {:induction false} QueueIsFifo(ns: Network, env: Env, events: seq<Event>)
    requires ns.base.device.Some?
    requires NoStop(events)
    ensures IsSuffix(Run(ns, env, events).base.queue, ns.base.queue + Arrived(events))
    ensures Run(ns, env, events).base.device == ns.base.device
    decreases |events|
  {
    if |events| == 0 {
      assert ns.base.queue + [] == ns.base.queue;
    } else {
      var e, tail := events[0], events[1..];
      var next := Apply(ns, env, e);
      var final := Run(next, env, tail).base.queue;
      assert Run(ns, env, events) == Run(next, env, tail);
      assert Arrived(events) == ArrivedBy(e) + Arrived(tail);
      NoStopTail(events);
      ApplyKeepsFifo(ns, env, e);
      QueueIsFifo(next, env, tail);
      SuffixChain(final, next.base.queue, ns.base.queue, ArrivedBy(e), Arrived(tail));
    }
  }

  /** A suffix of (a suffix of `q + a`) followed by `b` is a suffix of
      `q + (a + b)`. */
  lemma SuffixChain(xs: seq<byte>, ys: seq<byte>, q: seq<byte>, a: seq<byte>, b: seq<byte>)
    requires IsSuffix(xs, ys + b) && IsSuffix(ys, q + a)
    ensures IsSuffix(xs, q + (a + b))
  {
    SuffixAppend(ys, q + a, b);
    SuffixTrans(xs, ys + b, q + a + b);
    assert q + a + b == q + (a + b);
  }

  lemma NoStopTail(events: seq<Event>)
    requires |events| > 0 && NoStop(events)
    ensures !events[0].StopCall? && NoStop(events[1..])
  {
    forall i | 0 <= i < |events[1..]|
      ensures !events[1..][i].StopCall?
    {
      assert events[1..][i] == events[i + 1];
    }
  }

  /** With a three-second buffer at 44100 Hz, playback starts exactly when
      132300 frames are buffered after the render's decode. */
  lemma PrebufferThreshold(ns: Network, env: Env, targetRate: int, outFrames: nat)
    requires ns.buffering && ns.bufferTime == 3 && env.sampleRate == 44100
    ensures var r := NetworkRender(ns, env, targetRate, outFrames);
            !r.state.buffering <==> |Decode(ns.base, RenderDecodeBytes, env.decode).buffer| >= 132300
  {
  }
}
