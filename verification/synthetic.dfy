/** `TestStreamerNode`: the synthetic variant. It never decodes; while
    `playing`, each render lets the oscillator write the output. */
module SyntheticStreamer {
  import opened StreamTypes

  datatype TestNode = TestNode(base: Streamer, playing: bool)

  /** The constructor: a fresh engine that is playing. */
  const NewTestNode: TestNode := TestNode(Fresh, true)

  /** The overriding `setStreamPath`: playing again and the queue emptied.
      It neither stops nor initializes, so the device, the streaming flag
      and the buffer are kept; the path itself is not used. */
  function TestSetStreamPath(t: TestNode, path: string): (r: TestNode)
    ensures r.playing && r.base.queue == []
    ensures r.base == t.base.(queue := [])
  {
    TestNode(t.base.(queue := []), true)
  }

  /** The overriding `stopCurrentStream`: only `playing` is cleared. */
  function TestStop(t: TestNode): (r: TestNode)
    ensures !r.playing && r.base == t.base
  {
    t.(playing := false)
  }

  /** The overriding `processReplacing`: the oscillator writes the output
      while playing; the peak is updated from the output either way; no
      buffered frame is taken and no state changes. */
  function TestRender(t: TestNode, targetRate: int, outFrames: nat): (r: Step<TestNode>)
    ensures r.state == t
    ensures r.effect.input == [] && r.effect.peak == UpdatePeak
    ensures r.effect.out == if t.playing then Synthesized else Untouched
  {
    Step(t, Effect([], if t.playing then Synthesized else Untouched, UpdatePeak))
  }

  datatype TestEvent =
    | Render(targetRate: int, outFrames: nat)
    | Stop
    | SetPath(path: string)

  /** The output contributions of the render events, in order, and the
      final state. */
  function TestRun(t: TestNode, events: seq<TestEvent>): (TestNode, seq<Mix>)
    decreases |events|
  {
    if |events| == 0 then (t, [])
    else
      var e := events[0];
      var (next, out) := match e
        case Render(rate, frames) =>
          var step := TestRender(t, rate, frames);
          (step.state, [step.effect.out])
        case Stop => (TestStop(t), [])
        case SetPath(path) => (TestSetStreamPath(t, path), []);
      var rest := TestRun(next, events[1..]);
      (rest.0, out + rest.1)
  }

  /** After a stop, every render contributes nothing until the stream path
      is set again. */
  lemma {:induction false} StoppedStaysSilent(t: TestNode, events: seq<TestEvent>)
    requires !t.playing
    requires forall i :: 0 <= i < |events| ==> !events[i].SetPath?
    ensures forall i :: 0 <= i < |TestRun(t, events).1| ==> TestRun(t, events).1[i] == Untouched
    ensures !TestRun(t, events).0.playing
    decreases |events|
  {
    if |events| > 0 {
      var e := events[0];
      assert !e.SetPath?;
      var next := if e.Render? then t else TestStop(t);
      var out: seq<Mix> := if e.Render? then [Untouched] else [];
      assert forall i :: 0 <= i < |events[1..]| ==> !events[1..][i].SetPath? by {
        forall i | 0 <= i < |events[1..]|
          ensures !events[1..][i].SetPath?
        {
          assert events[1..][i] == events[i + 1];
        }
      }
      StoppedStaysSilent(next, events[1..]);
      var rest := TestRun(next, events[1..]);
      assert TestRun(t, events) == (rest.0, out + rest.1);
    }
  }

  /** A newly constructed node synthesizes on every render until it is
      first stopped. */
  lemma {:induction false} NewNodeSynthesizes(events: seq<TestEvent>)
    requires forall i :: 0 <= i < |events| ==> !events[i].Stop?
    ensures forall i :: 0 <= i < |TestRun(NewTestNode, events).1| ==> TestRun(NewTestNode, events).1[i] == Synthesized
  {
    PlayingKeepsSynthesizing(NewTestNode, events);
  }

  /** Once the stream path is set, every render synthesizes output until
      the next stop. */
  lemma {:induction false} PlayingKeepsSynthesizing(t: TestNode, events: seq<TestEvent>)
    requires t.playing
    requires forall i :: 0 <= i < |events| ==> !events[i].Stop?
    ensures forall i :: 0 <= i < |TestRun(t, events).1| ==> TestRun(t, events).1[i] == Synthesized
    ensures TestRun(t, events).0.playing
    decreases |events|
  {
    if |events| > 0 {
      var e := events[0];
      assert !e.Stop?;
      var next := if e.Render? then t else TestSetStreamPath(t, e.path);
      var out: seq<Mix> := if e.Render? then [Synthesized] else [];
      assert forall i :: 0 <= i < |events[1..]| ==> !events[1..][i].Stop? by {
        forall i | 0 <= i < |events[1..]|
          ensures !events[1..][i].Stop?
        {
          assert events[1..][i] == events[i + 1];
        }
      }
      PlayingKeepsSynthesizing(next, events[1..]);
      var rest := TestRun(next, events[1..]);
      assert TestRun(t, events) == (rest.0, out + rest.1);
    }
  }
}
