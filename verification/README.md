# JamTaba room streamer — a verified model of its buffering bookkeeping

JamTaba plays the MP3 stream of a Ninjam room (and, for testing, local MP3
files or a sine oscillator) through `AbstractMp3Streamer` and its three
variants in `Client/src/jamtaba/audio/RoomStreamerNode.cpp`. This project
models their bookkeeping as immutable records and pure transitions:

- the FIFO byte queue (`bytesToDecode`) and `decode(maxBytes)`, which hands
  the decoder chunks of at most `MAX_BYTES_PER_DECODING` = 2048 bytes and
  appends the decoded frames to the sample buffer (`bufferedSamples`);
- the render callback (`processReplacing`): whether to render at all, how
  many frames to take (`getSamplesToRender`, `needResamplingFor`), and the
  prefix that leaves the buffer;
- the lifecycle: `streaming`, the producer `device`, `stopCurrentStream`,
  `initialize`, `setStreamPath`;
- `NinjamRoomStreamerNode` (network): bytes pushed by `on_reply_read`, the
  decodes of every render, and the one-way `buffering` → playing switch at
  `bufferTime * sampleRate` buffered frames;
- `AudioFileStreamerNode` (file): the whole file queued at `initialize` and
  the read-ahead loop of its render;
- `TestStreamerNode` (synthetic): its own `playing` flag.

Modules: `StreamTypes` (types.dfy: bytes, frames, the `Streamer` record, the
`Env` of external collaborators, render effects), `Chunking` (chunking.dfy),
`Mp3Streamer` (streamer.dfy, the base class), `NetworkStreamer`
(network.dfy), `FileStreamer` (file.dfy), `SyntheticStreamer`
(synthetic.dfy).

The decoder (per chunk), its sample rate, `getInputResamplingLength`, the
resampler and `SamplesBuffer::zero` are the fields of `Env`: total functions
the model never looks inside. The bytes an HTTP reply or a file delivers,
whether the reply is readable, and whether a file opens are parameters of
the transitions that receive them. A render's effect records the frames it
took from the buffer, what it mixes into the caller's output (`Untouched`,
`Added(frames)`, `Synthesized`) and what it does to the peak meter.

Behaviours of the code worth knowing when reading the model:

- `stopCurrentStream` zeroes the buffer and clears `streaming` only when a
  device is attached; the byte queue is always cleared.
- The network variant's `initialize` sets `buffering` even for an empty
  path; there is no separate idle state.
- The test variant's `setStreamPath` neither stops nor initializes; it only
  sets `playing`, clears the queue and resets the fader (left out).
- The file variant's read-ahead loop has no exit for an exhausted queue (see
  Findings).

## Model

| member | source | states |
|---|---|---|
| Chunking.ChunksShape | Client/src/jamtaba/audio/RoomStreamerNode.cpp:137-143 | every chunk is non-empty and at most 2048 bytes, all but the last are full, they concatenate to the consumed bytes, and there are ceil(n/2048) of them |
| Chunking.ChunksUnique | Client/src/jamtaba/audio/RoomStreamerNode.cpp:137-143 | any chunk sequence of that shape covering the bytes is the chunking `decode` uses |
| Chunking.ChunksAppend | Client/src/jamtaba/audio/RoomStreamerNode.cpp:138-143 | after whole 2048-byte chunks, chunking the rest continues the same chunk sequence |
| Mp3Streamer.Decode | Client/src/jamtaba/audio/RoomStreamerNode.cpp:127-152 | no device: nothing changes; otherwise exactly min(maxBytes, queue) bytes leave the front of the queue, the rest stays in order, the buffer does not shrink, device and flag unchanged |
| Mp3Streamer.DecodeBytes | Client/src/jamtaba/audio/RoomStreamerNode.cpp:127-152 | the source's loop: the chunks it passes the decoder are non-empty, at most 2048 bytes, contiguous, concatenate to the consumed prefix and number ceil(n/2048); the buffer becomes the old buffer followed by the decoder outputs in chunk order |
| Mp3Streamer.DecodeCompose | Client/src/jamtaba/audio/RoomStreamerNode.cpp:133-147 | a decode of m bytes (m a multiple of 2048) followed by one of m' bytes equals one decode of m + m' bytes |
| Mp3Streamer.NeedResampling | Client/src/jamtaba/audio/RoomStreamerNode.cpp:120-125 | false while not streaming; otherwise exactly target rate != decoder rate |
| Mp3Streamer.SamplesToRender | Client/src/jamtaba/audio/RoomStreamerNode.cpp:57-61 | the output length itself when no resampling is needed, the resampler's input length otherwise |
| Mp3Streamer.Render | Client/src/jamtaba/audio/RoomStreamerNode.cpp:63-109 | its effect meets `PlaysThroughBase`: no-op when the buffer is empty or not streaming; only the buffer changes; the taken frames followed by the remaining ones are the old buffer; without resampling it takes min(outLength, buffered) frames and mixes exactly those; with resampling it takes the resampler's input length for min(outLength, buffered) output frames (none when that is not positive, at most what is buffered) and mixes the resampler's output for them; the peak is updated exactly when frames were taken |
| Mp3Streamer.MatchingRatePassThrough | Client/src/jamtaba/audio/RoomStreamerNode.cpp:80-88 | at the decoder's own rate the render does not depend on the resampler and mixes the taken frames unchanged |
| Mp3Streamer.RenderRunNoReplay | Client/src/jamtaba/audio/RoomStreamerNode.cpp:97 | over any run of renders the frames taken, in order, followed by those still buffered, are the frames buffered before: none replayed, none lost |
| Mp3Streamer.Stop | Client/src/jamtaba/audio/RoomStreamerNode.cpp:41-55 | the queue is emptied and no device remains; with a device, streaming is cleared and the buffer zeroed; without one, buffer and flag are kept |
| Mp3Streamer.StopIdempotent | Client/src/jamtaba/audio/RoomStreamerNode.cpp:41-55 | a second stop changes nothing |
| Mp3Streamer.Initialize | Client/src/jamtaba/audio/RoomStreamerNode.cpp:111-114 | streaming exactly when the path is non-empty; nothing else changes |
| Mp3Streamer.SetStreamPath | Client/src/jamtaba/audio/RoomStreamerNode.cpp:154-157 | after stop and initialize: empty queue, no device, streaming exactly for a non-empty path |
| NetworkStreamer.NetworkNeedResampling | Client/src/jamtaba/audio/RoomStreamerNode.cpp:184-189 | true exactly when streaming, not buffering and the rates differ; equal to the base decision when not buffering |
| NetworkStreamer.NetworkInitialize | Client/src/jamtaba/audio/RoomStreamerNode.cpp:191-207 | buffering is set, the queue emptied, the buffer zeroed; a non-empty path makes the HTTP reply the device, an empty one leaves the device |
| NetworkStreamer.NetworkSetStreamPath | Client/src/jamtaba/audio/RoomStreamerNode.cpp:191-207 | a new session starts buffering with an empty queue; it has a device exactly for a non-empty path |
| NetworkStreamer.NewNetwork | Client/src/jamtaba/audio/RoomStreamerNode.cpp:164-181 | a constructed node is buffering, with an empty queue and the given buffer time |
| NetworkStreamer.OnReplyRead | Client/src/jamtaba/audio/RoomStreamerNode.cpp:215-228 | with a readable device the delivered bytes are appended to the queue; nothing else ever changes |
| NetworkStreamer.OnReplyError | Client/src/jamtaba/audio/RoomStreamerNode.cpp:209-213 | the stream state is unchanged and the error message is raised |
| NetworkStreamer.DecodeBudget | Client/src/jamtaba/audio/RoomStreamerNode.cpp:237-247 | a render decodes 8192 bytes exactly when it is playing and fewer frames are buffered than it will render, otherwise 4096 |
| NetworkStreamer.DecodeBeforeRender | Client/src/jamtaba/audio/RoomStreamerNode.cpp:237-247 | the two decode calls amount to one decode of the budget |
| NetworkStreamer.NetworkRender | Client/src/jamtaba/audio/RoomStreamerNode.cpp:234-265 | buffering is never set by a render; a buffering stream keeps buffering exactly while its decoded buffer is below bufferTime * sampleRate; while buffering nothing is mixed, no frame is taken and the peak is zeroed; otherwise it renders through the base on the decoded state (`PlaysThroughBase`): nothing when not streaming or nothing is decoded, min(outLength, buffered) frames mixed unchanged at the decoder's rate, the resampler's input length (none when not positive, at most what is buffered) mixed resampled otherwise, the peak updated whenever frames are taken; device and streaming unchanged |
| NetworkStreamer.AfterDecode | Client/src/jamtaba/audio/RoomStreamerNode.cpp:255-264 | on a given decoded state: a buffering node switches to playing exactly at the threshold; while buffering only the peak is zeroed and the state is the decoded one; once playing the effect is the base render's (`PlaysThroughBase`) and the taken frames followed by the remaining ones are the decoded buffer |
| NetworkStreamer.NetworkRenderAccounting | Client/src/jamtaba/audio/RoomStreamerNode.cpp:234-265 | the queue loses only a prefix; the frames played followed by those left are the old buffer plus the decoder's output for exactly the consumed bytes |
| NetworkStreamer.NetworkRenderConsumption | Client/src/jamtaba/audio/RoomStreamerNode.cpp:237-247 | a render consumes at most 8192 bytes and, with a device, at least min(4096, queued) |
| NetworkStreamer.BufferingIsOneWay | Client/src/jamtaba/audio/RoomStreamerNode.cpp:255-264 | once playing, no sequence of renders, reply reads, errors or stops returns the stream to buffering |
| NetworkStreamer.QueueIsFifo | Client/src/jamtaba/audio/RoomStreamerNode.cpp:215-228 | over a session the queue is always a suffix of its initial bytes followed by all delivered bytes in arrival order |
| NetworkStreamer.PrebufferThreshold | Client/src/jamtaba/audio/RoomStreamerNode.cpp:255-257 | with 3 seconds at 44100 Hz playback starts exactly at 132300 buffered frames |
| FileStreamer.FileInitialize | Client/src/jamtaba/audio/RoomStreamerNode.cpp:275-283 | streaming for a non-empty path; the file becomes the device even when it did not open; its bytes (none if unopened) are appended to the queue |
| FileStreamer.FileSetStreamPath | Client/src/jamtaba/audio/RoomStreamerNode.cpp:275-283 | after the stop the queue holds exactly the file's bytes |
| FileStreamer.NewFileStreamer | Client/src/jamtaba/audio/RoomStreamerNode.cpp:269-273 | a constructed node has an empty buffer, the file as device and the file's bytes queued |
| FileStreamer.ReadAheadAsWritten | Client/src/jamtaba/audio/RoomStreamerNode.cpp:290-293 | the loop either exits with at least outLength frames buffered or reaches a state below that which decode(2048) leaves unchanged, so it never exits |
| FileStreamer.ReadAhead | Client/src/jamtaba/audio/RoomStreamerNode.cpp:290-293 | the corrected loop always ends, with enough frames or with no device or nothing left to decode; the queue loses only a prefix |
| FileStreamer.ReadAheadAgrees | Client/src/jamtaba/audio/RoomStreamerNode.cpp:290-293 | both loops reach the same state; the source's loop spins exactly when the corrected one ends short |
| FileStreamer.ReadAheadAccounting | Client/src/jamtaba/audio/RoomStreamerNode.cpp:290-293 | the read-ahead appends the decoder's output for the 2048-byte chunks of exactly the bytes it consumed |
| FileStreamer.ReadAheadMinimal | Client/src/jamtaba/audio/RoomStreamerNode.cpp:290-293 | the read-ahead stops at the first chunk that makes the buffer long enough: without the frames of the last chunk it decoded, fewer frames than requested are buffered (with the accounting lemma: the old buffer plus the frames of all but the last chunk is short) |
| FileStreamer.ReadAheadSpinsIff | Client/src/jamtaba/audio/RoomStreamerNode.cpp:290-293 | with a device, the source's loop spins exactly when decoding the whole queue still leaves fewer frames than requested |
| FileStreamer.FileRenderAsWritten | Client/src/jamtaba/audio/RoomStreamerNode.cpp:289-297 | the callback hangs exactly when the read-ahead ends short; when it returns it is the corrected render |
| FileStreamer.FileRender | Client/src/jamtaba/audio/RoomStreamerNode.cpp:289-297 | the queue is what the read-ahead leaves; frames taken followed by frames left are the old buffer plus the frames decoded from the consumed bytes; nothing happens when not streaming or nothing is buffered after the read-ahead; when streaming, min(outLength, buffered) frames are taken and mixed unchanged at the decoder's rate, and with resampling the resampler's input length (none when not positive, at most what is buffered) is taken and its resampled output mixed; the peak is updated whenever frames are taken |
| FileStreamer.EndOfFileHangs | Client/src/jamtaba/audio/RoomStreamerNode.cpp:290-293 | with the queue drained and fewer frames buffered than requested, the callback never returns |
| FileStreamer.UnopenableFileHangs | Client/src/jamtaba/audio/RoomStreamerNode.cpp:275-293 | a node on a file that cannot be opened hangs on its first render asking for frames |
| SyntheticStreamer.TestSetStreamPath | Client/src/jamtaba/audio/RoomStreamerNode.cpp:325-329 | playing again and the queue emptied; everything else kept |
| SyntheticStreamer.TestStop | Client/src/jamtaba/audio/RoomStreamerNode.cpp:331-333 | only playing is cleared |
| SyntheticStreamer.TestRender | Client/src/jamtaba/audio/RoomStreamerNode.cpp:315-322 | no state change and no frame taken; the oscillator writes exactly while playing; the peak is updated either way |
| SyntheticStreamer.StoppedStaysSilent | Client/src/jamtaba/audio/RoomStreamerNode.cpp:315-333 | after a stop, every render contributes nothing until the path is set again |
| SyntheticStreamer.PlayingKeepsSynthesizing | Client/src/jamtaba/audio/RoomStreamerNode.cpp:315-329 | while playing, every render synthesizes output until the next stop |
| SyntheticStreamer.NewNodeSynthesizes | Client/src/jamtaba/audio/RoomStreamerNode.cpp:300-322 | a newly constructed node (playing) synthesizes on every render until it is first stopped |

## Left out

- Qt networking and file access (`QNetworkAccessManager`, reply signals,
  `QFile::open`/`readAll`, `deleteLater`, the `httpClient` replacement at
  lines 198-201): replaced by parameters carrying the delivered bytes, the
  reply's readability and whether the file opened.
- The mutex at lines 221 and 236 and all thread interleavings: every
  callback and render is one atomic step.
- MP3 decoding, the resampler, `getInputResamplingLength`: uninterpreted
  fields of `Env`; nothing is assumed about the resampled length.
- Env.decode: the decoder is a function of the chunk alone; the
  partial-frame state a real decoder carries between calls, and
  `decoder->reset()` at line 48 that discards it, are not modelled.
- Env.sampleRate: the decoder's sample rate is a constant of the model; the
  real decoder learns it from the stream.
- Sample values: `computePeak`, `lastPeak`, the mixing arithmetic of
  `out.add`, the fader (`faderProcessor.reset` at lines 45 and 326; its
  `process` call is commented out) and the oscillator are floating point or
  not shown; the model records only that the peak is kept, updated or
  zeroed and whether the output is untouched, added to or synthesized.
- `SamplesBuffer` is not part of this model: `zero()` is the uninterpreted
  Env.zero; `discardFirstSamples(k)` is taken to drop min(k, length) frames;
  `set` is taken to copy the first min(k, length) frames; the output length
  set at line 86 is not modelled, so the non-resampled contribution is the
  frames taken.
- Integer widths: the `(int)` cast of the unsigned `maxBytesToDecode` and a
  32-bit overflow of `bufferTime * sampleRate` are not modelled (callers
  pass 4096 and 2048).
- A null and an empty `QString` are both the empty string.
- Logging (`qCDebug`, `qWarning`, `qCCritical`) and the underrun message at
  lines 100-102; the error signal is modelled only as the message
  `on_reply_error` returns.
- Destructors.

## Findings

| source | as written | input that shows it | evidently intended | confidence | as-written member | corrected member |
|---|---|---|---|---|---|---|
| Client/src/jamtaba/audio/RoomStreamerNode.cpp:290-293 | the read-ahead loop repeats `decode(2048)` while fewer frames are buffered than requested, but `decode` does nothing once the queue is empty or without a device | any file node once its whole file is decoded and played, asked for more frames than remain (`EndOfFileHangs`); a node on a file that cannot be opened, asked for one frame (`UnopenableFileHangs`) | stop reading ahead when nothing is left to decode and render what is buffered | high; not executed | FileStreamer.ReadAheadAsWritten | FileStreamer.ReadAhead |
