# vspipe frame-output engine, modelled in Dafny

This project models the core of `vspipe`, the example program of the
`vapoursynth` Rust bindings. The program streams frames `start..=end` of a
clip to a file, to standard output or to nowhere (the output name `.`). It
requests frames asynchronously from the VapourSynth producer and keeps at
most `requests` requests open. Frames arrive in any order and are held in a
reorder map keyed by frame index. Each completion callback writes, in index
order, every frame that is ready. Optionally the output is a YUV4MPEG2
(y4m) stream, with a header and a `FRAME` marker before each frame.

The modules follow the program's structure:

- `common.dfy` (`Common`): `Option`, `Result`, `Outcome` and the
  `failure`-crate error (a message, or a context wrapping a cause).
  `Display` of an error is its outermost text.
- `decimal.dfy` (`Decimal`): decimal rendering of integers, as `{}` prints
  them.
- `sink.dfy` (`Sink`): the `OutputTarget` and its `Write` impl. A real
  device is abstract: a per-write fault oracle plus the bytes accepted so
  far. The `Empty` target is concrete.
- `y4m.dfy` (`Y4m`): `print_y4m_header`.
- `framing.dfy` (`Framing`): `print_frame` and `print_frames`. Frames are
  values whose planes are byte sequences.
- `engine.dfy` (`Engine`): the state of `OutputState` plus the logs of
  requests, writes and producer answers, written as a state machine.
  - `Callback` is one `frame_done_callback`; `Init` is the state `output`
    creates.
  - It also holds the invariant, its preservation, and what follows from
    it.
- `pipeline.dfy` (`Pipeline`): the class `OutputState`.
  - `FrameDone` is the callback, with the drain `while` loop. `Finish` is
    what `output` does once the done flag is set.
  - `Output` is the setup: the header stage, then the state and the
    initial-request `for` loop.
  - Each method is proved against the engine's functions.
- `cli.dfy` (`Cli`): `parse_arg`, the frame-range check and the
  request-count default of `run`.

### Where the code departs from a first-error-latch design

- A producer error overwrites any recorded error (`Engine.ProducerErrorRecordsOnly`).
- A write failure only sets the error when none is recorded, and it
  records the index of the callback that drained, not of the frame that
  failed (`Engine.DrainEmits`).
- Requests continue after an error. The decision to request more looks
  only at the slot and the counter (`Engine.ArrivalRequestsNext`).
- A producer error leaves its index incomplete forever, so the cursor never
  passes it and `output` never returns (`Engine.ProducerErrorBlocksCompletion`).
- The request count bounds requests that have not completed. It does not
  bound frames waiting in the reorder map (`Engine.BufferOutgrowsWindow`).
- A completion requests the next frame as soon as its own slot is
  complete, even if nothing can be written yet (`Engine.InterleavedCompletions`).
- Requests and the output cursor start at index 0, not at `start_frame`
  (see Findings). The class and `Output` take that first index as a
  parameter: `first = 0` is the program as written, and `first = start` is
  the corrected program.

## Model

| member | source | states |
|---|---|---|
| Sink.EmptyAlwaysSucceeds | vapoursynth/examples/vspipe.rs:57-73 | The discarding target reports every buffer as written whole and every flush as successful. |
| Sink.WriteSeqEmpty | vapoursynth/examples/vspipe.rs:62 | Any sequence of `write_all` calls on the discarding target succeeds and leaves it unchanged. |
| Sink.WriteSeqDelivers | vapoursynth/examples/vspipe.rs:57-73 | On a file or stdout, successive writes deliver a prefix of the concatenated chunks, in order and with nothing else; when every write succeeded they deliver all of them. |
| Cli.FindFirst | vapoursynth/examples/vspipe.rs:87 | `find` returns a position holding the character with no earlier occurrence, and returns nothing exactly when the character is absent. |
| Cli.ParseArg | vapoursynth/examples/vspipe.rs:86-91 | Fails exactly when the argument has no `=`, with "No value specified for argument: <arg>". Otherwise key + "=" + value is the argument and the key has no `=`. |
| Cli.ParseArgInverse | vapoursynth/examples/vspipe.rs:86-91 | Any key without `=` and any value (which may contain `=`) are recovered unchanged from `key=value`. |
| Cli.FindFirstSkips | vapoursynth/examples/vspipe.rs:87 | Searching past a prefix that lacks the character gives the search of the rest, shifted by the prefix length. |
| Y4m.ColourTagInverse | vapoursynth/examples/vspipe.rs:177-193 | Exactly the six subsampling pairs (1,1), (1,0), (0,0), (2,2), (2,0), (0,1) have a tag, and the tag decodes back to its pair, so no two pairs share one. |
| Y4m.HeaderShape | vapoursynth/examples/vspipe.rs:163-247 | The header fails exactly for formats that are neither Gray nor YUV with a tagged subsampling, with "No y4m identifier exists for the current format". On success it is "YUV4MPEG2 C" + colour space + " W.. H.. F..:.. Ip A0:0 XLENGTH=..\n". |
| Y4m.HeaderIsOneLine | vapoursynth/examples/vspipe.rs:163-247 | A successful header ends in its only newline. |
| Y4m.WriteHeaderSends | vapoursynth/examples/vspipe.rs:163-247 | Writing the header fails whenever the format has no y4m name. On the discarding target it succeeds exactly when a name exists. On a device, a success means the device received exactly the header bytes. |
| Engine.SlotOfComplete | vapoursynth/examples/vspipe.rs:250-252 | A slot built from the delivered frames is complete iff its primary frame arrived and, with an alpha node, its alpha frame arrived too. |
| Framing.PlaneOrder | vapoursynth/examples/vspipe.rs:254-275 | Non-RGB planes are written in order; RGB planes are written as 1, 2, 0. Either way every plane is written exactly once (same multiset). |
| Framing.PrintFramesEmpty | vapoursynth/examples/vspipe.rs:277-293 | `print_frames` on the discarding target always succeeds. |
| Framing.PrintFramesSends | vapoursynth/examples/vspipe.rs:277-293 | On a device, `print_frames` sends a prefix of (the `FRAME\n` marker if y4m) + primary planes + alpha planes, and all of it on success. |
| Engine.InitialRequests | vapoursynth/examples/vspipe.rs:400-403 | The initial window is the minimum of the request count and the range length. |
| Engine.RequestPair | vapoursynth/examples/vspipe.rs:325-342 | One request is issued on the primary node, plus one on the alpha node iff there is one, all for the same index. |
| Engine.BatchMembers | vapoursynth/examples/vspipe.rs:423-435 | The initial loop requests exactly indices `base..base+K` on the primary node, and on the alpha node when there is one. |
| Engine.Store | vapoursynth/examples/vspipe.rs:314-319 | The arriving frame's slot exists afterwards (created as (None, None) if absent). Only the component of its own stream changes, and no other slot changes. |
| Engine.RequestNext | vapoursynth/examples/vspipe.rs:322-345 | Requesting touches neither the slots, the cursor, the answers, the output, the error nor the done flag, and it never drops an issued request. |
| Engine.ArrivalRequestsNext | vapoursynth/examples/vspipe.rs:322-345 | A new request is issued iff the slot is complete after the update and `last_requested_frame < end_frame`. It is for `last_requested_frame + 1` (primary, then alpha), the counter grows by exactly one, and the recorded error plays no part. |
| Engine.DrainStep | vapoursynth/examples/vspipe.rs:352-369 | One iteration removes the slot at the cursor and advances the cursor by one whether or not anything is written. With an error recorded the target, the written log and the error are unchanged. Otherwise the slot's frames are appended to the written log, the target is the one `print_frames` leaves, and the error is `(n, e)` exactly when `print_frames` failed with `e`. |
| Engine.DrainStepWrites | vapoursynth/examples/vspipe.rs:358-366 | One iteration keeps the write log: a device has received its starting bytes followed by the bytes of every written index. Only the last of those may be cut short, and only when an error is recorded. |
| Engine.DrainWrites | vapoursynth/examples/vspipe.rs:348-370 | The whole drain loop keeps the write log. |
| Engine.Drain | vapoursynth/examples/vspipe.rs:348-370 | The drain loop leaves requests and answers alone, never moves the cursor back, and stops with the slot at the cursor absent or incomplete. |
| Engine.DrainRemovesPrefix | vapoursynth/examples/vspipe.rs:348-370 | The drain removes exactly the run of complete slots from the cursor on, in consecutive order, and leaves every other slot unchanged. |
| Engine.DrainEmits | vapoursynth/examples/vspipe.rs:358-366 | The frames written are the removed slots in ascending order, all of them while no error is recorded. After a recorded error nothing is written and the error stays. A new error carries the callback's index and comes from a write the drain made. |
| Engine.ProducerErrorRecordsOnly | vapoursynth/examples/vspipe.rs:305-311 | A producer error sets the error to (n, msg), overwriting any earlier one. It changes no slot, request, counter, cursor or output. |
| Engine.CallbackWrites | vapoursynth/examples/vspipe.rs:295-378 | Every callback keeps the write log. |
| Engine.CallbackIgnoresLog | vapoursynth/examples/vspipe.rs:322-345 | A callback never reads the request log, it only appends to it. Started with any other log, it reaches the same state and appends the same requests. |
| Engine.DoneAfterCallback | vapoursynth/examples/vspipe.rs:374-377 | After every callback, error ones included, the done flag is set iff it was set before or the cursor is `end_frame + 1`. |
| Engine.InitWriteLog | vapoursynth/examples/vspipe.rs:400-413 | Before any frame is written, the write log holds for the target `output` was given. |
| Engine.InitEstablishesInv | vapoursynth/examples/vspipe.rs:400-435 | The state `output` builds satisfies the engine invariant: request log, slots, output prefix, written log, window accounting, and done flag. |
| Engine.CallbackPreservesInv | vapoursynth/examples/vspipe.rs:295-378 | Every callback answering a pending request keeps the invariant. |
| Engine.DrainPreserves | vapoursynth/examples/vspipe.rs:348-370 | The drain loop keeps the invariant and leaves the cursor at an index whose frames have not all arrived. |
| Engine.EmittedInOrder | vapoursynth/examples/vspipe.rs:348-370 | Frames are written in strictly ascending consecutive order from the first index, each once, with the frames the producer delivered for it (alpha exactly when there is an alpha node). With no error, every index before the cursor has been written. |
| Engine.WindowBound | vapoursynth/examples/vspipe.rs:322-345 | At any time at most `min(requests, range length)` requested indices have not completed. |
| Engine.QuiescentRunCompletes | vapoursynth/examples/vspipe.rs:295-378 | When requests start at `start_frame` and every request has been answered with a frame, the whole range is requested, the cursor is `end_frame + 1`, the done flag is set, and with no error all `end - start + 1` frames were written. |
| Engine.ProducerErrorBlocksCompletion | vapoursynth/examples/vspipe.rs:305-311 | After a producer error for an index, the cursor is at or before that index and the done flag is clear. |
| Engine.OffsetNeverCompletes | vapoursynth/examples/vspipe.rs:411-435 | As written, with `start_frame > 0`, index `min(requests, range length)`, which is at most `end_frame`, is never requested. The cursor never passes it and the done flag stays clear. |
| Engine.StartOffsetStalls | vapoursynth/examples/vspipe.rs:411-435 | For range [1, 2] with one request: frame 0 is requested and written, then frame 2; frame 1 never is. Nothing stays pending, the flag stays clear, and the invariant holds. |
| Engine.InterleavedCompletions | vapoursynth/examples/vspipe.rs:295-378 | Ten frames, three requests, completions 1, 0, 2: completing 1 requests 3 and writes nothing. Completing 0 requests 4 and writes 0 and 1. Completing 2 requests 5 and writes 2. |
| Engine.BufferOutgrowsWindow | vapoursynth/examples/vspipe.rs:314-345 | With two requests over frames 0 to 3 and frame 0 slow, frames 1 to 3 all wait in the reorder map (three entries) while 0 is pending and nothing is written. |
| Pipeline.PrepareTargetOutcome | vapoursynth/examples/vspipe.rs:385-393 | Without y4m nothing is written. With y4m and alpha, "Can't apply y4m headers to a clip with alpha" is returned and nothing is written. Otherwise a header failure returns "Couldn't write the y4m header" wrapping the cause, and a success sends exactly the header. |
| Pipeline.RetrieveErrorNamesFrame | vapoursynth/examples/vspipe.rs:445-450 | The "Failed to retrieve frame {n} with error: {msg}" report determines n. |
| Pipeline.OutputState.constructor | vapoursynth/examples/vspipe.rs:406-413 | The new state has no error, an empty reorder map, `last_requested_frame = start + K - 1` and the cursor at the first index. |
| Pipeline.OutputState.StoreFrame | vapoursynth/examples/vspipe.rs:314-319 | The slot update, as the engine's `Arrive` describes it. |
| Pipeline.OutputState.RequestMore | vapoursynth/examples/vspipe.rs:322-345 | The conditional extra request, as `Engine.RequestNext`. |
| Pipeline.OutputState.DrainOne | vapoursynth/examples/vspipe.rs:354-369 | The loop body's new state is `Engine.DrainStep` of the old one. |
| Pipeline.OutputState.DrainReady | vapoursynth/examples/vspipe.rs:348-370 | The `while` loop's final state is `Engine.Drain` of the state before it (loop invariant: the drain of the current state is unchanged). |
| Pipeline.OutputState.FrameDone | vapoursynth/examples/vspipe.rs:295-378 | The new state is `Engine.Callback` of the old one. The invariant and the write log are kept. |
| Pipeline.OutputState.Finish | vapoursynth/examples/vspipe.rs:444-458 | A recorded error gives the "Failed to retrieve frame" report, before any flush. Otherwise the result passes iff the flush does, and a flush failure is wrapped in "Failed to flush the output file". On success every frame of the range was handed to `print_frames` exactly once, in order, with the frames the producer delivered for it. A device then holds what it held before the first frame, followed by the bytes of every one of those frames. The discarding target stays discarding. |
| Pipeline.WriteTimecodesOutcome | vapoursynth/examples/vspipe.rs:395-398 | Without a timecodes file nothing happens. With one, the header line "# timecode format v2\n" is written; the write fails exactly when the file's fault oracle says so, and the error is then the I/O error's message. |
| Pipeline.Output | vapoursynth/examples/vspipe.rs:380-435 | Returns the header stage's failure, or else the timecodes write's failure. Failing and returning no state coincide. Otherwise it returns a fresh state equal to `Engine.Init` of the prepared target, with the initial requests issued by the `for` loop, the invariant established and the write log started from that target. |
| Cli.FramesToOutputCount | vapoursynth/examples/vspipe.rs:711-715 | The count reads `<overflow>` exactly when `end - start` or `end - start + 1` leaves `i32`; otherwise it is `end - start + 1`. |
| Cli.FrameRangeChecks | vapoursynth/examples/vspipe.rs:689-717 | The range is accepted iff `0 <= start <= end < num_frames` (defaults 0 and `num_frames - 1`) and then passed on unchanged. Otherwise the error lists first, last, clip length and frames to output. |
| Cli.RequestCount | vapoursynth/examples/vspipe.rs:719-731 | A request count of 0 means the core's thread count; any other count is kept. These clauses spell out the default; what it guarantees `output` is stated by `Cli.RunMeetsOutput`. |
| Cli.RunMeetsOutput | vapoursynth/examples/vspipe.rs:733-748 | An accepted range, with a core of at least one thread, gives `output` a non-empty range inside the clip and at least one request. |

## Left out

- Command-line definition and parsing with `clap`, `print_version`, the
  VSScript environment, script evaluation, `OwnedMap` argument setting and
  the output index (lines 75-83, 461-585 and 602-650). These are foreign-library
  plumbing. Only `parse_arg` is modelled, on the string it is given.
- Choosing and opening the output target from its name (lines 586-593).
  The target arrives as a value.
- `print_info`, `map_or_variable` and the `--info` branch of `run` (lines
  94-161 and 651-658): text formatting with floating-point frame rates.
- The refusal of clips with varying format, dimensions, frame rate or
  length (lines 659-687). The model's inputs are constant clip properties.
- `str::parse` of `--start`, `--end`, `--requests` and `--outputindex` and
  their error contexts. The numbers arrive parsed, and `--start` and
  `--end` are within `i32`.
- `Mutex`, `Condvar` and `Arc`. Each callback runs under the mutex, so it is
  one atomic `FrameDone` call. The wait loop (lines 438-442) is the `done`
  precondition of `Finish`.
- The interleaving of callbacks with the initial `for` loop (lines 421-436).
  That loop runs without the lock, so a callback can run before the batch
  is fully issued. The model issues the whole batch first. A callback never
  reads the request log (`Engine.CallbackIgnoresLog`), so an early callback
  reaches the same state. Only the order of entries in the request log
  differs, and the model does not capture that order.
- `get_frame_async` is a foreign asynchronous call. It is modelled as an
  entry in the request log. The producer's answers are `FrameDone` calls,
  at most one per request (the `Pending` precondition).
- Real file and stdout writes. A device accepts a write whole or fails it,
  as its fault oracle says, and it fails a flush as its flush fault says.
  Partial writes inside `write_all`, and the number of `write` calls one
  `write!` makes, are not modelled. Faults are indexed by write call, so
  they depend on that granularity.
- Pixel data. A plane is the byte sequence written for it. Writing a plane
  row by row (`data_row`, lines 268-270) sends the same bytes in more
  calls, which the model does not distinguish.
- The timecodes file after its header line. The header write (lines
  396-398) is modelled, and its failure is a failure of `output`. The
  file's device is then dropped, since nothing else in the core writes to
  it. The `progress` flag is left out too; it does not affect the output.
- The `Couldn't output the frames` context that `run` adds to any error of
  `output` (line 748).
- The `cfg` feature variants. The clip length is a given number below
  2^31, the range of a C `int`, so `num_frames as i32` does not wrap.
- `vapoursynth/src/api.rs` and `vapoursynth/src/frame.rs` are not part of
  this model. They are unsafe wrappers around the VapourSynth C API.
- Pipeline.Output: requires at least one request and a non-empty range.
  `run` guarantees the range. With zero requests, `output` issues nothing
  and waits forever; if `start_frame` is also 0, computing
  `last_requested_frame` underflows.
- Y4m.HeaderShape: floating-point YUV formats with a tagged subsampling
  and a bit depth other than 16, 32 or 64 are excluded by a precondition.
  The source marks that depth `unreachable!()` once the tag is written.
  An untagged subsampling is still refused with the y4m error.
- Framing.PlaneOrder: an RGB frame is assumed to have three planes, as
  VapourSynth's RGB formats do.

## Findings

| source | as written | input that shows it | evidently intended | confidence | as-written member | corrected member |
|---|---|---|---|---|---|---|
| vapoursynth/examples/vspipe.rs:411-435 | `next_output_frame` starts at 0 and the initial loop requests indices `0..initial_requests`, while `last_requested_frame` is `start_frame + initial_requests - 1` | `--start 1 --end 2 --requests 1`: frame 0 is requested and written though outside the range, frame 2 is requested next, frame 1 never is, and `output` waits forever | requests and the output cursor start at `start_frame`, so exactly frames `start..=end` are written in order and the run finishes | not executed | Engine.OffsetNeverCompletes | Engine.QuiescentRunCompletes |
