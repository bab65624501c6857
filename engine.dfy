/** The reorder-and-emit engine behind `output` and `frame_done_callback`.

    Every completion callback runs entirely under one mutex, so the engine is
    a sequential state machine: `Callback` is one step, `Init` the state
    `output` creates before issuing the first requests. Besides the fields of
    `OutputState`, the state carries the log of requests handed to the
    producer (`get_frame_async`), the log of frames handed to `print_frames`,
    and the producer's answers so far (`delivered` frames and `failed`
    requests), which the invariant relates the other fields to. */
module Engine {
  import opened Common
  import opened Sink
  import opened Framing

  /** A `reorder_map` entry: the primary frame and the alpha frame of one
      index, as far as they have arrived. */
  datatype Slot = Slot(frame: Option<Frame>, alphaFrame: Option<Frame>)

  /** A `get_frame_async` call: on the alpha node or the primary node. */
  datatype Request = Request(alpha: bool, index: nat)

  /** One `print_frames` call: the index being written and its frames. */
  datatype Emission = Emission(index: nat, frame: Frame, alphaFrame: Option<Frame>)

  /** `OutputParameters`: whether there is an alpha node, the inclusive frame
      range, the request count and y4m output. */
  datatype Params = Params(hasAlpha: bool, start: nat, end: nat, requests: nat, y4m: bool)

  datatype EngineState = EngineState(
    reorderMap: map<nat, Slot>,
    lastRequested: nat,
    nextOutput: nat,
    error: Option<(nat, Error)>,
    done: bool,
    requested: seq<Request>,
    target: OutputTarget,
    emitted: seq<Emission>,
    delivered: map<Request, Frame>,
    failed: set<Request>)

  /** `is_completed`: the frame is there and, when there is an alpha node,
      so is its alpha frame. */
  predicate IsCompleted(s: Slot, hasAlpha: bool) {
    s.frame.Some? && (!hasAlpha || s.alphaFrame.Some?)
  }

  /** What `output` needs of its parameters: a non-empty range (`run` checks
      it) and at least one request (otherwise nothing is ever requested and
      the wait never ends). */
  predicate ValidParams(p: Params) {
    p.start <= p.end && p.requests >= 1
  }

  /** `min(requests, end_frame - start_frame + 1)`. */
  function InitialRequests(p: Params): (k: nat)
    requires p.start <= p.end
    ensures k <= p.requests && k <= p.end - p.start + 1
    ensures k == p.requests || k == p.end - p.start + 1
  {
    if p.requests < p.end - p.start + 1 then p.requests else p.end - p.start + 1
  }

  /** The requests issued for one index: the primary node, then the alpha
      node if there is one. */
  function RequestPair(i: nat, hasAlpha: bool): (rs: seq<Request>)
    ensures forall r :: r in rs <==> r.index == i && (r.alpha ==> hasAlpha)
  {
    if hasAlpha then [Request(false, i), Request(true, i)] else [Request(false, i)]
  }

  /** The requests of the initial loop `for n in base..base + k`. */
  function Batch(base: nat, k: nat, hasAlpha: bool): seq<Request> {
    if k == 0 then [] else Batch(base, k - 1, hasAlpha) + RequestPair(base + k - 1, hasAlpha)
  }

  lemma {:induction false} BatchMembers(base: nat, k: nat, hasAlpha: bool)
    ensures forall r :: r in Batch(base, k, hasAlpha) <==>
      base <= r.index < base + k && (r.alpha ==> hasAlpha)
  {
    if k > 0 {
      BatchMembers(base, k - 1, hasAlpha);
    }
  }

  /** The state `output` builds. The code starts `next_output_frame` at 0 and
      requests indices `0..initial_requests`, while `last_requested_frame`
      is `start_frame + initial_requests - 1`; `base` is the index the
      requests and the output cursor start at (0 in the code). */
  function Init(p: Params, base: nat, target: OutputTarget): EngineState
    requires ValidParams(p)
  {
    var k := InitialRequests(p);
    EngineState(map[], p.start + k - 1, base, None, false,
                Batch(base, k, p.hasAlpha), target, [], map[], {})
  }

  /** The `entry(n).or_insert((None, None))` update: slot `n` exists
      afterwards, only the component of the arriving stream changed, and no
      other slot changed. */
  function Store(m: map<nat, Slot>, n: nat, alpha: bool, f: Frame): (m': map<nat, Slot>)
    ensures m'.Keys == m.Keys + {n}
    ensures forall k :: k in m && k != n ==> m'[k] == m[k]
    ensures alpha ==> m'[n].alphaFrame == Some(f) && m'[n].frame == (if n in m then m[n].frame else None)
    ensures !alpha ==> m'[n].frame == Some(f) && m'[n].alphaFrame == (if n in m then m[n].alphaFrame else None)
  {
    var s := if n in m then m[n] else Slot(None, None);
    m[n := if alpha then s.(alphaFrame := Some(f)) else s.(frame := Some(f))]
  }

  /** Record an arriving frame. */
  function Arrive(e: EngineState, n: nat, alpha: bool, f: Frame): EngineState {
    e.(reorderMap := Store(e.reorderMap, n, alpha, f),
       delivered := e.delivered[Request(alpha, n) := f])
  }

  /** Request one more frame when slot `n` is complete and the range is not
      exhausted. */
  function RequestNext(e: EngineState, p: Params, n: nat): (r: EngineState)
    requires n in e.reorderMap
    ensures r.reorderMap == e.reorderMap && r.nextOutput == e.nextOutput
    ensures r.delivered == e.delivered && r.failed == e.failed
    ensures r.emitted == e.emitted && r.error == e.error && r.target == e.target && r.done == e.done
    ensures forall q :: q in e.requested ==> q in r.requested
  {
    if IsCompleted(e.reorderMap[n], p.hasAlpha) && e.lastRequested < p.end then
      e.(requested := e.requested + RequestPair(e.lastRequested + 1, p.hasAlpha),
         lastRequested := e.lastRequested + 1)
    else e
  }

  /** The drain loop's condition. */
  predicate CanDrain(e: EngineState, p: Params) {
    e.nextOutput in e.reorderMap && IsCompleted(e.reorderMap[e.nextOutput], p.hasAlpha)
  }

  function EmissionOf(m: map<nat, Slot>, k: nat): Emission
    requires k in m && m[k].frame.Some?
  {
    Emission(k, m[k].frame.value, m[k].alphaFrame)
  }

  /** One iteration of the drain loop run by the callback for index `n`:
      remove the slot, write it if no error is recorded (a failure is
      recorded against `n`), and advance the cursor in any case. */
  function DrainStep(e: EngineState, p: Params, n: nat): (r: EngineState)
    requires CanDrain(e, p)
    ensures r.reorderMap == e.reorderMap - {e.nextOutput}
    ensures r.nextOutput == e.nextOutput + 1
    ensures r.requested == e.requested && r.lastRequested == e.lastRequested
    ensures r.delivered == e.delivered && r.failed == e.failed && r.done == e.done
    ensures e.error.Some? ==> r.error == e.error && r.emitted == e.emitted && r.target == e.target
    ensures e.error.None? ==> r.emitted == e.emitted + [EmissionOf(e.reorderMap, e.nextOutput)]
    ensures e.error.None? ==>
      var s := e.reorderMap[e.nextOutput];
      var w := PrintFrames(e.target, p.y4m, s.frame.value, s.alphaFrame);
      r.target == w.0 && r.error == (if w.1.Fail? then Some((n, w.1.error)) else None)
  {
    var k := e.nextOutput;
    var slot := e.reorderMap[k];
    var e1 := e.(reorderMap := e.reorderMap - {k}, nextOutput := k + 1);
    if e.error.Some? then e1
    else
      var (t, res) := PrintFrames(e.target, p.y4m, slot.frame.value, slot.alphaFrame);
      e1.(target := t,
          emitted := e.emitted + [EmissionOf(e.reorderMap, k)],
          error := if res.Fail? then Some((n, res.error)) else None)
  }

  /** The drain loop: it runs until the slot at the cursor is absent or
      incomplete, and touches neither the requests nor the producer's
      answers. */
  function Drain(e: EngineState, p: Params, n: nat): (r: EngineState)
    ensures r.requested == e.requested && r.lastRequested == e.lastRequested
    ensures r.delivered == e.delivered && r.failed == e.failed && r.done == e.done
    ensures e.nextOutput <= r.nextOutput
    ensures !CanDrain(r, p)
    decreases e.reorderMap.Keys
  {
    if CanDrain(e, p) then Drain(DrainStep(e, p, n), p, n) else e
  }

  /** A drain that can take a step is that step followed by the rest. */
  lemma DrainUnfold(e: EngineState, p: Params, n: nat)
    requires CanDrain(e, p)
    ensures Drain(e, p, n) == Drain(DrainStep(e, p, n), p, n)
  {
  }

  /** `x` is what writing slot `k` of `m` hands to `print_frames`. */
  predicate EmittedFrom(m: map<nat, Slot>, k: nat, x: Emission) {
    k in m && m[k].frame.Some? && x == EmissionOf(m, k)
  }

  /** The drain loop removes exactly the complete run of slots starting at
      the cursor, and leaves every other slot as it was. */
  lemma {:induction false} DrainRemovesPrefix(e: EngineState, p: Params, n: nat)
    ensures var r := Drain(e, p, n);
      && (forall k :: e.nextOutput <= k < r.nextOutput ==>
            k in e.reorderMap && IsCompleted(e.reorderMap[k], p.hasAlpha))
      && (forall k :: k in r.reorderMap <==> k in e.reorderMap && !(e.nextOutput <= k < r.nextOutput))
      && (forall k :: k in r.reorderMap ==> r.reorderMap[k] == e.reorderMap[k])
    decreases e.reorderMap.Keys
  {
    if CanDrain(e, p) {
      var s := DrainStep(e, p, n);
      DrainRemovesPrefix(s, p, n);
      var r := Drain(e, p, n);
      assert r == Drain(s, p, n);
      forall k | e.nextOutput <= k < r.nextOutput
        ensures k in e.reorderMap && IsCompleted(e.reorderMap[k], p.hasAlpha)
      {
        if k > e.nextOutput {
          assert k in s.reorderMap;
        }
      }
    }
  }

  /** The frames the drain loop writes are the removed slots in ascending
      order, starting at the cursor: all of them while no error is
      recorded; once a write fails, the error is recorded against `n` and no
      later slot is written. With an error already recorded nothing is
      written and the error stays. */
  lemma {:induction false} DrainEmits(e: EngineState, p: Params, n: nat)
    ensures var r := Drain(e, p, n);
      && |e.emitted| <= |r.emitted| <= |e.emitted| + (r.nextOutput - e.nextOutput)
      && r.emitted[..|e.emitted|] == e.emitted
      && (forall i :: |e.emitted| <= i < |r.emitted| ==> EmittedFrom(e.reorderMap, e.nextOutput + (i - |e.emitted|), r.emitted[i]))
      && (e.error.Some? ==> r.error == e.error && r.emitted == e.emitted && r.target == e.target)
      && (r.error.None? ==> |r.emitted| == |e.emitted| + (r.nextOutput - e.nextOutput))
      && (r.error != e.error ==> e.error.None? && r.error.Some? && r.error.value.0 == n)
      && (r.error != e.error ==> |e.emitted| < |r.emitted|)
    decreases e.reorderMap.Keys
  {
    if CanDrain(e, p) {
      var s := DrainStep(e, p, n);
      DrainEmits(s, p, n);
      var r := Drain(e, p, n);
      assert r == Drain(s, p, n);
      if e.error.None? {
        assert s.error.Some? ==> r.error == s.error;
        forall i | |e.emitted| <= i < |r.emitted|
          ensures EmittedFrom(e.reorderMap, e.nextOutput + (i - |e.emitted|), r.emitted[i])
        {
          var k := e.nextOutput + (i - |e.emitted|);
          if i == |e.emitted| {
            assert IsCompleted(e.reorderMap[k], p.hasAlpha);
            assert r.emitted[i] == r.emitted[..|s.emitted|][i] == s.emitted[i];
          } else {
            var j := i - |s.emitted|;
            assert k == s.nextOutput + j;
            assert EmittedFrom(s.reorderMap, k, r.emitted[i]);
            assert s.reorderMap[k] == e.reorderMap[k];
          }
        }
      }
    }
  }

  /** The bytes `print_frames` sends for one written index. */
  function EmissionBytes(y4m: bool, x: Emission): Bytes {
    Concat(FrameChunks(y4m, x.frame, x.alphaFrame))
  }

  /** The bytes of the written indices, one after the other. */
  function EmittedBytes(y4m: bool, es: seq<Emission>): Bytes {
    if es == [] then [] else EmittedBytes(y4m, es[..|es| - 1]) + EmissionBytes(y4m, es[|es| - 1])
  }

  /** What the output target holds, given the target `t0` the engine started
      with: the discarding target stays discarding, and a device has
      received what it held at the start followed by the bytes of the
      written indices in order. All of them arrived while no error is
      recorded; otherwise every one but possibly the last arrived whole. */
  predicate WriteLog(e: EngineState, p: Params, t0: OutputTarget) {
    && (e.target.Empty? <==> t0.Empty?)
    && (!t0.Empty? ==> Progress(Sent(t0), Sent(e.target), EmittedBytes(p.y4m, e.emitted), e.error.None?))
    && (!t0.Empty? && |e.emitted| > 0 ==>
          Sent(t0) + EmittedBytes(p.y4m, e.emitted[..|e.emitted| - 1]) <= Sent(e.target))
  }

  /** Before any frame is written the target holds what it held. */
  lemma InitWriteLog(p: Params, base: nat, t: OutputTarget)
    requires ValidParams(p)
    ensures WriteLog(Init(p, base, t), p, t)
  {
    assert EmittedBytes(p.y4m, []) == [];
    assert Sent(t) + [] == Sent(t);
  }

  /** One drain iteration keeps the write log: a successful `print_frames`
      appends exactly the index's bytes, a failing one a prefix of them. */
  lemma DrainStepWrites(e: EngineState, p: Params, n: nat, t0: OutputTarget)
    requires CanDrain(e, p) && WriteLog(e, p, t0)
    ensures WriteLog(DrainStep(e, p, n), p, t0)
  {
    var r := DrainStep(e, p, n);
    if e.error.None? {
      if !t0.Empty? {
        DrainStepSends(e, p, n);
      }
      WriteAppends(e, r, p, t0, EmissionOf(e.reorderMap, e.nextOutput));
    }
  }

  /** The bytes one drain step sends are those of the index it writes. */
  lemma DrainStepSends(e: EngineState, p: Params, n: nat)
    requires CanDrain(e, p) && e.error.None? && !e.target.Empty?
    ensures var r := DrainStep(e, p, n);
      Progress(Sent(e.target), Sent(r.target), EmissionBytes(p.y4m, EmissionOf(e.reorderMap, e.nextOutput)), r.error.None?)
  {
    var s := e.reorderMap[e.nextOutput];
    PrintFramesSends(e.target, p.y4m, s.frame.value, s.alphaFrame);
  }

  /** Appending one written index whose bytes reached the device in part,
      or whole if `r` records no error, keeps the write log. */
  lemma WriteAppends(e: EngineState, r: EngineState, p: Params, t0: OutputTarget, x: Emission)
    requires WriteLog(e, p, t0) && e.error.None?
    requires r.emitted == e.emitted + [x] && (r.target.Empty? <==> e.target.Empty?)
    requires !t0.Empty? ==> Progress(Sent(e.target), Sent(r.target), EmissionBytes(p.y4m, x), r.error.None?)
    ensures WriteLog(r, p, t0)
  {
    if !t0.Empty? {
      var a := EmittedBytes(p.y4m, e.emitted);
      var b := EmissionBytes(p.y4m, x);
      assert r.emitted[..|r.emitted| - 1] == e.emitted;
      assert EmittedBytes(p.y4m, r.emitted) == a + b;
      ProgressThen(Sent(t0), Sent(e.target), Sent(r.target), a, b, true, r.error.None?);
    }
  }

  /** The drain loop keeps the write log. */
  lemma {:induction false} DrainWrites(e: EngineState, p: Params, n: nat, t0: OutputTarget)
    requires WriteLog(e, p, t0)
    ensures WriteLog(Drain(e, p, n), p, t0)
    decreases e.reorderMap.Keys
  {
    if CanDrain(e, p) {
      DrainStepWrites(e, p, n, t0);
      DrainWrites(DrainStep(e, p, n), p, n, t0);
    }
  }

  /** The drain loop never reads the request log. */
  lemma {:induction false} DrainIgnoresLog(e: EngineState, p: Params, n: nat, log: seq<Request>)
    ensures Drain(e.(requested := log), p, n) == Drain(e, p, n).(requested := log)
    decreases e.reorderMap.Keys
  {
    if CanDrain(e, p) {
      assert DrainStep(e.(requested := log), p, n) == DrainStep(e, p, n).(requested := log);
      DrainIgnoresLog(DrainStep(e, p, n), p, n, log);
    }
  }

  /** Record a producer error: it replaces whatever error was recorded. */
  function ProducerFailed(e: EngineState, n: nat, alpha: bool, msg: string): EngineState {
    e.(error := Some((n, Message(msg))), failed := e.failed + {Request(alpha, n)})
  }

  /** `frame_done_callback` for index `n` of the alpha (`alpha`) or primary
      stream, with the producer's result. */
  function Callback(e: EngineState, p: Params, frame: Result<Frame, string>, n: nat, alpha: bool)
    : EngineState
  {
    var e1 := match frame
      case Failure(msg) => ProducerFailed(e, n, alpha, msg)
      case Success(f) => Drain(RequestNext(Arrive(e, n, alpha, f), p, n), p, n);
    e1.(done := e1.done || e1.nextOutput == p.end + 1)
  }

  // ---------------------------------------------------------------------
  // What one callback does

  /** A frame for another index than the cursor's, while the cursor's slot
      is absent, writes nothing: the callback only stores and requests. */
  lemma CallbackWithoutDrain(e: EngineState, p: Params, f: Frame, n: nat, alpha: bool)
    requires e.nextOutput != n && e.nextOutput !in e.reorderMap
    ensures Callback(e, p, Success(f), n, alpha) ==
      RequestNext(Arrive(e, n, alpha, f), p, n).(done := e.done || e.nextOutput == p.end + 1)
  {
    var q := RequestNext(Arrive(e, n, alpha, f), p, n);
    assert !CanDrain(q, p);
  }


  /** A producer error records `(n, msg)`, overwriting any earlier error,
      and changes no slot, no request, no cursor and no output. */
  lemma ProducerErrorRecordsOnly(e: EngineState, p: Params, msg: string, n: nat, alpha: bool)
    ensures var r := Callback(e, p, Failure(msg), n, alpha);
      && r.error == Some((n, Message(msg)))
      && r.reorderMap == e.reorderMap && r.requested == e.requested
      && r.lastRequested == e.lastRequested && r.nextOutput == e.nextOutput
      && r.emitted == e.emitted && r.target == e.target
  {
  }

  /** An arriving frame issues a new request exactly when its slot is
      complete after the update and the range is not exhausted: for index
      `last_requested_frame + 1`, on the primary node and then the alpha
      node if there is one; the counter grows by exactly one. The recorded
      error plays no part in the decision. */
  lemma ArrivalRequestsNext(e: EngineState, p: Params, f: Frame, n: nat, alpha: bool)
    ensures var r := Callback(e, p, Success(f), n, alpha);
      var issued := IsCompleted(Store(e.reorderMap, n, alpha, f)[n], p.hasAlpha) && e.lastRequested < p.end;
      && r.requested == e.requested + (if issued then RequestPair(e.lastRequested + 1, p.hasAlpha) else [])
      && r.lastRequested == e.lastRequested + (if issued then 1 else 0)
  {
  }

  /** After every callback the done flag is set exactly when it was already
      set or the cursor is one past the last frame. */
  lemma DoneAfterCallback(e: EngineState, p: Params, frame: Result<Frame, string>, n: nat, alpha: bool)
    ensures var r := Callback(e, p, frame, n, alpha);
      r.done <==> e.done || r.nextOutput == p.end + 1
  {
  }

  /** Every callback keeps the write log. */
  lemma CallbackWrites(e: EngineState, p: Params, t0: OutputTarget,
                       frame: Result<Frame, string>, n: nat, alpha: bool)
    requires WriteLog(e, p, t0)
    ensures WriteLog(Callback(e, p, frame, n, alpha), p, t0)
  {
    if frame.Success? {
      DrainWrites(RequestNext(Arrive(e, n, alpha, frame.value), p, n), p, n, t0);
    }
  }

  /** The callback never reads the request log, it only appends to it:
      started with any other log, it reaches the same state and appends the
      same requests. So a callback that runs while `output` is still
      issuing the initial batch, before it holds the state lock, does what
      the model's callback does. */
  lemma CallbackIgnoresLog(e: EngineState, p: Params, frame: Result<Frame, string>, n: nat, alpha: bool,
                           log: seq<Request>)
    ensures var r := Callback(e, p, frame, n, alpha);
      var r' := Callback(e.(requested := log), p, frame, n, alpha);
      && e.requested <= r.requested
      && r'.requested == log + r.requested[|e.requested|..]
      && r' == r.(requested := r'.requested)
  {
    if frame.Success? {
      var f := frame.value;
      var a := Arrive(e, n, alpha, f);
      var q := RequestNext(a, p, n);
      var q' := RequestNext(Arrive(e.(requested := log), n, alpha, f), p, n);
      var extra := q.requested[|e.requested|..];
      assert e.requested <= q.requested && q.requested == e.requested + extra;
      assert q' == q.(requested := log + extra);
      DrainIgnoresLog(q, p, n, log + extra);
    }
  }

  // ---------------------------------------------------------------------
  // The invariant

  /** The slot that the frames delivered so far make for index `k`. */
  function SlotOf(d: map<Request, Frame>, k: nat): Slot {
    Slot(Get(d, Request(false, k)), Get(d, Request(true, k)))
  }

  /** Index `k` has every frame it needs. */
  predicate Complete(d: map<Request, Frame>, k: nat, hasAlpha: bool) {
    Request(false, k) in d && (hasAlpha ==> Request(true, k) in d)
  }

  /** Indices requested so far: the initial batch, then one per extra
      request up to `last`. */
  predicate Issued(p: Params, base: nat, last: nat, k: nat)
    requires p.start <= p.end
  {
    var K := InitialRequests(p);
    (base <= k < base + K) || (p.start + K <= k <= last)
  }

  /** A request the producer has not answered yet. */
  predicate Pending(e: EngineState, r: Request) {
    r in e.requested && r !in e.delivered && r !in e.failed
  }

  ghost predicate RequestLog(e: EngineState, p: Params, base: nat)
    requires ValidParams(p)
  {
    forall r: Request :: r in e.requested <==>
      Issued(p, base, e.lastRequested, r.index) && (r.alpha ==> p.hasAlpha)
  }

  ghost predicate Arrivals(e: EngineState) {
    && (forall r :: r in e.delivered ==> r in e.requested)
    && (forall r :: r in e.failed ==> r in e.requested && r !in e.delivered)
  }

  ghost predicate Slots(e: EngineState) {
    && (forall k: nat :: k in e.reorderMap <==>
          e.nextOutput <= k && (Request(false, k) in e.delivered || Request(true, k) in e.delivered))
    && (forall k :: k in e.reorderMap ==> e.reorderMap[k] == SlotOf(e.delivered, k))
  }

  ghost predicate OutputPrefix(e: EngineState, p: Params, base: nat) {
    && base <= e.nextOutput <= p.end + 1
    && (forall k :: base <= k < e.nextOutput ==> Complete(e.delivered, k, p.hasAlpha))
  }

  /** `x`, the `i`-th frame written, is index `base + i` with the frames
      delivered for it. */
  predicate EmittedAt(d: map<Request, Frame>, base: nat, i: nat, x: Emission) {
    && Request(false, base + i) in d
    && x == Emission(base + i, d[Request(false, base + i)], Get(d, Request(true, base + i)))
  }

  ghost predicate EmittedLog(e: EngineState, base: nat) {
    && base + |e.emitted| <= e.nextOutput
    && (e.error.None? ==> base + |e.emitted| == e.nextOutput)
    && (forall i :: 0 <= i < |e.emitted| ==> EmittedAt(e.delivered, base, i, e.emitted[i]))
  }

  /** The indices in the range whose frames have all arrived. */
  ghost function CompletedSet(e: EngineState, p: Params): set<nat> {
    set k: nat | k <= p.end && Complete(e.delivered, k, p.hasAlpha)
  }

  /** Every completion issues one request until the range is exhausted: the
      number of requests beyond the initial batch never exceeds the number
      of completed indices, and equals it while the range is not exhausted. */
  ghost predicate Window(e: EngineState, p: Params)
    requires ValidParams(p)
  {
    var K := InitialRequests(p);
    && p.start + K - 1 <= e.lastRequested <= p.end
    && e.lastRequested - (p.start + K - 1) <= |CompletedSet(e, p)|
    && (e.lastRequested < p.end ==> e.lastRequested - (p.start + K - 1) == |CompletedSet(e, p)|)
  }

  /** The invariant except for what the drain loop re-establishes. */
  ghost predicate PreInv(e: EngineState, p: Params, base: nat) {
    && ValidParams(p) && base <= p.start
    && RequestLog(e, p, base) && Arrivals(e) && Slots(e)
    && OutputPrefix(e, p, base) && EmittedLog(e, base) && Window(e, p)
  }

  /** The invariant of the engine between callbacks. */
  ghost predicate Inv(e: EngineState, p: Params, base: nat) {
    && PreInv(e, p, base)
    && !Complete(e.delivered, e.nextOutput, p.hasAlpha)
    && (e.done <==> e.nextOutput == p.end + 1)
  }

  lemma SlotOfComplete(d: map<Request, Frame>, k: nat, hasAlpha: bool)
    ensures IsCompleted(SlotOf(d, k), hasAlpha) <==> Complete(d, k, hasAlpha)
  {
  }

  /** Requested indices lie in `[base, end]`. */
  lemma RequestedInRange(e: EngineState, p: Params, base: nat, r: Request)
    requires PreInv(e, p, base) && r in e.requested
    ensures base <= r.index <= e.lastRequested <= p.end
    ensures r.alpha ==> p.hasAlpha
  {
  }

  lemma InitEstablishesInv(p: Params, base: nat, target: OutputTarget)
    requires ValidParams(p) && base <= p.start
    ensures Inv(Init(p, base, target), p, base)
  {
    var e := Init(p, base, target);
    BatchMembers(base, InitialRequests(p), p.hasAlpha);
    assert CompletedSet(e, p) == {};
  }

  /** A frame that arrives for a pending request lands at or after the
      cursor, in a slot that was not complete. */
  lemma PendingAfterCursor(e: EngineState, p: Params, base: nat, n: nat, alpha: bool)
    requires Inv(e, p, base) && Pending(e, Request(alpha, n))
    ensures e.nextOutput <= n <= p.end
    ensures !Complete(e.delivered, n, p.hasAlpha)
    ensures n !in CompletedSet(e, p)
  {
    RequestedInRange(e, p, base, Request(alpha, n));
    assert !Complete(e.delivered, n, p.hasAlpha);
  }

  lemma CompletedSetGrows(e: EngineState, a: EngineState, p: Params, n: nat)
    requires forall r: Request :: r.index != n ==> (r in a.delivered <==> r in e.delivered)
    requires n !in CompletedSet(e, p) && n <= p.end
    ensures |CompletedSet(a, p)| ==
      |CompletedSet(e, p)| + (if Complete(a.delivered, n, p.hasAlpha) then 1 else 0)
  {
    var extra := if Complete(a.delivered, n, p.hasAlpha) then {n} else {};
    forall k: nat | k != n
      ensures Complete(a.delivered, k, p.hasAlpha) <==> Complete(e.delivered, k, p.hasAlpha)
    {
      assert Request(false, k).index != n && Request(true, k).index != n;
    }
    forall k ensures k in CompletedSet(a, p) <==> k in CompletedSet(e, p) + extra {
      if k != n {
        assert Request(false, k).index != n && Request(true, k).index != n;
      }
    }
    assert CompletedSet(a, p) == CompletedSet(e, p) + extra;
    assert CompletedSet(e, p) * extra == {};
  }

  lemma ArrivalSlots(e: EngineState, n: nat, alpha: bool, f: Frame)
    requires Slots(e) && e.nextOutput <= n
    ensures Slots(Arrive(e, n, alpha, f))
  {
    var a := Arrive(e, n, alpha, f);
    var d := e.delivered;
    var d' := a.delivered;
    if n in e.reorderMap {
      assert e.reorderMap[n] == SlotOf(d, n);
    } else {
      assert Request(!alpha, n) !in d;
    }
    assert a.reorderMap[n] == SlotOf(d', n);
    forall k: nat
      ensures k in a.reorderMap <==>
        a.nextOutput <= k && (Request(false, k) in d' || Request(true, k) in d')
    {
      if k != n {
        assert Request(alpha, n) != Request(false, k) && Request(alpha, n) != Request(true, k);
      }
    }
    forall k | k in a.reorderMap ensures a.reorderMap[k] == SlotOf(d', k) {
      if k != n {
        assert Get(d', Request(false, k)) == Get(d, Request(false, k));
        assert Get(d', Request(true, k)) == Get(d, Request(true, k));
      }
    }
  }

  lemma ArrivalEmitted(e: EngineState, base: nat, n: nat, alpha: bool, f: Frame)
    requires EmittedLog(e, base) && e.nextOutput <= n
    ensures EmittedLog(Arrive(e, n, alpha, f), base)
  {
    var a := Arrive(e, n, alpha, f);
    var d' := a.delivered;
    forall i | 0 <= i < |a.emitted| ensures EmittedAt(d', base, i, a.emitted[i]) {
      assert base + i < e.nextOutput;
      assert EmittedAt(e.delivered, base, i, e.emitted[i]);
    }
  }

  lemma ArrivalPrefix(e: EngineState, p: Params, base: nat, n: nat, alpha: bool, f: Frame)
    requires OutputPrefix(e, p, base)
    ensures OutputPrefix(Arrive(e, n, alpha, f), p, base)
  {
    var d' := Arrive(e, n, alpha, f).delivered;
    assert e.delivered.Keys <= d'.Keys;
    forall k | base <= k < e.nextOutput ensures Complete(d', k, p.hasAlpha) {
      assert Complete(e.delivered, k, p.hasAlpha);
      assert Request(false, k) in d';
      assert p.hasAlpha ==> Request(true, k) in d';
    }
  }

  lemma ArrivalArrivals(e: EngineState, n: nat, alpha: bool, f: Frame)
    requires Arrivals(e) && Pending(e, Request(alpha, n))
    ensures Arrivals(Arrive(e, n, alpha, f))
  {
  }

  lemma RequestNextLog(a: EngineState, p: Params, base: nat, n: nat)
    requires ValidParams(p) && base <= p.start && n in a.reorderMap
    requires RequestLog(a, p, base) && p.start + InitialRequests(p) - 1 <= a.lastRequested
    ensures RequestLog(RequestNext(a, p, n), p, base)
  {
    var r := RequestNext(a, p, n);
    if r != a {
      forall q: Request
        ensures q in r.requested <==> Issued(p, base, r.lastRequested, q.index) && (q.alpha ==> p.hasAlpha)
      {
        assert Issued(p, base, r.lastRequested, q.index) <==>
          Issued(p, base, a.lastRequested, q.index) || q.index == a.lastRequested + 1;
      }
    }
  }

  lemma RequestNextWindow(e: EngineState, a: EngineState, p: Params, n: nat)
    requires ValidParams(p) && Window(e, p) && n in a.reorderMap
    requires a.lastRequested == e.lastRequested
    requires |CompletedSet(a, p)| ==
      |CompletedSet(e, p)| + (if Complete(a.delivered, n, p.hasAlpha) then 1 else 0)
    requires IsCompleted(a.reorderMap[n], p.hasAlpha) <==> Complete(a.delivered, n, p.hasAlpha)
    ensures Window(RequestNext(a, p, n), p)
  {
    assert CompletedSet(RequestNext(a, p, n), p) == CompletedSet(a, p);
  }

  /** Storing a frame for a pending request and issuing the next request
      keep everything but the drain condition. */
  lemma ArrivalPreserves(e: EngineState, p: Params, base: nat, f: Frame, n: nat, alpha: bool)
    requires Inv(e, p, base) && Pending(e, Request(alpha, n))
    ensures PreInv(RequestNext(Arrive(e, n, alpha, f), p, n), p, base)
  {
    PendingAfterCursor(e, p, base, n, alpha);
    var a := Arrive(e, n, alpha, f);
    ArrivalSlots(e, n, alpha, f);
    ArrivalEmitted(e, base, n, alpha, f);
    ArrivalPrefix(e, p, base, n, alpha, f);
    ArrivalArrivals(e, n, alpha, f);
    CompletedSetGrows(e, a, p, n);
    SlotOfComplete(a.delivered, n, p.hasAlpha);
    RequestNextLog(a, p, base, n);
    RequestNextWindow(e, a, p, n);
  }

  /** One drain iteration keeps everything but the drain condition. */
  lemma DrainStepPreserves(e: EngineState, p: Params, base: nat, n: nat)
    requires PreInv(e, p, base) && CanDrain(e, p)
    ensures PreInv(DrainStep(e, p, n), p, base)
  {
    var k := e.nextOutput;
    SlotOfComplete(e.delivered, k, p.hasAlpha);
    RequestedInRange(e, p, base, Request(false, k));
    var r := DrainStep(e, p, n);
    RemoveSlotKeeps(e, r, p, base);
    assert e.error.None? ==> r.emitted == e.emitted + [EmissionOf(e.reorderMap, k)];
    WriteSlotKeeps(e, r, base);
    assert CompletedSet(r, p) == CompletedSet(e, p);
  }

  /** Removing the complete slot at the cursor and advancing it keeps the
      slots and the output prefix. */
  lemma RemoveSlotKeeps(e: EngineState, r: EngineState, p: Params, base: nat)
    requires Slots(e) && OutputPrefix(e, p, base) && e.nextOutput <= p.end
    requires Complete(e.delivered, e.nextOutput, p.hasAlpha)
    requires r.reorderMap == e.reorderMap - {e.nextOutput} && r.nextOutput == e.nextOutput + 1
    requires r.delivered == e.delivered
    ensures Slots(r) && OutputPrefix(r, p, base)
  {
  }

  /** Writing the slot at the cursor (when no error is recorded) keeps the
      log of written frames. */
  lemma WriteSlotKeeps(e: EngineState, r: EngineState, base: nat)
    requires EmittedLog(e, base) && Slots(e) && e.nextOutput in e.reorderMap
    requires e.reorderMap[e.nextOutput].frame.Some?
    requires r.nextOutput == e.nextOutput + 1 && r.delivered == e.delivered
    requires e.error.Some? ==> r.emitted == e.emitted
    requires e.error.None? ==> r.emitted == e.emitted + [EmissionOf(e.reorderMap, e.nextOutput)]
    requires r.error.None? ==> e.error.None?
    ensures EmittedLog(r, base)
  {
    var k := e.nextOutput;
    var d := e.delivered;
    if e.error.None? {
      assert |r.emitted| == |e.emitted| + 1;
      assert e.reorderMap[k] == SlotOf(d, k);
      assert r.emitted[|e.emitted|] == Emission(k, d[Request(false, k)], Get(d, Request(true, k)));
      assert EmittedAt(d, base, |e.emitted|, r.emitted[|e.emitted|]);
    }
  }

  /** The drain loop keeps the invariant and leaves the cursor at an index
      that is not complete. */
  lemma {:induction false} DrainPreserves(e: EngineState, p: Params, base: nat, n: nat)
    requires PreInv(e, p, base)
    ensures PreInv(Drain(e, p, n), p, base)
    ensures !Complete(Drain(e, p, n).delivered, Drain(e, p, n).nextOutput, p.hasAlpha)
    decreases e.reorderMap.Keys
  {
    if CanDrain(e, p) {
      DrainStepPreserves(e, p, base, n);
      DrainPreserves(DrainStep(e, p, n), p, base, n);
    } else {
      SlotOfComplete(e.delivered, e.nextOutput, p.hasAlpha);
    }
  }

  /** Every callback for a pending request keeps the invariant. */
  lemma CallbackPreservesInv(e: EngineState, p: Params, base: nat,
                             frame: Result<Frame, string>, n: nat, alpha: bool)
    requires Inv(e, p, base) && Pending(e, Request(alpha, n))
    ensures Inv(Callback(e, p, frame, n, alpha), p, base)
  {
    match frame
    case Failure(msg) =>
      var r := ProducerFailed(e, n, alpha, msg);
      assert CompletedSet(r, p) == CompletedSet(e, p);
      assert PreInv(r, p, base);
    case Success(f) =>
      ArrivalPreserves(e, p, base, f, n, alpha);
      DrainPreserves(RequestNext(Arrive(e, n, alpha, f), p, n), p, base, n);
  }

  // ---------------------------------------------------------------------
  // Consequences of the invariant

  /** Frames are handed to `print_frames` in strictly ascending consecutive
      order from the first index, each at most once, and each with the
      frames the producer delivered for it (primary, and alpha when there is
      an alpha node); while no error is recorded, every index before the
      cursor has been written. */
  lemma EmittedInOrder(e: EngineState, p: Params, base: nat)
    requires Inv(e, p, base)
    ensures forall i :: 0 <= i < |e.emitted| ==> e.emitted[i].index == base + i
    ensures forall i :: 0 <= i < |e.emitted| ==>
      Complete(e.delivered, base + i, p.hasAlpha)
      && e.emitted[i].frame == e.delivered[Request(false, base + i)]
      && (p.hasAlpha ==> e.emitted[i].alphaFrame == Some(e.delivered[Request(true, base + i)]))
      && (!p.hasAlpha ==> e.emitted[i].alphaFrame.None?)
    ensures e.error.None? ==> |e.emitted| == e.nextOutput - base
  {
    forall i | 0 <= i < |e.emitted|
      ensures Complete(e.delivered, base + i, p.hasAlpha)
      ensures !p.hasAlpha ==> e.emitted[i].alphaFrame.None?
    {
      assert base + i < e.nextOutput;
      if !p.hasAlpha {
        assert Request(true, base + i) !in e.requested;
      }
    }
  }

  predicate Between(a: nat, k: nat, b: nat) {
    a <= k < b
  }

  function Range(a: nat, b: nat): set<nat> {
    set k: nat | k < b && Between(a, k, b)
  }

  lemma {:induction false} RangeSize(a: nat, b: nat)
    requires a <= b
    ensures |Range(a, b)| == b - a
    decreases b - a
  {
    if a < b {
      assert Range(a, b) == Range(a, b - 1) + {b - 1};
      RangeSize(a, b - 1);
    } else {
      assert Range(a, b) == {};
    }
  }

  /** The indices requested so far. */
  ghost function IssuedSet(p: Params, base: nat, last: nat): set<nat>
    requires p.start <= p.end
  {
    set k: nat | k <= last && Issued(p, base, last, k)
  }

  /** Requested indices whose frames have not all arrived. */
  ghost function Outstanding(e: EngineState, p: Params, base: nat): set<nat>
    requires p.start <= p.end
  {
    IssuedSet(p, base, e.lastRequested) - CompletedSet(e, p)
  }

  lemma IssuedSetSize(p: Params, base: nat, last: nat)
    requires ValidParams(p) && base <= p.start && p.start + InitialRequests(p) - 1 <= last
    ensures var K := InitialRequests(p);
      |IssuedSet(p, base, last)| == K + (last - (p.start + K - 1))
  {
    var K := InitialRequests(p);
    var I := IssuedSet(p, base, last);
    var A := Range(base, base + K);
    var B := Range(p.start + K, last + 1);
    forall k: nat ensures k in I <==> k in A + B {
      assert k in A <==> base <= k < base + K;
      assert k in B <==> p.start + K <= k < last + 1;
    }
    assert I == A + B;
    forall k | k in A ensures k !in B {
    }
    assert A * B == {};
    RangeSize(base, base + K);
    RangeSize(p.start + K, last + 1);
  }

  lemma CompletedAreIssued(e: EngineState, p: Params, base: nat)
    requires PreInv(e, p, base)
    ensures CompletedSet(e, p) <= IssuedSet(p, base, e.lastRequested)
  {
    forall k | k in CompletedSet(e, p) ensures k in IssuedSet(p, base, e.lastRequested) {
      RequestedInRange(e, p, base, Request(false, k));
    }
  }

  /** At most `min(requests, range length)` frames are requested and not yet
      complete at any time. */
  lemma WindowBound(e: EngineState, p: Params, base: nat)
    requires Inv(e, p, base)
    ensures |Outstanding(e, p, base)| <= InitialRequests(p) <= p.requests
  {
    IssuedSetSize(p, base, e.lastRequested);
    CompletedAreIssued(e, p, base);
    var I := IssuedSet(p, base, e.lastRequested);
    var C := CompletedSet(e, p);
    assert I == (I - C) + C;
    assert (I - C) * C == {};
  }

  /** When the requests start at the first frame of the range (the code does
      so only when that frame is 0) and every request has been answered
      with a frame, the whole range has been requested and drained and the
      done flag is set. */
  lemma QuiescentRunCompletes(e: EngineState, p: Params)
    requires Inv(e, p, p.start)
    requires forall r :: r in e.requested ==> r in e.delivered
    ensures e.lastRequested == p.end && e.nextOutput == p.end + 1 && e.done
    ensures e.error.None? ==> |e.emitted| == p.end - p.start + 1
  {
    var K := InitialRequests(p);
    var last := e.lastRequested;
    IssuedSetSize(p, p.start, last);
    CompletedAreIssued(e, p, p.start);
    var I := IssuedSet(p, p.start, last);
    assert I == Range(p.start, last + 1);
    forall k | k in I ensures k in CompletedSet(e, p) {
      assert Request(false, k) in e.requested;
      if p.hasAlpha {
        assert Request(true, k) in e.requested;
      }
    }
    assert CompletedSet(e, p) == I;
    RangeSize(p.start, last + 1);
    assert e.nextOutput <= p.end ==> e.nextOutput in I;
  }

  /** A producer error for a request leaves its index forever incomplete:
      the cursor never passes it, so the done flag is never set. */
  lemma ProducerErrorBlocksCompletion(e: EngineState, p: Params, base: nat, r: Request)
    requires Inv(e, p, base) && r in e.failed
    ensures e.nextOutput <= r.index && !e.done
  {
    RequestedInRange(e, p, base, r);
    assert !Complete(e.delivered, r.index, p.hasAlpha) by {
      assert r == Request(r.alpha, r.index);
    }
  }

  /** As written (requests and cursor starting at index 0), a range that
      does not start at frame 0 is never finished: index
      `min(requests, range length)`, at most the last frame, is never
      requested, so the cursor never passes it and the done flag stays
      clear. */
  lemma OffsetNeverCompletes(e: EngineState, p: Params)
    requires Inv(e, p, 0) && p.start > 0
    ensures var K := InitialRequests(p);
      && K <= p.end
      && (forall r :: r in e.requested ==> r.index != K)
      && e.nextOutput <= K && !e.done
  {
    var K := InitialRequests(p);
    assert !Issued(p, 0, e.lastRequested, K);
    assert Request(false, K) !in e.delivered;
    assert K < e.nextOutput ==> Complete(e.delivered, K, p.hasAlpha);
  }

  /** As written, `output` requests indices from 0 and starts the cursor at 0
      even when the range starts later. For the range [1, 2] with one
      request: frame 0 is requested and written, frame 2 is requested next,
      frame 1 never is; once both answers are in, nothing is pending and the
      done flag is not set, so `output` waits forever. */
  lemma StartOffsetStalls(f: Frame, g: Frame)
    ensures var p := Params(false, 1, 2, 1, false);
      var e0 := Init(p, 0, Empty);
      var e1 := Callback(e0, p, Success(f), 0, false);
      var e2 := Callback(e1, p, Success(g), 2, false);
      && Pending(e0, Request(false, 0)) && Pending(e1, Request(false, 2))
      && e2.requested == [Request(false, 0), Request(false, 2)]
      && (forall r :: r in e2.requested ==> !Pending(e2, r))
      && e2.emitted == [Emission(0, f, None)]
      && e2.nextOutput == 1 && !e2.done
      && Inv(e2, p, 0)
  {
    var p := Params(false, 1, 2, 1, false);
    var e0 := Init(p, 0, Empty);
    assert e0.requested == [Request(false, 0)];
    assert e0.lastRequested == 1;
    InitEstablishesInv(p, 0, Empty);
    var a0 := Arrive(e0, 0, false, f);
    var q0 := RequestNext(a0, p, 0);
    assert q0.requested == [Request(false, 0), Request(false, 2)];
    assert CanDrain(q0, p);
    var s0 := DrainStep(q0, p, 0);
    PrintFramesEmpty(false, f, None);
    assert s0.emitted == [Emission(0, f, None)];
    assert s0.reorderMap == map[];
    assert Drain(q0, p, 0) == Drain(s0, p, 0) == s0;
    var e1 := Callback(e0, p, Success(f), 0, false);
    assert e1.nextOutput == 1;
    CallbackPreservesInv(e0, p, 0, Success(f), 0, false);
    var a1 := Arrive(e1, 2, false, g);
    assert RequestNext(a1, p, 2) == a1;
    assert !CanDrain(a1, p);
    CallbackPreservesInv(e1, p, 0, Success(g), 2, false);
  }

  /** Ten frames, three requests, completions for 1, 0 and 2 in that order:
      the completion of 1 already issues the request for 3 although nothing
      can be written yet; the completion of 0 issues 4 and writes 0 and 1;
      the completion of 2 issues 5 and writes 2. */
  lemma InterleavedCompletions(f0: Frame, f1: Frame, f2: Frame)
    ensures var p := Params(false, 0, 9, 3, false);
      var e0 := Init(p, 0, Empty);
      var e1 := Callback(e0, p, Success(f1), 1, false);
      var e2 := Callback(e1, p, Success(f0), 0, false);
      var e3 := Callback(e2, p, Success(f2), 2, false);
      && e0.requested == [Request(false, 0), Request(false, 1), Request(false, 2)]
      && e1.requested == e0.requested + [Request(false, 3)] && e1.emitted == []
      && e2.requested == e1.requested + [Request(false, 4)]
      && e2.emitted == [Emission(0, f0, None), Emission(1, f1, None)]
      && e3.requested == e2.requested + [Request(false, 5)]
      && e3.emitted == e2.emitted + [Emission(2, f2, None)]
      && e3.nextOutput == 3 && e3.error.None? && !e3.done
  {
    var p := Params(false, 0, 9, 3, false);
    var e0 := Init(p, 0, Empty);
    assert e0.requested == [Request(false, 0), Request(false, 1), Request(false, 2)];
    PrintFramesEmpty(false, f0, None);
    PrintFramesEmpty(false, f1, None);
    PrintFramesEmpty(false, f2, None);
    var q1 := RequestNext(Arrive(e0, 1, false, f1), p, 1);
    assert !CanDrain(q1, p);
    var e1 := Callback(e0, p, Success(f1), 1, false);
    var q2 := RequestNext(Arrive(e1, 0, false, f0), p, 0);
    assert q2.reorderMap.Keys == {0, 1};
    var s2 := DrainStep(q2, p, 0);
    var s2' := DrainStep(s2, p, 0);
    assert s2'.reorderMap == map[];
    assert Drain(q2, p, 0) == Drain(s2, p, 0) == Drain(s2', p, 0) == s2';
    var e2 := Callback(e1, p, Success(f0), 0, false);
    var q3 := RequestNext(Arrive(e2, 2, false, f2), p, 2);
    var s3 := DrainStep(q3, p, 2);
    assert s3.reorderMap == map[];
    assert Drain(q3, p, 2) == s3;
  }

  /** The request window bounds requests that have not completed, not
      frames waiting to be written: with two requests over frames 0 to 3,
      if frame 0 is slow, frames 1, 2 and 3 all complete and wait in the
      reorder map, three entries for a window of two, while frame 0 is still
      pending. */
  lemma BufferOutgrowsWindow(f1: Frame, f2: Frame, f3: Frame)
    ensures var p := Params(false, 0, 3, 2, false);
      var e0 := Init(p, 0, Empty);
      var e1 := Callback(e0, p, Success(f1), 1, false);
      var e2 := Callback(e1, p, Success(f2), 2, false);
      var e3 := Callback(e2, p, Success(f3), 3, false);
      && InitialRequests(p) == 2
      && e3.reorderMap.Keys == {1, 2, 3}
      && |e3.reorderMap| > InitialRequests(p)
      && Pending(e3, Request(false, 0))
      && e3.emitted == []
  {
    var p := Params(false, 0, 3, 2, false);
    var R0, R1, R2, R3 := Request(false, 0), Request(false, 1), Request(false, 2), Request(false, 3);
    var e0 := Init(p, 0, Empty);
    assert e0 == EngineState(map[], 1, 0, None, false, [R0, R1], Empty, [], map[], {});
    CallbackWithoutDrain(e0, p, f1, 1, false);
    var e1 := Callback(e0, p, Success(f1), 1, false);
    assert e1 == EngineState(map[1 := Slot(Some(f1), None)], 2, 0, None, false,
                             [R0, R1, R2], Empty, [], map[R1 := f1], {});
    CallbackWithoutDrain(e1, p, f2, 2, false);
    var e2 := Callback(e1, p, Success(f2), 2, false);
    assert e2 == EngineState(map[1 := Slot(Some(f1), None), 2 := Slot(Some(f2), None)], 3, 0, None, false,
                             [R0, R1, R2, R3], Empty, [], map[R1 := f1, R2 := f2], {});
    CallbackWithoutDrain(e2, p, f3, 3, false);
    var e3 := Callback(e2, p, Success(f3), 3, false);
    assert e3.reorderMap.Keys == {1, 2, 3};
    assert |e3.reorderMap| == |e3.reorderMap.Keys| == 3;
  }



}
