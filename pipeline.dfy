/** `output` and the shared `OutputState` that `frame_done_callback` updates
    under its mutex. The producer's asynchronous answers and the wait on the
    done flag belong to the environment: each answer is one `FrameDone`
    call, and `Finish` is what `output` does once the flag is set. */
module Pipeline {
  import opened Common
  import opened Decimal
  import opened Sink
  import opened Framing
  import opened Y4m
  import opened Engine

  const AlphaY4mError := "Can't apply y4m headers to a clip with alpha"
  const HeaderContext := "Couldn't write the y4m header"
  const FlushContext := "Failed to flush the output file"
  const TimecodesHeader := "# timecode format v2\n"

  /** The first stage of `output`: y4m output is refused for a clip with
      alpha, and otherwise the stream header is written, a failure being
      wrapped in the header context. */
  function PrepareTarget(t: OutputTarget, p: Params, v: VideoInfo): (OutputTarget, Outcome<Error>)
    requires FloatBitsKnown(v.format)
  {
    if !p.y4m then (t, Pass)
    else if p.hasAlpha then (t, Fail(Message(AlphaY4mError)))
    else
      var (t', r) := WriteHeader(t, v);
      (t', if r.Fail? then Fail(Context(HeaderContext, r.error)) else Pass)
  }

  /** Without y4m nothing is written; with y4m and an alpha clip nothing is
      written and the alpha error is returned; otherwise the header stage
      fails exactly when the header cannot be written (always when the
      format has no y4m name), under the header context, and on success a
      device has received exactly the header. */
  lemma PrepareTargetOutcome(t: OutputTarget, p: Params, v: VideoInfo)
    requires FloatBitsKnown(v.format)
    ensures var r := PrepareTarget(t, p, v);
      && (!p.y4m ==> r == (t, Pass))
      && (p.y4m && p.hasAlpha ==> r == (t, Fail(Message(AlphaY4mError))))
      && (p.y4m && !p.hasAlpha ==>
            && (r.1.Fail? ==> r.1.error.Context? && r.1.error.text == HeaderContext)
            && (Y4mHeader(v).Failure? ==> r.1.Fail?)
            && (t.Empty? ==> (r.1.Pass? <==> Y4mHeader(v).Success?))
            && (!t.Empty? && r.1.Pass? ==> Sent(r.0) == Sent(t) + Ascii(Y4mHeader(v).value)))
  {
    WriteHeaderSends(t, v);
  }

  /** The timecodes header, written to the timecodes file when one was
      given; an I/O error is returned as it is. */
  function WriteTimecodes(tc: Option<Device>): (Option<Device>, Outcome<Error>) {
    if tc.None? then (None, Pass)
    else
      var (t, res) := WriteAll(File(tc.value), Ascii(TimecodesHeader));
      (Some(t.device), if res.Fail? then Fail(Message(res.error)) else Pass)
  }

  /** Without a timecodes file nothing happens. With one, the header line
      fails exactly when the file faults its next write, with the device's
      error, and otherwise the file has received exactly that line. */
  lemma WriteTimecodesOutcome(tc: Option<Device>)
    ensures tc.None? ==> WriteTimecodes(tc) == (None, Pass)
    ensures tc.Some? ==>
      var (d, r) := WriteTimecodes(tc);
      var d0 := tc.value;
      && d.Some?
      && (r.Fail? <==> d0.writes in d0.faults)
      && (r.Fail? ==> r.error == Message(d0.faults[d0.writes]) && d.value.sent == d0.sent)
      && (r.Pass? ==> d.value.sent == d0.sent + Ascii(TimecodesHeader))
  {
  }

  /** The error `output` reports for a recorded error. */
  function RetrieveError(n: nat, msg: Error): Error {
    Message("Failed to retrieve frame " + NatStr(n) + " with error: " + Display(msg))
  }

  /** Distinct frame indices give distinct reports, so the report names
      the frame the error was recorded against. */
  lemma RetrieveErrorNamesFrame(m: nat, n: nat, a: Error, b: Error)
    requires RetrieveError(m, a) == RetrieveError(n, b)
    ensures m == n
  {
    var prefix := "Failed to retrieve frame ";
    var rm := " with error: " + Display(a);
    var rn := " with error: " + Display(b);
    var tm := prefix + (NatStr(m) + rm);
    var tn := prefix + (NatStr(n) + rn);
    assert tm == RetrieveError(m, a).text;
    assert tn == RetrieveError(n, b).text;
    assert tm[|prefix|..] == NatStr(m) + rm;
    assert tn[|prefix|..] == NatStr(n) + rn;
    DigitsBeforeSpace(NatStr(m), rm, NatStr(n), rn);
    NatStrInjective(m, n);
  }

  /** A run of digits followed by a space is determined by the text it
      starts. */
  lemma DigitsBeforeSpace(x: string, r: string, y: string, q: string)
    requires forall i :: 0 <= i < |x| ==> IsDigit(x[i])
    requires forall i :: 0 <= i < |y| ==> IsDigit(y[i])
    requires |r| > 0 && r[0] == ' ' && |q| > 0 && q[0] == ' '
    requires x + r == y + q
    ensures x == y
  {
    SpaceAfter(x, r);
    SpaceAfter(y, q);
    NoSpaceWithin(x, r, |y|);
    NoSpaceWithin(y, q, |x|);
    assert |x| == |y|;
    assert x == (x + r)[..|x|];
    assert y == (y + q)[..|y|];
  }

  lemma SpaceAfter(x: string, r: string)
    requires |r| > 0 && r[0] == ' '
    ensures (x + r)[|x|] == ' '
  {
  }

  lemma NoSpaceWithin(x: string, r: string, k: nat)
    requires forall i :: 0 <= i < |x| ==> IsDigit(x[i])
    ensures k < |x| ==> (x + r)[k] != ' '
  {
    if k < |x| {
      assert (x + r)[k] == x[k];
    }
  }

  class OutputState {
    const parameters: Params
    /** The index the requests and the output cursor start at. */
    const first: nat
    /** The output target as it was when the state was built. */
    ghost const origin: OutputTarget
    var outputTarget: OutputTarget
    var error: Option<(nat, Error)>
    var reorderMap: map<nat, Slot>
    var lastRequestedFrame: nat
    var nextOutputFrame: nat
    /** The flag of `output_done_pair`. */
    var done: bool
    /** The `get_frame_async` calls issued so far. */
    var requested: seq<Request>
    /** The `print_frames` calls made so far. */
    ghost var emitted: seq<Emission>
    /** The producer's answers so far. */
    ghost var delivered: map<Request, Frame>
    ghost var failed: set<Request>

    ghost function Model(): EngineState
      reads this
    {
      EngineState(reorderMap, lastRequestedFrame, nextOutputFrame, error, done,
                  requested, outputTarget, emitted, delivered, failed)
    }

    ghost predicate Valid()
      reads this
    {
      Inv(Model(), parameters, first) && WriteLog(Model(), parameters, origin)
    }

    /** The `OutputState` literal of `output`, before any request. */
    constructor (t: OutputTarget, p: Params, first: nat)
      requires ValidParams(p)
      ensures parameters == p && this.first == first && origin == t
      ensures Model() == Init(p, first, t).(requested := [])
    {
      parameters := p;
      this.first := first;
      origin := t;
      outputTarget := t;
      error := None;
      reorderMap := map[];
      lastRequestedFrame := p.start + InitialRequests(p) - 1;
      nextOutputFrame := first;
      done := false;
      requested := [];
      emitted := [];
      delivered := map[];
      failed := {};
    }

    /** Store an arriving frame in its slot. */
    method StoreFrame(f: Frame, n: nat, alpha: bool)
      modifies this
      ensures Model() == Arrive(old(Model()), n, alpha, f)
    {
      var slot := if n in reorderMap then reorderMap[n] else Slot(None, None);
      slot := if alpha then slot.(alphaFrame := Some(f)) else slot.(frame := Some(f));
      reorderMap := reorderMap[n := slot];
      delivered := delivered[Request(alpha, n) := f];
    }

    /** Request one more frame if slot `n` is complete and the range is not
        exhausted. */
    method RequestMore(n: nat)
      requires n in reorderMap
      modifies this
      ensures Model() == RequestNext(old(Model()), parameters, n)
    {
      if IsCompleted(reorderMap[n], parameters.hasAlpha) && lastRequestedFrame < parameters.end {
        requested := requested + RequestPair(lastRequestedFrame + 1, parameters.hasAlpha);
        lastRequestedFrame := lastRequestedFrame + 1;
      }
    }

    /** One iteration of the drain loop of the callback for index `n`:
        take the slot at the cursor out of the map, write it unless an
        error is recorded, and advance the cursor. */
    method DrainOne(n: nat)
      requires CanDrain(Model(), parameters)
      modifies this
      ensures Model() == DrainStep(old(Model()), parameters, n)
    {
      var k := nextOutputFrame;
      var s := reorderMap[k];
      reorderMap := reorderMap - {k};
      if error.None? {
        var (t, r) := PrintFrames(outputTarget, parameters.y4m, s.frame.value, s.alphaFrame);
        outputTarget := t;
        emitted := emitted + [Emission(k, s.frame.value, s.alphaFrame)];
        if r.Fail? {
          error := Some((n, r.error));
        }
      }
      nextOutputFrame := k + 1;
    }

    /** The drain loop of the callback for index `n`. */
    method DrainReady(n: nat)
      modifies this
      ensures Model() == Drain(old(Model()), parameters, n)
    {
      ghost var drained := Drain(Model(), parameters, n);
      while nextOutputFrame in reorderMap && IsCompleted(reorderMap[nextOutputFrame], parameters.hasAlpha)
        invariant Drain(Model(), parameters, n) == drained
        decreases reorderMap.Keys
      {
        DrainUnfold(Model(), parameters, n);
        DrainOne(n);
      }
    }

    /** `frame_done_callback` for index `n` of the alpha (`alpha`) or the
        primary node, answering a pending request. */
    method FrameDone(frame: Result<Frame, string>, n: nat, alpha: bool)
      requires Valid() && Pending(Model(), Request(alpha, n))
      modifies this
      ensures Model() == Callback(old(Model()), parameters, frame, n, alpha)
      ensures Valid()
    {
      ghost var e0 := Model();
      CallbackPreservesInv(e0, parameters, first, frame, n, alpha);
      CallbackWrites(e0, parameters, origin, frame, n, alpha);
      match frame {
        case Failure(msg) =>
          error := Some((n, Message(msg)));
          failed := failed + {Request(alpha, n)};
        case Success(f) =>
          StoreFrame(f, n, alpha);
          RequestMore(n);
          DrainReady(n);
      }
      if nextOutputFrame == parameters.end + 1 {
        done := true;
      }
      assert Model() == Callback(e0, parameters, frame, n, alpha);
    }

    /** What `output` does once the done flag is set: report a recorded
        error, otherwise flush the target. A success means every frame of
        the range was handed to `print_frames` exactly once, in order, with
        the frames the producer delivered for it, and every one of those
        writes succeeded: a device holds what it held before the first
        frame followed by the bytes of every frame of the range. */
    method Finish() returns (r: Outcome<Error>)
      requires Valid() && done
      ensures error.Some? ==> r == Fail(RetrieveError(error.value.0, error.value.1))
      ensures error.None? ==> (r.Pass? <==> Flush(outputTarget).Pass?)
      ensures error.None? && r.Fail? ==>
        r.error == Context(FlushContext, Message(Flush(outputTarget).error))
      ensures r.Pass? ==> |emitted| == parameters.end + 1 - first
      ensures r.Pass? ==> forall i :: 0 <= i < |emitted| ==>
        && emitted[i].index == first + i
        && Request(false, first + i) in delivered
        && emitted[i].frame == delivered[Request(false, first + i)]
        && emitted[i].alphaFrame == Get(delivered, Request(true, first + i))
      ensures outputTarget.Empty? <==> origin.Empty?
      ensures r.Pass? && !origin.Empty? ==>
        Sent(outputTarget) == Sent(origin) + EmittedBytes(parameters.y4m, emitted)
    {
      EmittedInOrder(Model(), parameters, first);
      assert Model().emitted == emitted && Model().delivered == delivered;
      assert Model().target == outputTarget;
      if error.Some? {
        var (n, msg) := error.value;
        return Fail(RetrieveError(n, msg));
      }
      var flushed := Flush(outputTarget);
      if flushed.Fail? {
        return Fail(Context(FlushContext, Message(flushed.error)));
      }
      return Pass;
    }
  }

  /** `output` up to the wait: the header stage, the timecodes header,
      then the shared state with the initial requests, one (or, with an
      alpha node, two) per index of `first..first + min(requests, range
      length)`. The program passes `first == 0`. */
  method Output(t: OutputTarget, tc: Option<Device>, p: Params, v: VideoInfo, first: nat)
    returns (state: OutputState?, r: Outcome<Error>)
    requires ValidParams(p) && FloatBitsKnown(v.format) && first <= p.start
    ensures PrepareTarget(t, p, v).1.Fail? ==> r == PrepareTarget(t, p, v).1
    ensures PrepareTarget(t, p, v).1.Pass? ==> r == WriteTimecodes(tc).1
    ensures r.Fail? <==> state == null
    ensures state != null ==>
      && fresh(state) && state.parameters == p && state.first == first
      && state.origin == PrepareTarget(t, p, v).0
      && state.Model() == Init(p, first, PrepareTarget(t, p, v).0)
      && state.Valid()
  {
    var (t', res) := PrepareTarget(t, p, v);
    if res.Fail? {
      return null, res;
    }
    var (_, written) := WriteTimecodes(tc);
    if written.Fail? {
      return null, written;
    }
    var k := InitialRequests(p);
    state := new OutputState(t', p, first);
    for i := 0 to k
      invariant state.Model() == Init(p, first, t').(requested := Batch(first, i, p.hasAlpha))
    {
      state.requested := state.requested + RequestPair(first + i, p.hasAlpha);
    }
    InitEstablishesInv(p, first, t');
    InitWriteLog(p, first, t');
    assert state.Model() == Init(p, first, t') && state.origin == t';
    r := Pass;
  }
}
