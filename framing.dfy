/** How one output frame is laid out on the output target: `print_frame`
    and `print_frames`. Pixel data is abstract: a plane is the byte
    sequence the program writes for it. */
module Framing {
  import opened Common
  import opened Sink

  datatype VideoFrame = VideoFrame(family: ColorFamily, planes: seq<Bytes>)

  /** A frame as the producer delivers it; an RGB format always has three
      planes. */
  type Frame = f: VideoFrame | f.family == RGB ==> |f.planes| == 3
    witness VideoFrame(Gray, [])

  const FrameMarker := "FRAME\n"
  const FrameHeaderContext := "Couldn't output the frame header"

  /** The planes of a frame in the order they are written: RGB planes are
      written green, blue, red (planes 1, 2, 0); every other family in its
      own order. */
  function PlaneChunks(f: Frame): (c: seq<Bytes>)
    ensures |c| == |f.planes|
  {
    var remap := [1, 2, 0];
    seq(|f.planes|, p requires 0 <= p < |f.planes| =>
      f.planes[if f.family == RGB then remap[p] else p])
  }

  /** The plane order, and the fact that it writes every plane exactly once. */
  lemma PlaneOrder(f: Frame)
    ensures f.family != RGB ==> PlaneChunks(f) == f.planes
    ensures f.family == RGB ==> PlaneChunks(f) == [f.planes[1], f.planes[2], f.planes[0]]
    ensures multiset(PlaneChunks(f)) == multiset(f.planes)
  {
    if f.family == RGB {
      var p := f.planes;
      assert PlaneChunks(f) == [p[1], p[2], p[0]];
      assert p == [p[0], p[1], p[2]];
      RotateMultiset(p[0], p[1], p[2]);
    } else {
      assert PlaneChunks(f) == f.planes;
    }
  }

  lemma RotateMultiset(a: Bytes, b: Bytes, c: Bytes)
    ensures multiset([b, c, a]) == multiset([a, b, c])
  {
    assert [b, c, a] == [b, c] + [a];
    assert [a, b, c] == [a] + [b, c];
  }

  /** Every chunk `print_frames` writes, in order: the y4m frame marker if
      y4m output was requested, the primary frame's planes, then the alpha
      frame's planes if there is one. */
  function FrameChunks(y4m: bool, frame: Frame, alphaFrame: Option<Frame>): seq<Bytes> {
    MarkerChunks(y4m) + PlaneChunks(frame) + AlphaChunks(alphaFrame)
  }

  /** `print_frame`: the planes, stopping at the first failed write. */
  function PrintFrame(t: OutputTarget, f: Frame): (r: (OutputTarget, Outcome<Error>))
    ensures r.0.Empty? == t.Empty?
  {
    var (t', r) := WriteSeq(t, PlaneChunks(f));
    (t', if r.Fail? then Fail(Message(r.error)) else Pass)
  }

  /** The y4m frame marker, if y4m output was requested; a failure carries
      the frame-header context. */
  function PrintMarker(t: OutputTarget, y4m: bool): (r: (OutputTarget, Outcome<Error>))
    ensures r.0.Empty? == t.Empty?
  {
    if !y4m then (t, Pass)
    else
      var (t', r) := WriteAll(t, Ascii(FrameMarker));
      (t', if r.Fail? then Fail(Context(FrameHeaderContext, Message(r.error))) else Pass)
  }

  /** The frame and then, if the first succeeded, the alpha frame. */
  function PrintPair(t: OutputTarget, frame: Frame, alphaFrame: Option<Frame>): (r: (OutputTarget, Outcome<Error>))
    ensures r.0.Empty? == t.Empty?
  {
    var (t', r) := PrintFrame(t, frame);
    if r.Fail? || alphaFrame.None? then (t', r) else PrintFrame(t', alphaFrame.value)
  }

  /** `print_frames`: the marker, the frame, then the alpha frame; the first
      failure ends it. */
  function PrintFrames(t: OutputTarget, y4m: bool, frame: Frame, alphaFrame: Option<Frame>)
    : (r: (OutputTarget, Outcome<Error>))
    ensures r.0.Empty? == t.Empty?
  {
    var (t', r) := PrintMarker(t, y4m);
    if r.Fail? then (t', r) else PrintPair(t', frame, alphaFrame)
  }

  /** On the discarding target `print_frames` always succeeds. */
  lemma PrintFramesEmpty(y4m: bool, frame: Frame, alphaFrame: Option<Frame>)
    ensures PrintFrames(Empty, y4m, frame, alphaFrame) == (Empty, Pass)
  {
    WriteSeqEmpty(PlaneChunks(frame));
    if alphaFrame.Some? {
      WriteSeqEmpty(PlaneChunks(alphaFrame.value));
    }
  }

  function MarkerChunks(y4m: bool): seq<Bytes> {
    if y4m then [Ascii(FrameMarker)] else []
  }

  function AlphaChunks(alphaFrame: Option<Frame>): seq<Bytes> {
    if alphaFrame.Some? then PlaneChunks(alphaFrame.value) else []
  }

  lemma PrintMarkerSends(t: OutputTarget, y4m: bool)
    requires !t.Empty?
    ensures var r := PrintMarker(t, y4m);
      !r.0.Empty? && Progress(Sent(t), Sent(r.0), Concat(MarkerChunks(y4m)), r.1.Pass?)
  {
    if y4m {
      assert MarkerChunks(y4m)[1..] == [];
    }
  }

  lemma PrintFrameSends(t: OutputTarget, f: Frame)
    requires !t.Empty?
    ensures var r := PrintFrame(t, f);
      !r.0.Empty? && Progress(Sent(t), Sent(r.0), Concat(PlaneChunks(f)), r.1.Pass?)
  {
    WriteSeqDelivers(t, PlaneChunks(f));
  }

  lemma PrintPairSends(t: OutputTarget, frame: Frame, alphaFrame: Option<Frame>)
    requires !t.Empty?
    ensures var r := PrintPair(t, frame, alphaFrame);
      Progress(Sent(t), Sent(r.0), Concat(PlaneChunks(frame)) + Concat(AlphaChunks(alphaFrame)), r.1.Pass?)
  {
    var (t1, r1) := PrintFrame(t, frame);
    PrintFrameSends(t, frame);
    var r := PrintPair(t, frame, alphaFrame);
    if r1.Pass? && alphaFrame.Some? {
      PrintFrameSends(t1, alphaFrame.value);
    }
    ProgressThen(Sent(t), Sent(t1), Sent(r.0), Concat(PlaneChunks(frame)), Concat(AlphaChunks(alphaFrame)), r1.Pass?, r.1.Pass?);
  }

  /** On a device, `print_frames` sends a prefix of the frame's chunks in
      their order, and all of them when it succeeds. */
  lemma PrintFramesSends(t: OutputTarget, y4m: bool, frame: Frame, alphaFrame: Option<Frame>)
    requires !t.Empty?
    ensures var r := PrintFrames(t, y4m, frame, alphaFrame);
      Progress(Sent(t), Sent(r.0), Concat(FrameChunks(y4m, frame, alphaFrame)), r.1.Pass?)
  {
    var marker := MarkerChunks(y4m);
    var planes := PlaneChunks(frame);
    var alpha := AlphaChunks(alphaFrame);
    var cm, cp, ca := Concat(marker), Concat(planes), Concat(alpha);
    assert FrameChunks(y4m, frame, alphaFrame) == marker + planes + alpha;
    ConcatAppend(marker + planes, alpha);
    ConcatAppend(marker, planes);
    assert Concat(FrameChunks(y4m, frame, alphaFrame)) == cm + (cp + ca);
    var (t1, r1) := PrintMarker(t, y4m);
    PrintMarkerSends(t, y4m);
    var r := PrintFrames(t, y4m, frame, alphaFrame);
    if r1.Pass? {
      assert r == PrintPair(t1, frame, alphaFrame);
      PrintPairSends(t1, frame, alphaFrame);
    } else {
      assert r == (t1, r1);
    }
    ProgressThen(Sent(t), Sent(t1), Sent(r.0), cm, cp + ca, r1.Pass?, r.1.Pass?);
  }
}
