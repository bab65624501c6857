/** The YUV4MPEG2 stream header that `print_y4m_header` writes before the
    frames when y4m output is requested. */
module Y4m {
  import opened Common
  import opened Decimal
  import opened Sink

  /** The parts of a VapourSynth format the header depends on. */
  datatype Format = Format(
    family: ColorFamily,
    sampleType: SampleType,
    bits: nat,
    subW: nat,
    subH: nat)

  /** The constant properties of the clip (the program refuses clips whose
      format, dimensions, frame rate or length vary before it gets here). */
  datatype VideoInfo = VideoInfo(
    format: Format,
    width: nat,
    height: nat,
    fpsNum: nat,
    fpsDen: nat,
    numFrames: nat)

  const Magic := "YUV4MPEG2 C"
  const NoIdentifier := "No y4m identifier exists for the current format"

  /** The chroma tag for a pair of horizontal and vertical subsampling
      exponents, if y4m has one. */
  function ColourTag(w: nat, h: nat): Option<string> {
    if w == 1 && h == 1 then Some("420")
    else if w == 1 && h == 0 then Some("422")
    else if w == 0 && h == 0 then Some("444")
    else if w == 2 && h == 2 then Some("410")
    else if w == 2 && h == 0 then Some("411")
    else if w == 0 && h == 1 then Some("440")
    else None
  }

  /** The subsampling a chroma tag stands for, as a reader of the stream
      would decode it. */
  function TagSubsampling(tag: string): Option<(nat, nat)> {
    if tag == "420" then Some((1, 1))
    else if tag == "422" then Some((1, 0))
    else if tag == "444" then Some((0, 0))
    else if tag == "410" then Some((2, 2))
    else if tag == "411" then Some((2, 0))
    else if tag == "440" then Some((0, 1))
    else None
  }

  /** Exactly six subsampling pairs have a tag, and a reader recovers the
      pair from the tag, so no two pairs share one. */
  lemma ColourTagInverse(w: nat, h: nat)
    ensures ColourTag(w, h).Some? <==>
      (w, h) in {(1, 1), (1, 0), (0, 0), (2, 2), (2, 0), (0, 1)}
    ensures ColourTag(w, h).Some? ==> TagSubsampling(ColourTag(w, h).value) == Some((w, h))
  {
  }

  /** The bit depth of a floating-point YUV format whose subsampling has a
      tag is 16, 32 or 64: the program declares every other depth
      unreachable once the tag is written. An untagged subsampling is
      refused before the depth is looked at. */
  predicate FloatBitsKnown(f: Format) {
    f.family == YUV && f.sampleType == Float && ColourTag(f.subW, f.subH).Some? ==>
      f.bits == 16 || f.bits == 32 || f.bits == 64
  }

  /** The sample suffix of a YUV colour space: `p<bits>` for deep integer
      formats, `ph`, `ps` or `pd` for half, single and double floats. */
  function SampleSuffix(f: Format): string
    requires FloatBitsKnown(f) && f.family == YUV && ColourTag(f.subW, f.subH).Some?
  {
    if f.bits > 8 && f.sampleType == Integer then "p" + NatStr(f.bits)
    else if f.sampleType == Float then
      "p" + (if f.bits == 16 then "h" else if f.bits == 32 then "s" else "d")
    else ""
  }

  /** The pieces the header is written in, in order, and the error the
      writing stops with if the format has no y4m name. The magic is written
      before the colour family is inspected. */
  datatype HeaderPlan = HeaderPlan(pieces: seq<string>, failure: Option<string>)

  function Trailer(v: VideoInfo): seq<string> {
    [ " W" + NatStr(v.width) + " H" + NatStr(v.height),
      " F" + NatStr(v.fpsNum) + ":" + NatStr(v.fpsDen),
      " Ip A0:0 XLENGTH=" + NatStr(v.numFrames) + "\n" ]
  }

  function HeaderPlanOf(v: VideoInfo): HeaderPlan
    requires FloatBitsKnown(v.format)
  {
    var f := v.format;
    match f.family
    case Gray =>
      HeaderPlan([Magic, "mono"] + (if f.bits > 8 then [NatStr(f.bits)] else []) + Trailer(v), None)
    case YUV =>
      var tag := ColourTag(f.subW, f.subH);
      if tag.None? then HeaderPlan([Magic], Some(NoIdentifier))
      else
        var suffix := SampleSuffix(f);
        HeaderPlan([Magic, tag.value] + (if suffix == "" then [] else [suffix]) + Trailer(v), None)
    case _ => HeaderPlan([Magic], Some(NoIdentifier))
  }

  function Join(ps: seq<string>): string {
    if ps == [] then "" else ps[0] + Join(ps[1..])
  }

  lemma {:induction false} JoinAppend(a: seq<string>, b: seq<string>)
    ensures Join(a + b) == Join(a) + Join(b)
  {
    if a == [] {
      assert a + b == b;
    } else {
      assert (a + b)[1..] == a[1..] + b;
      JoinAppend(a[1..], b);
    }
  }

  /** The whole header, or the error the program reports for the format. */
  function Y4mHeader(v: VideoInfo): Result<string, string>
    requires FloatBitsKnown(v.format)
  {
    var plan := HeaderPlanOf(v);
    if plan.failure.Some? then Failure(plan.failure.value) else Success(Join(plan.pieces))
  }

  /** The colour-space field of the header (`mono`, `mono16`, `420p10`,
      `444ps`, ...), if the format has one. */
  function ColourSpace(f: Format): Option<string>
    requires FloatBitsKnown(f)
  {
    match f.family
    case Gray => Some("mono" + (if f.bits > 8 then NatStr(f.bits) else ""))
    case YUV =>
      var tag := ColourTag(f.subW, f.subH);
      if tag.None? then None else Some(tag.value + SampleSuffix(f))
    case _ => None
  }

  /** The fields after the colour space: dimensions, frame rate,
      progressive scan, an unknown aspect ratio and the frame count. */
  function TrailerText(v: VideoInfo): string {
    TrailerFields(v) + "\n"
  }

  function TrailerFields(v: VideoInfo): string {
    " W" + NatStr(v.width) + " H" + NatStr(v.height)
    + " F" + NatStr(v.fpsNum) + ":" + NatStr(v.fpsDen)
    + " Ip A0:0 XLENGTH=" + NatStr(v.numFrames)
  }

  lemma TrailerJoin(v: VideoInfo)
    ensures Join(Trailer(v)) == TrailerText(v)
  {
    var t := Trailer(v);
    assert t[1..] == [t[1], t[2]];
    JoinPair(t[1], t[2]);
  }

  lemma JoinPair(a: string, b: string)
    ensures Join([a, b]) == a + b
  {
    assert [a, b][1..] == [b];
    assert [b][1..] == [];
    assert Join([b]) == b;
  }

  lemma JoinOptional(x: string)
    ensures Join(if x == "" then [] else [x]) == x
  {
    if x != "" {
      assert [x][1..] == [];
    }
  }

  /** The header of a format made of a colour space `cs`, written as the
      pieces `[Magic, first] + mid + Trailer(v)`. */
  lemma {:induction false} JoinHeader(v: VideoInfo, first: string, mid: seq<string>, cs: string)
    requires cs == first + Join(mid)
    ensures Join([Magic, first] + mid + Trailer(v)) == Magic + cs + TrailerText(v)
  {
    JoinAppend([Magic, first] + mid, Trailer(v));
    JoinAppend([Magic, first], mid);
    JoinPair(Magic, first);
    TrailerJoin(v);
  }

  /** Only gray formats and YUV formats with a tagged subsampling have a
      header; it is the magic, the colour space and the trailing fields. */
  lemma HeaderShape(v: VideoInfo)
    requires FloatBitsKnown(v.format)
    ensures Y4mHeader(v).Failure? <==> ColourSpace(v.format).None?
    ensures ColourSpace(v.format).None? <==>
      !(v.format.family == Gray || (v.format.family == YUV && ColourTag(v.format.subW, v.format.subH).Some?))
    ensures Y4mHeader(v).Failure? ==> Y4mHeader(v).error == NoIdentifier
    ensures Y4mHeader(v).Success? ==>
      Y4mHeader(v).value == Magic + ColourSpace(v.format).value + TrailerText(v)
  {
    var f := v.format;
    if f.family == Gray {
      var x := if f.bits > 8 then NatStr(f.bits) else "";
      JoinOptional(x);
      assert (if f.bits > 8 then [NatStr(f.bits)] else []) == (if x == "" then [] else [x]);
      JoinHeader(v, "mono", if x == "" then [] else [x], ColourSpace(f).value);
    } else if f.family == YUV && ColourTag(f.subW, f.subH).Some? {
      var suffix := SampleSuffix(f);
      JoinOptional(suffix);
      JoinHeader(v, ColourTag(f.subW, f.subH).value, if suffix == "" then [] else [suffix], ColourSpace(f).value);
    }
  }

  /** The header is one line: its only newline is its last character. */
  lemma HeaderIsOneLine(v: VideoInfo)
    requires FloatBitsKnown(v.format)
    requires Y4mHeader(v).Success?
    ensures var s := Y4mHeader(v).value;
      |s| > 0 && s[|s| - 1] == '\n' && forall i :: 0 <= i < |s| - 1 ==> s[i] != '\n'
  {
    HeaderShape(v);
    var f := v.format;
    var cs := ColourSpace(f).value;
    var s := Y4mHeader(v).value;
    var body := Magic + cs + TrailerFields(v);
    assert s == body + "\n";
    ColourSpaceOneLine(f);
    TrailerFieldsOneLine(v);
    NoNewlineAppend(Magic, cs);
    NoNewlineAppend(Magic + cs, TrailerFields(v));
    assert s[..|s| - 1] == body;
  }

  lemma ColourSpaceOneLine(f: Format)
    requires FloatBitsKnown(f) && ColourSpace(f).Some?
    ensures NoNewline(ColourSpace(f).value)
  {
    if f.family == Gray {
      var x := if f.bits > 8 then NatStr(f.bits) else "";
      NoNewlineDigits(x);
      NoNewlineAppend("mono", x);
    } else {
      var tag := ColourTag(f.subW, f.subH).value;
      var suffix := SampleSuffix(f);
      assert NoNewline(suffix) by {
        if f.bits > 8 && f.sampleType == Integer {
          NoNewlineDigits(NatStr(f.bits));
          NoNewlineAppend("p", NatStr(f.bits));
        }
      }
      NoNewlineAppend(tag, suffix);
    }
  }

  lemma TrailerFieldsOneLine(v: VideoInfo)
    ensures NoNewline(TrailerFields(v))
  {
    NoNewlineDigits(NatStr(v.width));
    NoNewlineDigits(NatStr(v.height));
    NoNewlineDigits(NatStr(v.fpsNum));
    NoNewlineDigits(NatStr(v.fpsDen));
    NoNewlineDigits(NatStr(v.numFrames));
    NoNewlineAppend(" W", NatStr(v.width));
    NoNewlineAppend(" W" + NatStr(v.width), " H");
    NoNewlineAppend(" W" + NatStr(v.width) + " H", NatStr(v.height));
    var a := " W" + NatStr(v.width) + " H" + NatStr(v.height);
    NoNewlineAppend(a, " F");
    NoNewlineAppend(a + " F", NatStr(v.fpsNum));
    NoNewlineAppend(a + " F" + NatStr(v.fpsNum), ":");
    NoNewlineAppend(a + " F" + NatStr(v.fpsNum) + ":", NatStr(v.fpsDen));
    var b := a + " F" + NatStr(v.fpsNum) + ":" + NatStr(v.fpsDen);
    NoNewlineAppend(b, " Ip A0:0 XLENGTH=");
    NoNewlineAppend(b + " Ip A0:0 XLENGTH=", NatStr(v.numFrames));
  }

  predicate NoNewline(s: string) {
    forall i :: 0 <= i < |s| ==> s[i] != '\n'
  }

  lemma NoNewlineAppend(a: string, b: string)
    requires NoNewline(a) && NoNewline(b)
    ensures NoNewline(a + b)
  {
    forall i | 0 <= i < |a + b| ensures (a + b)[i] != '\n' {
      if i >= |a| {
        assert (a + b)[i] == b[i - |a|];
      }
    }
  }

  lemma NoNewlineDigits(s: string)
    requires forall i :: 0 <= i < |s| ==> IsDigit(s[i])
    ensures NoNewline(s)
  {
  }

  function AsciiChunks(ps: seq<string>): (c: seq<Bytes>)
    ensures |c| == |ps|
  {
    seq(|ps|, i requires 0 <= i < |ps| => Ascii(ps[i]))
  }

  lemma {:induction false} AsciiChunksConcat(ps: seq<string>)
    ensures Concat(AsciiChunks(ps)) == Ascii(Join(ps))
  {
    if ps != [] {
      assert AsciiChunks(ps)[1..] == AsciiChunks(ps[1..]);
      AsciiChunksConcat(ps[1..]);
      AsciiAppend(ps[0], Join(ps[1..]));
    }
  }

  /** `print_y4m_header`: the pieces are written until one fails; an I/O
      error or the missing identifier is returned. */
  function WriteHeader(t: OutputTarget, v: VideoInfo): (OutputTarget, Outcome<Error>)
    requires FloatBitsKnown(v.format)
  {
    var plan := HeaderPlanOf(v);
    var (t', r) := WriteSeq(t, AsciiChunks(plan.pieces));
    if r.Fail? then (t', Fail(Message(r.error)))
    else if plan.failure.Some? then (t', Fail(Message(plan.failure.value)))
    else (t', Pass)
  }

  /** Writing the header fails whenever the format has no y4m name; when it
      succeeds on a device, the device received exactly the header; on the
      discarding target it succeeds exactly when the format has a name. */
  lemma WriteHeaderSends(t: OutputTarget, v: VideoInfo)
    requires FloatBitsKnown(v.format)
    ensures Y4mHeader(v).Failure? ==> WriteHeader(t, v).1.Fail?
    ensures t.Empty? ==>
      (WriteHeader(t, v) == (Empty, if Y4mHeader(v).Failure? then Fail(Message(NoIdentifier)) else Pass))
    ensures !t.Empty? && WriteHeader(t, v).1.Pass? ==>
      Y4mHeader(v).Success? && Sent(WriteHeader(t, v).0) == Sent(t) + Ascii(Y4mHeader(v).value)
  {
    var plan := HeaderPlanOf(v);
    HeaderShape(v);
    if t.Empty? {
      WriteSeqEmpty(AsciiChunks(plan.pieces));
    } else {
      WriteSeqDelivers(t, AsciiChunks(plan.pieces));
      AsciiChunksConcat(plan.pieces);
    }
  }
}
