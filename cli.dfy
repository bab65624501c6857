/** The argument handling of `run` that decides what `output` gets:
    `--arg key=value` splitting, the frame-range check and the request-count
    default. The numbers arrive already parsed; `--start` and `--end` are
    32-bit signed integers. */
module Cli {
  import opened Common
  import opened Decimal
  import opened Engine

  const I32Min := -0x8000_0000
  const I32Max := 0x7fff_ffff

  predicate IsI32(x: int) {
    I32Min <= x <= I32Max
  }

  /** `str::find`: the first position of `c` in `s`. */
  function FindFirst(s: string, c: char): (r: Option<nat>)
    ensures r.Some? ==> r.value < |s| && s[r.value] == c && c !in s[..r.value]
    ensures r.None? <==> c !in s
  {
    if s == [] then None
    else if s[0] == c then Some(0)
    else match FindFirst(s[1..], c)
      case None => None
      case Some(i) =>
        assert s[..i + 1] == [s[0]] + s[1..][..i];
        Some(i + 1)
  }

  /** `parse_arg`: split at the first `=`; the value is everything after
      it. */
  function ParseArg(arg: string): (r: Result<(string, string), Error>)
    ensures r.Success? ==> r.value.0 + "=" + r.value.1 == arg && '=' !in r.value.0
    ensures r.Failure? <==> '=' !in arg
    ensures r.Failure? ==> r.error == Message("No value specified for argument: " + arg)
  {
    match FindFirst(arg, '=')
    case None => Failure(Message("No value specified for argument: " + arg))
    case Some(i) =>
      assert arg[..i] + "=" + arg[i + 1..] == arg;
      Success((arg[..i], arg[i + 1..]))
  }

  /** Searching past a prefix without `c` finds what searching the rest
      finds, shifted by the prefix length. */
  lemma {:induction false} FindFirstSkips(a: string, b: string, c: char)
    requires c !in a
    ensures FindFirst(a + b, c) ==
      if FindFirst(b, c).Some? then Some(|a| + FindFirst(b, c).value) else None
    decreases |a|
  {
    if a == [] {
      assert a + b == b;
    } else {
      assert (a + b)[1..] == a[1..] + b;
      assert c !in a[1..] by {
        assert forall j :: 0 <= j < |a[1..]| ==> a[1..][j] == a[j + 1];
      }
      FindFirstSkips(a[1..], b, c);
    }
  }

  /** Every key without `=` and every value (which may contain `=`) come
      back unchanged from their `key=value` spelling. */
  lemma ParseArgInverse(k: string, v: string)
    requires '=' !in k
    ensures ParseArg(k + "=" + v) == Success((k, v))
  {
    var arg := k + "=" + v;
    assert arg == k + ("=" + v);
    FindFirstSkips(k, "=" + v, '=');
    assert FindFirst(arg, '=') == Some(|k|);
    assert arg[..|k|] == k;
    assert arg[|k| + 1..] == v;
  }

  /** `checked_sub` and `checked_add` on `i32`. */
  function CheckedSub(a: int, b: int): Option<int> {
    if IsI32(a - b) then Some(a - b) else None
  }

  function CheckedAdd(a: int, b: int): Option<int> {
    if IsI32(a + b) then Some(a + b) else None
  }

  /** The "frames to output" line of the range error. */
  function FramesToOutput(s: int, e: int): string {
    match CheckedSub(e, s)
    case None => "<overflow>"
    case Some(d) =>
      match CheckedAdd(d, 1)
      case None => "<overflow>"
      case Some(c) => IntStr(c)
  }

  /** The count reads `<overflow>` exactly when `e - s` or `e - s + 1` is
      outside `i32`; otherwise it is the number of frames from `s` to `e`. */
  lemma FramesToOutputCount(s: int, e: int)
    requires IsI32(s) && IsI32(e)
    ensures FramesToOutput(s, e) == "<overflow>" <==> e - s < I32Min || e - s + 1 > I32Max
    ensures FramesToOutput(s, e) != "<overflow>" ==> FramesToOutput(s, e) == IntStr(e - s + 1)
  {
    var c := e - s + 1;
    assert IsI32(e - s) && IsI32(c) ==> FramesToOutput(s, e) == IntStr(c);
    assert IntStr(c)[0] == '-' || IsDigit(IntStr(c)[0]);
  }

  function RangeMessage(s: int, e: int, numFrames: nat): string {
    "Invalid range of frames to output specified:\nfirst: " + IntStr(s)
      + "\nlast: " + IntStr(e)
      + "\nclip length: " + NatStr(numFrames)
      + "\nframes to output: " + FramesToOutput(s, e)
  }

  /** The range check of `run`: `--start` defaults to 0 and `--end` to the
      last frame of the clip. The clip length is a C `int`, so
      `num_frames as i32` does not wrap. */
  function FrameRange(startArg: Option<int>, endArg: Option<int>, numFrames: nat)
    : (r: Result<(nat, nat), Error>)
    requires startArg.Some? ==> IsI32(startArg.value)
    requires endArg.Some? ==> IsI32(endArg.value)
    requires numFrames <= I32Max
  {
    var s := startArg.GetOr(0);
    var e := endArg.GetOr(numFrames - 1);
    if s < 0 || e < s || e >= numFrames then Failure(Message(RangeMessage(s, e, numFrames)))
    else Success((s, e))
  }

  /** The range is accepted exactly when it is a non-empty sub-range of the
      clip, and then it is passed on unchanged; otherwise the error shows
      the two ends, the clip length and the frame count. Without arguments
      every non-empty clip is output whole. */
  lemma FrameRangeChecks(startArg: Option<int>, endArg: Option<int>, numFrames: nat)
    requires startArg.Some? ==> IsI32(startArg.value)
    requires endArg.Some? ==> IsI32(endArg.value)
    requires numFrames <= I32Max
    ensures var s := startArg.GetOr(0);
      var e := endArg.GetOr(numFrames - 1);
      var r := FrameRange(startArg, endArg, numFrames);
      && (r.Success? <==> 0 <= s <= e < numFrames)
      && (r.Success? ==> r.value.0 == s && r.value.1 == e)
      && (r.Failure? ==> r.error == Message(RangeMessage(s, e, numFrames)))
    ensures numFrames >= 1 ==> FrameRange(None, None, numFrames) == Success((0, numFrames - 1))
  {
  }

  /** `--requests`: 0 (the default) means one request per core thread. */
  function RequestCount(given: nat, numThreads: nat): (r: nat)
    ensures given != 0 ==> r == given
    ensures given == 0 ==> r == numThreads
  {
    if given == 0 then numThreads else given
  }

  /** What `run` passes to `output`. */
  function RunParams(hasAlpha: bool, range: (nat, nat), requests: nat, y4m: bool): Params {
    Params(hasAlpha, range.0, range.1, requests, y4m)
  }

  /** A range `run` accepts, with a core of at least one thread, satisfies
      everything `output` needs of its parameters, and the range stays
      inside the clip. */
  lemma RunMeetsOutput(startArg: Option<int>, endArg: Option<int>, numFrames: nat,
                       given: nat, numThreads: nat, hasAlpha: bool, y4m: bool)
    requires startArg.Some? ==> IsI32(startArg.value)
    requires endArg.Some? ==> IsI32(endArg.value)
    requires numFrames <= I32Max && numThreads >= 1
    requires FrameRange(startArg, endArg, numFrames).Success?
    ensures var p := RunParams(hasAlpha, FrameRange(startArg, endArg, numFrames).value,
                               RequestCount(given, numThreads), y4m);
      ValidParams(p) && p.end < numFrames
  {
  }
}
