/** The output target: a file, standard output, or the discarding target
    selected by the output name `.`. */
module Sink {
  import opened Common

  /** What the program can observe of a real output device. `faults` gives,
      for the ordinal of a write operation on the device, the error the
      operating system reports for it; every other write is accepted whole.
      `sent` is everything the device has accepted so far. */
  datatype Device = Device(
    faults: map<nat, string>,
    writes: nat,
    sent: Bytes,
    flushFault: Option<string>)

  datatype OutputTarget = File(device: Device) | Stdout(device: Device) | Empty

  /** The bytes that reached the target (the discarding target keeps none). */
  function Sent(t: OutputTarget): Bytes {
    if t.Empty? then [] else t.device.sent
  }

  function DeviceWrite(d: Device, buf: Bytes): (r: (Device, Result<nat, string>))
    ensures r.0.faults == d.faults && r.0.flushFault == d.flushFault
    ensures r.0.writes == d.writes + 1
    ensures r.1.Failure? <==> d.writes in d.faults
    ensures r.1.Failure? ==> r.0.sent == d.sent && r.1.error == d.faults[d.writes]
    ensures r.1.Success? ==> r.0.sent == d.sent + buf && r.1.value == |buf|
  {
    if d.writes in d.faults then
      (d.(writes := d.writes + 1), Failure(d.faults[d.writes]))
    else
      (d.(writes := d.writes + 1, sent := d.sent + buf), Success(|buf|))
  }

  /** `Write::write` of the output target. */
  function Write(t: OutputTarget, buf: Bytes): (r: (OutputTarget, Result<nat, string>))
    ensures r.0.Empty? == t.Empty?
  {
    match t
    case File(d) => var (d', res) := DeviceWrite(d, buf); (File(d'), res)
    case Stdout(d) => var (d', res) := DeviceWrite(d, buf); (Stdout(d'), res)
    case Empty => (Empty, Success(|buf|))
  }

  /** `Write::flush` of the output target. */
  function Flush(t: OutputTarget): (r: Outcome<string>)
  {
    match t
    case File(d) => if d.flushFault.Some? then Fail(d.flushFault.value) else Pass
    case Stdout(d) => if d.flushFault.Some? then Fail(d.flushFault.value) else Pass
    case Empty => Pass
  }

  /** The discarding target accepts every write, reports the whole buffer as
      written, and accepts every flush. */
  lemma EmptyAlwaysSucceeds(buf: Bytes)
    ensures Write(Empty, buf) == (Empty, Success(|buf|))
    ensures Flush(Empty) == Pass
  {
  }

  /** `write_all`: an empty buffer issues no write at all. */
  function WriteAll(t: OutputTarget, buf: Bytes): (r: (OutputTarget, Outcome<string>))
    ensures r.0.Empty? == t.Empty?
  {
    if |buf| == 0 then (t, Pass)
    else
      var (t', res) := Write(t, buf);
      (t', if res.Failure? then Fail(res.error) else Pass)
  }

  /** Successive `write_all` calls, stopping at the first one that fails. */
  function WriteSeq(t: OutputTarget, chunks: seq<Bytes>): (r: (OutputTarget, Outcome<string>))
    ensures r.0.Empty? == t.Empty?
    decreases |chunks|
  {
    if chunks == [] then (t, Pass)
    else
      var (t', res) := WriteAll(t, chunks[0]);
      if res.Fail? then (t', res) else WriteSeq(t', chunks[1..])
  }

  /** On the discarding target every sequence of writes succeeds. */
  lemma {:induction false} WriteSeqEmpty(chunks: seq<Bytes>)
    ensures WriteSeq(Empty, chunks) == (Empty, Pass)
    decreases |chunks|
  {
    if chunks != [] {
      WriteSeqEmpty(chunks[1..]);
    }
  }

  /** `after` is what a device holds once some prefix of `intended` has been
      appended to `before`, the whole of it if `ok`. */
  predicate Progress(before: Bytes, after: Bytes, intended: Bytes, ok: bool) {
    before <= after && after <= before + intended && (ok ==> after == before + intended)
  }

  /** Two stages of writing, the second run only if the first succeeded. */
  lemma ProgressThen(s0: Bytes, s1: Bytes, s2: Bytes, a: Bytes, b: Bytes, ok1: bool, ok2: bool)
    requires Progress(s0, s1, a, ok1)
    requires ok1 ==> Progress(s1, s2, b, ok2)
    requires !ok1 ==> s2 == s1 && !ok2
    ensures Progress(s0, s2, a + b, ok2)
  {
    assert s0 + a + b == s0 + (a + b);
    if ok1 {
      assert s1 == s0 + a;
      assert s0 <= s2 by {
        assert s2[..|s0|] == s1[..|s0|];
      }
      assert s2 <= s0 + (a + b);
    } else {
      assert s1 <= s0 + (a + b) by {
        assert (s0 + a)[..|s1|] == (s0 + (a + b))[..|s1|];
      }
    }
  }

  /** On a device, the chunks arrive in order and nothing else arrives: what
      the device received is a prefix of the chunks, all of them when every
      write succeeded. */
  lemma {:induction false} WriteSeqDelivers(t: OutputTarget, chunks: seq<Bytes>)
    requires !t.Empty?
    ensures var r := WriteSeq(t, chunks); Progress(Sent(t), Sent(r.0), Concat(chunks), r.1.Pass?)
    decreases |chunks|
  {
    if chunks != [] {
      var (t', res) := WriteAll(t, chunks[0]);
      assert Progress(Sent(t), Sent(t'), chunks[0], res.Pass?);
      var r := WriteSeq(t, chunks);
      if res.Pass? {
        WriteSeqDelivers(t', chunks[1..]);
      }
      ProgressThen(Sent(t), Sent(t'), Sent(r.0), chunks[0], Concat(chunks[1..]), res.Pass?, r.1.Pass?);
    }
  }
}
