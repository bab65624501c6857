/** Values shared by every part of the model: optional values, results,
    the error values of the `failure` crate, bytes, and the VapourSynth
    format enumerations. */
module Common {

  datatype Option<+T> = None | Some(value: T) {
    function GetOr(default: T): T {
      if Some? then value else default
    }
  }

  datatype Result<+T, +E> = Success(value: T) | Failure(error: E)

  datatype Outcome<+E> = Pass | Fail(error: E)

  /** An error of the `failure` crate: a plain message (`err_msg`, or an I/O
      error converted by `?`), or a message attached with `.context(...)`
      on top of the error that caused it. */
  datatype Error = Message(text: string) | Context(text: string, cause: Error)

  /** What `{}` prints for an error: a context error displays only its own
      message, not its cause. */
  function Display(e: Error): string {
    e.text
  }

  /** The value of a map at a key, if the key is present. */
  function Get<K, V>(m: map<K, V>, k: K): (r: Option<V>)
    ensures r.Some? <==> k in m
    ensures r.Some? ==> r.value == m[k]
  {
    if k in m then Some(m[k]) else None
  }

  newtype byte = x: int | 0 <= x < 256

  type Bytes = seq<byte>

  /** The bytes a string is written as. Every string the program writes is
      ASCII, for which this is the UTF-8 encoding. */
  function Ascii(s: string): (b: Bytes)
    ensures |b| == |s|
  {
    seq(|s|, i requires 0 <= i < |s| => (s[i] as int % 256) as byte)
  }

  lemma AsciiAppend(s: string, t: string)
    ensures Ascii(s + t) == Ascii(s) + Ascii(t)
  {
  }

  /** The bytes of a sequence of chunks, written one after the other. */
  function Concat(chunks: seq<Bytes>): Bytes {
    if chunks == [] then [] else chunks[0] + Concat(chunks[1..])
  }

  lemma {:induction false} ConcatAppend(a: seq<Bytes>, b: seq<Bytes>)
    ensures Concat(a + b) == Concat(a) + Concat(b)
  {
    if a == [] {
      assert a + b == b;
    } else {
      assert (a + b)[1..] == a[1..] + b;
      ConcatAppend(a[1..], b);
    }
  }

  /** The colour families of a VapourSynth format. */
  datatype ColorFamily = Gray | RGB | YUV | YCoCg | Compat

  datatype SampleType = Integer | Float
}
