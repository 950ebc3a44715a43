/** Octets, options, and the few sequence helpers that the components share. */
module Bytes {

  type byte = x: int | 0 <= x < 256

  datatype Option<T> = None | Some(value: T)

  /** The stream obtained by gluing chunks together. */
  function Flatten<T>(chunks: seq<seq<T>>): (stream: seq<T>) {
    if |chunks| == 0 then [] else chunks[0] + Flatten(chunks[1..])
  }

  lemma {:induction false} FlattenSnoc<T>(chunks: seq<seq<T>>, last: seq<T>)
    ensures Flatten(chunks + [last]) == Flatten(chunks) + last
  {
    if |chunks| == 0 {
      assert chunks + [last] == [last];
    } else {
      assert (chunks + [last])[1..] == chunks[1..] + [last];
      FlattenSnoc(chunks[1..], last);
    }
  }

  lemma Regroup<T>(a: seq<T>, b: seq<T>, c: seq<T>)
    ensures a + (b + c) == a + b + c
  {
  }

  /** The codes of a plain ASCII text. */
  function Ascii(text: string): (s: seq<byte>)
    requires forall i :: 0 <= i < |text| ==> text[i] < 128 as char
  {
    seq(|text|, i requires 0 <= i < |text| => text[i] as int)
  }

  function Min(a: int, b: int): (m: int) {
    if a <= b then a else b
  }
}
