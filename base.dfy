/** Vocabulary shared by the framing layer: bytes, 16-bit words, the
    success/failure and ready/pending wrappers, and two small sequence
    functions. */
module Base {

  /** One octet, as `u8`. */
  type Byte = b: int | 0 <= b < 0x100

  /** One unsigned 16-bit word, as `u16`. */
  type U16 = v: int | 0 <= v < 0x1_0000

  datatype Option<T> = None | Some(value: T)

  /** Rust's `Result`. */
  datatype Result<T, E> = Ok(value: T) | Err(error: E)

  /** The state of an `async` operation: completed with a value, or still
      waiting (its future has not resolved). */
  datatype Poll<T> = Ready(value: T) | Pending

  function Min(a: int, b: int): int {
    if a <= b then a else b
  }

  function Max(a: int, b: int): int {
    if a <= b then b else a
  }

  /** The concatenation of a sequence of byte chunks, in order. */
  function Flatten(chunks: seq<seq<Byte>>): (s: seq<Byte>)
    ensures chunks == [] ==> s == []
  {
    if chunks == [] then [] else Flatten(chunks[..|chunks| - 1]) + chunks[|chunks| - 1]
  }

  lemma FlattenSnoc(chunks: seq<seq<Byte>>, i: nat)
    requires i < |chunks|
    ensures Flatten(chunks[..i + 1]) == Flatten(chunks[..i]) + chunks[i]
  {
    assert chunks[..i + 1][..i] == chunks[..i];
  }

  /** The position of the first occurrence of `x` in `s`
      (`Iterator::position`). */
  function FirstIndex(s: seq<Byte>, x: Byte): (i: nat)
    requires x in s
    ensures i < |s| && s[i] == x && x !in s[..i]
  {
    if s[0] == x then 0
    else
      var i := 1 + FirstIndex(s[1..], x);
      assert s[..i] == [s[0]] + s[1..][..i - 1];
      i
  }
}
