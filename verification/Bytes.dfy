/** Bytes, the option type and the few character codes shared by every part of the model. */
module Bytes {

  /** An octet. C++ `char` is signed on the platforms the program targets; where that
      matters the model says so at the place it matters. */
  newtype byte = x: int | 0 <= x < 0x100

  type bytes = seq<byte>

  datatype Option<+T> = None | Some(value: T)

  const NUL: byte := 0
  const TAB: byte := 9
  const LF: byte := 10
  const CR: byte := 13
  const SPACE: byte := 32
  const COLON: byte := 58

  /** The character at `i`, or the terminating NUL at and beyond the end of the text. */
  function At(s: bytes, i: nat): byte {
    if i < |s| then s[i] else NUL
  }

  function Min(a: nat, b: nat): nat {
    if a < b then a else b
  }

  /** Concatenation of a list of pieces. */
  function Concat<T>(pieces: seq<seq<T>>): seq<T> {
    if pieces == [] then [] else pieces[0] + Concat(pieces[1..])
  }
}
