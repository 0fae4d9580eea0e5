/** The C integer types the modelled code stores: UTINY/BYTE/CHAR codes, USHORT and SHORT. */
module Bytes {
  type byte = x: int | 0 <= x < 0x100
  type ushort = x: int | 0 <= x < 0x1_0000
  type short = x: int | -0x8000 <= x < 0x8000

  const NUL: byte := 0
  const NEWLINE: byte := 10
  const RETURN: byte := 13
}

module Options {
  datatype Option<+T> = None | Some(value: T)
}

module Sequences {

  lemma {:induction false} Regroup<T>(a: seq<T>, b: seq<T>, c: seq<T>)
    ensures (a + b) + c == a + (b + c)
  {
  }
}
