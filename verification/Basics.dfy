/** Shared vocabulary: machine-width integers, optional values and status codes. */
module Basics {
  datatype Option<+T> = None | Some(value: T)

  type Byte = x: int | 0 <= x < 0x100
  type U16 = x: int | 0 <= x < 0x1_0000
  type U32 = x: int | 0 <= x < 0x1_0000_0000

  /** The low 16 bits: a C++ conversion to USHORT. */
  function Wrap16(n: nat): U16 {
    n % 0x1_0000
  }

  /** Rounds down to a multiple of two: `n & ~1u`. */
  function RoundEven(n: nat): (r: nat)
    ensures r <= n < r + 2 && r % 2 == 0
  {
    n - n % 2
  }

  predicate IsDigit(c: char) {
    '0' <= c <= '9'
  }

  lemma Associate<T>(a: seq<T>, b: seq<T>, c: seq<T>)
    ensures a + b + c == a + (b + c)
  {
  }

  /** A slice with one element more at its end or at its start. */
  lemma SliceGrows<T>(s: seq<T>, i: nat, j: nat)
    requires i <= j < |s|
    ensures s[i..j + 1] == s[i..j] + [s[j]]
    ensures s[i..j + 1] == [s[i]] + s[i + 1..j + 1]
  {
  }

  lemma SliceSplits<T>(s: seq<T>, i: nat, j: nat, k: nat)
    requires i <= j <= k <= |s|
    ensures s[i..k] == s[i..j] + s[j..k]
  {
  }

  /** The status codes (LSTATUS values) that the modelled code can leave in m_lastError. */
  datatype Status =
    | Success
    | InvalidData
    | UnsupportedType
    | OutOfMemory
    | InvalidState
    | NotFound
    | InsufficientBuffer
    | MessageNotFound
    | RenderFailed
}
