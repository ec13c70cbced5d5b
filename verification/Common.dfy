/** What several components share. */
module Common {
  datatype Option<+T> = None | Some(value: T)

  type Byte = b: int | 0 <= b < 256

  const TWO_64: nat := 0x1_0000_0000_0000_0000

  /** word_t, as wide as a register of the tracer. */
  type Word = w: int | 0 <= w < TWO_64

  function Wrap(i: int): Word {
    i % TWO_64
  }

  lemma WrapSmall(i: int)
    requires 0 <= i < TWO_64
    ensures Wrap(i) == i
  {
  }

  /** A sequence with one element less. */
  function Without<T>(s: seq<T>, k: nat): seq<T>
    requires k < |s|
  {
    s[..k] + s[k + 1..]
  }
}
