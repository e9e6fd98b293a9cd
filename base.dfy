/** Small shared vocabulary: an optional value, bytes and positive integers. */
module Base {

  datatype Option<+T> = None | Some(value: T)

  /** One byte of a stream payload. */
  type Byte = b: int | 0 <= b < 256

  type Bytes = seq<Byte>

  /** A strictly positive integer, used for denominators. */
  type Pos = n: int | n > 0 witness 1

  /** A subset is no larger than its superset. */
  lemma SubsetCardinality<T>(a: set<T>, b: set<T>)
    requires a <= b
    ensures |a| <= |b|
  {
    assert b == a + (b - a);
  }
}
