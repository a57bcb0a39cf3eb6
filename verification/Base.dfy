/** Small shared vocabulary: an optional value, bytes as bounded integers, and the size of a subset. */
module Base {
  datatype Option<+T> = None | Some(value: T)

  /** One octet. Go strings and byte slices are sequences of these. */
  type byte = x: int | 0 <= x < 256
  type bytes = seq<byte>

  lemma Fewer<T>(a: set<T>, b: set<T>)
    requires a <= b
    ensures |a| <= |b|
  {
    assert b == a + (b - a);
  }
}
