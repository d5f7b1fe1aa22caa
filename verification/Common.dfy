/** What several modules share. */
module Common {

  datatype Option<+T> = None | Some(value: T)

  /** The range of a 32-bit int. */
  const INT_MIN: int := -0x8000_0000
  const INT_MAX: int := 0x7FFF_FFFF

  /** n copies of x. */
  function Repeat(x: nat, n: nat): (r: seq<nat>)
    ensures |r| == n && forall i :: 0 <= i < n ==> r[i] == x
  {
    seq(n, _ => x)
  }

  lemma LessFactor(a: int, b: int, m: nat)
    requires a * m < b * m
    ensures a < b
  {
    assert (b - a) * m > 0;
  }
}
