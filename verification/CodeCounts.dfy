/** How many codes of each length a list of repeated lengths has. */
module CodeCounts {
  import opened Canonical
  import opened Common

  lemma {:induction false} CountJoin(a: seq<nat>, b: seq<nat>, l: nat)
    ensures Count(a + b, l) == Count(a, l) + Count(b, l)
    decreases b
  {
    if b == [] {
      assert a + b == a;
    } else {
      var front := b[..|b| - 1];
      assert (a + b)[..|a + b| - 1] == a + front;
      CountJoin(a, front, l);
    }
  }

  lemma {:induction false} CountRepeat(x: nat, n: nat, l: nat)
    ensures Count(Repeat(x, n), l) == if x == l then n else 0
  {
    if n > 0 {
      assert Repeat(x, n)[..n - 1] == Repeat(x, n - 1);
      CountRepeat(x, n - 1, l);
    }
  }

  lemma {:induction false} NoShorterCodes(lens: seq<nat>, l: nat, k: nat)
    requires forall m :: m < k ==> m <= 0 || Count(lens, m) == 0
    requires l <= k
    ensures FirstCode(lens, l) == 0
    decreases l
  {
    if l > 1 { NoShorterCodes(lens, l - 1, k); }
  }
}
