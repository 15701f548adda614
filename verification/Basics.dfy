/**
 What all parts of the project share.
 */
module Basics {
  datatype Option<+T> = None | Some(value: T)

  lemma Assoc<T>(a: seq<T>, b: seq<T>, c: seq<T>)
    ensures a + b + c == a + (b + c)
  {
  }

  lemma DivIs(a: int, k: int, q: int, r: int)
    requires k > 0 && a == k * q + r && 0 <= r < k
    ensures a / k == q && a % k == r
  {
    var p, s := a / k, a % k;
    assert a == k * p + s;
    if p > q {
      MulAtLeast(k, p, q + 1);
      assert false;
    } else if p < q {
      MulAtLeast(k, q, p + 1);
      assert false;
    }
  }

  lemma MulAtLeast(k: int, a: int, b: int)
    requires k > 0 && a >= b
    ensures k * a >= k * b && k * b == k * (b - 1) + k
  {
  }
}
