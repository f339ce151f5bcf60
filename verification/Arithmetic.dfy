/** Remainders by a variable divisor. */
module Arithmetic {

  lemma MultipleHasNoRemainder(q: int, step: int)
    requires step >= 1
    ensures q * step % step == 0
  {
    RemainderOf(q, step, 0);
  }

  lemma RemainderOf(q: int, step: int, r: int)
    requires 0 <= r < step
    ensures (q * step + r) % step == r
  {
    var x := q * step + r;
    var d := x / step - q;
    assert d * step == r - x % step;
    NoSmallMultiple(d, step);
  }

  lemma NoSmallMultiple(d: int, step: int)
    requires step >= 1
    ensures d >= 1 ==> d * step >= step
    ensures d <= -1 ==> d * step <= -step
  {
  }
}
