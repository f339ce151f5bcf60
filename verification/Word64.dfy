/**
  A 64-bit unsigned word, seen as the set of its one bits.  The operators below are the
  ones `task/task.go` applies to `uint64` values, including the truncation of a left
  shift at bit 63.
 */
module Word64 {

  type Word = w: set<nat> | forall i <- w :: i < 64

  const MAX: Word := set i: nat | i < 64

  function Or(a: Word, b: Word): Word { a + b }

  function And(a: Word, b: Word): Word { a * b }

  function Not(a: Word): Word { set i: nat | i < 64 && i !in a }

  function Shl(a: Word, n: nat): Word { set i: nat | i < 64 && MovedTo(a, n, i) }

  /** Bit `i` after a left shift by `n` is bit `i - n` before it. */
  predicate MovedTo(a: Word, n: nat, i: nat) { n <= i && i - n in a }

  /** The Go expression `1 << n`. */
  function Bit(n: nat): Word { Shl({0}, n) }

  /** Bit `n` of `w` is one. */
  predicate Has(w: Word, n: nat) { n in w }

  lemma BitIsSingleton(n: nat)
    ensures Bit(n) == if n < 64 then {n} else {}
  {
  }

  /** The Go tests `1<<n & w == 0` and `1<<n & w > 0` read exactly that bit. */
  lemma MaskTest(w: Word, n: nat)
    ensures And(Bit(n), w) != {} <==> Has(w, n)
  {
    BitIsSingleton(n);
    if n in w {
      assert n in And(Bit(n), w);
    }
  }
}
