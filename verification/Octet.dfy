/** Numbers as octets, the lowest first. */
module Octet {

  type octet = x: int | 0 <= x < 256

  function Pow256(n: nat): (p: int)
    ensures p >= 1
  {
    if n == 0 then 1 else 256 * Pow256(n - 1)
  }

  function Bits(b: seq<octet>): (n: nat) {
    if b == [] then 0 else b[0] + 256 * Bits(b[1..])
  }

  function Octets(n: nat, size: nat): (b: seq<octet>)
    ensures |b| == size
  {
    if size == 0 then [] else [n % 256] + Octets(n / 256, size - 1)
  }

  /** `size` octets hold every number below `256^size`. */
  lemma {:induction false} OctetsBits(n: nat, size: nat)
    requires n < Pow256(size)
    ensures Bits(Octets(n, size)) == n
  {
    if size > 0 {
      OctetsBits(n / 256, size - 1);
      assert Octets(n, size)[1..] == Octets(n / 256, size - 1);
    }
  }

  lemma {:induction false} BitsBound(b: seq<octet>)
    ensures Bits(b) < Pow256(|b|)
  {
    if b != [] {
      BitsBound(b[1..]);
    }
  }

  lemma {:induction false} Pow256Sum(m: nat, n: nat)
    ensures Pow256(m + n) == Pow256(m) * Pow256(n)
  {
    if m > 0 {
      Pow256Sum(m - 1, n);
      assert m + n - 1 == (m - 1) + n;
    }
  }

  lemma {:induction false} Pow256Grows(m: nat, n: nat)
    requires m <= n
    ensures Pow256(m) <= Pow256(n)
  {
    if m < n {
      Pow256Grows(m, n - 1);
    }
  }
}
