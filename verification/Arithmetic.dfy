/** The few facts about products that offsets into strided buffers need. */
module Arithmetic {

  /**
   A product as repeated addition.  Definitions that say `Product` rather than `*` keep products
   of variables out of the proofs that do not look into them; `ProductIs` gives the product.
   */
  function Product(a: int, n: int): int
    decreases if n < 0 then -n else n
  {
    if n == 0 then 0 else if n > 0 then Product(a, n - 1) + a else Product(a, n + 1) - a
  }

  lemma {:induction false} ProductIs(a: int, n: int)
    ensures Product(a, n) == a * n
    decreases if n < 0 then -n else n
  {
    if n > 0 {
      ProductIs(a, n - 1);
      MulAdd(n - 1, 1, a);
    } else if n < 0 {
      ProductIs(a, n + 1);
      MulAdd(n, 1, a);
    }
  }

  lemma MulMonotone(a: int, b: int, n: nat)
    requires a <= b
    ensures a * n <= b * n
  {
  }

  lemma MulAdd(a: int, b: int, n: int)
    ensures (a + b) * n == a * n + b * n
  {
  }

  /** Slot `c` of line `r` comes before line `r + 1`, which is no later than line `rows`. */
  lemma LineBound(r: int, c: int, rows: int, width: nat)
    requires r < rows && c < width
    ensures r * width + c + 1 <= rows * width
  {
    MulAdd(r, 1, width);
    MulMonotone(r + 1, rows, width);
  }

  /** A slot index splits into a line and a column. */
  lemma SplitIndex(d: nat, rows: nat, width: nat) returns (r: nat, c: nat)
    requires d < rows * width
    ensures r < rows && c < width && r * width + c == d
  {
    r, c := 0, d;
    while c >= width
      invariant r * width + c == d
    {
      MulAdd(r, 1, width);
      r, c := r + 1, c - width;
    }
    if rows <= r {
      MulMonotone(rows, r, width);
    }
  }
}
