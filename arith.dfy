/**
 * Products of two variables, written as repeated addition. The index
 * arithmetic of the converter is stated with Mul so that the verifier
 * reasons about products only through the lemmas below.
 */
module Arith {
  function Mul(a: nat, b: nat): nat
  {
    if a == 0 then 0 else Mul(a - 1, b) + b
  }

  lemma {:induction false} MulIsProduct(a: nat, b: nat)
    ensures Mul(a, b) == a * b
  {
    if a > 0 {
      MulIsProduct(a - 1, b);
    }
  }

  /** Computes the product the source writes with `*`, in terms of Mul. */
  method Multiply(a: nat, b: nat) returns (p: nat)
    ensures p == Mul(a, b)
  {
    p := a * b;
    MulIsProduct(a, b);
  }

  lemma MulMonotone(a: nat, a': nat, b: nat, b': nat)
    requires a <= a' && b <= b'
    ensures Mul(a, b) <= Mul(a', b')
  {
    MulIsProduct(a, b);
    MulIsProduct(a', b');
    assert a * b <= a' * b;
  }

  lemma MulCommutes(a: nat, b: nat)
    ensures Mul(a, b) == Mul(b, a)
  {
    MulIsProduct(a, b);
    MulIsProduct(b, a);
  }

  lemma {:induction false} MulAdds(x: nat, y: nat, z: nat)
    ensures Mul(x + y, z) == Mul(x, z) + Mul(y, z)
  {
    if y > 0 {
      MulAdds(x, y - 1, z);
    }
  }

  /** Row r of a grid of rows w cells wide ends at or before row k ends, when r < k. */
  lemma RowBefore(r: nat, k: nat, w: nat)
    requires r < k
    ensures Mul(r + 1, w) == Mul(r, w) + w <= Mul(k, w)
  {
    MulMonotone(r + 1, k, w, w);
  }

  /** Cell c of row r in a grid of rows w cells wide comes before the end of row k when r < k. */
  lemma CellBefore(r: nat, c: nat, k: nat, w: nat)
    requires r < k && c < w
    ensures Mul(r + 1, w) == Mul(r, w) + w
    ensures Mul(r, w) + c < Mul(r + 1, w) <= Mul(k, w)
  {
    RowBefore(r, k, w);
  }

  /** Rows and columns of (2a + hr) x (2b + wr) cells hold at least 4ab of them, and exactly that many when hr = wr = 0. */
  lemma GridCells(a: nat, b: nat, hr: nat, wr: nat)
    ensures Mul(2 * b + wr, 2 * a + hr) == 4 * Mul(a, b) + Mul(wr, 2 * a + hr) + 2 * Mul(hr, b)
  {
    MulAdds(2 * b, wr, 2 * a + hr);
    MulAdds(b, b, 2 * a + hr);
    MulCommutes(b, 2 * a + hr);
    MulAdds(2 * a, hr, b);
    MulAdds(a, a, b);
    MulCommutes(a, b);
  }

  /** A chroma grid of (h/2) x (w/2) pairs fills at most width*height/2 bytes, and all of them when both are even. */
  lemma HalvesFit(w: nat, h: nat)
    ensures 2 * Mul(h / 2, w / 2) <= Mul(w, h) / 2
    ensures w % 2 == 0 && h % 2 == 0 ==> 2 * Mul(h / 2, w / 2) == Mul(w, h) / 2
  {
    var a, b, hr, wr := h / 2, w / 2, h % 2, w % 2;
    assert w == 2 * b + wr && h == 2 * a + hr;
    GridCells(a, b, hr, wr);
    MulCommutes(a, b);
    assert wr == 0 ==> Mul(wr, h) == 0;
    assert hr == 0 ==> Mul(hr, b) == 0;
  }
}
