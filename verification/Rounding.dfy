/** Rounding a width up to a multiple of the alignment, and the alignment that a target starts with. */
module Rounding {
  import opened Basics

  /** The smallest multiple of `align` that is at least `w`. */
  function RoundUp(w: int, align: int): (r: int)
    requires 0 < align
    ensures w <= r < w + align
  {
    var up := w + align - 1;
    up - up % align
  }

  lemma RoundUpDivides(w: nat, align: int)
    requires 0 < align
    ensures RoundUp(w, align) % align == 0
  {
    var up := w + align - 1;
    QuotientIs(RoundUp(w, align), align, up / align, 0);
  }

  /** The number of columns per node, rounded up. */
  function DefaultAlign(width: int, numNodes: int): int
    requires 0 < numNodes
  {
    (width + numNodes - 1) / numNodes
  }

  lemma MulFacts(a: int, n: int, width: int)
    requires 0 < n && 0 < width && width <= a * n < width + n
    ensures 0 < a <= width && (a == 1 <==> width <= n)
  {
    assert a <= 0 ==> a * n <= 0;
    assert a >= 2 ==> a * n >= 2 * n;
    assert a >= width + 1 ==> a * n >= (width + 1) * n;
    assert (width + 1) * n == width * n + n && width * n >= width;
  }

  lemma AlignBounds(width: int, n: int)
    requires 0 < width && 0 < n
    ensures 0 < DefaultAlign(width, n) <= width
    ensures width <= DefaultAlign(width, n) * n < width + n
    ensures DefaultAlign(width, n) == 1 <==> width <= n
  {
    var a := DefaultAlign(width, n);
    MulFacts(a, n, width);
  }
}
