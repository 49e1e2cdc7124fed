/** Facts about flooring division by a positive width; Dafny's `/` floors then, as Python's `//` does. */
module Arithmetic {

  lemma MulMonotone(a: int, b: int, w: int)
    requires w >= 0
    ensures a <= b ==> a * w <= b * w
  {
  }

  /** Windows of later slots start after the end of earlier ones. */
  lemma WindowsApart(a: int, b: int, w: int)
    requires w >= 0 && a < b
    ensures a * w + w <= b * w
  {
    MulMonotone(a + 1, b, w);
    assert (a + 1) * w == a * w + w;
  }

  lemma DivMonotone(a: int, b: int, w: int)
    requires w > 0 && a <= b
    ensures a / w <= b / w
  {
    MulMonotone(b / w + 1, a / w, w);
    assert (b / w + 1) * w == b / w * w + w;
  }

  /** `q` is the quotient exactly when `time` lies in the q-th window. */
  lemma DivWindow(time: int, w: int, q: int)
    requires w > 0
    ensures time / w == q <==> q * w <= time < q * w + w
  {
    var p := time / w;
    assert p * w <= time < p * w + w;
    MulMonotone(q + 1, p, w);
    MulMonotone(p + 1, q, w);
    assert (q + 1) * w == q * w + w && (p + 1) * w == p * w + w;
  }

  /** Dividing twice is dividing by the product. */
  lemma DivDiv(time: int, w: int, k: int)
    requires w > 0 && k > 0
    ensures w * k > 0 && time / w / k == time / (w * k)
  {
    MulMonotone(1, k, w);
    var q := time / w / k;
    DivWindow(time / w, k, q);
    DivWindow(time, w, time / w);
    MulMonotone(q * k, time / w, w);
    MulMonotone(time / w + 1, q * k + k, w);
    assert q * k * w == q * (w * k) && (q * k + k) * w == q * (w * k) + w * k;
    assert (time / w + 1) * w == time / w * w + w;
    DivWindow(time, w * k, q);
  }
}
