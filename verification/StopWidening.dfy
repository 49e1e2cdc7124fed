/** Exactly which pairs of revisions the stop check of lifecycle.py protects from widening. */
module StopWidening {
  import opened Common
  import opened RevisionChain

  predicate FinitePrice(r: Revision) {
    r.stop.Some? && r.stop.value.price.Price?
  }

  /** The same revision but for the value of its stop price. */
  predicate SameButPrice(a: Revision, b: Revision) {
    && b == a.(stop := b.stop)
    && (a.stop.None? <==> b.stop.None?)
    && (a.stop.Some? ==>
          && a.stop.value.cancels == b.stop.value.cancels
          && (a.stop.value.price == b.stop.value.price || (FinitePrice(a) && FinitePrice(b))))
  }

  predicate SameButPrices(c: Chain, d: Chain) {
    |c| == |d| && forall k :: 0 <= k < |c| ==> SameButPrice(c[k], d[k])
  }

  /** A LONG stop did not fall from `a` to `b`, a SHORT stop did not rise. */
  predicate Tightened(a: Revision, b: Revision)
    requires FinitePrice(a) && FinitePrice(b)
  {
    && (a.decision.Long? ==> a.stop.value.price.value <= b.stop.value.price.value)
    && (a.decision.Short? ==> a.stop.value.price.value >= b.stop.value.price.value)
  }

  /** Positions `i` and `j` hold one position, LONG or SHORT, each with a finite stop price. */
  predicate Comparable(c: Chain, i: nat, j: nat)
    requires i < j < |c|
  {
    !c[i].decision.OtherDecision? && c[i].decision == c[j].decision && FinitePrice(c[i]) && FinitePrice(c[j])
  }

  /** Whatever prices an accepted chain of this shape carries, the stop is not widened from `i` to `j`. */
  ghost predicate NeverWidens(c: Chain, i: nat, j: nat)
    requires i < j < |c|
  {
    forall d :: Accepted(d) && SameButPrices(c, d) ==>
      FinitePrice(d[i]) && FinitePrice(d[j]) && Tightened(d[i], d[j])
  }

  /** Acceptance of a repriced chain is a matter of its stops alone. */
  lemma RepricedAccepted(c: Chain, d: Chain)
    requires Accepted(c) && SameButPrices(c, d)
    requires forall k :: 0 < k < |d| ==> NotWidened(d[k - 1], d[k])
    ensures Accepted(d)
  {
    forall k | 0 <= k < |d|
      ensures Fits(d, k)
    {
      assert Fits(c, k);
      assert SameButPrice(c[k], d[k]);
      assert k > 0 ==> SameButPrice(c[k - 1], d[k - 1]) && NotWidened(d[k - 1], d[k]);
    }
  }

  /** An interruption lies between two neighbours whose stops are not compared. */
  lemma Interruption(c: Chain, i: nat, j: nat) returns (b: nat)
    requires i < j < |c| && Comparable(c, i, j) && !Uninterrupted(c, i, j)
    ensures i < b <= j && !StopsCompared(c[b - 1], c[b])
  {
    if k :| i < k <= j && !StopsCompared(c[k - 1], c[k]) {
      b := k;
    } else {
      AllCompared(c, i, j);
    }
  }

  lemma {:induction false} AllCompared(c: Chain, i: nat, j: nat)
    requires i < j < |c| && forall k :: i < k <= j ==> StopsCompared(c[k - 1], c[k])
    ensures Uninterrupted(c, i, j)
  {
    assert StopsCompared(c[j - 1], c[j]);
    if i + 1 < j {
      AllCompared(c, i, j - 1);
    }
  }

  function AtPrice(r: Revision, price: real): Revision {
    if FinitePrice(r) then r.(stop := Some(r.stop.value.(price := Price(price)))) else r
  }

  /** All finite prices `x` before position `b`, and `y` from it on. */
  function Repriced(c: Chain, b: nat, x: real, y: real): Chain {
    seq(|c|, k requires 0 <= k < |c| => AtPrice(c[k], if k < b then x else y))
  }

  lemma RepricedShape(c: Chain, b: nat, x: real, y: real, k: nat)
    requires k < |c|
    ensures Repriced(c, b, x, y)[k] == AtPrice(c[k], if k < b then x else y)
    ensures SameButPrice(c[k], Repriced(c, b, x, y)[k])
  {
  }

  lemma RepricedStops(c: Chain, b: nat, x: real, y: real, k: nat)
    requires Accepted(c) && 0 < k < |c| && (k == b ==> !StopsCompared(c[b - 1], c[b]))
    ensures NotWidened(Repriced(c, b, x, y)[k - 1], Repriced(c, b, x, y)[k])
  {
    RepricedShape(c, b, x, y, k - 1);
    RepricedShape(c, b, x, y, k);
    assert Fits(c, k);
    assert NotWidened(c[k - 1], c[k]);
  }

  lemma RepricedIsAccepted(c: Chain, b: nat, x: real, y: real)
    requires Accepted(c) && 0 < b < |c| && !StopsCompared(c[b - 1], c[b])
    ensures Accepted(Repriced(c, b, x, y)) && SameButPrices(c, Repriced(c, b, x, y))
  {
    var d := Repriced(c, b, x, y);
    forall k | 0 <= k < |c|
      ensures SameButPrice(c[k], d[k])
    {
      RepricedShape(c, b, x, y, k);
    }
    forall k | 0 < k < |d|
      ensures NotWidened(d[k - 1], d[k])
    {
      RepricedStops(c, b, x, y, k);
    }
    RepricedAccepted(c, d);
  }

  /** Across an interruption some accepted chain of the same shape widens the stop. */
  lemma InterruptedWidens(c: Chain, i: nat, j: nat) returns (d: Chain)
    requires Accepted(c) && i < j < |c| && Comparable(c, i, j) && !Uninterrupted(c, i, j)
    ensures Accepted(d) && SameButPrices(c, d)
    ensures FinitePrice(d[i]) && FinitePrice(d[j]) && !Tightened(d[i], d[j])
  {
    var b := Interruption(c, i, j);
    var x, y := if c[i].decision.Long? then 100.0 else 90.0, if c[i].decision.Long? then 90.0 else 100.0;
    d := Repriced(c, b, x, y);
    RepricedIsAccepted(c, b, x, y);
    RepricedShape(c, b, x, y, i);
    RepricedShape(c, b, x, y, j);
  }

  lemma UninterruptedTightens(c: Chain, d: Chain, i: nat, j: nat)
    requires i < j < |c| && Uninterrupted(c, i, j) && Accepted(d) && SameButPrices(c, d)
    ensures FinitePrice(d[i]) && FinitePrice(d[j]) && Tightened(d[i], d[j])
  {
    StopNeverWidens(d, i, j);
  }

  /**
   Main result: between two revisions of one position the check rules out a wider stop, whatever the prices, if and
   only if the position is held, priced and uncancelled all the way.
   */
  lemma StopProtectedExactly(c: Chain, i: nat, j: nat)
    requires Accepted(c) && i < j < |c| && Comparable(c, i, j)
    ensures NeverWidens(c, i, j) <==> Uninterrupted(c, i, j)
  {
    if Uninterrupted(c, i, j) {
      forall d | Accepted(d) && SameButPrices(c, d)
        ensures FinitePrice(d[i]) && FinitePrice(d[j]) && Tightened(d[i], d[j])
      {
        UninterruptedTightens(c, d, i, j);
      }
    } else {
      var d := InterruptedWidens(c, i, j);
    }
  }
}
