/** Outcome types and finite sums that several components share. */
module Common {

  datatype Option<+T> = None | Some(value: T)

  datatype Result<+T, +E> = Ok(value: T) | Err(error: E)

  /** Some key of a non-empty map; which one is not specified. */
  ghost function AnyKey<K, V>(m: map<K, V>): (k: K)
    requires m != map[]
    ensures k in m
  {
    var k :| k in m; k
  }

  /** The sum of the values of a finite map. */
  ghost function Sum<K>(m: map<K, int>): int
    decreases |m|
  {
    if m == map[] then 0
    else
      var k := AnyKey(m);
      m[k] + Sum(m - {k})
  }

  /** The sum does not depend on the order in which keys are taken out. */
  lemma {:induction false} SumTakeOut<K>(m: map<K, int>, k: K)
    requires k in m
    ensures Sum(m) == m[k] + Sum(m - {k})
    decreases |m|
  {
    var first := AnyKey(m);
    if first != k {
      var rest := m - {first};
      SumTakeOut(rest, k);
      assert rest - {k} == (m - {k}) - {first};
      SumTakeOut(m - {k}, first);
    }
  }

  /** Writing one key changes the sum by the difference at that key. */
  lemma SumUpdate<K>(m: map<K, int>, k: K, v: int)
    ensures Sum(m[k := v]) == Sum(m) + v - (if k in m then m[k] else 0)
  {
    var after := m[k := v];
    SumTakeOut(after, k);
    if k in m {
      SumTakeOut(m, k);
      assert after - {k} == m - {k};
    } else {
      assert after - {k} == m;
    }
  }

  /** Removing a key that may be absent. */
  lemma SumRemove<K>(m: map<K, int>, k: K)
    ensures Sum(m - {k}) == Sum(m) - (if k in m then m[k] else 0)
  {
    if k in m {
      SumTakeOut(m, k);
    } else {
      assert m - {k} == m;
    }
  }

  lemma SumEmpty<K>(m: map<K, int>)
    requires m == map[]
    ensures Sum(m) == 0
  {
  }

  lemma {:induction false} SumDisjoint<K>(whole: map<K, int>, left: map<K, int>, right: map<K, int>)
    requires left.Keys !! right.Keys && whole == left + right
    ensures Sum(whole) == Sum(left) + Sum(right)
    decreases |right|
  {
    hide Sum;
    if right == map[] {
      SumEmpty(right);
      assert whole == left;
    } else {
      var k := AnyKey(right);
      SumTakeOut(whole, k);
      SumTakeOut(right, k);
      TakeOutRight(left, right, k);
      SumDisjoint(whole - {k}, left, right - {k});
    }
  }

  lemma TakeOutRight<K>(left: map<K, int>, right: map<K, int>, k: K)
    requires left.Keys !! right.Keys && k in right
    ensures (left + right) - {k} == left + (right - {k})
  {
  }

  /** A sum of bounded values is bounded by their number. */
  lemma {:induction false} SumBounded<K>(m: map<K, int>, bound: nat)
    requires forall k :: k in m ==> m[k] <= bound
    ensures Sum(m) <= |m| * bound
    decreases |m|
  {
    if m == map[] {
    } else {
      var k := AnyKey(m);
      SumBounded(m - {k}, bound);
      assert (m - {k}).Keys == m.Keys - {k};
      assert |m| * bound == |m - {k}| * bound + bound;
    }
  }

  lemma MulMonotone(a: int, b: int, n: nat)
    requires a <= b
    ensures a * n <= b * n
  {
  }

  lemma MulStep(n: nat, x: int)
    requires n >= 1
    ensures n * x == (n - 1) * x + x
  {
  }

  lemma {:induction false} SumNonNegative<K>(m: map<K, int>)
    requires forall k :: k in m ==> m[k] >= 0
    ensures Sum(m) >= 0
    decreases |m|
  {
    if m == map[] {
    } else {
      SumNonNegative(m - {AnyKey(m)});
    }
  }

  /** Pointwise comparison: a map whose keys and values are dominated has the smaller sum. */
  lemma {:induction false} SumMonotone<K>(small: map<K, int>, big: map<K, int>)
    requires forall k :: k in small ==> k in big && small[k] <= big[k]
    requires forall k :: k in big ==> big[k] >= 0
    ensures Sum(small) <= Sum(big)
    decreases |big|
  {
    if big == map[] {
      assert small == map[];
    } else {
      var k := AnyKey(big);
      SumRemove(small, k);
      SumMonotone(small - {k}, big - {k});
    }
  }

  // ---------- finite sets of integers ----------

  /** The n integers from `low` on. */
  function Range(low: int, n: nat): (s: set<int>)
    ensures forall i :: i in s <==> low <= i < low + n
    ensures |s| == n
  {
    if n == 0 then {} else Range(low, n - 1) + {low + n - 1}
  }

  lemma SubsetSize<T>(a: set<T>, b: set<T>)
    requires a <= b
    ensures |a| <= |b|
  {
    assert b == a + (b - a);
  }

  /** A set of integers that lies between two bounds has no more elements than they allow. */
  lemma FitsRange(s: set<int>, low: int, n: nat)
    requires forall i :: i in s ==> low <= i < low + n
    ensures |s| <= n
  {
    SubsetSize(s, Range(low, n));
  }

  // ---------- quotients ----------

  lemma MulAtLeast(d: int, n: nat)
    ensures d >= 1 ==> d * n >= n
    ensures d <= -1 ==> d * n + n <= 0
  {
  }

  /** Quotient and remainder are determined by what they are for. */
  lemma DivModUnique(m: int, n: nat, q: int, r: int)
    requires n > 0 && m == q * n + r && 0 <= r < n
    ensures m / n == q && m % n == r
  {
    var d := m / n - q;
    assert d * n == r - m % n;
    MulAtLeast(d, n);
  }
}
