/** The round-robin pool of signing keys. */
module KeyPool {
  import opened Common

  /** `usize` on the 64-bit targets the relayer is built for. */
  const USIZE: nat := 0x1_0000_0000_0000_0000

  class KeyPool {
    const keys: seq<string>
    var counter: nat

    ghost predicate Valid()
      reads this
    {
      counter < USIZE
    }

    constructor (keys: seq<string>)
      ensures Valid() && this.keys == keys && counter == 0
    {
      this.keys := keys;
      counter := 0;
    }

    /** `fetch_add` returns the old value and wraps around. */
    method FetchAdd() returns (before: nat)
      requires Valid()
      modifies this`counter
      ensures Valid() && before == old(counter) && counter == (old(counter) + 1) % USIZE
    {
      before := counter;
      counter := if counter + 1 == USIZE then 0 else counter + 1;
    }

    method NextIndex() returns (index: Option<nat>)
      requires Valid()
      modifies this`counter
      ensures Valid()
      ensures keys == [] ==> index == None && counter == old(counter)
      ensures keys != [] ==> index == Some(old(counter) % |keys|) && counter == (old(counter) + 1) % USIZE
    {
      if keys == [] {
        return None;
      }
      var before := FetchAdd();
      index := Some(before % |keys|);
    }

    method Next() returns (key: Option<string>)
      requires Valid()
      modifies this`counter
      ensures Valid()
      ensures keys == [] ==> key == None && counter == old(counter)
      ensures keys != [] ==> key == Some(keys[old(counter) % |keys|]) && counter == (old(counter) + 1) % USIZE
    {
      if keys == [] {
        return None;
      }
      var before := FetchAdd();
      key := Some(keys[before % |keys|]);
    }
  }

  /** How often index `i` is handed out by `k` calls, made by whatever threads in whatever
      order, that find the counter at `c` and do not wrap it: the calls see c, c + 1, ... */
  ghost function TimesHanded(n: nat, c: nat, k: nat, i: nat): nat
    requires n > 0
  {
    if k == 0 then 0
    else TimesHanded(n, c, k - 1, i) + (if (c + k - 1) % n == i then 1 else 0)
  }

  lemma Division(m: nat, n: nat)
    requires n > 0
    ensures m == (m / n) * n + m % n && 0 <= m % n < n
  {
  }

  /** `i` is met once in every full round, and once more if the last round got past it. */
  ghost function Met(n: nat, m: nat, i: nat): nat
    requires n > 0
  {
    m / n + (if m % n > i then 1 else 0)
  }

  lemma MetStep(n: nat, m: nat, i: nat)
    requires i < n
    ensures Met(n, m + 1, i) == Met(n, m, i) + (if m % n == i then 1 else 0)
  {
    var q, r := m / n, m % n;
    assert m == q * n + r;
    if r + 1 < n {
      DivModUnique(m + 1, n, q, r + 1);
    } else {
      assert (q + 1) * n == q * n + n;
      DivModUnique(m + 1, n, q + 1, 0);
    }
  }

  lemma {:induction false} TimesHandedIsDifference(n: nat, c: nat, k: nat, i: nat)
    requires i < n
    ensures TimesHanded(n, c, k, i) == Met(n, c + k, i) - Met(n, c, i)
  {
    if k == 0 {
    } else {
      TimesHandedIsDifference(n, c, k - 1, i);
      MetStep(n, c + k - 1, i);
    }
  }

  /** Any run of consecutive calls hands every index out floor(k/n) or ceil(k/n) times. */
  lemma Balanced(n: nat, c: nat, k: nat, i: nat)
    requires i < n
    ensures k / n <= TimesHanded(n, c, k, i) <= (k + n - 1) / n
  {
    TimesHandedIsDifference(n, c, k, i);
    var q1, r1, q2, r2 := c / n, c % n, (c + k) / n, (c + k) % n;
    Division(c, n);
    Division(c + k, n);
    RoundsBetween(n, c, k, q1, r1, q2, r2);
    assert Met(n, c + k, i) - Met(n, c, i)
        == q2 - q1 + (if r2 > i then 1 else 0) - (if r1 > i then 1 else 0);
  }

  /** The two bounds in terms of the rounds begun and the positions reached. */
  lemma RoundsBetween(n: nat, c: nat, k: nat, q1: int, r1: int, q2: int, r2: int)
    requires n > 0 && 0 <= r1 < n && 0 <= r2 < n
    requires c == q1 * n + r1 && c + k == q2 * n + r2
    ensures k / n == q2 - q1 - (if r2 < r1 then 1 else 0)
    ensures (k + n - 1) / n == q2 - q1 + (if r2 > r1 then 1 else 0)
  {
    var rounds := (q2 - q1) * n;
    assert k == rounds + r2 - r1;
    assert (q2 - q1 - 1) * n == rounds - n;
    assert (q2 - q1 + 1) * n == rounds + n;
    if r2 < r1 {
      DivModUnique(k, n, q2 - q1 - 1, r2 - r1 + n);
    } else {
      DivModUnique(k, n, q2 - q1, r2 - r1);
    }
    if r2 > r1 {
      DivModUnique(k + n - 1, n, q2 - q1 + 1, r2 - r1 - 1);
    } else {
      DivModUnique(k + n - 1, n, q2 - q1, r2 - r1 + n - 1);
    }
  }

  lemma NoneHanded(n: nat, c: nat)
    requires n > 0
    ensures forall i: nat :: i < n ==> TimesHanded(n, c, 0, i) == 0
  {
  }

  lemma CountStep(handed: seq<nat>, index: nat, n: nat, c: nat)
    requires n > 0 && index == (c + |handed|) % n
    requires forall i: nat :: i < n ==> multiset(handed)[i] == TimesHanded(n, c, |handed|, i)
    ensures forall i: nat :: i < n ==> multiset(handed + [index])[i] == TimesHanded(n, c, |handed| + 1, i)
  {
    assert multiset(handed + [index]) == multiset(handed) + multiset{index};
  }

  /** What callers of one pool are handed, one after the other as the counter serves them; `byIndex`
      says which of the two calls each makes. Before the counter wraps, every index is handed out
      floor(k/n) or ceil(k/n) times. */
  method HandOut(pool: KeyPool, byIndex: seq<bool>) returns (handed: seq<nat>, keys: seq<string>)
    requires pool.Valid() && pool.keys != [] && pool.counter + |byIndex| < USIZE
    modifies pool
    ensures pool.Valid() && |handed| == |keys| == |byIndex|
    ensures forall i :: 0 <= i < |handed| ==> handed[i] < |pool.keys| && keys[i] == pool.keys[handed[i]]
    ensures forall i :: 0 <= i < |pool.keys| ==>
              |byIndex| / |pool.keys| <= multiset(handed)[i] <= (|byIndex| + |pool.keys| - 1) / |pool.keys|
  {
    hide TimesHanded;
    ghost var c, n := pool.counter, |pool.keys|;
    handed, keys := [], [];
    NoneHanded(n, c);
    for k := 0 to |byIndex|
      invariant pool.Valid() && pool.counter == c + k && |handed| == |keys| == k
      invariant forall i :: 0 <= i < k ==> handed[i] < n && keys[i] == pool.keys[handed[i]]
      invariant forall i: nat :: i < n ==> multiset(handed)[i] == TimesHanded(n, c, k, i)
    {
      var index: nat;
      if byIndex[k] {
        var next := pool.NextIndex();
        index := next.value;
        keys := keys + [pool.keys[index]];
      } else {
        index := pool.counter % |pool.keys|;
        var key := pool.Next();
        keys := keys + [key.value];
      }
      CountStep(handed, index, n, c);
      handed := handed + [index];
    }
    forall i | 0 <= i < n
      ensures |byIndex| / n <= multiset(handed)[i] <= (|byIndex| + n - 1) / n
    {
      Balanced(n, c, |byIndex|, i);
    }
  }
}
