/** The sidecar's cooperative `mapConcurrent`: workers share one index and one result array,
    and only give up control while they await a call. */
module MapConcurrent {
  import opened Common

  /** A worker awaits its call for one item, or has found no item left. */
  datatype Worker = Busy(item: nat) | Finished

  function CountBusy(workers: seq<Worker>): (n: nat)
    ensures n <= |workers|
  {
    if workers == [] then 0
    else CountBusy(workers[..|workers| - 1]) + (if workers[|workers| - 1].Busy? then 1 else 0)
  }

  lemma {:induction false} CountUpdate(workers: seq<Worker>, w: nat, next: Worker)
    requires w < |workers|
    ensures CountBusy(workers[w := next])
         == CountBusy(workers) - (if workers[w].Busy? then 1 else 0) + (if next.Busy? then 1 else 0)
  {
    var n := |workers| - 1;
    if w < n {
      CountUpdate(workers[..n], w, next);
      assert workers[w := next][..n] == workers[..n][w := next];
    } else {
      assert workers[w := next][..n] == workers[..n];
    }
  }

  lemma {:induction false} NoneBusy(workers: seq<Worker>)
    requires forall w :: 0 <= w < |workers| ==> !workers[w].Busy?
    ensures CountBusy(workers) == 0
  {
    if workers == [] {
    } else {
      NoneBusy(workers[..|workers| - 1]);
    }
  }

  function Min(a: int, b: int): int {
    if a <= b then a else b
  }

  /** The number of workers that are started; none for a concurrency of zero or less. */
  function Workers(concurrency: int, items: nat): (n: nat)
    ensures n <= items && (concurrency >= 0 ==> n <= concurrency)
    ensures n == 0 <==> concurrency <= 0 || items == 0
  {
    var m := Min(concurrency, items);
    if m <= 0 then 0 else m
  }

  /** While the workers run: `startedBy[j]` is the worker that called `fn` for item j. Every item
      called so far has its result in place or is awaited by the worker that called it. */
  ghost predicate Consistent<T, R>(items: seq<T>, fn: T -> R, slots: seq<Option<R>>, workers: seq<Worker>,
                                   startedBy: seq<nat>)
  {
    && |slots| == |items|
    && |startedBy| <= |items|
    && (forall w :: 0 <= w < |workers| ==>
          if workers[w].Busy? then workers[w].item < |startedBy| && startedBy[workers[w].item] == w
          else |startedBy| == |items|)
    && (forall j :: 0 <= j < |startedBy| ==>
          || slots[j] == Some(fn(items[j]))
          || (startedBy[j] < |workers| && workers[startedBy[j]] == Busy(j)))
    && (forall j :: |startedBy| <= j < |items| ==> slots[j] == None)
  }

  /** A worker starts on the next item. */
  lemma StartStep<T, R>(items: seq<T>, fn: T -> R, slots: seq<Option<R>>, workers: seq<Worker>, startedBy: seq<nat>)
    requires Consistent(items, fn, slots, workers, startedBy)
    requires |startedBy| < |items|
    ensures Consistent(items, fn, slots, workers + [Busy(|startedBy|)], startedBy + [|workers|])
  {
  }

  lemma CountAppend(workers: seq<Worker>, item: nat)
    ensures CountBusy(workers + [Busy(item)]) == CountBusy(workers) + 1
  {
    assert (workers + [Busy(item)])[..|workers|] == workers;
  }

  /** A call resolves and its worker takes the next item, or finds none left. */
  lemma ResumeStep<T, R>(items: seq<T>, fn: T -> R, slots: seq<Option<R>>, workers: seq<Worker>, startedBy: seq<nat>,
                         w: nat)
    requires Consistent(items, fn, slots, workers, startedBy)
    requires w < |workers| && workers[w].Busy?
    ensures var done := workers[w].item;
            done < |items| &&
            var after := slots[done := Some(fn(items[done]))];
            if |startedBy| == |items| then
              Consistent(items, fn, after, workers[w := Finished], startedBy)
            else
              Consistent(items, fn, after, workers[w := Busy(|startedBy|)], startedBy + [w])
  {
  }

  /** With no call outstanding every called item has its result. */
  lemma AllDone<T, R>(items: seq<T>, fn: T -> R, slots: seq<Option<R>>, workers: seq<Worker>, startedBy: seq<nat>)
    requires Consistent(items, fn, slots, workers, startedBy)
    requires CountBusy(workers) == 0
    ensures workers != [] ==> |startedBy| == |items|
    ensures forall j :: 0 <= j < |startedBy| ==> slots[j] == Some(fn(items[j]))
    ensures forall j :: |startedBy| <= j < |items| ==> slots[j] == None
  {
    forall w | 0 <= w < |workers|
      ensures !workers[w].Busy?
    {
      if workers[w].Busy? {
        CountUpdate(workers, w, Finished);
      }
    }
  }

  /** Some call is outstanding. */
  lemma SomeBusy(workers: seq<Worker>) returns (w: nat)
    requires CountBusy(workers) > 0
    ensures w < |workers| && workers[w].Busy?
  {
    if forall w :: 0 <= w < |workers| ==> !workers[w].Busy? {
      NoneBusy(workers);
      assert false;
    }
    w :| w < |workers| && workers[w].Busy?;
  }

  /** Calls that resolve do so in any order: which worker resumes next is left open, so
      what is proved holds for every schedule. `calls` lists the items for which `fn` was
      called, in the order of the calls; `peak` is the greatest number of calls that were
      outstanding at once. Without a worker the results keep their holes. */
  method MapConcurrent<T, R>(items: seq<T>, concurrency: int, fn: T -> R)
    returns (results: seq<Option<R>>, calls: seq<nat>, peak: nat)
    ensures |results| == |items|
    ensures concurrency >= 1 ==> forall i :: 0 <= i < |items| ==> results[i] == Some(fn(items[i]))
    ensures concurrency <= 0 ==> forall i :: 0 <= i < |items| ==> results[i] == None
    ensures |calls| == (if concurrency >= 1 then |items| else 0)
    ensures forall k :: 0 <= k < |calls| ==> calls[k] == k
    ensures peak == Workers(concurrency, |items|)
    ensures concurrency >= 1 ==> peak == if concurrency <= |items| then concurrency else |items|
    ensures concurrency <= 0 ==> peak == 0
  {
    hide Consistent, CountBusy;
    var n, limit := |items|, Workers(concurrency, |items|);
    var slots := new Option<R>[n](_ => None);
    var index := 0;
    var workers: seq<Worker> := [];
    ghost var startedBy: seq<nat> := [];
    calls, peak := [], 0;
    Initially(items, fn, slots[..]);

    // every worker runs to its first await before any of them resumes
    while |workers| < limit
      invariant index == |workers| == |calls| == |startedBy| == peak == CountBusy(workers) <= limit
      invariant forall k :: 0 <= k < |calls| ==> calls[k] == k
      invariant Consistent(items, fn, slots[..], workers, startedBy)
    {
      StartStep(items, fn, slots[..], workers, startedBy);
      CountAppend(workers, index);
      var i := index;
      index := index + 1;
      calls := calls + [i];
      startedBy := startedBy + [|workers|];
      workers := workers + [Busy(i)];
      peak := peak + 1;
    }

    var inFlight: nat := |workers|;
    while inFlight > 0
      invariant |workers| == limit == peak && inFlight == CountBusy(workers)
      invariant |calls| == |startedBy| == Min(index, n) && limit <= index && (limit == 0 ==> index == 0)
      invariant forall k :: 0 <= k < |calls| ==> calls[k] == k
      invariant Consistent(items, fn, slots[..], workers, startedBy)
      decreases n - |calls| + inFlight
    {
      ghost var before := slots[..];
      ghost var some := SomeBusy(workers);
      var w :| 0 <= w < |workers| && workers[w].Busy?;
      ResumeStep(items, fn, before, workers, startedBy, w);
      var done := workers[w].item;
      slots[done] := Some(fn(items[done]));
      assert slots[..] == before[done := Some(fn(items[done]))];
      inFlight := inFlight - 1;
      var i := index;
      index := index + 1;
      if i >= n {
        CountUpdate(workers, w, Finished);
        workers := workers[w := Finished];
      } else {
        CountUpdate(workers, w, Busy(i));
        calls := calls + [i];
        startedBy := startedBy + [w];
        workers := workers[w := Busy(i)];
        inFlight := inFlight + 1;
        if inFlight > peak {
          peak := inFlight;
        }
      }
    }
    AllDone(items, fn, slots[..], workers, startedBy);
    results := slots[..];
  }

  lemma Initially<T, R>(items: seq<T>, fn: T -> R, slots: seq<Option<R>>)
    requires |slots| == |items| && forall j :: 0 <= j < |slots| ==> slots[j] == None
    ensures Consistent(items, fn, slots, [], [])
    ensures CountBusy([]) == 0
  {
  }
}
