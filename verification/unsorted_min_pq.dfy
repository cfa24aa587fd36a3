/**
 An extrinsic min-priority queue kept as an unsorted list of (item, priority)
 entries. Insertion appends; every query scans the list from the front.
 The queue is an immutable value here: each operation returns the new list
 instead of mutating it, and the exceptions `UnsortedCorrect` throws become `Err`
 results.
 */
module UnsortedMinPQ {

  /** One stored entry. Two entries are "the same node" when their items are equal;
      the priority takes no part in that comparison. */
  datatype Entry<T> = Entry(item: T, priority: real)

  /** The three failures the queue signals. */
  datatype Error = AlreadyContains | EmptyQueue | NotFound

  datatype Result<R> = Ok(value: R) | Err(error: Error)

  type Queue<T> = seq<Entry<T>>

  /** Some stored entry carries item `x`. */
  ghost predicate Has<T>(q: Queue<T>, x: T) {
    exists i :: 0 <= i < |q| && q[i].item == x
  }

  /** The queue invariant: no two entries share an item. */
  ghost predicate Valid<T>(q: Queue<T>) {
    forall i, j :: 0 <= i < j < |q| ==> q[i].item != q[j].item
  }

  /** Index `k` holds a minimum priority and no earlier entry ties with it:
      the entry a left-to-right scan with a strict comparison ends up on. */
  ghost predicate IsFirstMin<T>(q: Queue<T>, k: int) {
    && 0 <= k < |q|
    && (forall j :: 0 <= j < |q| ==> q[k].priority <= q[j].priority)
    && (forall j :: 0 <= j < k ==> q[k].priority < q[j].priority)
  }

  function Size<T>(q: Queue<T>): nat {
    |q|
  }

  /** Linear search on the item alone. */
  function Contains<T(==)>(q: Queue<T>, x: T): (b: bool)
    ensures b <==> Has(q, x)
  {
    if |q| == 0 then false
    else if q[0].item == x then true
    else
      var b := Contains(q[1..], x);
      assert Has(q[1..], x) ==> Has(q, x) by {
        if Has(q[1..], x) {
          var i :| 0 <= i < |q[1..]| && q[1..][i].item == x;
          assert q[i + 1].item == x;
        }
      }
      b
  }

  /** Rejects an item that is already stored, otherwise appends a new entry. */
  function Add<T(==)>(q: Queue<T>, x: T, p: real): (r: Result<Queue<T>>)
    ensures r.Err? <==> Has(q, x)
    ensures r.Err? ==> r.error == AlreadyContains
    ensures r.Ok? ==> Size(r.value) == Size(q) + 1 && r.value[..|q|] == q && r.value[|q|] == Entry(x, p)
    ensures r.Ok? && Valid(q) ==> Valid(r.value)
  {
    if Contains(q, x) then Err(AlreadyContains) else Ok(q + [Entry(x, p)])
  }

  /** The position the minimum scan selects, computed prefix by prefix: the
      scan over `q` keeps the choice made on all but the last entry unless the
      last entry's priority is strictly smaller. */
  function FirstMin<T>(q: Queue<T>): (k: nat)
    requires |q| > 0
    ensures IsFirstMin(q, k)
  {
    if |q| == 1 then 0
    else
      var init := q[..|q| - 1];
      var k := FirstMin(init);
      assert forall j :: 0 <= j < |init| ==> init[j] == q[j];
      if q[k].priority > q[|q| - 1].priority then |q| - 1 else k
  }

  /** The scan loop itself: start from entry 0 and move to entry `i` only on a
      strict improvement. */
  method MinIndex<T>(q: Queue<T>) returns (k: nat)
    requires |q| > 0
    ensures IsFirstMin(q, k)
    ensures k == FirstMin(q)
  {
    var best := q[0].priority;
    k := 0;
    var i := 0;
    while i < |q|
      invariant 0 <= i <= |q|
      invariant k < |q| && best == q[k].priority
      invariant k < i || k == 0
      invariant forall j :: 0 <= j < i ==> best <= q[j].priority
      invariant forall j :: 0 <= j < k ==> best < q[j].priority
    {
      if best > q[i].priority {
        best := q[i].priority;
        k := i;
      }
      i := i + 1;
    }
    FirstMinUnique(q, k, FirstMin(q));
  }

  /** At most one index is the first minimum. */
  lemma FirstMinUnique<T>(q: Queue<T>, k1: int, k2: int)
    requires IsFirstMin(q, k1) && IsFirstMin(q, k2)
    ensures k1 == k2
  {
    assert q[k1].priority == q[k2].priority;
  }

  /** The item of the first entry with the least priority; the queue is not changed. */
  function PeekMin<T>(q: Queue<T>): (r: Result<T>)
    ensures r.Err? <==> |q| == 0
    ensures r.Err? ==> r.error == EmptyQueue
    ensures r.Ok? ==> exists k :: IsFirstMin(q, k) && q[k].item == r.value
  {
    if |q| == 0 then Err(EmptyQueue) else Ok(q[FirstMin(q)].item)
  }

  /** `q` without its entry at `k`, the others kept in order. */
  function Delete<T>(q: Queue<T>, k: nat): (r: Queue<T>)
    requires k < |q|
    ensures |r| == |q| - 1
    ensures forall j :: 0 <= j < k ==> r[j] == q[j]
    ensures forall j :: k <= j < |r| ==> r[j] == q[j + 1]
  {
    q[..k] + q[k + 1..]
  }

  /** Removes the entry `PeekMin` selects and returns its item with the rest of the queue. */
  function RemoveMin<T>(q: Queue<T>): (r: Result<(T, Queue<T>)>)
    ensures r.Err? <==> |q| == 0
    ensures r.Err? ==> r.error == EmptyQueue
    ensures r.Ok? ==> exists k :: IsFirstMin(q, k) && r.value.0 == q[k].item && r.value.1 == Delete(q, k)
    ensures r.Ok? ==> Size(r.value.1) == Size(q) - 1
    ensures r.Ok? && Valid(q) ==> Valid(r.value.1) && !Has(r.value.1, r.value.0)
  {
    if |q| == 0 then Err(EmptyQueue)
    else
      var k := FirstMin(q);
      var rest := Delete(q, k);
      assert Valid(q) ==> forall j :: 0 <= j < |rest| ==> rest[j].item != q[k].item by {
        if Valid(q) {
          forall j | 0 <= j < |rest|
            ensures rest[j].item != q[k].item
          {
            if j < k {
              assert rest[j] == q[j];
            } else {
              assert rest[j] == q[j + 1];
            }
          }
        }
      }
      Ok((q[k].item, rest))
  }

  /** Index of the first entry whose item is `x`. */
  function IndexOf<T(==)>(q: Queue<T>, x: T): (i: nat)
    requires Has(q, x)
    ensures i < |q| && q[i].item == x
    ensures forall j :: 0 <= j < i ==> q[j].item != x
  {
    if q[0].item == x then 0
    else
      assert Has(q[1..], x) by {
        var i :| 0 <= i < |q| && q[i].item == x;
        assert q[1..][i - 1].item == x;
      }
      1 + IndexOf(q[1..], x)
  }

  /** The priority stored with `x`, read through its first entry. */
  function PriorityOf<T(==)>(q: Queue<T>, x: T): real
    requires Has(q, x)
  {
    q[IndexOf(q, x)].priority
  }

  /** Overwrites the priority of the first entry holding `x` and stops there. */
  function SetPriority<T(==)>(q: Queue<T>, x: T, p: real): (r: Queue<T>)
    ensures |r| == |q|
    ensures forall j :: 0 <= j < |q| ==> r[j].item == q[j].item
    ensures Has(q, x) ==> r[IndexOf(q, x)].priority == p
    ensures Has(q, x) ==> forall j :: 0 <= j < |q| && j != IndexOf(q, x) ==> r[j] == q[j]
    ensures !Has(q, x) ==> r == q
  {
    if |q| == 0 then []
    else if q[0].item == x then [q[0].(priority := p)] + q[1..]
    else
      assert Has(q, x) <==> Has(q[1..], x) by {
        if Has(q, x) {
          var i :| 0 <= i < |q| && q[i].item == x;
          assert q[1..][i - 1].item == x;
        }
        if Has(q[1..], x) {
          var i :| 0 <= i < |q[1..]| && q[1..][i].item == x;
          assert q[i + 1].item == x;
        }
      }
      [q[0]] + SetPriority(q[1..], x, p)
  }

  /** Fails when `x` is absent; otherwise gives the matching entry priority `p`. */
  function ChangePriority<T(==)>(q: Queue<T>, x: T, p: real): (r: Result<Queue<T>>)
    ensures r.Err? <==> !Has(q, x)
    ensures r.Err? ==> r.error == NotFound
    ensures r.Ok? ==> Size(r.value) == Size(q)
    ensures r.Ok? ==> forall j :: 0 <= j < |q| ==> r.value[j].item == q[j].item
    ensures r.Ok? ==> r.value[IndexOf(q, x)].priority == p
    ensures r.Ok? ==> forall j :: 0 <= j < |q| && j != IndexOf(q, x) ==> r.value[j].priority == q[j].priority
    ensures r.Ok? && Valid(q) ==> Valid(r.value)
  {
    if !Contains(q, x) then Err(NotFound) else Ok(SetPriority(q, x, p))
  }

  /** Two queues holding the same items in the same places locate every item at the same index. */
  lemma {:induction false} SameItemsSameIndex<T>(q: Queue<T>, r: Queue<T>, y: T)
    requires |q| == |r|
    requires forall j :: 0 <= j < |q| ==> r[j].item == q[j].item
    requires Has(q, y)
    ensures Has(r, y) && IndexOf(r, y) == IndexOf(q, y)
  {
    var i := IndexOf(q, y);
    assert r[i].item == y;
    var i' := IndexOf(r, y);
    assert q[i'].item == y;
  }

  /** After a successful change, `x` reads back priority `p` and every other stored item keeps its priority. */
  lemma ChangePriorityEffect<T>(q: Queue<T>, x: T, p: real)
    requires Has(q, x)
    ensures ChangePriority(q, x, p).Ok?
    ensures PriorityOf(ChangePriority(q, x, p).value, x) == p
    ensures forall y :: Has(q, y) && y != x ==>
      Has(ChangePriority(q, x, p).value, y) && PriorityOf(ChangePriority(q, x, p).value, y) == PriorityOf(q, y)
  {
    var r := ChangePriority(q, x, p).value;
    SameItemsSameIndex(q, r, x);
    forall y | Has(q, y) && y != x
      ensures Has(r, y) && PriorityOf(r, y) == PriorityOf(q, y)
    {
      SameItemsSameIndex(q, r, y);
    }
  }

  /** Lowering an item below every other stored priority makes it the next minimum. */
  lemma ChangeToLowestThenPeek<T>(q: Queue<T>, x: T, p: real)
    requires Valid(q) && Has(q, x)
    requires forall j :: 0 <= j < |q| && q[j].item != x ==> p < q[j].priority
    ensures ChangePriority(q, x, p).Ok?
    ensures PeekMin(ChangePriority(q, x, p).value) == Ok(x)
  {
    var r := ChangePriority(q, x, p).value;
    var k := IndexOf(q, x);
    assert IsFirstMin(r, k) by {
      forall j | 0 <= j < |r| && j != k
        ensures p < r[j].priority
      {
        assert q[j].item != x;
      }
    }
    FirstMinUnique(r, k, FirstMin(r));
  }

  /** `removeMin` hands back exactly the item `peekMin` would have returned. */
  lemma RemoveMinAgreesWithPeekMin<T>(q: Queue<T>)
    requires |q| > 0
    ensures RemoveMin(q).Ok? && PeekMin(q).Ok?
    ensures RemoveMin(q).value.0 == PeekMin(q).value
  {
  }

  /** After a successful `add`, the item is stored, under the given priority. */
  lemma AddThenContains<T>(q: Queue<T>, x: T, p: real)
    requires !Has(q, x)
    ensures Add(q, x, p).Ok?
    ensures Contains(Add(q, x, p).value, x) && PriorityOf(Add(q, x, p).value, x) == p
  {
    var r := Add(q, x, p).value;
    assert r[|q|].item == x;
    forall j | 0 <= j < |q|
      ensures r[j].item != x
    {
      assert r[j] == q[j];
    }
  }

  /** Adding an item with a priority strictly below every stored one and then
      removing the minimum gives back that item and the original queue. */
  lemma AddThenRemoveMin<T>(q: Queue<T>, x: T, p: real)
    requires !Has(q, x)
    requires forall j :: 0 <= j < |q| ==> p < q[j].priority
    ensures Add(q, x, p).Ok?
    ensures RemoveMin(Add(q, x, p).value) == Ok((x, q))
  {
    var r := Add(q, x, p).value;
    assert IsFirstMin(r, |q|) by {
      forall j | 0 <= j < |q|
        ensures r[|q|].priority < r[j].priority
      {
        assert r[j] == q[j];
      }
    }
    FirstMinUnique(r, |q|, FirstMin(r));
    assert Delete(r, |q|) == q;
  }

  /** Adds every pair of `xs` in turn, stopping at the first rejection. */
  function AddAll<T(==)>(q: Queue<T>, xs: seq<(T, real)>): Result<Queue<T>>
    decreases |xs|
  {
    if |xs| == 0 then Ok(q)
    else
      match Add(q, xs[0].0, xs[0].1)
      case Err(e) => Err(e)
      case Ok(q') => AddAll(q', xs[1..])
  }

  /** Adding fresh, pairwise distinct items never fails and grows the size by one per item. */
  lemma {:induction false} AddAllSize<T>(q: Queue<T>, xs: seq<(T, real)>)
    requires forall i, j :: 0 <= i < j < |xs| ==> xs[i].0 != xs[j].0
    requires forall i :: 0 <= i < |xs| ==> !Has(q, xs[i].0)
    ensures AddAll(q, xs).Ok?
    ensures Size(AddAll(q, xs).value) == Size(q) + |xs|
    decreases |xs|
  {
    if |xs| > 0 {
      var q' := Add(q, xs[0].0, xs[0].1).value;
      var rest := xs[1..];
      forall i | 0 <= i < |rest|
        ensures !Has(q', rest[i].0)
      {
        assert rest[i] == xs[i + 1];
      }
      AddAllSize(q', rest);
    }
  }
}
