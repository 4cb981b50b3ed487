/** The memory store (services/storage.ts): an object store keyed by `id`,
    written with `put` (insert or replace) and `delete`, and read back in
    full, newest date first. Opening the database and its asynchronous
    requests are not modelled; their failures are parameters. */
module Storage {
  import opened Wrappers
  import opened Types

  /** Ordered by date, non-increasing: the `getAll` comparator `b - a`. */
  predicate NewestFirst(items: seq<MemoryItem>) {
    forall i, j :: 0 <= i < j < |items| ==> items[i].date >= items[j].date
  }

  /** Every entry is stored under its own id, as the store's key path says. */
  ghost predicate KeyedById(m: map<string, MemoryItem>) {
    forall id :: id in m ==> m[id].id == id
  }

  /** Entries under different keys are different items, so the store holds
      as many distinct items as it has keys. */
  lemma {:induction false} KeyedValuesCount(m: map<string, MemoryItem>)
    requires KeyedById(m)
    ensures |m.Values| == |m.Keys|
    decreases |m.Keys|
  {
    if m.Keys != {} {
      var k :| k in m.Keys;
      var rest := m - {k};
      KeyedValuesCount(rest);
      assert rest.Keys == m.Keys - {k};
      assert rest.Values == m.Values - {m[k]} by {
        forall v | v in rest.Values ensures v != m[k] {
          var id :| id in rest && rest[id] == v;
          assert v.id == id && m[k].id == k;
        }
        forall v | v in m.Values && v != m[k] ensures v in rest.Values {
          var id :| id in m && m[id] == v;
          assert id != k;
          assert rest[id] == v;
        }
      }
    }
  }

  class MemoryStore {
    var items: map<string, MemoryItem>

    ghost predicate Valid()
      reads this
    {
      KeyedById(items)
    }

    constructor ()
      ensures Valid() && items == map[]
    {
      items := map[];
    }

    /** `storageService.add(item)`: `put`, which inserts or replaces. On a
        failed request the store is unchanged and the promise rejects. */
    method Add(item: MemoryItem, fault: Option<JsError>) returns (r: Result<(), JsError>)
      requires Valid()
      modifies this
      ensures Valid()
      ensures fault.None? ==> r == Success(()) && items == old(items)[item.id := item]
      ensures fault.None? ==> |items| == if item.id in old(items) then |old(items)| else |old(items)| + 1
      ensures fault.Some? ==> r == Failure(fault.value) && items == old(items)
    {
      if fault.Some? {
        return Failure(fault.value);
      }
      items := items[item.id := item];
      return Success(());
    }

    /** `storageService.delete(id)`: the one key is gone, the rest is as it was. */
    method Delete(id: string, fault: Option<JsError>) returns (r: Result<(), JsError>)
      requires Valid()
      modifies this
      ensures Valid()
      ensures fault.None? ==> r == Success(()) && items == old(items) - {id}
      ensures fault.Some? ==> r == Failure(fault.value) && items == old(items)
    {
      if fault.Some? {
        return Failure(fault.value);
      }
      items := items - {id};
      return Success(());
    }

    /** `storageService.getAll()`: every stored item once, newest first. A
        database that fails to open gives the empty list; a failed read
        request rejects, because the promise is returned without `await`
        and so escapes the `try`. */
    method GetAll(openFault: Option<JsError>, requestFault: Option<JsError>)
      returns (r: Result<seq<MemoryItem>, JsError>)
      requires Valid()
      ensures openFault.Some? ==> r == Success([])
      ensures openFault.None? && requestFault.Some? ==> r == Failure(requestFault.value)
      ensures openFault.None? && requestFault.None? ==>
        && r.Success?
        && multiset(r.value) == multiset(items.Values)
        && |r.value| == |items|
        && NewestFirst(r.value)
    {
      if openFault.Some? {
        return Success([]);
      }
      if requestFault.Some? {
        return Failure(requestFault.value);
      }
      var remaining := items.Values;
      var results: seq<MemoryItem> := [];
      while remaining != {}
        invariant remaining <= items.Values
        invariant multiset(results) + multiset(remaining) == multiset(items.Values)
        decreases |remaining|
      {
        var v :| v in remaining;
        results := results + [v];
        remaining := remaining - {v};
      }
      var sorted := new MemoryItem[|results|](i requires 0 <= i < |results| => results[i]);
      assert sorted[..] == results;
      SortNewestFirst(sorted);
      KeyedValuesCount(items);
      assert |multiset(sorted[..])| == |multiset(items.Values)|;
      return Success(sorted[..]);
    }
  }

  /** `results.sort((a, b) => b.date - a.date)`, in place: newest first, and
      a permutation of what was there. */
  method SortNewestFirst(a: array<MemoryItem>)
    modifies a
    ensures NewestFirst(a[..])
    ensures multiset(a[..]) == old(multiset(a[..]))
  {
    var i := 0;
    while i < a.Length
      invariant 0 <= i <= a.Length
      invariant NewestFirst(a[..i])
      invariant multiset(a[..]) == old(multiset(a[..]))
    {
      InsertNewestFirst(a, i);
      i := i + 1;
    }
    assert a[..] == a[..i];
  }

  /** One insertion step: the item at `i` moves left past every older item,
      so the first `i + 1` items become ordered. */
  method InsertNewestFirst(a: array<MemoryItem>, i: nat)
    requires i < a.Length && NewestFirst(a[..i])
    modifies a
    ensures NewestFirst(a[..i + 1])
    ensures multiset(a[..]) == old(multiset(a[..]))
  {
    var j := i;
    while j > 0 && a[j - 1].date < a[j].date
      invariant 0 <= j <= i
      invariant forall x, y :: 0 <= x < y <= i && x != j && y != j ==> a[x].date >= a[y].date
      invariant forall y :: j < y <= i ==> a[j].date > a[y].date
      invariant multiset(a[..]) == old(multiset(a[..]))
    {
      SwapWithPrevious(a, j);
      j := j - 1;
    }
  }

  /** Exchanges the items at `j - 1` and `j`. */
  method SwapWithPrevious(a: array<MemoryItem>, j: nat)
    requires 0 < j < a.Length
    modifies a
    ensures a[j - 1] == old(a[j]) && a[j] == old(a[j - 1])
    ensures forall k :: 0 <= k < a.Length && k != j - 1 && k != j ==> a[k] == old(a[k])
    ensures multiset(a[..]) == old(multiset(a[..]))
  {
    a[j - 1], a[j] := a[j], a[j - 1];
  }
}
