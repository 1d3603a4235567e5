/**
 * The allocation table: a key-value store keyed by the `Cidr` string whose items
 * carry the owning `StackId`, with a secondary index by `StackId`.
 *
 * Every store call may raise (the store is unreachable or rejects the request).
 * `failsAt` fixes which call of the invocation raises, if any: calls are numbered
 * from 0 and `calls` counts those made so far. A call that raises changes nothing.
 */
module AllocationTable {
  import opened Wrappers
  import opened Collections

  type Cidr = string
  type StackId = string

  /** The raising call, if there is one, is among the calls numbered `from` to `to - 1`. */
  predicate Raised(failsAt: Option<nat>, from: nat, to: nat)
  {
    failsAt.Some? && from <= failsAt.value < to
  }

  /** Consecutive runs of calls: the whole run raised iff one of its parts did. */
  lemma RaisedSplit(failsAt: Option<nat>, from: nat, mid: nat, to: nat)
    requires from <= mid <= to
    ensures Raised(failsAt, from, to) <==> Raised(failsAt, from, mid) || Raised(failsAt, mid, to)
  {
  }

  /** The keys recorded against `stack`: what a query of the StackId index returns. */
  function Owned<K, V(==)>(items: map<K, V>, stack: V): (r: set<K>)
    ensures r <= items.Keys
  {
    set k | k in items && items[k] == stack
  }

  /** The table once every entry of `stack` is deleted. */
  function WithoutStack<K, V(==)>(items: map<K, V>, stack: V): (r: map<K, V>)
    ensures Within(r, items)
    ensures Owned(r, stack) == {}
    ensures forall k :: k in items && items[k] != stack ==> k in r
  {
    map k | k in items && items[k] != stack :: items[k]
  }

  /** Deleting a stack's entries leaves every other stack's entries as they were. */
  lemma WithoutStackKeepsOthers<K, V>(items: map<K, V>, stack: V, other: V)
    requires other != stack
    ensures Owned(WithoutStack(items, stack), other) == Owned(items, other)
  {
  }

  /** Deleting twice is deleting once. */
  lemma WithoutStackIdempotent<K, V>(items: map<K, V>, stack: V)
    ensures WithoutStack(WithoutStack(items, stack), stack) == WithoutStack(items, stack)
  {
  }

  class Table {
    /** The items, keyed by Cidr; each carries the StackId that claimed it. */
    var items: map<Cidr, StackId>
    /** Number of store calls made so far in this invocation. */
    var calls: nat
    /** The number of the call that raises, if any. */
    const failsAt: Option<nat>

    constructor (contents: map<Cidr, StackId>, failsAt: Option<nat>)
      ensures items == contents && calls == 0 && this.failsAt == failsAt
    {
      items := contents;
      calls := 0;
      this.failsAt := failsAt;
    }

    /** The next call raises. */
    predicate FailsNext()
      reads this
    {
      Raised(failsAt, calls, calls + 1)
    }

    /** One of the calls made since call number `from` raised. */
    predicate FailedSince(from: nat)
      reads this
    {
      Raised(failsAt, from, calls)
    }

    /** `query(KeyConditionExpression=Key('Cidr').eq(cidr))`: the items with that exact key. */
    method QueryCidr(cidr: Cidr) returns (ok: bool, hits: seq<StackId>)
      modifies this`calls
      ensures calls == old(calls) + 1 && ok == !old(FailsNext())
      ensures ok ==> hits == if cidr in items then [items[cidr]] else []
    {
      ok := !FailsNext();
      calls := calls + 1;
      hits := if ok && cidr in items then [items[cidr]] else [];
    }

    /** `put_item`: records `cidr` against `stack`, replacing any item with that key. */
    method PutItem(cidr: Cidr, stack: StackId) returns (ok: bool)
      modifies this
      ensures calls == old(calls) + 1 && ok == !old(FailsNext())
      ensures items == if ok then old(items)[cidr := stack] else old(items)
    {
      ok := !FailsNext();
      calls := calls + 1;
      if ok {
        items := items[cidr := stack];
      }
    }

    /** `delete_item(Key={'Cidr': cidr})`: removes the item with that key, if any. */
    method DeleteItem(cidr: Cidr) returns (ok: bool)
      modifies this
      ensures calls == old(calls) + 1 && ok == !old(FailsNext())
      ensures items == if ok then old(items) - {cidr} else old(items)
    {
      ok := !FailsNext();
      calls := calls + 1;
      if ok {
        items := items - {cidr};
      }
    }

    /**
     * The keys of the items whose StackId is `stack`, each once, in an order the
     * store chooses: the scan filtered on StackId and the query of the StackId index.
     */
    method QueryStack(stack: StackId) returns (ok: bool, keys: seq<Cidr>)
      modifies this`calls
      ensures calls == old(calls) + 1 && ok == !old(FailsNext())
      ensures ok ==> Distinct(keys) && Elements(keys) == Owned(items, stack)
      ensures !ok ==> keys == []
    {
      ok := !FailsNext();
      calls := calls + 1;
      keys := [];
      if !ok {
        return;
      }
      var rest := Owned(items, stack);
      ghost var owned := rest;
      while rest != {}
        invariant calls == old(calls) + 1
        invariant Distinct(keys)
        invariant Elements(keys) + rest == owned
        invariant Elements(keys) !! rest
        decreases |rest|
      {
        var k :| k in rest;
        AppendFresh(keys, k);
        keys := keys + [k];
        rest := rest - {k};
      }
      assert Elements(keys) == owned;
    }
  }

  /** Deleting the next scanned key: it is still present, and the table shrinks by one. */
  lemma DeleteStep(start: map<Cidr, StackId>, items: map<Cidr, StackId>, keys: seq<Cidr>, i: nat, stack: StackId)
    requires Distinct(keys) && i < |keys| && Elements(keys) == Owned(start, stack)
    requires items == start - Elements(keys[..i]) && |items| == |start| - i
    ensures keys[i] in items
    ensures items - {keys[i]} == start - Elements(keys[..i + 1])
    ensures |items - {keys[i]}| == |start| - (i + 1)
  {
    assert keys[i] in Elements(keys);
    assert forall j :: 0 <= j < i ==> keys[..i][j] != keys[i];
    assert keys[i] !in Elements(keys[..i]);
    assert keys[..i + 1] == keys[..i] + [keys[i]];
    ElementsAppend(keys[..i], keys[i]);
    RemoveKeysThenKey(start, Elements(keys[..i]), keys[i]);
    RemoveKeyCard(items, keys[i]);
  }

  /**
   * After deleting the first `i` scanned keys, the table lies between the table
   * without the stack and the starting table, and is the former once all are deleted.
   */
  lemma DeletedPrefix(start: map<Cidr, StackId>, keys: seq<Cidr>, i: nat, stack: StackId)
    requires i <= |keys| && Elements(keys) == Owned(start, stack)
    ensures Within(WithoutStack(start, stack), start - Elements(keys[..i]))
    ensures Within(start - Elements(keys[..i]), start)
    ensures i == |keys| ==> start - Elements(keys[..i]) == WithoutStack(start, stack)
  {
    assert Elements(keys[..i]) <= Elements(keys);
    if i == |keys| {
      assert keys[..i] == keys;
    }
  }

  /**
   * The deletion loop: lists the stack's items (`keys`, in the scan's order),
   * then deletes them one at a time. A raising call stops the loop: a raising
   * scan deletes nothing, and a raising delete_item leaves the items deleted
   * before it deleted.
   */
  method DeleteOwnedBy(table: Table, stack: StackId) returns (ok: bool, keys: seq<Cidr>)
    modifies table
    ensures table.calls >= old(table.calls)
    ensures ok == !table.FailedSince(old(table.calls))
    ensures Distinct(keys) && Elements(keys) <= Owned(old(table.items), stack)
    ensures !old(table.FailsNext()) ==> Elements(keys) == Owned(old(table.items), stack)
    ensures ok ==> table.items == WithoutStack(old(table.items), stack)
    ensures Within(WithoutStack(old(table.items), stack), table.items)
    ensures Within(table.items, old(table.items))
    ensures !ok && table.failsAt.value == old(table.calls) ==> table.items == old(table.items)
    ensures !ok && table.failsAt.value > old(table.calls) ==>
              && table.failsAt.value - old(table.calls) - 1 < |keys|
              && table.items == old(table.items) - Elements(keys[..table.failsAt.value - old(table.calls) - 1])
              && |table.items| == |old(table.items)| - (table.failsAt.value - old(table.calls) - 1)
  {
    ok, keys := table.QueryStack(stack);
    if !ok {
      return;
    }
    ghost var start := old(table.items);
    assert keys[..0] == [];
    var i := 0;
    while i < |keys|
      invariant 0 <= i <= |keys|
      invariant table.calls == old(table.calls) + 1 + i && !table.FailedSince(old(table.calls))
      invariant table.items == start - Elements(keys[..i])
      invariant |table.items| == |start| - i
    {
      ghost var before := table.calls;
      DeleteStep(start, table.items, keys, i, stack);
      ok := table.DeleteItem(keys[i]);
      RaisedSplit(table.failsAt, old(table.calls), before, table.calls);
      if !ok {
        DeletedPrefix(start, keys, i, stack);
        assert table.failsAt.value - old(table.calls) - 1 == i;
        return;
      }
      i := i + 1;
    }
    DeletedPrefix(start, keys, i, stack);
  }
}
