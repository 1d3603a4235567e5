/**
 * The allocation loop of both handlers as a function over the table: walk the
 * candidate keys in order, stop once `need` blocks are claimed, skip a reserved
 * key, skip a key already in the table, and otherwise record it against the stack.
 */
module ClaimPlan {
  import opened Collections
  import opened AllocationTable

  function Min(a: nat, b: nat): nat
  {
    if a <= b then a else b
  }

  /** A candidate the loop claims: not reserved and not yet in the table. */
  predicate IsFree<K, V>(k: K, reserved: seq<K>, items: map<K, V>): (r: bool)
    ensures r <==> (forall i :: 0 <= i < |reserved| ==> reserved[i] != k) && k !in items
  {
    k !in reserved && k !in items
  }

  /** The table after the loop has claimed up to `need` of `keys` for `stack`. */
  function Plan<K, V>(keys: seq<K>, reserved: seq<K>, items: map<K, V>, stack: V, need: nat)
    : (r: map<K, V>)
    ensures |items| <= |r| <= |items| + need
    decreases |keys|
  {
    if |keys| == 0 || need == 0 then items
    else if keys[0] in reserved then Plan(keys[1..], reserved, items, stack, need)
    else if keys[0] in items then Plan(keys[1..], reserved, items, stack, need)
    else Plan(keys[1..], reserved, items[keys[0] := stack], stack, need - 1)
  }

  /** The free candidates, in candidate order. */
  function Free<K, V>(keys: seq<K>, reserved: seq<K>, items: map<K, V>): (r: seq<K>)
    ensures forall i :: 0 <= i < |r| ==> r[i] in keys && IsFree(r[i], reserved, items)
    ensures forall i :: 0 <= i < |keys| && IsFree(keys[i], reserved, items) ==> keys[i] in r
    decreases |keys|
  {
    if |keys| == 0 then []
    else (if IsFree(keys[0], reserved, items) then [keys[0]] else []) + Free(keys[1..], reserved, items)
  }

  /** The keys present after but not before. */
  function NewKeys<K, V>(before: map<K, V>, after: map<K, V>): set<K>
  {
    after.Keys - before.Keys
  }

  /**
   * `after` keeps every entry of `before` unchanged, and every entry it adds is a
   * non-reserved candidate recorded against `stack`.
   */
  ghost predicate Claimed<K, V>(before: map<K, V>, after: map<K, V>,
                          keys: seq<K>, reserved: seq<K>, stack: V)
  {
    && Within(before, after)
    && forall k :: k in after && k !in before ==> after[k] == stack && k in keys && k !in reserved
  }

  /**
   * The loop when a store call raises: `budget` store calls succeed and the next
   * one raises, ending the loop with the table as it stands. A reserved candidate
   * costs no call, the table query costs one, and put_item one more.
   */
  function PlanUntil<K, V>(keys: seq<K>, reserved: seq<K>, items: map<K, V>, stack: V, need: nat, budget: nat)
    : (r: map<K, V>)
    ensures |items| <= |r|
    decreases |keys|
  {
    if |keys| == 0 || need == 0 then items
    else if keys[0] in reserved then PlanUntil(keys[1..], reserved, items, stack, need, budget)
    else if budget == 0 then items
    else if keys[0] in items then PlanUntil(keys[1..], reserved, items, stack, need, budget - 1)
    else if budget == 1 then items
    else PlanUntil(keys[1..], reserved, items[keys[0] := stack], stack, need - 1, budget - 2)
  }

  /** Whatever an interrupted loop has recorded, the whole loop records too. */
  lemma {:induction false} PlanUntilWithinPlan<K, V>(keys: seq<K>, reserved: seq<K>, items: map<K, V>,
                                                stack: V, need: nat, budget: nat)
    ensures Within(PlanUntil(keys, reserved, items, stack, need, budget), Plan(keys, reserved, items, stack, need))
    ensures |PlanUntil(keys, reserved, items, stack, need, budget)| <= |Plan(keys, reserved, items, stack, need)|
    decreases |keys|
  {
    var cut := PlanUntil(keys, reserved, items, stack, need, budget);
    var whole := Plan(keys, reserved, items, stack, need);
    if |keys| == 0 || need == 0 {
    } else if keys[0] in reserved {
      PlanUntilWithinPlan(keys[1..], reserved, items, stack, need, budget);
    } else if budget == 0 || (keys[0] !in items && budget == 1) {
      assert cut == items;
      PlanClaims(keys, reserved, items, stack, need);
    } else if keys[0] in items {
      PlanUntilWithinPlan(keys[1..], reserved, items, stack, need, budget - 1);
    } else {
      PlanUntilWithinPlan(keys[1..], reserved, items[keys[0] := stack], stack, need - 1, budget - 2);
    }
    WithinCard(cut, whole);
  }

  /** One step of the interrupted loop at candidate i, while blocks are still needed. */
  lemma PlanUntilStep<K, V>(keys: seq<K>, i: nat, reserved: seq<K>, items: map<K, V>, stack: V,
                            need: nat, budget: nat)
    requires i < |keys| && need > 0
    ensures PlanUntil(keys[i..], reserved, items, stack, need, budget)
            == if keys[i] in reserved then PlanUntil(keys[i + 1..], reserved, items, stack, need, budget)
               else if budget == 0 then items
               else if keys[i] in items then PlanUntil(keys[i + 1..], reserved, items, stack, need, budget - 1)
               else if budget == 1 then items
               else PlanUntil(keys[i + 1..], reserved, items[keys[i] := stack], stack, need - 1, budget - 2)
  {
    assert keys[i..][0] == keys[i] && keys[i..][1..] == keys[i + 1..];
  }

  /** The loop over the first j + 1 candidates is one turn and then the loop over the next j. */
  lemma PlanPrefixStep<K, V>(keys: seq<K>, j: nat, reserved: seq<K>, items: map<K, V>, stack: V, need: nat)
    requires j < |keys| && need > 0
    ensures Plan(keys[..j + 1], reserved, items, stack, need)
            == if IsFree(keys[0], reserved, items)
               then Plan(keys[1..][..j], reserved, items[keys[0] := stack], stack, need - 1)
               else Plan(keys[1..][..j], reserved, items, stack, need)
  {
    assert keys[..j + 1][0] == keys[0] && keys[..j + 1][1..] == keys[1..][..j];
  }

  /** An interrupted loop leaves what the whole loop makes of some prefix of the candidates. */
  lemma {:induction false} PlanUntilStopsAtPrefix<K, V>(keys: seq<K>, reserved: seq<K>, items: map<K, V>,
                                                   stack: V, need: nat, budget: nat)
    ensures exists j :: 0 <= j <= |keys|
                        && PlanUntil(keys, reserved, items, stack, need, budget) == Plan(keys[..j], reserved, items, stack, need)
    decreases |keys|
  {
    var result := PlanUntil(keys, reserved, items, stack, need, budget);
    if |keys| == 0 || need == 0 || (keys[0] !in reserved && (budget == 0 || (keys[0] !in items && budget == 1))) {
      assert keys[..0] == [];
      assert result == Plan(keys[..0], reserved, items, stack, need);
    } else {
      var next := if IsFree(keys[0], reserved, items) then items[keys[0] := stack] else items;
      var need' := if IsFree(keys[0], reserved, items) then need - 1 else need;
      var budget' := if keys[0] in reserved then budget else if keys[0] in items then budget - 1 else budget - 2;
      assert result == PlanUntil(keys[1..], reserved, next, stack, need', budget');
      PlanUntilStopsAtPrefix(keys[1..], reserved, next, stack, need', budget');
      var j :| 0 <= j <= |keys[1..]| && result == Plan(keys[1..][..j], reserved, next, stack, need');
      PlanPrefixStep(keys, j, reserved, items, stack, need);
      assert result == Plan(keys[..j + 1], reserved, items, stack, need);
    }
  }

  /** One step of the loop at candidate i, while blocks are still needed. */
  lemma PlanStep<K, V>(keys: seq<K>, i: nat, reserved: seq<K>, items: map<K, V>, stack: V, need: nat)
    requires i < |keys| && need > 0
    ensures Plan(keys[i..], reserved, items, stack, need)
            == if IsFree(keys[i], reserved, items)
               then Plan(keys[i + 1..], reserved, items[keys[i] := stack], stack, need - 1)
               else Plan(keys[i + 1..], reserved, items, stack, need)
  {
    assert keys[i..][0] == keys[i] && keys[i..][1..] == keys[i + 1..];
  }

  /** Claiming one more free candidate keeps `Claimed`. */
  lemma ClaimStep<K, V>(before: map<K, V>, items: map<K, V>, keys: seq<K>,
                  reserved: seq<K>, stack: V, k: K)
    requires Claimed(before, items, keys, reserved, stack)
    requires k in keys && IsFree(k, reserved, items)
    ensures Claimed(before, items[k := stack], keys, reserved, stack)
  {
    var after := items[k := stack];
    assert Within(items, after);
    WithinTransitive(before, items, after);
    forall j | j in after && j !in before
      ensures after[j] == stack && j in keys && j !in reserved
    {
      if j != k {
        assert j in items;
      }
    }
  }

  /** The loop only adds entries, and only free candidates recorded against the stack. */
  lemma {:induction false} PlanClaims<K, V>(keys: seq<K>, reserved: seq<K>, items: map<K, V>,
                                      stack: V, need: nat)
    ensures Claimed(items, Plan(keys, reserved, items, stack, need), keys, reserved, stack)
    decreases |keys|
  {
    if |keys| > 0 && need > 0 {
      var result := Plan(keys, reserved, items, stack, need);
      if keys[0] in reserved || keys[0] in items {
        assert result == Plan(keys[1..], reserved, items, stack, need);
        PlanClaims(keys[1..], reserved, items, stack, need);
      } else {
        var k0 := keys[0];
        var next := items[k0 := stack];
        assert result == Plan(keys[1..], reserved, next, stack, need - 1);
        PlanClaims(keys[1..], reserved, next, stack, need - 1);
        WithinTransitive(items, next, result);
        forall k | k in result && k !in items
          ensures result[k] == stack && k in keys && k !in reserved
        {
          if k != k0 {
            assert k !in next;
          }
        }
      }
    }
  }

  /** The loop adds at most `need` entries. */
  lemma {:induction false} PlanBound<K, V>(keys: seq<K>, reserved: seq<K>, items: map<K, V>,
                                     stack: V, need: nat)
    ensures |Plan(keys, reserved, items, stack, need)| <= |items| + need
    decreases |keys|
  {
    if |keys| > 0 && need > 0 {
      if keys[0] in reserved || keys[0] in items {
        PlanBound(keys[1..], reserved, items, stack, need);
      } else {
        PlanBound(keys[1..], reserved, items[keys[0] := stack], stack, need - 1);
      }
    }
  }

  /** Recording a key the table lacks grows it by one. */
  lemma FreshKeyCard<K, V>(items: map<K, V>, k: K, v: V)
    requires k !in items
    ensures |items[k := v]| == |items| + 1
  {
    assert items[k := v].Keys == items.Keys + {k};
  }

  /** The loop never shrinks the table. */
  lemma PlanGrows<K, V>(keys: seq<K>, reserved: seq<K>, items: map<K, V>, stack: V, need: nat)
    ensures |Plan(keys, reserved, items, stack, need)| >= |items|
  {
    PlanClaims(keys, reserved, items, stack, need);
    NewKeysCard(items, Plan(keys, reserved, items, stack, need));
  }

  /** With nothing needed the loop changes nothing. */
  lemma PlanNeedsNothing<K, V>(keys: seq<K>, reserved: seq<K>, items: map<K, V>, stack: V)
    ensures Plan(keys, reserved, items, stack, 0) == items
  {
  }

  /** The first turn of the loop over `a + b` skips a candidate of `a` that is not free. */
  lemma PlanAppendSkip<K, V>(a: seq<K>, b: seq<K>, reserved: seq<K>, items: map<K, V>, stack: V, need: nat)
    requires |a| > 0 && need > 0 && !IsFree(a[0], reserved, items)
    ensures Plan(a, reserved, items, stack, need) == Plan(a[1..], reserved, items, stack, need)
    ensures Plan(a + b, reserved, items, stack, need) == Plan(a[1..] + b, reserved, items, stack, need)
  {
    assert (a + b)[0] == a[0] && (a + b)[1..] == a[1..] + b;
  }

  /** The first turn of the loop over `a + b` claims a free first candidate of `a`. */
  lemma PlanAppendClaim<K, V>(a: seq<K>, b: seq<K>, reserved: seq<K>, items: map<K, V>, stack: V, need: nat)
    requires |a| > 0 && need > 0 && IsFree(a[0], reserved, items)
    ensures Plan(a, reserved, items, stack, need) == Plan(a[1..], reserved, items[a[0] := stack], stack, need - 1)
    ensures Plan(a + b, reserved, items, stack, need)
            == Plan(a[1..] + b, reserved, items[a[0] := stack], stack, need - 1)
  {
    assert (a + b)[0] == a[0] && (a + b)[1..] == a[1..] + b;
  }

  /**
   * Running the loop over `a + b` is running it over `a` and then over `b` with
   * whatever is still needed: a run that stops part-way stops at a prefix.
   */
  lemma {:induction false} PlanSplit<K, V>(a: seq<K>, b: seq<K>, reserved: seq<K>, items: map<K, V>,
                                     stack: V, need: nat, claimed: nat)
    requires claimed <= need
    requires |Plan(a, reserved, items, stack, need)| == |items| + claimed
    ensures Plan(a + b, reserved, items, stack, need)
            == Plan(b, reserved, Plan(a, reserved, items, stack, need), stack, need - claimed)
    decreases |a|
  {
    if |a| == 0 {
      assert a + b == b;
    } else if need == 0 {
      PlanNeedsNothing(a + b, reserved, items, stack);
      PlanNeedsNothing(a, reserved, items, stack);
      PlanNeedsNothing(b, reserved, items, stack);
    } else if !IsFree(a[0], reserved, items) {
      PlanAppendSkip(a, b, reserved, items, stack, need);
      PlanSplit(a[1..], b, reserved, items, stack, need, claimed);
    } else {
      var next := items[a[0] := stack];
      var mid := Plan(a[1..], reserved, next, stack, need - 1);
      PlanAppendClaim(a, b, reserved, items, stack, need);
      FreshKeyCard(items, a[0], stack);
      PlanGrows(a[1..], reserved, next, stack, need - 1);
      PlanSplit(a[1..], b, reserved, next, stack, need - 1, claimed - 1);
      assert (need - 1) - (claimed - 1) == need - claimed;
      assert Plan(a[1..] + b, reserved, next, stack, need - 1) == Plan(b, reserved, mid, stack, need - claimed);
    }
  }

  /** When `after` only adds to `before`, the new keys number the difference in size. */
  lemma NewKeysCard<K, V>(before: map<K, V>, after: map<K, V>)
    requires Within(before, after)
    ensures |NewKeys(before, after)| == |after| - |before|
  {
    assert after.Keys == before.Keys + NewKeys(before, after);
    assert before.Keys * NewKeys(before, after) == {};
  }

  /** Recording a key that is not a candidate does not change which candidates are free. */
  lemma {:induction false} FreeIgnoresOtherKeys<K, V>(keys: seq<K>, reserved: seq<K>,
                                                items: map<K, V>, k: K, v: V)
    requires k !in keys
    ensures Free(keys, reserved, items[k := v]) == Free(keys, reserved, items)
    decreases |keys|
  {
    if |keys| > 0 {
      FreeIgnoresOtherKeys(keys[1..], reserved, items, k, v);
    }
  }

  /** The free candidates of distinct keys are distinct. */
  lemma {:induction false} FreeDistinct<K, V>(keys: seq<K>, reserved: seq<K>, items: map<K, V>)
    requires Distinct(keys)
    ensures Distinct(Free(keys, reserved, items))
    decreases |keys|
  {
    if |keys| > 0 {
      FreeDistinct(keys[1..], reserved, items);
      assert keys[0] !in keys[1..];
    }
  }

  /** The first `n` elements of a sequence, or all of it when shorter. */
  function Take<K>(s: seq<K>, n: nat): seq<K>
  {
    s[..Min(n, |s|)]
  }

  /** Claiming a free key adds it to whatever the rest of the loop adds. */
  lemma NewKeysAfterClaim<K, V>(items: map<K, V>, k0: K, stack: V, result: map<K, V>)
    requires k0 !in items && Within(items[k0 := stack], result)
    ensures NewKeys(items, result) == {k0} + NewKeys(items[k0 := stack], result)
  {
  }

  /**
   * When the first candidate is free, the first `need` free candidates are that
   * one and the first `need - 1` free candidates of the rest once it is recorded.
   */
  lemma TakeFreeHead<K, V>(keys: seq<K>, reserved: seq<K>, items: map<K, V>, stack: V, need: nat)
    requires Distinct(keys) && |keys| > 0 && need > 0 && IsFree(keys[0], reserved, items)
    ensures Elements(Take(Free(keys, reserved, items), need))
            == {keys[0]} + Elements(Take(Free(keys[1..], reserved, items[keys[0] := stack]), need - 1))
  {
    var rest := Free(keys[1..], reserved, items);
    assert keys[0] !in keys[1..];
    FreeIgnoresOtherKeys(keys[1..], reserved, items, keys[0], stack);
    assert Free(keys, reserved, items) == [keys[0]] + rest;
    assert Take(Free(keys, reserved, items), need) == [keys[0]] + Take(rest, need - 1);
  }

  /**
   * First free wins: over distinct candidates the loop adds exactly the first
   * `need` free candidates (all of them if there are fewer).
   */
  lemma {:induction false} PlanTakesFirstFree<K, V>(keys: seq<K>, reserved: seq<K>,
                                              items: map<K, V>, stack: V, need: nat)
    requires Distinct(keys)
    ensures NewKeys(items, Plan(keys, reserved, items, stack, need))
            == Elements(Take(Free(keys, reserved, items), need))
    decreases |keys|
  {
    if |keys| == 0 || need == 0 {
      assert Take(Free(keys, reserved, items), need) == [];
    } else if keys[0] in reserved || keys[0] in items {
      assert Free(keys, reserved, items) == Free(keys[1..], reserved, items);
      PlanTakesFirstFree(keys[1..], reserved, items, stack, need);
    } else {
      PlanTakesFirstFree(keys[1..], reserved, items[keys[0] := stack], stack, need - 1);
      FirstFreeClaimed(keys, reserved, items, stack, need);
    }
  }

  /** The claim case of PlanTakesFirstFree, given the rest of the loop takes the first free of the rest. */
  lemma FirstFreeClaimed<K, V>(keys: seq<K>, reserved: seq<K>, items: map<K, V>, stack: V, need: nat)
    requires Distinct(keys) && |keys| > 0 && need > 0 && IsFree(keys[0], reserved, items)
    requires NewKeys(items[keys[0] := stack], Plan(keys[1..], reserved, items[keys[0] := stack], stack, need - 1))
             == Elements(Take(Free(keys[1..], reserved, items[keys[0] := stack]), need - 1))
    ensures NewKeys(items, Plan(keys, reserved, items, stack, need))
            == Elements(Take(Free(keys, reserved, items), need))
  {
    var next := items[keys[0] := stack];
    var result := Plan(keys[1..], reserved, next, stack, need - 1);
    PlanClaims(keys[1..], reserved, next, stack, need - 1);
    NewKeysAfterClaim(items, keys[0], stack, result);
    TakeFreeHead(keys, reserved, items, stack, need);
  }

  /** With distinct candidates the loop adds exactly min(need, number of free candidates) entries. */
  lemma PlanCount<K, V>(keys: seq<K>, reserved: seq<K>, items: map<K, V>, stack: V, need: nat)
    requires Distinct(keys)
    ensures |NewKeys(items, Plan(keys, reserved, items, stack, need))| == Min(need, |Free(keys, reserved, items)|)
  {
    var free := Free(keys, reserved, items);
    PlanTakesFirstFree(keys, reserved, items, stack, need);
    FreeDistinct(keys, reserved, items);
    DistinctCard(Take(free, need));
  }

  /**
   * Owner uniqueness across requests: the loop gives the requesting stack exactly
   * the new entries and leaves every other stack owning what it owned.
   */
  lemma PlanOwners<K, V>(keys: seq<K>, reserved: seq<K>, items: map<K, V>, stack: V, need: nat)
    ensures Owned(Plan(keys, reserved, items, stack, need), stack)
            == Owned(items, stack) + NewKeys(items, Plan(keys, reserved, items, stack, need))
    ensures forall other :: other != stack ==>
              Owned(Plan(keys, reserved, items, stack, need), other) == Owned(items, other)
  {
    PlanClaims(keys, reserved, items, stack, need);
  }

  /** Round trip: for a stack that owned nothing, deleting its entries undoes the allocation. */
  lemma DeleteUndoesPlan<K, V>(keys: seq<K>, reserved: seq<K>, items: map<K, V>, stack: V, need: nat)
    requires Owned(items, stack) == {}
    ensures WithoutStack(Plan(keys, reserved, items, stack, need), stack) == items
  {
    PlanClaims(keys, reserved, items, stack, need);
    var after := Plan(keys, reserved, items, stack, need);
    forall k | k in items
      ensures items[k] != stack
    {
      assert k !in Owned(items, stack);
    }
  }

  /**
   * The shortfall rule for a stack that owned nothing: the read-back finds fewer
   * than `need` entries exactly when fewer than `need` candidates were free.
   */
  lemma ShortfallIffFewFree<K, V>(keys: seq<K>, reserved: seq<K>, items: map<K, V>,
                            stack: V, need: nat)
    requires Distinct(keys) && Owned(items, stack) == {}
    ensures |Owned(Plan(keys, reserved, items, stack, need), stack)| < need
            <==> |Free(keys, reserved, items)| < need
  {
    PlanOwners(keys, reserved, items, stack, need);
    PlanCount(keys, reserved, items, stack, need);
  }
}
