/**
 * The allocator that gives a stack two /24 blocks of the VPC CIDR
 * (wordpress-datacenter/custom-resources/auto-subnet.py).
 */
module WordpressSubnet {
  import opened Wrappers
  import opened Collections
  import opened AddressSpace
  import opened AllocationTable
  import opened ClaimPlan
  import opened CfnResponse

  /** number_to_allocate */
  const NumberToAllocate: nat := 2

  const AllocateFailedReason := "Failed allocate subnets"
  const DeleteFailedReason := "Failed to delete allocated subnets in DynamoDB"

  /** The positional Data fields of a successful response. */
  const PublicField1 := "AppPublicCIDR1"
  const PublicField2 := "AppPublicCIDR2"

  /**
   * cidr_is_reserved: exact membership of the CIDR string in the decoded
   * RESERVED_CIDRS list, which is empty when the variable is unset.
   */
  function CidrIsReserved(cidr: Cidr, reserved: seq<Cidr>): (r: bool)
    ensures r <==> exists i :: 0 <= i < |reserved| && reserved[i] == cidr
    ensures reserved == [] ==> !r
  {
    cidr in reserved
  }

  /** The response's PhysicalResourceId: the event's own if set and non-empty, else a fresh one. */
  function PhysicalResourceId(event: Event, uuid: string): (id: string)
    ensures event.physicalResourceId.Some? && event.physicalResourceId.value != "" ==>
              id == event.physicalResourceId.value
    ensures event.physicalResourceId.None? || event.physicalResourceId.value == "" ==>
              id == event.logicalResourceId + uuid
  {
    if event.physicalResourceId.Some? && event.physicalResourceId.value != "" then event.physicalResourceId.value
    else event.logicalResourceId + uuid
  }

  /** use_subnet: records the block against the stack. */
  method UseSubnet(table: Table, cidr: Cidr, stack: StackId) returns (ok: bool)
    modifies table
    ensures table.calls == old(table.calls) + 1 && ok == !old(table.FailsNext())
    ensures ok ==> cidr in table.items && table.items[cidr] == stack
    ensures forall k :: k != cidr ==> (k in table.items <==> k in old(table.items))
    ensures forall k :: k != cidr && k in table.items ==> table.items[k] == old(table.items)[k]
    ensures !ok ==> table.items == old(table.items)
  {
    ok := table.PutItem(cidr, stack);
  }

  /** cidr_is_in_table: whether the table holds an item with exactly this key. */
  method CidrIsInTable(table: Table, cidr: Cidr) returns (ok: bool, found: bool)
    modifies table`calls
    ensures table.calls == old(table.calls) + 1 && ok == !old(table.FailsNext())
    ensures ok ==> (found <==> cidr in table.items)
  {
    var hits;
    ok, hits := table.QueryCidr(cidr);
    found := |hits| > 0;
  }

  /**
   * delete_subnets: deletes every item of the stack; any store error reports
   * FAILED. A raising scan deletes nothing; a raising delete_item leaves the
   * items deleted before it deleted, one per returned delete_item call.
   */
  method DeleteSubnets(table: Table, stack: StackId) returns (outcome: Outcome)
    modifies table
    ensures table.calls >= old(table.calls)
    ensures outcome == if table.FailedSince(old(table.calls)) then Failed(DeleteFailedReason) else Success(map[])
    ensures outcome.Success? ==> table.items == WithoutStack(old(table.items), stack)
    ensures Within(WithoutStack(old(table.items), stack), table.items)
    ensures Within(table.items, old(table.items))
    ensures table.FailedSince(old(table.calls)) && table.failsAt.value == old(table.calls) ==>
              table.items == old(table.items)
    ensures table.FailedSince(old(table.calls)) && table.failsAt.value > old(table.calls) ==>
              |table.items| == |old(table.items)| - (table.failsAt.value - old(table.calls) - 1)
  {
    var ok, _ := DeleteOwnedBy(table, stack);
    outcome := if ok then Success(map[]) else Failed(DeleteFailedReason);
  }

  /**
   * The body of the allocation loop for one candidate: skip it if reserved, skip
   * it if already in the table, otherwise record it against the stack. `ok` is
   * false when a store call raised; `used` says whether the block was recorded.
   */
  method TrySubnet(table: Table, cidr: Cidr, stack: StackId, reserved: seq<Cidr>) returns (ok: bool, used: bool)
    modifies table
    ensures table.calls >= old(table.calls)
    ensures ok == !table.FailedSince(old(table.calls))
    ensures CidrIsReserved(cidr, reserved) ==> table.calls == old(table.calls)
    ensures !CidrIsReserved(cidr, reserved) ==>
              table.calls == old(table.calls) + if cidr in old(table.items) || old(table.FailsNext()) then 1 else 2
    ensures used ==> ok
    ensures ok ==> used == IsFree(cidr, reserved, old(table.items))
    ensures table.items == if used then old(table.items)[cidr := stack] else old(table.items)
  {
    used := false;
    if CidrIsReserved(cidr, reserved) {
      return true, false;
    }
    var found;
    ok, found := CidrIsInTable(table, cidr);
    if !ok || found {
      return;
    }
    ghost var queriedAt := table.calls;
    ok := UseSubnet(table, cidr, stack);
    RaisedSplit(table.failsAt, old(table.calls), queriedAt, table.calls);
    used := ok;
  }

  /**
   * What the read-back reports: a shortfall when the stack owns fewer than two
   * blocks, otherwise two distinct blocks of the stack in the positional fields.
   */
  ghost predicate ReportsReadBack(outcome: Outcome, items: map<Cidr, StackId>, stack: StackId): (b: bool)
    ensures b ==> (outcome.Success? <==> |Owned(items, stack)| >= NumberToAllocate)
  {
    if |Owned(items, stack)| < NumberToAllocate then
      outcome == Failed(ShortfallReason(NumberToAllocate))
    else
      && outcome.Success?
      && outcome.data.Keys == {PublicField1, PublicField2}
      && outcome.data[PublicField1] in Owned(items, stack)
      && outcome.data[PublicField2] in Owned(items, stack)
      && outcome.data[PublicField1] != outcome.data[PublicField2]
  }

  /**
   * The read-back: query the stack's blocks by the StackId index, report a
   * shortfall below two, otherwise the first two in the fixed Data fields.
   */
  method ReadBack(table: Table, stack: StackId) returns (outcome: Outcome)
    modifies table`calls
    ensures table.calls == old(table.calls) + 1
    ensures old(table.FailsNext()) ==> outcome == Failed(AllocateFailedReason)
    ensures !old(table.FailsNext()) ==> ReportsReadBack(outcome, table.items, stack)
  {
    var ok, readBack := table.QueryStack(stack);
    if !ok {
      return Failed(AllocateFailedReason);
    }
    DistinctCard(readBack);
    if |readBack| < NumberToAllocate {
      return Failed(ShortfallReason(NumberToAllocate));
    }
    outcome := Success(map[PublicField1 := readBack[0], PublicField2 := readBack[1]]);
  }

  /**
   * The allocation loop's invariant after visiting `i` candidates and claiming
   * `claimed` of them: the table grew from `start` by `claimed` entries, and it is
   * what the reference `Plan` makes of the first `i` candidates.
   */
  ghost predicate LoopProgress(start: map<Cidr, StackId>, items: map<Cidr, StackId>, candidates: seq<Cidr>,
                               reserved: seq<Cidr>, stack: StackId, i: nat, claimed: nat)
  {
    && i <= |candidates| && claimed <= NumberToAllocate
    && |items| == |start| + claimed
    && items == Plan(candidates[..i], reserved, start, stack, NumberToAllocate)
  }

  /** The loop starts with nothing visited and nothing claimed. */
  lemma LoopStarts(start: map<Cidr, StackId>, candidates: seq<Cidr>, reserved: seq<Cidr>, stack: StackId)
    ensures LoopProgress(start, start, candidates, reserved, stack, 0, 0)
  {
    assert candidates[..0] == [];
  }

  /** Once the candidates run out or two are claimed, the table is the plan's. */
  lemma LoopEnds(start: map<Cidr, StackId>, items: map<Cidr, StackId>, candidates: seq<Cidr>,
                 reserved: seq<Cidr>, stack: StackId, i: nat, claimed: nat)
    requires i <= |candidates| && claimed <= NumberToAllocate && |items| == |start| + claimed
    requires items == Plan(candidates[..i], reserved, start, stack, NumberToAllocate)
    requires i == |candidates| || claimed == NumberToAllocate
    ensures items == Plan(candidates, reserved, start, stack, NumberToAllocate)
  {
    PlanSplit(candidates[..i], candidates[i..], reserved, start, stack, NumberToAllocate, claimed);
    assert candidates[..i] + candidates[i..] == candidates;
    assert Plan(candidates[i..], reserved, items, stack, NumberToAllocate - claimed) == items;
  }

  /** The invariant bounds what the loop has added so far. */
  lemma LoopClaimed(start: map<Cidr, StackId>, items: map<Cidr, StackId>, candidates: seq<Cidr>,
                    reserved: seq<Cidr>, stack: StackId, i: nat, claimed: nat)
    requires LoopProgress(start, items, candidates, reserved, stack, i, claimed)
    ensures Claimed(start, items, candidates, reserved, stack)
    ensures |NewKeys(start, items)| == claimed <= NumberToAllocate
  {
    PlanClaims(candidates[..i], reserved, start, stack, NumberToAllocate);
    forall k | k in items && k !in start
      ensures k in candidates
    {
      var j :| 0 <= j < i && candidates[..i][j] == k;
      assert candidates[j] == k;
    }
    NewKeysCard(start, items);
  }

  /** Visiting a free candidate claims it and keeps the loop's invariant. */
  lemma LoopClaims(start: map<Cidr, StackId>, items: map<Cidr, StackId>, candidates: seq<Cidr>,
                   reserved: seq<Cidr>, stack: StackId, i: nat, claimed: nat)
    requires LoopProgress(start, items, candidates, reserved, stack, i, claimed)
    requires i < |candidates| && claimed < NumberToAllocate
    requires IsFree(candidates[i], reserved, items)
    ensures LoopProgress(start, items[candidates[i] := stack], candidates, reserved, stack, i + 1, claimed + 1)
  {
    var k := candidates[i];
    var after := items[k := stack];
    PlanSplit(candidates[..i], [k], reserved, start, stack, NumberToAllocate, claimed);
    assert candidates[..i + 1] == candidates[..i] + [k];
    assert [k][1..] == [];
    assert after.Keys == items.Keys + {k};
  }

  /** Visiting a candidate that is not free skips it and keeps the loop's invariant. */
  lemma LoopSkips(start: map<Cidr, StackId>, items: map<Cidr, StackId>, candidates: seq<Cidr>,
                  reserved: seq<Cidr>, stack: StackId, i: nat, claimed: nat)
    requires LoopProgress(start, items, candidates, reserved, stack, i, claimed)
    requires i < |candidates| && claimed < NumberToAllocate
    requires !IsFree(candidates[i], reserved, items)
    ensures LoopProgress(start, items, candidates, reserved, stack, i + 1, claimed)
  {
    var k := candidates[i];
    PlanSplit(candidates[..i], [k], reserved, start, stack, NumberToAllocate, claimed);
    assert candidates[..i + 1] == candidates[..i] + [k];
    assert [k][1..] == [];
  }

  /**
   * The allocation loop's invariant towards a store call that raises: if call
   * number `failsAt` is still ahead (counting from `from`, the call count when
   * the loop started), the interrupted run from the start is the interrupted run
   * of the remaining candidates from the table as it stands, with the calls
   * already made spent.
   */
  ghost predicate BudgetProgress(failsAt: Option<nat>, from: nat, calls: nat, start: map<Cidr, StackId>,
                                 items: map<Cidr, StackId>, candidates: seq<Cidr>, reserved: seq<Cidr>,
                                 stack: StackId, i: nat, claimed: nat)
  {
    failsAt.Some? && from <= failsAt.value ==>
      && from <= calls <= failsAt.value
      && i <= |candidates| && claimed <= NumberToAllocate
      && PlanUntil(candidates, reserved, start, stack, NumberToAllocate, failsAt.value - from)
         == PlanUntil(candidates[i..], reserved, items, stack, NumberToAllocate - claimed, failsAt.value - calls)
  }

  /** Before the first call nothing is spent. */
  lemma BudgetStarts(failsAt: Option<nat>, from: nat, start: map<Cidr, StackId>, candidates: seq<Cidr>,
                     reserved: seq<Cidr>, stack: StackId)
    ensures BudgetProgress(failsAt, from, from, start, start, candidates, reserved, stack, 0, 0)
  {
    assert candidates[0..] == candidates;
  }

  /** A candidate skipped as reserved (no call) or as already taken (one call that returned). */
  lemma BudgetSkips(failsAt: Option<nat>, from: nat, calls: nat, start: map<Cidr, StackId>,
                    items: map<Cidr, StackId>, candidates: seq<Cidr>, reserved: seq<Cidr>,
                    stack: StackId, i: nat, claimed: nat, spent: nat)
    requires BudgetProgress(failsAt, from, calls, start, items, candidates, reserved, stack, i, claimed)
    requires i < |candidates| && claimed < NumberToAllocate
    requires || (candidates[i] in reserved && spent == 0)
             || (candidates[i] !in reserved && candidates[i] in items && spent == 1
                 && !Raised(failsAt, calls, calls + 1))
    ensures BudgetProgress(failsAt, from, calls + spent, start, items, candidates, reserved, stack, i + 1, claimed)
  {
    if failsAt.Some? && from <= failsAt.value {
      PlanUntilStep(candidates, i, reserved, items, stack, NumberToAllocate - claimed, failsAt.value - calls);
    }
  }

  /** A free candidate claimed by two calls that returned. */
  lemma BudgetClaims(failsAt: Option<nat>, from: nat, calls: nat, start: map<Cidr, StackId>,
                     items: map<Cidr, StackId>, candidates: seq<Cidr>, reserved: seq<Cidr>,
                     stack: StackId, i: nat, claimed: nat)
    requires BudgetProgress(failsAt, from, calls, start, items, candidates, reserved, stack, i, claimed)
    requires i < |candidates| && claimed < NumberToAllocate
    requires IsFree(candidates[i], reserved, items) && !Raised(failsAt, calls, calls + 2)
    ensures BudgetProgress(failsAt, from, calls + 2, start, items[candidates[i] := stack], candidates, reserved,
                           stack, i + 1, claimed + 1)
  {
    if failsAt.Some? && from <= failsAt.value {
      PlanUntilStep(candidates, i, reserved, items, stack, NumberToAllocate - claimed, failsAt.value - calls);
    }
  }

  /**
   * A call for a non-reserved candidate raised: the table query, or put_item
   * for a block not in the table. The table is the interrupted run's.
   */
  lemma BudgetStops(failsAt: Option<nat>, from: nat, calls: nat, start: map<Cidr, StackId>,
                    items: map<Cidr, StackId>, candidates: seq<Cidr>, reserved: seq<Cidr>,
                    stack: StackId, i: nat, claimed: nat)
    requires BudgetProgress(failsAt, from, calls, start, items, candidates, reserved, stack, i, claimed)
    requires i < |candidates| && claimed < NumberToAllocate && from <= calls
    requires candidates[i] !in reserved
    requires Raised(failsAt, calls, calls + if candidates[i] in items then 1 else 2)
    ensures failsAt.Some? && from <= failsAt.value
    ensures items == PlanUntil(candidates, reserved, start, stack, NumberToAllocate, failsAt.value - from)
  {
    PlanUntilStep(candidates, i, reserved, items, stack, NumberToAllocate - claimed, failsAt.value - calls);
  }

  /**
   * One turn, given what the candidate's check and claim did: `before` and `after`
   * are the call counts around the turn, `ok` and `used` its results.
   */
  lemma BudgetTurn(failsAt: Option<nat>, from: nat, before: nat, after: nat, start: map<Cidr, StackId>,
                   items: map<Cidr, StackId>, candidates: seq<Cidr>, reserved: seq<Cidr>,
                   stack: StackId, i: nat, claimed: nat, ok: bool, used: bool)
    requires BudgetProgress(failsAt, from, before, start, items, candidates, reserved, stack, i, claimed)
    requires i < |candidates| && claimed < NumberToAllocate && from <= before
    requires ok == !Raised(failsAt, before, after)
    requires candidates[i] in reserved ==> after == before
    requires candidates[i] !in reserved ==>
               after == before + if candidates[i] in items || Raised(failsAt, before, before + 1) then 1 else 2
    requires used ==> ok
    requires ok ==> used == IsFree(candidates[i], reserved, items)
    ensures !ok ==> && failsAt.Some? && from <= failsAt.value
                    && items == PlanUntil(candidates, reserved, start, stack, NumberToAllocate, failsAt.value - from)
    ensures ok ==> BudgetProgress(failsAt, from, after, start, if used then items[candidates[i] := stack] else items,
                                  candidates, reserved, stack, i + 1, claimed + if used then 1 else 0)
  {
    if !ok {
      BudgetStops(failsAt, from, before, start, items, candidates, reserved, stack, i, claimed);
    } else if used {
      BudgetClaims(failsAt, from, before, start, items, candidates, reserved, stack, i, claimed);
    } else {
      BudgetSkips(failsAt, from, before, start, items, candidates, reserved, stack, i, claimed, after - before);
    }
  }

  /** Once the candidates run out or two are claimed, a later raising call finds the table as it stands. */
  lemma BudgetEnds(failsAt: Option<nat>, from: nat, calls: nat, start: map<Cidr, StackId>,
                   items: map<Cidr, StackId>, candidates: seq<Cidr>, reserved: seq<Cidr>,
                   stack: StackId, i: nat, claimed: nat)
    requires BudgetProgress(failsAt, from, calls, start, items, candidates, reserved, stack, i, claimed)
    requires i == |candidates| || claimed == NumberToAllocate
    requires failsAt.Some? && from <= calls <= failsAt.value
    ensures items == PlanUntil(candidates, reserved, start, stack, NumberToAllocate, failsAt.value - from)
  {
  }

  /** Both invariants at the loop's end give the loop's result, and what a later raising call finds. */
  lemma LoopFinishes(failsAt: Option<nat>, from: nat, calls: nat, start: map<Cidr, StackId>,
                     items: map<Cidr, StackId>, candidates: seq<Cidr>, reserved: seq<Cidr>,
                     stack: StackId, i: nat, claimed: nat)
    requires LoopProgress(start, items, candidates, reserved, stack, i, claimed)
    requires BudgetProgress(failsAt, from, calls, start, items, candidates, reserved, stack, i, claimed)
    requires i == |candidates| || claimed == NumberToAllocate
    requires from <= calls
    ensures Claimed(start, items, candidates, reserved, stack)
    ensures |NewKeys(start, items)| <= NumberToAllocate
    ensures items == Plan(candidates, reserved, start, stack, NumberToAllocate)
    ensures failsAt.Some? && calls <= failsAt.value ==>
              items == PlanUntil(candidates, reserved, start, stack, NumberToAllocate, failsAt.value - from)
  {
    LoopEnds(start, items, candidates, reserved, stack, i, claimed);
    LoopClaimed(start, items, candidates, reserved, stack, i, claimed);
    if failsAt.Some? && calls <= failsAt.value {
      BudgetEnds(failsAt, from, calls, start, items, candidates, reserved, stack, i, claimed);
    }
  }

  /**
   * One turn of the allocation loop at candidate `i`: the reserved check, the
   * table check and the claim. `from` is the call count at the start of the loop.
   */
  method VisitCandidate(table: Table, candidates: seq<Cidr>, i: nat, stack: StackId, reserved: seq<Cidr>,
                        claimed: nat, ghost start: map<Cidr, StackId>, ghost from: nat)
    returns (ok: bool, used: bool)
    requires i < |candidates| && claimed < NumberToAllocate
    requires from <= table.calls && !table.FailedSince(from)
    requires LoopProgress(start, table.items, candidates, reserved, stack, i, claimed)
    requires BudgetProgress(table.failsAt, from, table.calls, start, table.items, candidates, reserved, stack, i, claimed)
    modifies table
    ensures table.calls >= old(table.calls)
    ensures ok == !table.FailedSince(from)
    ensures !ok ==> table.items == old(table.items)
    ensures !ok ==> && Claimed(start, table.items, candidates, reserved, stack)
                    && |NewKeys(start, table.items)| <= NumberToAllocate
                    && table.items == PlanUntil(candidates, reserved, start, stack, NumberToAllocate,
                                                table.failsAt.value - from)
    ensures ok ==> LoopProgress(start, table.items, candidates, reserved, stack, i + 1,
                                claimed + if used then 1 else 0)
    ensures ok ==> BudgetProgress(table.failsAt, from, table.calls, start, table.items, candidates, reserved, stack,
                                  i + 1, claimed + if used then 1 else 0)
  {
    ghost var callsBefore := table.calls;
    ok, used := TrySubnet(table, candidates[i], stack, reserved);
    RaisedSplit(table.failsAt, from, callsBefore, table.calls);
    ghost var items := old(table.items);
    BudgetTurn(table.failsAt, from, callsBefore, table.calls, start, items, candidates, reserved, stack, i, claimed,
               ok, used);
    if ok && used {
      LoopClaims(start, items, candidates, reserved, stack, i, claimed);
    } else if ok {
      LoopSkips(start, items, candidates, reserved, stack, i, claimed);
    } else {
      LoopClaimed(start, items, candidates, reserved, stack, i, claimed);
    }
  }

  /**
   * The allocation loop over the candidates' CIDR strings, in order: claim free,
   * non-reserved ones until two are claimed. `ok` is false when a store call
   * raised; blocks claimed before that stay in the table.
   */
  method ClaimSubnets(table: Table, stack: StackId, candidates: seq<Cidr>, reserved: seq<Cidr>) returns (ok: bool)
    modifies table
    ensures table.calls >= old(table.calls)
    ensures ok == !table.FailedSince(old(table.calls))
    ensures Claimed(old(table.items), table.items, candidates, reserved, stack)
    ensures |NewKeys(old(table.items), table.items)| <= NumberToAllocate
    ensures ok ==> table.items == Plan(candidates, reserved, old(table.items), stack, NumberToAllocate)
    ensures !ok ==> table.items == PlanUntil(candidates, reserved, old(table.items), stack, NumberToAllocate,
                                             table.failsAt.value - old(table.calls))
    ensures ok && table.failsAt.Some? && table.calls <= table.failsAt.value ==>
              table.items == PlanUntil(candidates, reserved, old(table.items), stack, NumberToAllocate,
                                       table.failsAt.value - old(table.calls))
  {
    var subnetsAllocated: nat := 0;
    var i := 0;
    LoopStarts(table.items, candidates, reserved, stack);
    BudgetStarts(table.failsAt, table.calls, table.items, candidates, reserved, stack);
    while i < |candidates| && subnetsAllocated < NumberToAllocate
      decreases |candidates| - i
      invariant table.calls >= old(table.calls) && !table.FailedSince(old(table.calls))
      invariant LoopProgress(old(table.items), table.items, candidates, reserved, stack, i, subnetsAllocated)
      invariant BudgetProgress(table.failsAt, old(table.calls), table.calls, old(table.items), table.items,
                               candidates, reserved, stack, i, subnetsAllocated)
    {
      var used;
      ok, used := VisitCandidate(table, candidates, i, stack, reserved, subnetsAllocated,
                                 old(table.items), old(table.calls));
      if !ok {
        return;
      }
      subnetsAllocated := subnetsAllocated + (if used then 1 else 0);
      i := i + 1;
    }
    LoopFinishes(table.failsAt, old(table.calls), table.calls, old(table.items), table.items,
                 candidates, reserved, stack, i, subnetsAllocated);
    ok := true;
  }

  /**
   * allocate_subnets: the allocation loop, then the read-back. A store error
   * anywhere reports FAILED, without undoing the blocks already claimed.
   */
  method AllocateSubnets(table: Table, stack: StackId, parent: Network, reserved: seq<Cidr>)
    returns (outcome: Outcome)
    requires ValidParent(parent)
    modifies table
    ensures table.calls >= old(table.calls)
    ensures Claimed(old(table.items), table.items, CandidateKeys(parent), reserved, stack)
    ensures |NewKeys(old(table.items), table.items)| <= NumberToAllocate
    ensures table.FailedSince(old(table.calls)) ==>
              && outcome == Failed(AllocateFailedReason)
              && table.items == PlanUntil(CandidateKeys(parent), reserved, old(table.items), stack, NumberToAllocate,
                                          table.failsAt.value - old(table.calls))
    ensures !table.FailedSince(old(table.calls)) ==>
              && table.items == Plan(CandidateKeys(parent), reserved, old(table.items), stack, NumberToAllocate)
              && ReportsReadBack(outcome, table.items, stack)
  {
    var ok := ClaimSubnets(table, stack, CandidateKeys(parent), reserved);
    if !ok {
      return Failed(AllocateFailedReason);
    }
    ghost var claimedAt := table.calls;
    assert CandidateKeys(parent)[..|CandidateKeys(parent)|] == CandidateKeys(parent);
    outcome := ReadBack(table, stack);
    RaisedSplit(table.failsAt, old(table.calls), claimedAt, table.calls);
  }

  /**
   * handler: a Delete request deletes the stack's blocks; every other request
   * type allocates. Either way one response goes to the event's ResponseURL.
   */
  method Handler(table: Table, event: Event, parent: Network, reserved: seq<Cidr>, uuid: string)
    returns (sent: Delivery, outcome: Outcome)
    requires ValidParent(parent)
    modifies table
    ensures sent == SendResponse(event, outcome, PhysicalResourceId(event, uuid))
    ensures event.requestType == "Delete" ==>
              && outcome == (if table.FailedSince(old(table.calls)) then Failed(DeleteFailedReason) else Success(map[]))
              && Within(WithoutStack(old(table.items), event.stackId), table.items)
              && Within(table.items, old(table.items))
              && (outcome.Success? ==> table.items == WithoutStack(old(table.items), event.stackId))
              && (table.FailedSince(old(table.calls)) && table.failsAt.value == old(table.calls) ==>
                    table.items == old(table.items))
              && (table.FailedSince(old(table.calls)) && table.failsAt.value > old(table.calls) ==>
                    |table.items| == |old(table.items)| - (table.failsAt.value - old(table.calls) - 1))
    ensures event.requestType != "Delete" ==>
              && Claimed(old(table.items), table.items, CandidateKeys(parent), reserved, event.stackId)
              && |NewKeys(old(table.items), table.items)| <= NumberToAllocate
              && (table.FailedSince(old(table.calls)) ==>
                    && outcome == Failed(AllocateFailedReason)
                    && table.items == PlanUntil(CandidateKeys(parent), reserved, old(table.items), event.stackId,
                                                NumberToAllocate, table.failsAt.value - old(table.calls)))
              && (!table.FailedSince(old(table.calls)) ==>
                    && table.items == Plan(CandidateKeys(parent), reserved, old(table.items), event.stackId, NumberToAllocate)
                    && ReportsReadBack(outcome, table.items, event.stackId))
  {
    if event.requestType == "Delete" {
      outcome := DeleteSubnets(table, event.stackId);
    } else {
      outcome := AllocateSubnets(table, event.stackId, parent, reserved);
    }
    sent := SendResponse(event, outcome, PhysicalResourceId(event, uuid));
  }
}
