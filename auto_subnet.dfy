/**
 * The allocator that is meant to give a stack three /24 blocks of the VPC CIDR
 * (auto-subnet/auto-subnet.py). Its reserved check returns a 2-tuple, which
 * Python always treats as true, so the allocation loop skips every candidate
 * and never records a block; the model keeps that behaviour.
 */
module AutoSubnet {
  import opened Wrappers
  import opened Collections
  import opened AddressSpace
  import opened AllocationTable
  import opened CfnResponse

  /** number_to_allocate */
  const NumberToAllocate: nat := 3

  const DeleteFailedReason := "Failed to delete allocated subnets in DynamoDB"

  /** The positional Data fields of a successful response. */
  const PublicField1 := "AppPublicCIDR1"
  const PublicField2 := "AppPublicCIDR2"
  const PrivateField := "AppPrivateCIDR"

  /** The Python values the reserved check deals in. */
  datatype PyValue = PyBool(b: bool) | PyStr(s: string) | PyNone | PyTuple(elems: seq<PyValue>)

  /** Python truth testing: false, the empty string, None and the empty tuple are false. */
  predicate Truthy(v: PyValue): (b: bool)
    ensures !b <==> v == PyBool(false) || v == PyStr("") || v == PyNone || v == PyTuple([])
    ensures v.PyTuple? && |v.elems| > 0 ==> b
  {
    match v
    case PyBool(b) => b
    case PyStr(s) => s != []
    case PyNone => false
    case PyTuple(elems) => elems != []
  }

  /** The exceptions that end an invocation: `in` on None, and a failed store call outside any try. */
  datatype PyError = TypeError | StoreError

  /** os.getenv(name, None) as a Python value. */
  function FromEnv(v: Option<string>): (r: PyValue)
    ensures v.None? ==> r == PyNone
    ensures Truthy(r) <==> v.Some? && v.value != ""
  {
    if v.Some? then PyStr(v.value) else PyNone
  }

  /** `needle in hay` on two strings: substring containment. */
  function IsSubstring(needle: string, hay: string): (r: bool)
    ensures r <==> exists i :: 0 <= i <= |hay| - |needle| && hay[i..][..|needle|] == needle
    decreases |hay|
  {
    if |hay| < |needle| then false
    else if hay[..|needle|] == needle then
      assert hay[0..] == hay;
      true
    else
      assert hay[0..] == hay;
      assert forall i :: 1 <= i <= |hay| ==> hay[i..] == hay[1..][i - 1..];
      assert forall j :: 0 <= j < |hay| ==> hay[1..][j..] == hay[j + 1..];
      IsSubstring(needle, hay[1..])
  }

  /**
   * cidr_is_reserved: the 2-tuple (cidr in RESERVED_CIDR1, RESERVED_CIDR2). The
   * `in` is substring containment, and raises a TypeError when RESERVED_CIDR1 is
   * unset. Whatever its elements, the tuple is true.
   */
  function CidrIsReserved(cidr: Cidr, reserved1: Option<string>, reserved2: Option<string>): (r: Result<PyValue, PyError>)
    ensures r.Err? <==> reserved1.None?
    ensures r.Err? ==> r.error == TypeError
    ensures r.Ok? ==> Truthy(r.value)
    ensures r.Ok? ==> r.value.PyTuple? && |r.value.elems| == 2
    ensures r.Ok? ==> r.value.elems[0] == PyBool(IsSubstring(cidr, reserved1.value))
  {
    if reserved1.None? then Err(TypeError)
    else Ok(PyTuple([PyBool(IsSubstring(cidr, reserved1.value)), FromEnv(reserved2)]))
  }

  /**
   * The defect: a candidate that RESERVED_CIDR1 does not contain still gets a
   * true answer from the reserved check, whatever RESERVED_CIDR2 is.
   */
  lemma UnreservedCandidateIsSkipped(cidr: Cidr, reserved1: string, reserved2: Option<string>)
    requires !IsSubstring(cidr, reserved1)
    ensures CidrIsReserved(cidr, Some(reserved1), reserved2) == Ok(PyTuple([PyBool(false), FromEnv(reserved2)]))
    ensures Truthy(CidrIsReserved(cidr, Some(reserved1), reserved2).value)
  {
  }

  /** An instance: the second /24 of 10.0.0.0/16 with 10.0.0.0/24 reserved and RESERVED_CIDR2 unset. */
  lemma SecondBlockIsSkipped()
    ensures var r := CidrIsReserved("10.0.1.0/24", Some("10.0.0.0/24"), None);
            && r == Ok(PyTuple([PyBool(false), PyNone])) && Truthy(r.value)
  {
    var cidr := "10.0.1.0/24";
    var reserved := "10.0.0.0/24";
    assert cidr[..|cidr|] != reserved[..|cidr|] by {
      assert cidr[5] != reserved[5];
    }
    UnreservedCandidateIsSkipped(cidr, reserved, None);
  }

  /** The response's PhysicalResourceId: always a fresh one. */
  function PhysicalResourceId(event: Event, uuid: string): (id: string)
    ensures |id| == |event.logicalResourceId| + |uuid|
    ensures id[..|event.logicalResourceId|] == event.logicalResourceId && id[|event.logicalResourceId|..] == uuid
  {
    event.logicalResourceId + uuid
  }

  /** use_subnet: records the block against the stack. */
  method UseSubnet(table: Table, cidr: Cidr, stack: StackId) returns (ok: bool)
    modifies table
    ensures table.calls == old(table.calls) + 1 && ok == !old(table.FailsNext())
    ensures table.items == if ok then old(table.items)[cidr := stack] else old(table.items)
  {
    ok := table.PutItem(cidr, stack);
  }

  /** cidr_is_in_table: whether the table holds an item with exactly this key. */
  method CidrIsInTable(table: Table, cidr: Cidr) returns (ok: bool, found: bool)
    modifies table`calls
    ensures table.calls == old(table.calls) + 1 && ok == !old(table.FailsNext())
    ensures ok ==> (found <==> cidr in table.items)
  {
    var hits;
    ok, hits := table.QueryCidr(cidr);
    found := |hits| > 0;
  }

  /**
   * delete_subnets: deletes every item of the stack; any store error reports
   * FAILED. A raising scan deletes nothing; a raising delete_item leaves the
   * items deleted before it deleted, one per returned delete_item call.
   */
  method DeleteSubnets(table: Table, stack: StackId) returns (outcome: Outcome)
    modifies table
    ensures table.calls >= old(table.calls)
    ensures outcome == if table.FailedSince(old(table.calls)) then Failed(DeleteFailedReason) else Success(map[])
    ensures outcome.Success? ==> table.items == WithoutStack(old(table.items), stack)
    ensures Within(WithoutStack(old(table.items), stack), table.items)
    ensures Within(table.items, old(table.items))
    ensures table.FailedSince(old(table.calls)) && table.failsAt.value == old(table.calls) ==>
              table.items == old(table.items)
    ensures table.FailedSince(old(table.calls)) && table.failsAt.value > old(table.calls) ==>
              |table.items| == |old(table.items)| - (table.failsAt.value - old(table.calls) - 1)
  {
    var ok, _ := DeleteOwnedBy(table, stack);
    outcome := if ok then Success(map[]) else Failed(DeleteFailedReason);
  }

  /** How an invocation ends: by returning, by exit(code), or by an exception escaping the handler. */
  datatype Ending = Returned | Exited(code: int) | Threw(error: PyError)

  /** What an invocation did that is visible outside: the response it sent, if any, and how it ended. */
  datatype Invocation = Invocation(sent: Option<Delivery>, ending: Ending)

  /** The response of an invocation that sends `outcome`. */
  function Sending(event: Event, outcome: Outcome, uuid: string): (s: Option<Delivery>)
    ensures s.Some? && s.value.url == event.responseUrl
    ensures s.value.payload.physicalResourceId == event.logicalResourceId + uuid
    ensures s.value.payload.status == (if outcome.Success? then StatusSuccess else StatusFailed)
  {
    Some(SendResponse(event, outcome, PhysicalResourceId(event, uuid)))
  }

  /** The Data of a successful allocation: three distinct blocks of the stack in the positional fields. */
  ghost predicate ThreeBlocksOf(data: map<string, string>, owned: set<Cidr>): (b: bool)
    ensures b ==> |owned| >= NumberToAllocate
  {
    var b :=
      && data.Keys == {PublicField1, PublicField2, PrivateField}
      && data[PublicField1] in owned && data[PublicField2] in owned && data[PrivateField] in owned
      && data[PublicField1] != data[PublicField2]
      && data[PublicField1] != data[PrivateField]
      && data[PublicField2] != data[PrivateField];
    if b then ThreeDistinctCard(data[PublicField1], data[PublicField2], data[PrivateField], owned); b else b
  }

  /**
   * The read-back: query the stack's blocks by the StackId index (a store error
   * escapes), report a shortfall below three and exit(1), otherwise report the
   * first three in the fixed Data fields.
   */
  method ReadBack(table: Table, event: Event, uuid: string) returns (inv: Invocation)
    modifies table`calls
    ensures table.calls == old(table.calls) + 1
    ensures old(table.FailsNext()) ==> inv == Invocation(None, Threw(StoreError))
    ensures !old(table.FailsNext()) && |Owned(table.items, event.stackId)| < NumberToAllocate ==>
              inv == Invocation(Sending(event, Failed(ShortfallReason(NumberToAllocate)), uuid), Exited(1))
    ensures !old(table.FailsNext()) && |Owned(table.items, event.stackId)| >= NumberToAllocate ==>
              && inv.ending == Returned
              && inv.sent.Some?
              && inv.sent == Sending(event, Success(inv.sent.value.payload.data), uuid)
              && ThreeBlocksOf(inv.sent.value.payload.data, Owned(table.items, event.stackId))
  {
    var ok, readBack := table.QueryStack(event.stackId);
    if !ok {
      return Invocation(None, Threw(StoreError));
    }
    DistinctCard(readBack);
    if |readBack| < NumberToAllocate {
      return Invocation(Sending(event, Failed(ShortfallReason(NumberToAllocate)), uuid), Exited(1));
    }
    var responseData := map[PublicField1 := readBack[0], PublicField2 := readBack[1], PrivateField := readBack[2]];
    inv := Invocation(Sending(event, Success(responseData), uuid), Returned);
  }

  /**
   * handler: a Delete request deletes the stack's blocks, responds and exits with
   * status 1; every other request type runs the allocation loop, which records
   * nothing, and then the read-back.
   */
  method Handler(table: Table, event: Event, parent: Network, reserved1: Option<string>,
                 reserved2: Option<string>, uuid: string)
    returns (inv: Invocation)
    requires ValidParent(parent)
    modifies table
    ensures event.requestType == "Delete" ==>
              && inv.ending == Exited(1)
              && inv.sent == Sending(event, if table.FailedSince(old(table.calls)) then Failed(DeleteFailedReason)
                                            else Success(map[]), uuid)
              && Within(WithoutStack(old(table.items), event.stackId), table.items)
              && Within(table.items, old(table.items))
              && (!table.FailedSince(old(table.calls)) ==> table.items == WithoutStack(old(table.items), event.stackId))
              && (table.FailedSince(old(table.calls)) && table.failsAt.value == old(table.calls) ==>
                    table.items == old(table.items))
              && (table.FailedSince(old(table.calls)) && table.failsAt.value > old(table.calls) ==>
                    |table.items| == |old(table.items)| - (table.failsAt.value - old(table.calls) - 1))
    ensures event.requestType != "Delete" ==> table.items == old(table.items)
    ensures event.requestType != "Delete" && reserved1.None? && parent.prefix <= SubnetPrefix ==>
              inv == Invocation(None, Threw(TypeError)) && table.calls == old(table.calls)
    ensures event.requestType != "Delete" && (reserved1.Some? || parent.prefix > SubnetPrefix) ==>
              table.calls == old(table.calls) + 1
    ensures event.requestType != "Delete" && (reserved1.Some? || parent.prefix > SubnetPrefix)
            && table.FailedSince(old(table.calls)) ==>
              inv == Invocation(None, Threw(StoreError))
    ensures event.requestType != "Delete" && (reserved1.Some? || parent.prefix > SubnetPrefix)
            && !table.FailedSince(old(table.calls)) ==>
              if |Owned(old(table.items), event.stackId)| < NumberToAllocate then
                inv == Invocation(Sending(event, Failed(ShortfallReason(NumberToAllocate)), uuid), Exited(1))
              else
                && inv.ending == Returned
                && inv.sent.Some?
                && inv.sent == Sending(event, Success(inv.sent.value.payload.data), uuid)
                && ThreeBlocksOf(inv.sent.value.payload.data, Owned(old(table.items), event.stackId))
  {
    if event.requestType == "Delete" {
      var outcome := DeleteSubnets(table, event.stackId);
      return Invocation(Sending(event, outcome, uuid), Exited(1));
    }
    var subnets := Subnets(parent);
    var subnetsAllocated: nat := 0;
    var i := 0;
    while i < |subnets|
      invariant 0 <= i <= |subnets|
      invariant subnetsAllocated == 0
      invariant table.items == old(table.items) && table.calls == old(table.calls)
      invariant i > 0 ==> reserved1.Some?
    {
      if subnetsAllocated == NumberToAllocate {
        break;
      }
      var reservedCheck := CidrIsReserved(Render(subnets[i]), reserved1, reserved2);
      if reservedCheck.Err? {
        return Invocation(None, Threw(reservedCheck.error));
      }
      // `if cidr_is_reserved(subnet): continue` always continues, because the
      // tuple is true. The table check, use_subnet and the counter increment
      // after it (lines 51-56) are therefore unreachable and are not written.
      assert Truthy(reservedCheck.value);
      i := i + 1;
    }
    ghost var before := table.calls;
    inv := ReadBack(table, event, uuid);
    RaisedSplit(table.failsAt, old(table.calls), before, table.calls);
  }
}
