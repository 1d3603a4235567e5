# CIDR subnet allocator — Dafny model

This project models the subnet allocator of the CloudFormation templates
repository. The allocator is a custom-resource handler. It carves /24 blocks
out of a VPC CIDR for a requesting stack, records them in a DynamoDB table
keyed by `Cidr` (with a `StackId` attribute and a secondary index on it),
reads the stack's blocks back, and answers CloudFormation with SUCCESS and the
blocks in fixed `Data` fields, or with FAILED and a reason. A Delete request
removes every block the stack owns.

The allocator exists in two variants, and each has its own module:

- `WordpressSubnet` (`wordpress-datacenter/custom-resources/auto-subnet.py`)
  allocates two blocks. Every store error inside `allocate_subnets` or
  `delete_subnets` is caught and reported as FAILED.
- `AutoSubnet` (`auto-subnet/auto-subnet.py`) is meant to allocate three blocks.
  Its `cidr_is_reserved` returns the 2-tuple `(cidr in RESERVED_CIDR1,
  RESERVED_CIDR2)`. A non-empty tuple is always true in Python, so the
  allocation loop skips every candidate and never records a block. The model
  keeps this behaviour: `AutoSubnet.Handler` leaves the table unchanged on every
  request other than Delete, and `AutoSubnet.UnreservedCandidateIsSkipped`
  shows a candidate that is not reserved still being skipped. Other behaviours
  of this variant are also kept:
  - `in` on a string is substring containment.
  - An unset `RESERVED_CIDR1` raises a TypeError out of the handler.
  - Delete exits with status 1 after responding.
  - A shortfall exits with status 1 after responding.
  - The read-back query has no `try`, so its store error escapes.
  - PhysicalResourceId is always freshly generated.

Shared modules:

- `AddressSpace`: `IPNetwork(vpc_cidr).subnet(24)` as arithmetic on 32-bit
  addresses. The candidate blocks are at `First + 256 * i`. `str(IPNetwork)`
  is the dotted quad, a slash and the prefix length, and it is proved injective.
  As a result, the candidates' table keys are distinct.
- `AllocationTable`: the table as a class.
  - `items: map<Cidr, StackId>` holds the items.
  - `calls` counts store calls.
  - `failsAt` names the store call that raises, if any. A raising call is
    taken to change nothing (see "## Left out"), so every exception path of the
    handlers can be stated.
  - It holds the scan/query by `StackId` and the deletion loop shared by both
    `delete_subnets`.
- `ClaimPlan`: `Plan`, a pure reference definition of the allocation loop, and
  the facts proved about it: what it adds, how many, which ones (the first free
  candidates), owner uniqueness, and the shortfall rule. `PlanUntil` is the
  same loop cut short by a raising store call, given how many calls succeed
  first. The imperative loop in `WordpressSubnet.ClaimSubnets` is proved equal
  to `Plan` without a store error, and to `PlanUntil` with one.
- `CfnResponse`: the request event, the reported outcome and the JSON payload
  that `send_response` PUTs to the ResponseURL.

What the code does, where its own text suggests something else:

- The 3-block variant never records a block, although its handler's docstring
  reads "Allocate 3 IP ranges from a VPC CIDR Block"
  (`auto-subnet/auto-subnet.py:24`). A stack that owned fewer than three blocks
  gets the shortfall response whenever the read-back query succeeds and either
  `RESERVED_CIDR1` is set or the VPC is smaller than a /24. With
  `RESERVED_CIDR1` unset and at least one candidate, the reserved check raises a
  TypeError and nothing is sent; a raising read-back also sends nothing.
- The read-back order is left to the store. The queries at
  `wordpress-datacenter/custom-resources/auto-subnet.py:84-86` and
  `auto-subnet/auto-subnet.py:59-61` ask for no order, and the positional Data
  fields take whatever the store returns first.
- The 3-block variant's PhysicalResourceId is the logical id plus a fresh uuid on
  every response (`auto-subnet/auto-subnet.py:134`). It ignores the id the event
  carries, which the 2-block variant keeps
  (`wordpress-datacenter/custom-resources/auto-subnet.py:153-155`).
- In the 3-block variant, "reserved" means substring containment in the string
  `RESERVED_CIDR1` (`auto-subnet/auto-subnet.py:158-161`). It is not membership
  in a list.

## Model

| member | source | states |
|---|---|---|
| AddressSpace.First | wordpress-datacenter/custom-resources/auto-subnet.py:64 | the parent's network address is its address with the host bits cleared, a whole number of parent sizes, at most one parent size below the address |
| AddressSpace.WholeBlocks | wordpress-datacenter/custom-resources/auto-subnet.py:65-66 | a whole number of /24 blocks is a multiple of 256 and ends in a zero octet |
| AddressSpace.SubnetsAligned | wordpress-datacenter/custom-resources/auto-subnet.py:65-66 | every candidate base is a multiple of 256, so every key reads "a.b.c.0/24" |
| AddressSpace.SubnetCount | wordpress-datacenter/custom-resources/auto-subnet.py:64-66 | there are /24 candidates exactly when the parent's prefix is at most 24 |
| AddressSpace.Subnets | wordpress-datacenter/custom-resources/auto-subnet.py:65-66 | `subnet(24)` yields SubnetCount blocks, every one a /24 |
| AddressSpace.SizeIsSubnetCountBlocks | wordpress-datacenter/custom-resources/auto-subnet.py:64-66 | the parent holds exactly SubnetCount blocks of 256 addresses |
| AddressSpace.SubnetsAscending | wordpress-datacenter/custom-resources/auto-subnet.py:66 | candidates come in strictly increasing base order and never overlap |
| AddressSpace.SubnetsAdjacent | wordpress-datacenter/custom-resources/auto-subnet.py:66 | each candidate starts where the previous one ends |
| AddressSpace.SubnetsInsideParent | wordpress-datacenter/custom-resources/auto-subnet.py:66 | every candidate lies inside the parent |
| AddressSpace.SubnetsCover | wordpress-datacenter/custom-resources/auto-subnet.py:66 | every address of the parent lies in exactly one candidate |
| AddressSpace.Render | wordpress-datacenter/custom-resources/auto-subnet.py:114 | `str(subnet)` contains a slash and ends with a slash followed by the prefix length in decimal |
| AddressSpace.OctetsDetermineAddress | wordpress-datacenter/custom-resources/auto-subnet.py:114 | two addresses with the same four octets are equal |
| AddressSpace.SplitAtSeparator | wordpress-datacenter/custom-resources/auto-subnet.py:114 | a rendered numeral followed by a separator can be read back off the front of the string |
| AddressSpace.RenderInjective | wordpress-datacenter/custom-resources/auto-subnet.py:114 | different blocks render to different CIDR strings |
| AddressSpace.CandidateKeys | wordpress-datacenter/custom-resources/auto-subnet.py:71-79 | the table keys the loop tries are the rendered candidates, in order |
| AddressSpace.CandidateKeysDistinct | wordpress-datacenter/custom-resources/auto-subnet.py:71-79 | no two candidates share a table key |
| Decimal.NatToString | wordpress-datacenter/custom-resources/auto-subnet.py:114 | `str(int)` is a non-empty string of digits without a leading zero |
| Decimal.StringToNatInverts | wordpress-datacenter/custom-resources/auto-subnet.py:114 | reading back the numeral gives the number |
| Decimal.NatToStringInjective | wordpress-datacenter/custom-resources/auto-subnet.py:114 | different numbers have different numerals |
| AllocationTable.WithoutStack | wordpress-datacenter/custom-resources/auto-subnet.py:44-50 | deleting a stack's items keeps every other item, leaves the stack owning nothing and adds nothing |
| AllocationTable.WithoutStackKeepsOthers | wordpress-datacenter/custom-resources/auto-subnet.py:44-50 | deleting one stack's items leaves what every other stack owns unchanged |
| AllocationTable.WithoutStackIdempotent | wordpress-datacenter/custom-resources/auto-subnet.py:44-50 | deleting a stack's items twice is the same as deleting them once |
| AllocationTable.RaisedSplit | wordpress-datacenter/custom-resources/auto-subnet.py:70-109 | a run of store calls raised exactly when one of its consecutive parts did |
| AllocationTable.Table.constructor | wordpress-datacenter/custom-resources/auto-subnet.py:20-21 | a table with the given items, no calls made yet and the given raising call |
| AllocationTable.Table.QueryCidr | wordpress-datacenter/custom-resources/auto-subnet.py:124-126 | the query on `Cidr` returns the item with that key if there is one; a raising call returns nothing |
| AllocationTable.Table.PutItem | wordpress-datacenter/custom-resources/auto-subnet.py:115-118 | `put_item` sets the key's StackId and changes nothing else; a raising call changes nothing |
| AllocationTable.Table.DeleteItem | wordpress-datacenter/custom-resources/auto-subnet.py:50 | `delete_item` removes that key only; a raising call changes nothing |
| AllocationTable.Table.QueryStack | wordpress-datacenter/custom-resources/auto-subnet.py:84-86 | the query by StackId returns each of the stack's keys exactly once, in an order the store chooses |
| AllocationTable.Owned | wordpress-datacenter/custom-resources/auto-subnet.py:44-45 | the keys recorded against a stack, which are keys of the table |
| AllocationTable.DeleteStep | wordpress-datacenter/custom-resources/auto-subnet.py:48-50 | the next scanned key is still in the table when its delete_item runs, and deleting it shrinks the table by one |
| AllocationTable.DeletedPrefix | wordpress-datacenter/custom-resources/auto-subnet.py:48-50 | after deleting a prefix of the scanned keys the table lies between the table without the stack and the starting table, and equals the former once every key is deleted |
| AllocationTable.DeleteOwnedBy | wordpress-datacenter/custom-resources/auto-subnet.py:43-50 | the scan returns the stack's keys once each; without a store error every item of the stack is gone and nothing else changed; a raising scan deletes nothing; when delete_item raises, exactly the scanned keys before it are gone, with no rollback, so the table has shrunk by the number of delete_item calls that returned |
| ClaimPlan.IsFree | wordpress-datacenter/custom-resources/auto-subnet.py:74-77 | a candidate is free exactly when no RESERVED_CIDRS entry equals it and the table lacks it |
| ClaimPlan.Plan | wordpress-datacenter/custom-resources/auto-subnet.py:71-81 | the reference allocation loop; it never shrinks the table and adds at most `need` entries |
| ClaimPlan.PlanUntil | wordpress-datacenter/custom-resources/auto-subnet.py:70-81 | the reference loop cut short by a raising store call; it never shrinks the table |
| ClaimPlan.PlanUntilWithinPlan | wordpress-datacenter/custom-resources/auto-subnet.py:70-81 | every entry a loop cut short has recorded is, with the same StackId, an entry of the whole loop's result, so the interrupted table is never larger than the whole loop's |
| ClaimPlan.Free | wordpress-datacenter/custom-resources/auto-subnet.py:74-77 | the free candidates are exactly the candidates that are neither reserved nor in the table |
| ClaimPlan.PlanStep | wordpress-datacenter/custom-resources/auto-subnet.py:71-81 | one turn of the loop claims a free candidate and skips any other |
| ClaimPlan.ClaimStep | wordpress-datacenter/custom-resources/auto-subnet.py:79 | recording a free candidate keeps every earlier entry and adds only candidates for the stack |
| ClaimPlan.PlanClaims | wordpress-datacenter/custom-resources/auto-subnet.py:71-81 | the loop changes no existing entry and adds only non-reserved candidates for the stack |
| ClaimPlan.PlanBound | wordpress-datacenter/custom-resources/auto-subnet.py:67-73 | the loop adds at most number_to_allocate entries |
| ClaimPlan.NewKeysCard | wordpress-datacenter/custom-resources/auto-subnet.py:71-81 | when the table only grew, the new keys number the growth in size |
| ClaimPlan.FreshKeyCard | wordpress-datacenter/custom-resources/auto-subnet.py:115-118 | putting a key the table lacks grows it by one |
| ClaimPlan.PlanGrows | wordpress-datacenter/custom-resources/auto-subnet.py:71-81 | the loop never shrinks the table |
| ClaimPlan.PlanNeedsNothing | wordpress-datacenter/custom-resources/auto-subnet.py:72-73 | once nothing more is needed the loop changes nothing |
| ClaimPlan.PlanAppendSkip | wordpress-datacenter/custom-resources/auto-subnet.py:74-77 | a first candidate that is not free is skipped, whatever follows it |
| ClaimPlan.PlanAppendClaim | wordpress-datacenter/custom-resources/auto-subnet.py:79-81 | a free first candidate is claimed, whatever follows it |
| ClaimPlan.PlanSplit | wordpress-datacenter/custom-resources/auto-subnet.py:71-81 | the loop over `a + b` is the loop over `a` followed by the loop over `b` for what is still needed, so a run stopped by an exception is the loop over a prefix |
| ClaimPlan.PlanUntilStep | wordpress-datacenter/custom-resources/auto-subnet.py:71-81 | one turn of the interrupted loop: a reserved candidate costs no call; the table query raising, or put_item raising for a block not in the table, ends the loop with the table as it stands |
| ClaimPlan.PlanPrefixStep | wordpress-datacenter/custom-resources/auto-subnet.py:71-81 | the loop over the first j + 1 candidates is one turn followed by the loop over the next j |
| ClaimPlan.PlanUntilStopsAtPrefix | wordpress-datacenter/custom-resources/auto-subnet.py:70-81 | a loop cut short by a raising call leaves what the whole loop makes of some prefix of the candidates |
| ClaimPlan.FreeIgnoresOtherKeys | wordpress-datacenter/custom-resources/auto-subnet.py:76-77 | recording a key that is not a candidate changes no candidate's freedom |
| ClaimPlan.FreeDistinct | wordpress-datacenter/custom-resources/auto-subnet.py:71-77 | distinct candidates give distinct free candidates |
| ClaimPlan.NewKeysAfterClaim | wordpress-datacenter/custom-resources/auto-subnet.py:79 | a claimed key is among the new keys together with what the rest of the loop adds |
| ClaimPlan.TakeFreeHead | wordpress-datacenter/custom-resources/auto-subnet.py:71-81 | when the first candidate is free, it leads the first free candidates |
| ClaimPlan.PlanTakesFirstFree | wordpress-datacenter/custom-resources/auto-subnet.py:71-81 | first free wins: the loop adds exactly the first number_to_allocate free candidates |
| ClaimPlan.FirstFreeClaimed | wordpress-datacenter/custom-resources/auto-subnet.py:79-81 | claiming a free first candidate and then taking the first free of the rest takes the first free candidates |
| ClaimPlan.PlanCount | wordpress-datacenter/custom-resources/auto-subnet.py:67-81 | the loop adds exactly min(number_to_allocate, number of free candidates) entries |
| ClaimPlan.PlanOwners | wordpress-datacenter/custom-resources/auto-subnet.py:112-118 | the requesting stack gains exactly the new entries and every other stack owns what it owned |
| ClaimPlan.DeleteUndoesPlan | wordpress-datacenter/custom-resources/auto-subnet.py:41-81 | for a stack that owned nothing, Delete after allocation restores the table |
| ClaimPlan.ShortfallIffFewFree | wordpress-datacenter/custom-resources/auto-subnet.py:83-95 | for a stack that owned nothing, the read-back falls short exactly when too few candidates were free |
| CfnResponse.ShortfallReason | wordpress-datacenter/custom-resources/auto-subnet.py:93 | the Reason is "Couldn't obtain ", a decimal numeral that reads back as the count, then " CIDR for stack from DynamoDB query" |
| CfnResponse.SendResponse | wordpress-datacenter/custom-resources/auto-subnet.py:147-162 | the PUT goes to the event's ResponseURL, with the event's correlation fields, the given PhysicalResourceId and the status of the outcome |
| CfnResponse.BuildPayload | wordpress-datacenter/custom-resources/auto-subnet.py:147-157 | the correlation fields come from the event; the Status matches the outcome; the Reason is empty on success and the Data empty on failure |
| WordpressSubnet.CidrIsReserved | wordpress-datacenter/custom-resources/auto-subnet.py:131-136 | reserved is exact membership in RESERVED_CIDRS; an empty list reserves nothing |
| WordpressSubnet.PhysicalResourceId | wordpress-datacenter/custom-resources/auto-subnet.py:153-155 | the event's non-empty PhysicalResourceId is kept, otherwise the logical id plus a fresh uuid is used |
| WordpressSubnet.UseSubnet | wordpress-datacenter/custom-resources/auto-subnet.py:112-118 | the block is recorded against the stack and no other key changes |
| WordpressSubnet.CidrIsInTable | wordpress-datacenter/custom-resources/auto-subnet.py:121-128 | true exactly when the table holds that CIDR string |
| WordpressSubnet.DeleteSubnets | wordpress-datacenter/custom-resources/auto-subnet.py:41-59 | SUCCESS (even when the stack owned nothing) with every stack item gone and other items untouched; any store error gives FAILED with the deletion reason; a raising scan deletes nothing, and a raising delete_item leaves one stack item fewer per delete_item call that returned before it |
| WordpressSubnet.TrySubnet | wordpress-datacenter/custom-resources/auto-subnet.py:74-79 | the reserved check comes before any store call; a candidate is recorded exactly when it is free |
| WordpressSubnet.ReportsReadBack | wordpress-datacenter/custom-resources/auto-subnet.py:88-105 | the reported outcome is SUCCESS exactly when the stack owns at least two blocks |
| WordpressSubnet.ReadBack | wordpress-datacenter/custom-resources/auto-subnet.py:83-105 | fewer than two items gives FAILED with the shortfall reason; otherwise the two Data fields hold distinct blocks of the stack |
| WordpressSubnet.LoopStarts | wordpress-datacenter/custom-resources/auto-subnet.py:67-71 | the loop invariant holds before the first candidate |
| WordpressSubnet.LoopEnds | wordpress-datacenter/custom-resources/auto-subnet.py:71-73 | once the candidates run out or two are claimed, the table is the reference plan's |
| WordpressSubnet.LoopClaimed | wordpress-datacenter/custom-resources/auto-subnet.py:67-81 | at any point the loop has added `subnets_allocated` (at most two) entries, all free candidates for the stack |
| WordpressSubnet.LoopClaims | wordpress-datacenter/custom-resources/auto-subnet.py:79-81 | claiming a free candidate keeps the loop invariant with the counter one higher |
| WordpressSubnet.LoopSkips | wordpress-datacenter/custom-resources/auto-subnet.py:74-77 | skipping a reserved or recorded candidate keeps the loop invariant |
| WordpressSubnet.BudgetStarts | wordpress-datacenter/custom-resources/auto-subnet.py:67-71 | before the first store call the interrupted run from the start is the interrupted run of all candidates |
| WordpressSubnet.BudgetSkips | wordpress-datacenter/custom-resources/auto-subnet.py:74-77 | a reserved candidate (no call) or one found in the table (one returning call) keeps the interrupted-run invariant |
| WordpressSubnet.BudgetClaims | wordpress-datacenter/custom-resources/auto-subnet.py:76-81 | a free candidate claimed by two returning calls keeps the interrupted-run invariant |
| WordpressSubnet.BudgetStops | wordpress-datacenter/custom-resources/auto-subnet.py:76-79 | when the table query or put_item raises, the table as it stands is the interrupted run's |
| WordpressSubnet.BudgetTurn | wordpress-datacenter/custom-resources/auto-subnet.py:72-81 | one turn either keeps the interrupted-run invariant or, when its call raised, leaves the interrupted run's table |
| WordpressSubnet.BudgetEnds | wordpress-datacenter/custom-resources/auto-subnet.py:71-86 | after the loop, a call that raises later (the read-back query) finds exactly the interrupted run's table |
| WordpressSubnet.LoopFinishes | wordpress-datacenter/custom-resources/auto-subnet.py:71-86 | at the loop's end the table is the reference plan's, adds at most two free candidates for the stack, and is what a later raising call (the read-back query) finds |
| WordpressSubnet.VisitCandidate | wordpress-datacenter/custom-resources/auto-subnet.py:72-81 | one turn of the loop keeps both invariants, or reports the store error with the table equal to the interrupted run's |
| WordpressSubnet.ClaimSubnets | wordpress-datacenter/custom-resources/auto-subnet.py:67-81 | without a store error the loop leaves the table equal to the reference plan; when store call number `failsAt` raises, the table is `PlanUntil` with `failsAt` minus the starting call count as the budget: every block put before the error stays and nothing after it is put; in any case at most two entries are added, all free candidates for the stack |
| WordpressSubnet.AllocateSubnets | wordpress-datacenter/custom-resources/auto-subnet.py:62-109 | without a store error the table is the plan's and the outcome is the read-back's; with one, in the loop or in the read-back, the outcome is FAILED and the table is `PlanUntil` for the calls that returned before the raising one: the blocks put before the error stay, with no rollback |
| WordpressSubnet.Handler | wordpress-datacenter/custom-resources/auto-subnet.py:24-38 | Delete goes to delete_subnets (with its table on success and on a store error), every other request type to allocate_subnets (with its table, `Plan` or `PlanUntil`, and outcome), and exactly one response is sent |
| AutoSubnet.IsSubstring | auto-subnet/auto-subnet.py:161 | `needle in hay` on strings holds exactly when the needle occurs at some offset of the hay |
| AutoSubnet.Truthy | auto-subnet/auto-subnet.py:49 | Python truth testing: false exactly for False, the empty string, None and the empty tuple, so every non-empty tuple is true |
| AutoSubnet.FromEnv | auto-subnet/auto-subnet.py:158-159 | an unset variable is None, and the value is true exactly when the variable is set and non-empty |
| AutoSubnet.CidrIsReserved | auto-subnet/auto-subnet.py:154-161 | a TypeError when RESERVED_CIDR1 is unset; otherwise a 2-tuple whose first element is substring containment, and which is true |
| AutoSubnet.UnreservedCandidateIsSkipped | auto-subnet/auto-subnet.py:49-50 | for every candidate that RESERVED_CIDR1 does not contain, the reserved check returns (False, RESERVED_CIDR2), which is true, so the candidate is skipped |
| AutoSubnet.SecondBlockIsSkipped | auto-subnet/auto-subnet.py:49-50 | 10.0.1.0/24 against RESERVED_CIDR1 = 10.0.0.0/24 with RESERVED_CIDR2 unset gets (False, None) and is skipped |
| AutoSubnet.UseSubnet | auto-subnet/auto-subnet.py:89-96 | the block is recorded against the stack and no other key changes |
| AutoSubnet.CidrIsInTable | auto-subnet/auto-subnet.py:144-151 | true exactly when the table holds that CIDR string |
| AutoSubnet.DeleteSubnets | auto-subnet/auto-subnet.py:99-117 | SUCCESS with every stack item gone and other items untouched; any store error gives FAILED with the deletion reason; a raising scan deletes nothing, and a raising delete_item leaves one stack item fewer per delete_item call that returned before it |
| AutoSubnet.PhysicalResourceId | auto-subnet/auto-subnet.py:134 | the logical id followed by the fresh uuid, whatever PhysicalResourceId the event carries |
| AutoSubnet.Sending | auto-subnet/auto-subnet.py:128-141 | a response is sent to the event's ResponseURL, with the fresh PhysicalResourceId and the status of the outcome |
| AutoSubnet.ThreeBlocksOf | auto-subnet/auto-subnet.py:76-80 | three distinct blocks of the stack in the positional Data fields, so the stack owns at least three |
| AutoSubnet.ReadBack | auto-subnet/auto-subnet.py:58-81 | a store error escapes unsent; fewer than three items sends FAILED and exits with 1; otherwise the three Data fields hold distinct blocks of the stack |
| AutoSubnet.Handler | auto-subnet/auto-subnet.py:23-86 | Delete responds and exits with 1, with delete_subnets' table on success and on a store error; every other request leaves the table unchanged, raises TypeError when RESERVED_CIDR1 is unset and there are candidates, and otherwise reports the read-back of the unchanged table |

## Left out

- Parsing `VPC_CIDR` with netaddr: the parent is given as an address below 2^32 and a prefix length of at most 32.
- Decoding `RESERVED_CIDRS` with `json.loads`: the list is given as a sequence of strings. A malformed value, or a JSON value that is not a list, is not modelled.
- `requests.put` delivery: the response is a value, and delivery errors are not modelled. The `except` in `auto-subnet/auto-subnet.py:83-86` is therefore not reachable in the model.
- `print` and `json.dumps` logging, and the function ARN: output only.
- AutoSubnet.Handler: assumes the Lambda `context` object serialises with `json.dumps` at `auto-subnet/auto-subnet.py:27`. If it does not, every invocation raises a TypeError at that line, before Delete or allocation, and sends nothing. The model starts after that line.
- `uuid4()`: a parameter of the handlers.
- `exit(1)`: an ending of the invocation (`Exited(1)`).
- A missing event key (KeyError): events always carry the fields the handlers read.
- Scan pagination and index consistency: a scan or a query returns all matching items at once and sees every earlier write.
- A store call that raises changes nothing. A `put_item` or `delete_item` that the service applied before the client saw an error (a timeout, say) is not modelled.
- Concurrent invocations racing between `cidr_is_in_table` and `put_item`: the model is one sequential invocation.
- WordpressSubnet.ClaimSubnets: iterates the candidates' rendered CIDR strings rather than the IPNetwork objects; `AddressSpace.RenderInjective` makes the two equivalent.
- AutoSubnet.UseSubnet: lines 51-56 of `auto-subnet/auto-subnet.py` are unreachable because of the tuple defect, so the handler never calls it. It is modelled on its own.
- AutoSubnet.CidrIsInTable: unreachable for the same reason (line 51); the handler never calls it. It is modelled on its own.
