# Hostelo room allocation, modelled in Dafny

Hostelo is a hostel room-allocation backend. This project models its allocation engine and the roommate-group rules that feed it, and proves properties of the model.

- **Union-find.** The disjoint-set used to find roommate groups (`DisjointSet`). Path compression and union by size are modelled, with the sizes as data.
- **Mutual-group discovery.** `buildMutualGroups` (`GroupGraph`). It takes a college's accepted roommate requests, indexes the students, unions every pair and keeps the components of two or more. It is proved against an independent definition of reachability over the request pairs (`Connectivity`).
- **Room placement.** `allocateRoomForStudent` and `allocateRoomForGroup` (`RoomAllocator`). Both do a best-fit search over rooms: exact fit first, then any room with space. Then they commit the room, an allocation record and the students' flags.
- **The final allocation run.** `allocateRoomsToGroup` (`AllocationController`). It places every mutual group first, then every other unallocated student of the college. The first failure aborts the run as "Final Room Allocation failed"; what was committed before it stays.
- **Roommate admission.** `sendRoommateRequest` and `verifyRoommateOtp` (`RoommateController`). These are the request checks and the group transitions. The capacity, gender and hostel invariants they keep are proved.

## How the system is represented

The database is one immutable `Store`:
- `roster` is the students in natural order, and `students` maps ids to records;
- hostels, rooms and roommate requests are sequences in natural order;
- allocation records are a sequence, and an allocation's id is its position.

A handler is a function from a store to a new store and an answer. Errors are constructors of `Models.Error`, not message strings.

Other conventions:
- **Time.** The clock is a millisecond `nat` parameter.
- **OTP.** The OTP is an opaque string parameter.
- **Queries.** `findOne` is "first match in natural order". `findOne().sort({roomCapacity: -1})` is "a match of largest capacity": MongoDB leaves the order among equal sort keys open, so `TargetHostel` promises only some eligible hostel of largest capacity, and taking the first such hostel in natural order is a modelling choice.
- **Truthiness.** A JavaScript falsy test on a string id is modelled as "absent or empty".
- **Student fields.** The Student schema (backend/models/Student.js) does not declare `groupId`, `isLeader`, `groupHostelChoice` or `isRegistered`. The model gives students these fields with the meaning the roommate controller gives them.

Where the code and its description disagree, the model follows the code:
- **Re-running the allocation.** When a mutual group already has an allocated member, the run rejects it with "… is already allocated to a room" (allocationController.js:23-27). It does not skip the group, so the run fails. Only `allocateRoomForGroup` itself would skip it, and inside the run that branch is unreachable.
- **Singles check.** The allocated check on single students (allocationController.js:32-34) cannot fire. The query at lines 10-13 already excludes allocated students.
- **Group size.** When the sender has no group, `verifyRoommateOtp` counts the members of the literal group "new_group" (roommateController.js:311-314). A sender whose request was recorded always has a group, because `sendRoommateRequest` founds one. `ChoiceNeedsGroup`, part of `GroupsSound`, captures this.

## Model

| member | source | states |
|---|---|---|
| DisjointSet.Make | backend/utils/disjointSet.js:2-7 | n+1 singleton classes: every node is its own root with size 1, and the sizes of the roots add up to the node count |
| DisjointSet.FindUpar | backend/utils/disjointSet.js:9-12 | returns the representative of the node and hangs the node directly under it; no node changes representative, the set of roots and every size stay the same |
| DisjointSet.RedirectKeepsRoots | backend/utils/disjointSet.js:11 | one compression step keeps the forest well-founded and every node's representative |
| DisjointSet.UnionBySize | backend/utils/disjointSet.js:14-27 | the result is again a forest whose root sizes add up to the node count, and it merges exactly the classes of u and v into one of their two old representatives; all other classes are untouched |
| DisjointSet.UnionBySizeLinks | backend/utils/disjointSet.js:18-26 | same representative: nothing changes; otherwise the root with the strictly smaller size goes under the other, v's root goes under u's root on a tie, and the surviving root's size is the sum of both |
| DisjointSet.LinkKeepsValid | backend/utils/disjointSet.js:20-26 | hanging one root under another keeps the size ordering along parent links and the sum of root sizes |
| DisjointSet.JoinRootsMerges | backend/utils/disjointSet.js:18-26 | joining two roots gives both classes one of the two roots as representative and leaves every other node's representative alone |
| DisjointSet.MergedByPairs | backend/utils/disjointSet.js:14-27 | after a union two nodes share a representative exactly when they did before or each was with u or with v |
| DisjointSet.UnionAll | backend/utils/disjointSet.js:14-27 | unioning any list of in-range pairs keeps the structure valid |
| DisjointSet.UnionAllConnects | backend/utils/disjointSet.js:14-27 | after unioning a list of pairs into fresh singletons, two nodes share a representative exactly when a chain of the pairs joins them |
| DisjointSet.UnionStepConnects | backend/utils/disjointSet.js:14-27 | if the classes were the components of the pairs so far, one more union makes them the components of the extended list |
| GroupGraph.AcceptedRequests | backend/utils/groupGraph.js:17-20 | a request is kept exactly when it is accepted and belongs to the given college |
| GroupGraph.Participants | backend/utils/groupGraph.js:43-52 | the id list has no duplicates and holds both ends of every request |
| GroupGraph.ParticipantsAreEndpoints | backend/utils/groupGraph.js:43-52 | every listed id is an end of some request |
| GroupGraph.IndexOf | backend/utils/groupGraph.js:53 | the index of an id is the position of its first occurrence, and the list length when it is absent |
| GroupGraph.IndexOfAt | backend/utils/groupGraph.js:52-53 | in a duplicate-free list the index of the id at position j is j, so distinct ids get distinct indices |
| GroupGraph.IndexEdges | backend/utils/groupGraph.js:61-70 | each request becomes the pair of its two indices, all of them in range when every end is listed |
| GroupGraph.Unions | backend/utils/groupGraph.js:57-70 | the union-find over the participants after all pairs is valid and has one slot more than there are participants |
| GroupGraph.UnionsComponents | backend/utils/groupGraph.js:57-70 | its classes are exactly the components of the indexed request pairs |
| GroupGraph.SameRootConnected | backend/utils/groupGraph.js:61-81 | two participants share a leader exactly when a chain of accepted requests joins their ids |
| GroupGraph.MembersSpec | backend/utils/groupGraph.js:74-81 | the bucket of leader L holds exactly the ids whose representative is L |
| GroupGraph.GroupByLeader | backend/utils/groupGraph.js:74-81 | grouping by findUpar leaves every representative as it was and files each id in the one bucket of its representative |
| GroupGraph.KeepShared | backend/utils/groupGraph.js:86-94 | a bucket is kept exactly when it has more than one member, and distinct leaders stay distinct |
| GroupGraph.MutualGroupsAreComponents | backend/utils/groupGraph.js:41-94 | two different students are in one returned group exactly when a chain of accepted requests joins them |
| GroupGraph.MutualGroupsPartition | backend/utils/groupGraph.js:74-94 | every group has at least two members, only students named in a request appear, and no student is in two groups |
| GroupGraph.FetchStudents | backend/utils/groupGraph.js:100-109 | a group's records are exactly the stored students whose id is in the group |
| GroupGraph.FetchStudentsInOrder | backend/utils/groupGraph.js:102 | the records come in collection order: they are the roster's records at strictly increasing positions, so the first one, the leader of the group placement, is the member that comes first in the roster |
| GroupGraph.NoPairsNoGroups | backend/utils/groupGraph.js:34-39 | no accepted requests means no groups |
| GroupGraph.BuildMutualGroups | backend/utils/groupGraph.js:6-121 | fails exactly when the college id is missing or empty, with "College ID is required"; no accepted requests gives the empty list; otherwise the result is the fetched records of the mutual groups of the accepted requests |
| RoomAllocator.PickRoom | backend/utils/roomAllocator.js:63-79 | finds a room exactly when some non-full room of the hostel has space, and then it is the first exact fit, else the first room with enough space |
| RoomAllocator.TargetHostel | backend/utils/roomAllocator.js:10-24 | the student's own preference if set, else an eligible hostel of largest room capacity; with neither, the null dereference |
| RoomAllocator.OtherHostels | backend/utils/roomAllocator.js:39-43 | exactly the hostels of the student's college and gender other than the starting one |
| RoomAllocator.OtherHostelsInOrder | backend/utils/roomAllocator.js:39-49 | the first alternative hostel is the first such hostel in collection order |
| RoomAllocator.SearchHostels | backend/utils/roomAllocator.js:195-212 | the group fallback finds nothing exactly when no listed hostel has a room for the group, and otherwise takes the best fit of the first hostel that has one |
| RoomAllocator.MarkAllocated | backend/utils/roomAllocator.js:104-107 | exactly the listed students are flagged allocated with the new allocation; every other record is unchanged |
| RoomAllocator.CommitWithinCapacity | backend/utils/roomAllocator.js:86-107 | committing into a room that fits puts exactly the unit into it, flags it full exactly at capacity, records one allocation, marks the unit and touches nothing else |
| RoomAllocator.AllocateRoomForStudent | backend/utils/roomAllocator.js:5-118 | no preference and no eligible hostel is a null dereference; the target hostel is searched if it has a non-full room or has no alternative, else the first alternative; fails with "No available room found." exactly when that hostel has no room with space; on success the student is placed in the best-fit room with nothing else changed |
| RoomAllocator.GroupRoom | backend/utils/roomAllocator.js:156-212 | no room exactly when neither the leader's hostel nor any alternative can take the whole group; otherwise the best fit in the leader's hostel, else in the first alternative that has one |
| RoomAllocator.AllocateRoomForGroup | backend/utils/roomAllocator.js:120-254 | a group with an allocated member is skipped; an empty group is a null dereference; a placed group goes into one room with space for all of them |
| RoomAllocator.GroupPlacementSearch | backend/utils/roomAllocator.js:138-218 | fails with "No available room found for group." exactly when no eligible hostel can take the group; otherwise every member is placed in the room the search order picks |
| RoomAllocator.PlacedIntoKeepsRooms | backend/utils/roomAllocator.js:219-226 | a placement into a room with space keeps every room within capacity and flagged full exactly when full |
| RoomAllocator.StudentPlacementKeepsRooms | backend/utils/roomAllocator.js:86-92 | placing a student never overfills a room |
| RoomAllocator.GroupPlacementKeepsRooms | backend/utils/roomAllocator.js:219-226 | placing a group never overfills a room |
| RoomAllocator.AllocateRoomForGroupLean | backend/utils/roomAllocator.js:237-244 | as written on lean records: student records are never written; whenever the corrected placement commits no room (a skipped group, the empty-group null dereference, no room found) the store is untouched and the outcome, error or not, is the corrected one |
| RoomAllocator.LeanGroupLeavesMembersUnallocated | backend/utils/roomAllocator.js:237-244 | wherever the corrected placement succeeds, the as-written one fails after saving the room and the allocation, leaving every member unallocated |
| AllocationController.Unallocated | backend/controllers/allocationController.js:10-13 | exactly the stored unallocated students of the college |
| AllocationController.UnallocatedInOrder | backend/controllers/allocationController.js:10-13 | the query answers in collection order: its students are the roster's records at strictly increasing positions |
| AllocationController.GroupedIds | backend/controllers/allocationController.js:16 | an id is listed exactly when it belongs to some group |
| AllocationController.Ungrouped | backend/controllers/allocationController.js:18-20 | exactly the unallocated students whose id is in no group |
| AllocationController.UngroupedInOrder | backend/controllers/allocationController.js:18-20 | `filter` keeps the order: the singles are the unallocated students at strictly increasing positions |
| AllocationController.Units | backend/controllers/allocationController.js:22-36 | the groups in order, then the single students in order |
| AllocationController.FirstAllocated | backend/controllers/allocationController.js:23-27 | the first member flagged allocated, the one the error names |
| AllocationController.Step | backend/controllers/allocationController.js:22-36 | a unit with an allocated member fails with that member's name; a unit that succeeds is placed into one room with space for it |
| AllocationController.StepCommits | backend/controllers/allocationController.js:28-35 | every committed unit lands in one room with space for it, with one new allocation and nothing else changed |
| AllocationController.RunUnits | backend/controllers/allocationController.js:22-41 | the run commits a prefix of the units, and has no failure exactly when it commits all of them |
| AllocationController.RunUnitsAppends | backend/controllers/allocationController.js:22-36 | each committed unit appends one allocation listing exactly its students, in unit order, and earlier allocations are kept |
| AllocationController.RunUnitsStopsAtFailure | backend/controllers/allocationController.js:22-41 | the recorded error is what the first uncommitted unit gives on the store the committed ones left |
| AllocationController.RunUnitsPrefix | backend/controllers/allocationController.js:22-41 | the store a failed run leaves is exactly what its committed units give on their own |
| AllocationController.RunUnitsKeepsRooms | backend/controllers/allocationController.js:22-36 | no run overfills or mis-flags a room |
| AllocationController.RunUnitsAllocates | backend/controllers/allocationController.js:22-36 | no student record is dropped or unflagged, and every student of a committed unit is allocated |
| AllocationController.RunPlacesEveryone | backend/controllers/allocationController.js:22-38 | a run that does not fail allocates every group member and every single |
| AllocationController.RunGroupsFirst | backend/controllers/allocationController.js:22-38 | a run that does not fail records the groups' allocations first, in order, then the singles' |
| AllocationController.AllocateRoomsToGroup | backend/controllers/allocationController.js:8-43 | with both findings corrected (the group discovery called as a function, and group members placed as documents by `RoomAllocator.AllocateRoomForGroup`): a missing college id fails before anything is written; every failure is reported as "Final Room Allocation failed" |
| AllocationController.AllocateRoomsAllocatesEveryone | backend/controllers/allocationController.js:10-38 | on success every student of the college who was unallocated at the start is allocated |
| AllocationController.AllocateRoomsGroupsFirst | backend/controllers/allocationController.js:15-38 | on success the new allocations are one per mutual group, in order, then one per ungrouped student, in roster order |
| AllocationController.AllocateRoomsStopsAtFailure | backend/controllers/allocationController.js:22-41 | on failure the store holds exactly what the units before the failing one committed, and the error wraps that unit's error |
| AllocationController.AllocateRoomsKeepsRooms | backend/controllers/allocationController.js:22-36 | no run, successful or not, overfills or mis-flags a room |
| AllocationController.AllocateRoomsAsWritten | backend/controllers/allocationController.js:5-15 | as written every run fails with "Final Room Allocation failed" and writes nothing |
| AllocationController.ImportFindingWitness | backend/controllers/allocationController.js:5-15 | for a college with no accepted requests and nobody to place, the corrected run succeeds and the as-written run fails |
| RoommateController.FindByRoll | backend/controllers/roommateController.js:21-28 | finds a stored student with that roll number and college, and finds none exactly when no stored student matches |
| RoommateController.HostelById | backend/controllers/roommateController.js:108 | finds a hostel exactly when one has that id |
| RoommateController.AnyPendingBetween | backend/controllers/roommateController.js:71-77 | true exactly when a pending request joins the two students in either direction |
| RoommateController.FindRequest | backend/controllers/roommateController.js:259-264 | the first pending request from the sender to the recipient with this OTP, and none exactly when there is no such request |
| RoommateController.GroupIdFor | backend/controllers/roommateController.js:94 | a minted group id is never empty and never the "new_group" placeholder |
| RoommateController.FoundOrJoin | backend/controllers/roommateController.js:85-137 | a grouped sender keeps its group and its saved hostel; an ungrouped sender fails exactly when no hostel id is given, the hostel does not exist or is for another gender |
| RoommateController.SendRoommateRequest | backend/controllers/roommateController.js:21-36 | a sender or recipient missing from the college fails with nothing written |
| RoommateController.SendChecks | backend/controllers/roommateController.js:42-83 | self request, gender mismatch, an allocated student, a shared group, a recipient in another group and a pending request each reject exactly when the earlier checks pass and they fail |
| RoommateController.SendChecksWriteNothing | backend/controllers/roommateController.js:42-145 | those six rejections write nothing, and a sender that is in a group but does not lead it is refused with nothing written |
| RoommateController.AdmitRequest | backend/controllers/roommateController.js:85-177 | past the student checks: hostels are never written; a rejection is a hostel, leader, null or group-size error and adds no request; a grouped non-leader is refused untouched; success appends exactly one pending request from the sender to the recipient with this OTP, time and college; the only student record ever written is a sender in no group founding its group in the chosen hostel |
| RoommateController.SendAccepted | backend/controllers/roommateController.js:42-177 | a recorded request joins two different, unallocated students of one gender and college; the recipient is in no group and nothing was pending between them; one pending request is appended; the sender leads its group; the group plus one fits a room of its hostel; a founding sender's hostel matches its gender |
| RoommateController.SendFailureWrites | backend/controllers/roommateController.js:92-163 | a rejected request writes nothing, except a founding sender whose new group is already full, which keeps the group |
| RoommateController.SendWrites | backend/controllers/roommateController.js:92-177 | a request writes at most the founding sender and one request whose two ends differ |
| RoommateController.VerifyRoommateOtp | backend/controllers/roommateController.js:225-237 | a sender or recipient that cannot be found fails with nothing written |
| RoommateController.VerifyChecks | backend/controllers/roommateController.js:240-342 | the gender, college, allocation, request-and-expiry, leader, hostel-lookup and group-size checks each reject exactly when the earlier checks pass and they fail (the size check counts the "new_group" placeholder for an ungrouped sender); past all of them, "Invalid group state" exactly when the recipient is already in a group |
| RoommateController.VerifyAccepted | backend/controllers/roommateController.js:240-355 | success needs a pending (from, to, otp) request at most ten minutes old, a hostel choice, a leader sender and a recipient in no group; the request becomes accepted; the sender leads the group (founded now if it had none); the recipient joins it as non-leader with the sender's hostel; both are registered and no other record changes |
| RoommateController.VerifyFailureWritesNothing | backend/controllers/roommateController.js:233-342 | a rejected confirmation writes nothing |
| RoommateController.JoinKeepsSound | backend/controllers/roommateController.js:311-352 | a member joining a group that still has room keeps groups single-gender, within capacity and sharing one hostel |
| RoommateController.FoundKeepsSound | backend/controllers/roommateController.js:92-128 | founding a group under an unused id keeps the group invariants |
| RoommateController.VerifyKeepsGroupsSound | backend/controllers/roommateController.js:300-355 | confirmations keep every group within the room capacity of its hostel, single-gender, sharing one hostel choice, and no request addressed to its sender |
| RoommateController.SendKeepsGroupsSound | backend/controllers/roommateController.js:92-177 | requests keep the same group invariants |

## Left out

- The React frontend, authentication, JWTs, the Express routes and middleware, the thin CRUD controllers, and the seed and debug scripts: these are presentation, transport and scripts.
- Generating and e-mailing the OTP (generateOtp, sendOtp): the OTP is an input, and a failing mail send after the request is saved is not modelled.
- deleteRoommateRequest: outside the modelled core.
- HTTP status codes, response bodies and message texts: each outcome is an `Error` constructor, or success. The request handler's success message, which echoes the OTP, is not modelled.
- Unique student ids: the model does not require the roster's ids to be distinct, as MongoDB's `_id` index guarantees. No contract depends on it; on a store with a repeated roster id, the unallocated-students query, and so the run, would list that student twice, which no database state produces.
- Persisting the undeclared student fields: under Mongoose's default strict schema, the writes of `groupId`, `isLeader`, `groupHostelChoice` and `isRegistered` (roommateController.js:128 and :352) would not be stored, and `populate("groupHostelChoice")` may refuse the undeclared path; the model follows the controller's intent, not what the deployed schema would store.
- Mongoose persistence, `populate`, casting errors for malformed ids, and the concurrent `Promise.all` saves: the three saves of a confirmation are applied in one order (recipient, then sender, then request), and overlapping requests or runs are not modelled.
- The request collection's time-to-live index (`expires: 600`), which deletes requests in the background: requests stay in the store; the ten-minute check of the confirmation is modelled.
- Logging, the allocation timestamps (`allocatedAt`) and the student `timestamps`.
- Ordering by fairness or by year, and allocation reports: the code does not do them in this core.
- BuildMutualGroups: the wrap of an internal failure into "Failed to build mutual groups" is not modelled, because no step of the pure model can fail after the college check (ids that no student has are simply not fetched).
- SendKeepsGroupsSound: assumes that no group id minted at the current millisecond is already in use (`FreshAt`). The source relies on the clock having advanced since any group was founded.
- VerifyKeepsGroupsSound: stated for stores that already satisfy the group invariants (`GroupsSound`). Those invariants rule out a sender with a hostel choice but no group, the one case where the "new_group" count would let a two-member group into a one-bed hostel.
- AllocateRoomsToGroup: models the run with both findings corrected. A run with only the import corrected, in which a group unit saves its room and allocation and then fails on the first member's `save` (roomAllocator.js:221-244), is not modelled: the run's stop-at-failure promise holds only for steps that either commit completely or write nothing.
- MutualGroupsAreComponents: the equivalence is stated for two different students, because a student joined to nobody is in no group at all.

## Findings

| source | as written | input that shows it | evidently intended | confidence | as-written member | corrected member |
|---|---|---|---|---|---|---|
| backend/controllers/allocationController.js:5 | binds the whole module object that groupGraph.js:123 exports, so calling it at line 15 throws a TypeError and every run ends in "Final Room Allocation failed" | any college id, e.g. a college with no accepted requests and no unallocated students | bind the exported `buildMutualGroups` function | not executed | AllocationController.AllocateRoomsAsWritten, AllocationController.ImportFindingWitness | AllocationController.AllocateRoomsToGroup |
| backend/utils/roomAllocator.js:242 | calls `student.save()` on the plain objects that `.lean()` (groupGraph.js:102) returns, so after the room and the allocation are saved the first member throws and no member is flagged allocated | a group of two unallocated students whose leader's hostel has a room with two free places | load the members as documents (or update them through the model), so that each member is saved as allocated | not executed | RoomAllocator.AllocateRoomForGroupLean, RoomAllocator.LeanGroupLeavesMembersUnallocated | RoomAllocator.AllocateRoomForGroup |

The corrected run `AllocationController.AllocateRoomsToGroup` carries both corrections: it calls the group discovery as the exported function, and its `Step` places each group with the corrected `RoomAllocator.AllocateRoomForGroup`.
