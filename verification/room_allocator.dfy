/** The placement engine of backend/utils/roomAllocator.js: hostel choice, best-fit room
    search with fallback to other hostels, and the commit of one unit into one room. */
module RoomAllocator {
  import opened Models

  /** Free slots of a room: capacity minus current occupants (negative if overfull). */
  function Free(r: Room): int {
    r.capacity - |r.occupants|
  }

  /** A room of hostel h that is not flagged full and has exactly (or at least) k free slots. */
  predicate Fits(r: Room, h: HostelId, k: nat, exact: bool) {
    r.hostel == h && !r.isFull && (if exact then Free(r) == k else Free(r) >= k)
  }

  /** `rooms.find(...)` over the non-full rooms of h, from position i on. */
  function FirstFitFrom(rooms: seq<Room>, h: HostelId, k: nat, exact: bool, i: nat): (r: Option<nat>)
    requires i <= |rooms|
    ensures r.Some? ==> i <= r.value < |rooms| && Fits(rooms[r.value], h, k, exact)
    ensures r.Some? ==> forall j :: i <= j < r.value ==> !Fits(rooms[j], h, k, exact)
    ensures r.None? ==> forall j :: i <= j < |rooms| ==> !Fits(rooms[j], h, k, exact)
    decreases |rooms| - i
  {
    if i == |rooms| then None
    else if Fits(rooms[i], h, k, exact) then Some(i)
    else FirstFitFrom(rooms, h, k, exact, i + 1)
  }

  /** No room of hostel h can take k more students. */
  ghost predicate NoFit(rooms: seq<Room>, h: HostelId, k: nat) {
    forall j :: 0 <= j < |rooms| ==> !Fits(rooms[j], h, k, false)
  }

  /** Room i is the best fit for k students in hostel h: the first exact fit if there is one,
      otherwise the first room with enough free slots. */
  ghost predicate BestFit(rooms: seq<Room>, h: HostelId, k: nat, i: nat) {
    && i < |rooms|
    && Fits(rooms[i], h, k, false)
    && if exists j :: 0 <= j < |rooms| && Fits(rooms[j], h, k, true)
       then Fits(rooms[i], h, k, true) && forall j :: 0 <= j < i ==> !Fits(rooms[j], h, k, true)
       else forall j :: 0 <= j < i ==> !Fits(rooms[j], h, k, false)
  }

  /** Exact fit first, then any room with enough space, within one hostel. */
  function PickRoom(rooms: seq<Room>, h: HostelId, k: nat): (r: Option<nat>)
    ensures r.Some? ==> BestFit(rooms, h, k, r.value)
    ensures r.None? <==> NoFit(rooms, h, k)
  {
    match FirstFitFrom(rooms, h, k, true, 0)
    case Some(i) => Some(i)
    case None => FirstFitFrom(rooms, h, k, false, 0)
  }

  /** The hostel has at least one room not flagged full. */
  predicate HasOpenRoom(rooms: seq<Room>, h: HostelId) {
    exists j :: 0 <= j < |rooms| && rooms[j].hostel == h && !rooms[j].isFull
  }

  predicate Eligible(h: Hostel, college: CollegeId, gender: Gender) {
    h.college == college && h.gender == gender
  }

  /** `Hostel.findOne({college, gender}).sort({roomCapacity: -1})`, searched from position i:
      the first eligible hostel with the largest room capacity. */
  function WidestFrom(hs: seq<Hostel>, college: CollegeId, gender: Gender, i: nat): (r: Option<nat>)
    requires i <= |hs|
    ensures r.None? <==> forall j :: i <= j < |hs| ==> !Eligible(hs[j], college, gender)
    ensures r.Some? ==> i <= r.value < |hs| && Eligible(hs[r.value], college, gender)
    ensures r.Some? ==> forall j :: i <= j < |hs| && Eligible(hs[j], college, gender) ==>
      hs[j].roomCapacity <= hs[r.value].roomCapacity
    ensures r.Some? ==> forall j :: i <= j < r.value && Eligible(hs[j], college, gender) ==>
      hs[j].roomCapacity < hs[r.value].roomCapacity
    decreases |hs| - i
  {
    if i == |hs| then None
    else
      var rest := WidestFrom(hs, college, gender, i + 1);
      if !Eligible(hs[i], college, gender) then rest
      else if rest.None? || hs[rest.value].roomCapacity <= hs[i].roomCapacity then Some(i)
      else rest
  }

  /** The hostel a unit starts from: its own preference, else the widest eligible hostel.
      With no eligible hostel the source dereferences null. */
  function TargetHostel(hs: seq<Hostel>, s: Student): (r: Result<HostelId>)
    ensures s.preferredHostel.Some? ==> r == Ok(s.preferredHostel.value)
    ensures s.preferredHostel.None? && r.Ok? ==>
      exists i :: (0 <= i < |hs| && hs[i].id == r.value
        && Eligible(hs[i], s.college, s.gender)
        && forall j :: 0 <= j < |hs| && Eligible(hs[j], s.college, s.gender) ==>
             hs[j].roomCapacity <= hs[i].roomCapacity)
    ensures r.Err? <==> s.preferredHostel.None? && forall j :: 0 <= j < |hs| ==> !Eligible(hs[j], s.college, s.gender)
    ensures r.Err? ==> r.error == NullReference
  {
    match s.preferredHostel
    case Some(h) => Ok(h)
    case None =>
      match WidestFrom(hs, s.college, s.gender, 0)
      case None => Err(NullReference)
      case Some(i) => Ok(hs[i].id)
  }

  /** `Hostel.find({college, gender, _id: {$ne: except}})`. */
  function OtherHostels(hs: seq<Hostel>, college: CollegeId, gender: Gender, except: HostelId): (r: seq<Hostel>)
    ensures forall x :: x in r <==> x in hs && Eligible(x, college, gender) && x.id != except
  {
    if |hs| == 0 then []
    else
      var rest := OtherHostels(hs[1..], college, gender, except);
      if Eligible(hs[0], college, gender) && hs[0].id != except then [hs[0]] + rest else rest
  }

  /** The other hostels are the eligible ones other than `except`, in store order. */
  lemma {:induction false} OtherHostelsInOrder(hs: seq<Hostel>, college: CollegeId, gender: Gender, except: HostelId, i: nat)
    requires i < |hs| && Eligible(hs[i], college, gender) && hs[i].id != except
    requires forall j :: 0 <= j < i ==> !(Eligible(hs[j], college, gender) && hs[j].id != except)
    ensures |OtherHostels(hs, college, gender, except)| > 0
    ensures OtherHostels(hs, college, gender, except)[0] == hs[i]
  {
    if i > 0 {
      OtherHostelsInOrder(hs[1..], college, gender, except, i - 1);
    }
  }

  /** The group fallback: the first hostel of hs (in order) that has a fitting room wins. */
  function SearchHostels(rooms: seq<Room>, hs: seq<Hostel>, k: nat): (r: Option<nat>)
    ensures r.None? <==> forall m :: 0 <= m < |hs| ==> NoFit(rooms, hs[m].id, k)
    ensures r.Some? ==>
      exists m :: (0 <= m < |hs| && BestFit(rooms, hs[m].id, k, r.value)
        && forall m' :: 0 <= m' < m ==> NoFit(rooms, hs[m'].id, k))
  {
    if |hs| == 0 then None
    else
      match PickRoom(rooms, hs[0].id, k)
      case Some(i) => Some(i)
      case None =>
        var r := SearchHostels(rooms, hs[1..], k);
        if r.Some? then
          assert exists m :: (0 <= m < |hs| && BestFit(rooms, hs[m].id, k, r.value)
            && forall m' :: 0 <= m' < m ==> NoFit(rooms, hs[m'].id, k))
          by {
            var m :| 0 <= m < |hs| - 1 && BestFit(rooms, hs[1..][m].id, k, r.value)
              && forall m' :: 0 <= m' < m ==> NoFit(rooms, hs[1..][m'].id, k);
            assert BestFit(rooms, hs[m + 1].id, k, r.value);
            forall m' | 0 <= m' < m + 1 ensures NoFit(rooms, hs[m'].id, k) {
              if m' > 0 { assert hs[m'] == hs[1..][m' - 1]; }
            }
          }
          r
        else
          assert forall m :: 0 <= m < |hs| ==> NoFit(rooms, hs[m].id, k) by {
            forall m | 0 <= m < |hs| ensures NoFit(rooms, hs[m].id, k) {
              if m > 0 { assert hs[m] == hs[1..][m - 1]; }
            }
          }
          r
  }

  /** A successful placement: the new store and the id of the new allocation. */
  datatype Placement = Placement(store: Store, allocation: nat)

  /** `student.isAllocated = true; student.allocation = a; save()` for every listed id. */
  function MarkAllocated(students: map<StudentId, Student>, ids: seq<StudentId>, a: nat): (r: map<StudentId, Student>)
    ensures r.Keys == students.Keys
    ensures forall id :: id in students ==>
      r[id] == if id in ids then students[id].(isAllocated := true, allocation := Some(a)) else students[id]
  {
    if |ids| == 0 then students
    else
      var rest := MarkAllocated(students, ids[1..], a);
      assert forall id :: id in ids <==> id == ids[0] || id in ids[1..];
      if ids[0] in rest then rest[ids[0] := rest[ids[0]].(isAllocated := true, allocation := Some(a))] else rest
  }

  /** The commit: append the unit to room i, flag it full when capacity is reached, record one
      allocation and mark every member allocated with it. */
  function Commit(st: Store, i: nat, ids: seq<StudentId>, college: CollegeId): Placement
    requires i < |st.rooms|
  {
    var room := st.rooms[i];
    var occ := room.occupants + ids;
    var a := |st.allocations|;
    Placement(
      st.(rooms := st.rooms[i := room.(occupants := occ, isFull := room.isFull || |occ| == room.capacity)],
          allocations := st.allocations + [Allocation(room.id, ids, college)],
          students := MarkAllocated(st.students, ids, a)),
      a)
  }

  /** p places exactly `ids` into the non-full room i of st: the room gains exactly those
      occupants and is flagged full iff it reached its capacity, one allocation listing exactly
      them and that room is appended, each of them is marked allocated with it, and nothing
      else in the store changes. */
  ghost predicate PlacedInto(st: Store, p: Placement, i: nat, ids: seq<StudentId>, college: CollegeId) {
    && i < |st.rooms|
    && var room := st.rooms[i];
    && !room.isFull
    && |p.store.rooms| == |st.rooms|
    && (forall j :: 0 <= j < |st.rooms| && j != i ==> p.store.rooms[j] == st.rooms[j])
    && p.store.rooms[i].id == room.id && p.store.rooms[i].hostel == room.hostel
    && p.store.rooms[i].capacity == room.capacity
    && p.store.rooms[i].occupants == room.occupants + ids
    && (p.store.rooms[i].isFull <==> |p.store.rooms[i].occupants| == room.capacity)
    && p.allocation == |st.allocations|
    && p.store.allocations == st.allocations + [Allocation(room.id, ids, college)]
    && p.store.students.Keys == st.students.Keys
    && (forall id :: id in st.students && id in ids ==>
          p.store.students[id] == st.students[id].(isAllocated := true, allocation := Some(p.allocation)))
    && (forall id :: id in st.students && id !in ids ==> p.store.students[id] == st.students[id])
    && p.store.roster == st.roster && p.store.hostels == st.hostels && p.store.requests == st.requests
  }

  /** Committing into a best-fit room for the unit never overfills it. */
  lemma CommitWithinCapacity(st: Store, i: nat, ids: seq<StudentId>, college: CollegeId, h: HostelId)
    requires i < |st.rooms| && Fits(st.rooms[i], h, |ids|, false)
    ensures PlacedInto(st, Commit(st, i, ids, college), i, ids, college)
    ensures |Commit(st, i, ids, college).store.rooms[i].occupants| <= st.rooms[i].capacity
  {
  }

  /** allocateRoomForStudent. The preferred (else widest) hostel is searched if it has a room
      not flagged full; only if it has none is the first other eligible hostel searched. */
  function AllocateRoomForStudent(st: Store, s: Student): (r: Result<Placement>)
    ensures TargetHostel(st.hostels, s).Err? ==> r == Err(NullReference)
    ensures TargetHostel(st.hostels, s).Ok? ==>
      var h := TargetHostel(st.hostels, s).value;
      var others := OtherHostels(st.hostels, s.college, s.gender, h);
      var searched := if HasOpenRoom(st.rooms, h) || |others| == 0 then h else others[0].id;
      && (r.Err? <==> NoFit(st.rooms, searched, 1))
      && (r.Err? ==> r.error == NoAvailableRoom)
      && (r.Ok? ==> exists i :: BestFit(st.rooms, searched, 1, i) && PlacedInto(st, r.value, i, [s.id], s.college))
  {
    var h :- TargetHostel(st.hostels, s);
    var others := OtherHostels(st.hostels, s.college, s.gender, h);
    var searched := if HasOpenRoom(st.rooms, h) || |others| == 0 then h else others[0].id;
    match PickRoom(st.rooms, searched, 1)
    case None => Err(NoAvailableRoom)
    case Some(i) =>
      CommitWithinCapacity(st, i, [s.id], s.college, searched);
      Ok(Commit(st, i, [s.id], s.college))
  }

  /** Outcome of allocateRoomForGroup: `null` when a member is already allocated. */
  datatype GroupOutcome = Skipped | Placed(placement: Placement)

  predicate AnyAllocated(g: seq<Student>) {
    exists i :: 0 <= i < |g| && g[i].isAllocated
  }

  /** No room of h nor of any of the fallback hostels can take k students. */
  ghost predicate Unplaceable(rooms: seq<Room>, h: HostelId, others: seq<Hostel>, k: nat) {
    NoFit(rooms, h, k) && forall m :: 0 <= m < |others| ==> NoFit(rooms, others[m].id, k)
  }

  /** Room i is where a group of k lands: the best fit of h, or, when h has none, the best
      fit of the first fallback hostel that has one. */
  ghost predicate GroupChoice(rooms: seq<Room>, h: HostelId, others: seq<Hostel>, k: nat, i: nat) {
    BestFit(rooms, h, k, i) ||
    (NoFit(rooms, h, k) &&
     exists m :: (0 <= m < |others| && BestFit(rooms, others[m].id, k, i)
       && forall m' :: 0 <= m' < m ==> NoFit(rooms, others[m'].id, k)))
  }

  /** Room search for a group of size k: best fit in the leader's hostel h, else the first of
      the other eligible hostels (in order) holding a fitting room. */
  function GroupRoom(st: Store, leader: Student, h: HostelId, k: nat): (r: Option<nat>)
    ensures var others := OtherHostels(st.hostels, leader.college, leader.gender, h);
      && (r.None? <==> Unplaceable(st.rooms, h, others, k))
      && (r.Some? ==> GroupChoice(st.rooms, h, others, k, r.value))
  {
    var others := OtherHostels(st.hostels, leader.college, leader.gender, h);
    var here := PickRoom(st.rooms, h, k);
    if here.Some? then here
    else
      var there := SearchHostels(st.rooms, others, k);
      assert NoFit(st.rooms, h, k);
      there
  }

  /** allocateRoomForGroup. A group with an allocated member is skipped untouched; an empty
      group has no leader to read; otherwise the whole group goes into one room that has
      space for all of them (GroupPlacementSearch says which room). */
  function AllocateRoomForGroup(st: Store, g: seq<Student>): (r: Result<GroupOutcome>)
    ensures AnyAllocated(g) <==> r == Ok(Skipped)
    ensures !AnyAllocated(g) && |g| == 0 ==> r == Err(NullReference)
    ensures r.Ok? && r.value.Placed? ==>
      (|g| > 0 &&
       exists i: nat :: PlacedInto(st, r.value.placement, i, Ids(g), g[0].college) && Free(st.rooms[i]) >= |g|)
  {
    if AnyAllocated(g) then Ok(Skipped)
    else if |g| == 0 then Err(NullReference)
    else
      var leader := g[0];
      var h :- TargetHostel(st.hostels, leader);
      var pick := GroupRoom(st, leader, h, |g|);
      if pick.None? then Err(NoAvailableRoomForGroup)
      else
        var i := pick.value;
        CommitWithinCapacity(st, i, Ids(g), leader.college, st.rooms[i].hostel);
        Ok(Placed(Commit(st, i, Ids(g), leader.college)))
  }

  /** Where a group lands: the best fit in the leader's hostel; failing that, the best fit in
      the first other eligible hostel (in store order) that has one; the group fails with
      "No available room found for group." exactly when no eligible hostel has a room for
      all of its members. A missing hostel is a null dereference. */
  lemma GroupPlacementSearch(st: Store, g: seq<Student>)
    requires !AnyAllocated(g) && |g| > 0
    ensures TargetHostel(st.hostels, g[0]).Err? ==> AllocateRoomForGroup(st, g) == Err(NullReference)
    ensures TargetHostel(st.hostels, g[0]).Ok? ==>
      var r := AllocateRoomForGroup(st, g);
      var h := TargetHostel(st.hostels, g[0]).value;
      var others := OtherHostels(st.hostels, g[0].college, g[0].gender, h);
      && (r.Err? <==> Unplaceable(st.rooms, h, others, |g|))
      && (r.Err? ==> r.error == NoAvailableRoomForGroup)
      && (r.Ok? ==>
            (r.value.Placed? &&
             exists i: nat :: PlacedInto(st, r.value.placement, i, Ids(g), g[0].college)
               && GroupChoice(st.rooms, h, others, |g|, i)))
  {
    var leader := g[0];
    var t := TargetHostel(st.hostels, leader);
    if t.Ok? {
      var h := t.value;
      var others := OtherHostels(st.hostels, leader.college, leader.gender, h);
      var pick := GroupRoom(st, leader, h, |g|);
      if pick.Some? {
        var i := pick.value;
        var p := Commit(st, i, Ids(g), leader.college);
        CommitWithinCapacity(st, i, Ids(g), leader.college, st.rooms[i].hostel);
        assert AllocateRoomForGroup(st, g) == Ok(Placed(p));
        assert PlacedInto(st, p, i, Ids(g), leader.college) && GroupChoice(st.rooms, h, others, |g|, i);
      } else {
        assert AllocateRoomForGroup(st, g) == Err(NoAvailableRoomForGroup);
      }
    }
  }

  /** Every room holds at most its capacity and is flagged full exactly when it is full. */
  ghost predicate RoomsConsistent(st: Store) {
    forall j :: 0 <= j < |st.rooms| ==>
      |st.rooms[j].occupants| <= st.rooms[j].capacity
      && (st.rooms[j].isFull <==> |st.rooms[j].occupants| == st.rooms[j].capacity)
  }

  /** A placement into a room that fits the unit keeps every room consistent. */
  lemma PlacedIntoKeepsRooms(st: Store, p: Placement, i: nat, ids: seq<StudentId>, college: CollegeId)
    requires RoomsConsistent(st) && PlacedInto(st, p, i, ids, college)
    requires Free(st.rooms[i]) >= |ids|
    ensures RoomsConsistent(p.store)
  {
    forall j | 0 <= j < |p.store.rooms|
      ensures |p.store.rooms[j].occupants| <= p.store.rooms[j].capacity
      ensures p.store.rooms[j].isFull <==> |p.store.rooms[j].occupants| == p.store.rooms[j].capacity
    {
      if j != i {
        assert p.store.rooms[j] == st.rooms[j];
      }
    }
  }

  /** Single placements keep every room within capacity. */
  lemma StudentPlacementKeepsRooms(st: Store, s: Student)
    requires RoomsConsistent(st) && AllocateRoomForStudent(st, s).Ok?
    ensures RoomsConsistent(AllocateRoomForStudent(st, s).value.store)
  {
    var p := AllocateRoomForStudent(st, s).value;
    var i: nat :| PlacedInto(st, p, i, [s.id], s.college) && Free(st.rooms[i]) >= 1;
    PlacedIntoKeepsRooms(st, p, i, [s.id], s.college);
  }

  /** Group placements keep every room within capacity. */
  lemma GroupPlacementKeepsRooms(st: Store, g: seq<Student>)
    requires RoomsConsistent(st) && AllocateRoomForGroup(st, g).Ok? && AllocateRoomForGroup(st, g).value.Placed?
    ensures RoomsConsistent(AllocateRoomForGroup(st, g).value.placement.store)
  {
    var p := AllocateRoomForGroup(st, g).value.placement;
    var i: nat :| PlacedInto(st, p, i, Ids(g), g[0].college) && Free(st.rooms[i]) >= |g|;
    PlacedIntoKeepsRooms(st, p, i, Ids(g), g[0].college);
  }

  /** What allocateRoomForGroup leaves behind when it can fail half-way: the store as
      written so far, and the outcome. */
  datatype GroupAttempt = GroupAttempt(store: Store, outcome: Result<GroupOutcome>)

  /** allocateRoomForGroup as written, run on the members as the group discovery hands them
      over: `.lean()` makes them plain objects without `save`, so once a room is chosen the
      room and the allocation record are saved and the first `student.save()` throws. Every
      other path behaves as AllocateRoomForGroup. */
  function AllocateRoomForGroupLean(st: Store, g: seq<Student>): (r: GroupAttempt)
    ensures r.store.students == st.students
    ensures r.outcome.Ok? ==> r.store == st && r.outcome == AllocateRoomForGroup(st, g)
    ensures !(AllocateRoomForGroup(st, g).Ok? && AllocateRoomForGroup(st, g).value.Placed?) ==>
      r == GroupAttempt(st, AllocateRoomForGroup(st, g))
  {
    match AllocateRoomForGroup(st, g)
    case Ok(Placed(p)) => GroupAttempt(p.store.(students := st.students), Err(SaveOnPlainObject))
    case other => GroupAttempt(st, other)
  }

  /** The discrepancy: wherever the corrected group placement succeeds, the as-written one
      reports an error after persisting the room change and the allocation, and leaves every
      member unflagged, although the corrected one flags each of them allocated. */
  lemma LeanGroupLeavesMembersUnallocated(st: Store, g: seq<Student>)
    requires AllocateRoomForGroup(st, g).Ok? && AllocateRoomForGroup(st, g).value.Placed?
    requires forall k :: 0 <= k < |g| ==> g[k].id in st.students && st.students[g[k].id] == g[k]
    ensures var p := AllocateRoomForGroup(st, g).value.placement;
      var lean := AllocateRoomForGroupLean(st, g);
      && lean.outcome == Err(SaveOnPlainObject)
      && lean.store.rooms == p.store.rooms && lean.store.rooms != st.rooms
      && lean.store.allocations == p.store.allocations
      && |lean.store.allocations| == |st.allocations| + 1
      && forall k :: 0 <= k < |g| ==>
           !lean.store.students[g[k].id].isAllocated && p.store.students[g[k].id].isAllocated
  {
    var p := AllocateRoomForGroup(st, g).value.placement;
    var i: nat :| PlacedInto(st, p, i, Ids(g), g[0].college) && Free(st.rooms[i]) >= |g|;
    assert p.store.rooms[i].occupants != st.rooms[i].occupants by {
      assert |p.store.rooms[i].occupants| == |st.rooms[i].occupants| + |g|;
    }
    forall k | 0 <= k < |g|
      ensures !st.students[g[k].id].isAllocated && p.store.students[g[k].id].isAllocated
    {
      assert !g[k].isAllocated;
      assert Ids(g)[k] == g[k].id;
    }
  }
}
