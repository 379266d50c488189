/** The final allocation run of backend/controllers/allocationController.js: every mutual
    group of the college is placed first, then every remaining unallocated student alone; the
    first failure aborts the run, and what was committed before it stays. */
module AllocationController {
  import opened Models
  import opened RoomAllocator
  import opened GroupGraph

  /** `Student.find({college, isAllocated: false})`, in natural order. */
  function Unallocated(st: Store, c: CollegeId): (r: seq<Student>)
    ensures forall s :: s in r <==>
      exists id :: id in st.roster && id in st.students && s == st.students[id] && s.college == c && !s.isAllocated
  {
    UnallocatedFrom(st.students, st.roster, c)
  }

  function UnallocatedFrom(students: map<StudentId, Student>, order: seq<StudentId>, c: CollegeId): (r: seq<Student>)
    ensures forall s :: s in r <==>
      exists id :: id in order && id in students && s == students[id] && s.college == c && !s.isAllocated
  {
    if |order| == 0 then []
    else
      var rest := UnallocatedFrom(students, order[1..], c);
      assert forall id :: id in order <==> id == order[0] || id in order[1..];
      if order[0] in students && students[order[0]].college == c && !students[order[0]].isAllocated
      then [students[order[0]]] + rest
      else rest
  }

  /** The query scans the roster in order: its answer is a sublist of the roster's records. */
  lemma UnallocatedInOrder(st: Store, c: CollegeId)
    ensures exists ps :: PickedAt(ps, st.students, st.roster, Unallocated(st, c))
  {
    UnallocatedFromInOrder(st.students, st.roster, c);
    var ps :| PickedAt(ps, st.students, st.roster, UnallocatedFrom(st.students, st.roster, c));
    assert PickedAt(ps, st.students, st.roster, Unallocated(st, c));
  }

  lemma {:induction false} UnallocatedFromInOrder(students: map<StudentId, Student>, order: seq<StudentId>, c: CollegeId)
    ensures exists ps :: PickedAt(ps, students, order, UnallocatedFrom(students, order, c))
    decreases |order|
  {
    if |order| == 0 {
      assert PickedAt([], students, order, UnallocatedFrom(students, order, c));
    } else {
      UnallocatedFromInOrder(students, order[1..], c);
      var ps :| PickedAt(ps, students, order[1..], UnallocatedFrom(students, order[1..], c));
      var rest := UnallocatedFrom(students, order[1..], c);
      PickedCons(ps, students, order, rest);
      if order[0] in students && students[order[0]].college == c && !students[order[0]].isAllocated {
        assert PickedAt([0] + Shift(ps), students, order, UnallocatedFrom(students, order, c));
      } else {
        assert PickedAt(Shift(ps), students, order, UnallocatedFrom(students, order, c));
      }
    }
  }

  /** `mutualGroups.flat().map((s) => s._id)`. */
  function GroupedIds(groups: seq<seq<Student>>): (r: seq<StudentId>)
    ensures forall id :: id in r <==> exists t :: 0 <= t < |groups| && id in Ids(groups[t])
  {
    if |groups| == 0 then []
    else
      var rest := GroupedIds(groups[1..]);
      assert forall t :: 0 < t < |groups| ==> groups[t] == groups[1..][t - 1];
      Ids(groups[0]) + rest
  }

  /** The unallocated students that are in no group, order kept. */
  function Ungrouped(unallocated: seq<Student>, grouped: seq<StudentId>): (r: seq<Student>)
    ensures forall s :: s in r <==> s in unallocated && s.id !in grouped
  {
    if |unallocated| == 0 then []
    else
      var rest := Ungrouped(unallocated[1..], grouped);
      assert forall s :: s in unallocated <==> s == unallocated[0] || s in unallocated[1..];
      if unallocated[0].id !in grouped then [unallocated[0]] + rest else rest
  }

  /** `filter` keeps the order: the singles are a sublist of the unallocated students. */
  lemma {:induction false} UngroupedInOrder(unallocated: seq<Student>, grouped: seq<StudentId>)
    ensures exists ps :: Sublist(ps, unallocated, Ungrouped(unallocated, grouped))
    decreases |unallocated|
  {
    if |unallocated| == 0 {
      assert Sublist([], unallocated, Ungrouped(unallocated, grouped));
    } else {
      UngroupedInOrder(unallocated[1..], grouped);
      var ps :| Sublist(ps, unallocated[1..], Ungrouped(unallocated[1..], grouped));
      SublistCons(ps, unallocated, Ungrouped(unallocated[1..], grouped));
      if unallocated[0].id !in grouped {
        assert Sublist([0] + Shift(ps), unallocated, Ungrouped(unallocated, grouped));
      } else {
        assert Sublist(Shift(ps), unallocated, Ungrouped(unallocated, grouped));
      }
    }
  }

  /** One placement job of the run. */
  datatype Unit = GroupUnit(members: seq<Student>) | SingleUnit(student: Student)

  /** The students a unit places. */
  function UnitIds(u: Unit): seq<StudentId> {
    match u
    case GroupUnit(g) => Ids(g)
    case SingleUnit(s) => [s.id]
  }

  /** The college its allocation is recorded under: the leader's, or the student's own. */
  function UnitCollege(u: Unit): CollegeId {
    match u
    case GroupUnit(g) => if |g| > 0 then g[0].college else []
    case SingleUnit(s) => s.college
  }

  /** The groups in their order, then the singles in theirs. */
  function Units(groups: seq<seq<Student>>, singles: seq<Student>): (r: seq<Unit>)
    ensures |r| == |groups| + |singles|
    ensures forall t :: 0 <= t < |groups| ==> r[t] == GroupUnit(groups[t])
    ensures forall i :: 0 <= i < |singles| ==> r[|groups| + i] == SingleUnit(singles[i])
  {
    seq(|groups|, t requires 0 <= t < |groups| => GroupUnit(groups[t])) +
    seq(|singles|, i requires 0 <= i < |singles| => SingleUnit(singles[i]))
  }

  /** The first member flagged allocated: the name the error message reports. */
  function FirstAllocated(g: seq<Student>): (s: Student)
    requires AnyAllocated(g)
    ensures s in g && s.isAllocated
    ensures exists i :: 0 <= i < |g| && g[i] == s && forall j :: 0 <= j < i ==> !g[j].isAllocated
  {
    if g[0].isAllocated then g[0]
    else
      assert AnyAllocated(g[1..]) by {
        var i :| 0 <= i < |g| && g[i].isAllocated;
        assert g[1..][i - 1] == g[i];
      }
      var s := FirstAllocated(g[1..]);
      assert exists i :: 0 <= i < |g| && g[i] == s && forall j :: 0 <= j < i ==> !g[j].isAllocated by {
        var i :| 0 <= i < |g| - 1 && g[1..][i] == s && forall j :: 0 <= j < i ==> !g[1..][j].isAllocated;
        assert g[i + 1] == s;
        forall j | 0 <= j < i + 1 ensures !g[j].isAllocated {
          if j > 0 { assert g[j] == g[1..][j - 1]; }
        }
      }
      s
  }

  /** One iteration of either loop: the already-allocated check on the snapshot, then the
      unit's allocation. */
  function Step(st: Store, u: Unit): (r: Result<Placement>)
    ensures u.GroupUnit? && AnyAllocated(u.members) ==>
      r == Err(StudentAlreadyAllocated(FirstAllocated(u.members).name))
    ensures u.SingleUnit? && u.student.isAllocated ==> r == Err(StudentAlreadyAllocated(u.student.name))
    ensures r.Ok? ==>
      exists i: nat :: PlacedInto(st, r.value, i, UnitIds(u), UnitCollege(u)) && Free(st.rooms[i]) >= |UnitIds(u)|
  {
    match u
    case GroupUnit(g) =>
      if AnyAllocated(g) then Err(StudentAlreadyAllocated(FirstAllocated(g).name))
      else
        var out :- AllocateRoomForGroup(st, g);
        if out.Placed? then Ok(out.placement)
        else assert false; Err(NullReference)
    case SingleUnit(s) =>
      if s.isAllocated then Err(StudentAlreadyAllocated(s.name))
      else
        var p :- AllocateRoomForStudent(st, s);
        Ok(p)
  }

  /** The state of a run: the store, how many units were committed, and the error that
      stopped it, if any. */
  datatype Run = Run(store: Store, done: nat, failure: Option<Error>)

  /** What a committed step promises: its unit's students go into one room with space for
      them, recorded by one new allocation, and nothing else changes. */
  ghost predicate Commits(step: (Store, Unit) -> Result<Placement>) {
    forall st: Store, u: Unit :: step(st, u).Ok? ==>
      exists i: nat :: PlacedInto(st, step(st, u).value, i, UnitIds(u), UnitCollege(u)) && Free(st.rooms[i]) >= |UnitIds(u)|
  }

  /** Step keeps that promise. */
  lemma StepCommits()
    ensures Commits(Step)
  {
    forall st: Store, u: Unit | Step(st, u).Ok?
      ensures exists i: nat :: PlacedInto(st, Step(st, u).value, i, UnitIds(u), UnitCollege(u)) && Free(st.rooms[i]) >= |UnitIds(u)|
    {
    }
  }

  /** The units in order, each committed by step onto the store the previous ones left; the
      first failing unit stops the run with the store as it was before that unit. */
  function RunUnits(step: (Store, Unit) -> Result<Placement>, st: Store, units: seq<Unit>): (r: Run)
    ensures r.done <= |units|
    ensures r.failure.None? <==> r.done == |units|
    decreases |units|
  {
    if |units| == 0 then Run(st, 0, None)
    else
      match step(st, units[0])
      case Err(e) => Run(st, 0, Some(e))
      case Ok(p) =>
        var rest := RunUnits(step, p.store, units[1..]);
        Run(rest.store, rest.done + 1, rest.failure)
  }

  /** A committed unit adds one allocation listing exactly its students. */
  lemma StepAppends(step: (Store, Unit) -> Result<Placement>, st: Store, u: Unit)
    requires Commits(step) && step(st, u).Ok?
    ensures var a := step(st, u).value.store.allocations;
      |a| == |st.allocations| + 1 && a[..|st.allocations|] == st.allocations &&
      a[|st.allocations|].students == UnitIds(u)
  {
    var p := step(st, u).value;
    var i: nat :| PlacedInto(st, p, i, UnitIds(u), UnitCollege(u)) && Free(st.rooms[i]) >= |UnitIds(u)|;
    assert p.store.allocations == st.allocations + [Allocation(st.rooms[i].id, UnitIds(u), UnitCollege(u))];
  }

  /** fin is a followed by one allocation per unit among the first n, listing exactly that
      unit's students. */
  ghost predicate Appended(a: seq<Allocation>, fin: seq<Allocation>, units: seq<Unit>, n: nat)
    requires n <= |units|
  {
    && |fin| == |a| + n && fin[..|a|] == a
    && forall k :: 0 <= k < n ==> fin[|a| + k].students == UnitIds(units[k])
  }

  /** One allocation for the first unit followed by one for each of the rest is one for
      each unit. */
  lemma AppendShift(a: seq<Allocation>, mid: seq<Allocation>, fin: seq<Allocation>, units: seq<Unit>, done: nat)
    requires 0 < done <= |units|
    requires |mid| == |a| + 1 && mid[..|a|] == a && mid[|a|].students == UnitIds(units[0])
    requires Appended(mid, fin, units[1..], done - 1)
    ensures Appended(a, fin, units, done)
  {
    assert fin[..|a|] == mid[..|a|];
    forall k | 0 <= k < done
      ensures fin[|a| + k].students == UnitIds(units[k])
    {
      if k > 0 {
        assert fin[|mid| + (k - 1)].students == UnitIds(units[1..][k - 1]);
      } else {
        assert fin[|a|] == mid[|a|];
      }
    }
  }

  /** Each committed unit appends exactly one allocation, listing exactly its students, in
      unit order; allocations already there are kept. */
  lemma {:induction false} RunUnitsAppends(step: (Store, Unit) -> Result<Placement>, st: Store, units: seq<Unit>)
    requires Commits(step)
    ensures var r := RunUnits(step, st, units);
      Appended(st.allocations, r.store.allocations, units, r.done)
    decreases |units|
  {
    if |units| > 0 && step(st, units[0]).Ok? {
      var p := step(st, units[0]).value;
      StepAppends(step, st, units[0]);
      var rest := RunUnits(step, p.store, units[1..]);
      RunUnitsAppends(step, p.store, units[1..]);
      assert RunUnits(step, st, units) == Run(rest.store, rest.done + 1, rest.failure);
      AppendShift(st.allocations, p.store.allocations, rest.store.allocations, units, rest.done + 1);
    }
  }

  /** A run stops exactly at its first failing unit: the recorded error is what that unit
      gives on the store the committed units left, and the run goes no further. */
  lemma {:induction false} RunUnitsStopsAtFailure(step: (Store, Unit) -> Result<Placement>, st: Store, units: seq<Unit>)
    ensures var r := RunUnits(step, st, units);
      r.failure.Some? ==> step(r.store, units[r.done]) == Err(r.failure.value)
    decreases |units|
  {
    if |units| > 0 && step(st, units[0]).Ok? {
      var p := step(st, units[0]).value;
      RunUnitsStopsAtFailure(step, p.store, units[1..]);
      var r := RunUnits(step, st, units);
      if r.failure.Some? {
        assert units[r.done] == units[1..][r.done - 1];
      }
    }
  }

  /** No room is ever overfilled or mis-flagged by a run. */
  lemma {:induction false} RunUnitsKeepsRooms(step: (Store, Unit) -> Result<Placement>, st: Store, units: seq<Unit>)
    requires Commits(step) && RoomsConsistent(st)
    ensures RoomsConsistent(RunUnits(step, st, units).store)
    decreases |units|
  {
    if |units| > 0 && step(st, units[0]).Ok? {
      var p := step(st, units[0]).value;
      var i: nat :| PlacedInto(st, p, i, UnitIds(units[0]), UnitCollege(units[0])) && Free(st.rooms[i]) >= |UnitIds(units[0])|;
      PlacedIntoKeepsRooms(st, p, i, UnitIds(units[0]), UnitCollege(units[0]));
      RunUnitsKeepsRooms(step, p.store, units[1..]);
    }
  }

  /** A run never drops a student record or clears an allocated flag, and every student of a
      committed unit ends up allocated. */
  lemma {:induction false} RunUnitsAllocates(step: (Store, Unit) -> Result<Placement>, st: Store, units: seq<Unit>)
    requires Commits(step)
    ensures var r := RunUnits(step, st, units);
      && r.store.students.Keys == st.students.Keys
      && (forall id :: id in st.students && st.students[id].isAllocated ==> r.store.students[id].isAllocated)
      && (forall k, id :: 0 <= k < r.done && id in st.students && id in UnitIds(units[k]) ==>
            r.store.students[id].isAllocated)
    decreases |units|
  {
    if |units| > 0 && step(st, units[0]).Ok? {
      var p := step(st, units[0]).value;
      var i: nat :| PlacedInto(st, p, i, UnitIds(units[0]), UnitCollege(units[0])) && Free(st.rooms[i]) >= |UnitIds(units[0])|;
      RunUnitsAllocates(step, p.store, units[1..]);
      var r := RunUnits(step, st, units);
      forall k, id | 0 <= k < r.done && id in st.students && id in UnitIds(units[k])
        ensures r.store.students[id].isAllocated
      {
        if k > 0 {
          assert units[k] == units[1..][k - 1];
        }
      }
    }
  }

  /** What a run leaves is exactly what its committed units give on their own: they form a
      run with no failure. */
  lemma {:induction false} RunUnitsPrefix(step: (Store, Unit) -> Result<Placement>, st: Store, units: seq<Unit>)
    ensures var r := RunUnits(step, st, units);
      RunUnits(step, st, units[..r.done]) == Run(r.store, r.done, None)
    decreases |units|
  {
    var r := RunUnits(step, st, units);
    if |units| > 0 && step(st, units[0]).Ok? {
      var p := step(st, units[0]).value;
      RunUnitsPrefix(step, p.store, units[1..]);
      var pre := units[..r.done];
      assert pre[0] == units[0] && pre[1..] == units[1..][..r.done - 1];
    } else {
      assert units[..r.done] == [];
    }
  }

  /** The outcome of allocateRoomsToGroup: the store as the run left it, and `{success: true}`
      or the wrapped error. */
  datatype RunResult = RunResult(store: Store, outcome: Result<()>)

  /** The work list of a run for college c: its mutual groups, then the unallocated students
      of the college that are in none of them. */
  function Plan(st: Store, c: CollegeId, groups: seq<seq<Student>>): (units: seq<Unit>)
    ensures |units| == |groups| + |Ungrouped(Unallocated(st, c), GroupedIds(groups))|
  {
    Units(groups, Ungrouped(Unallocated(st, c), GroupedIds(groups)))
  }

  /** allocateRoomsToGroup with both findings corrected: the group discovery is called as
      the exported function (the import finding), and each group is placed by the corrected
      `AllocateRoomForGroup`, which saves its members as allocated (the lean-records finding),
      through `Step`. Any failure, of the discovery or of a unit, is reported as "Final Room
      Allocation failed"; units committed before it stay committed. */
  function AllocateRoomsToGroup(st: Store, collegeId: Option<CollegeId>): (r: RunResult)
    ensures collegeId.None? || collegeId.value == [] ==>
      r == RunResult(st, Err(FinalAllocationFailed(CollegeIdRequired)))
    ensures r.outcome.Err? ==> r.outcome.error.FinalAllocationFailed?
  {
    match BuildMutualGroups(st, collegeId)
    case Err(e) => RunResult(st, Err(FinalAllocationFailed(e)))
    case Ok(groups) =>
      var run := RunUnits(Step, st, Plan(st, collegeId.value, groups));
      if run.failure.Some? then RunResult(run.store, Err(FinalAllocationFailed(run.failure.value)))
      else RunResult(run.store, Ok(()))
  }

  /** A run over groups then singles that does not fail places every student of a group and
      every single. */
  lemma RunPlacesEveryone(step: (Store, Unit) -> Result<Placement>, st: Store, groups: seq<seq<Student>>, singles: seq<Student>, s: Student)
    requires Commits(step) && s.id in st.students
    requires (exists t :: 0 <= t < |groups| && s.id in Ids(groups[t])) || s in singles
    ensures var r := RunUnits(step, st, Units(groups, singles));
      r.failure.None? ==> s.id in r.store.students && r.store.students[s.id].isAllocated
  {
    var units := Units(groups, singles);
    RunUnitsAllocates(step, st, units);
    if exists t :: 0 <= t < |groups| && s.id in Ids(groups[t]) {
      var t :| 0 <= t < |groups| && s.id in Ids(groups[t]);
      assert UnitIds(units[t]) == Ids(groups[t]);
    } else {
      var i :| 0 <= i < |singles| && singles[i] == s;
      assert UnitIds(units[|groups| + i]) == [s.id];
    }
  }

  /** after is before followed by one allocation per group, in group order, then one per
      single, in order. */
  ghost predicate GroupsThenSingles(before: seq<Allocation>, after: seq<Allocation>, groups: seq<seq<Student>>, singles: seq<Student>) {
    var n := |before|;
    && |after| == n + |groups| + |singles|
    && after[..n] == before
    && (forall t :: 0 <= t < |groups| ==> after[n + t].students == Ids(groups[t]))
    && (forall i :: 0 <= i < |singles| ==> after[n + |groups| + i].students == [singles[i].id])
  }

  /** A run over groups then singles that does not fail records the groups' allocations
      first, in order, then the singles'. */
  lemma RunGroupsFirst(step: (Store, Unit) -> Result<Placement>, st: Store, groups: seq<seq<Student>>, singles: seq<Student>)
    requires Commits(step)
    ensures var r := RunUnits(step, st, Units(groups, singles));
      r.failure.None? ==> GroupsThenSingles(st.allocations, r.store.allocations, groups, singles)
  {
    var units := Units(groups, singles);
    var r := RunUnits(step, st, units);
    var n := |st.allocations|;
    RunUnitsAppends(step, st, units);
    if r.failure.None? {
      forall i | 0 <= i < |singles|
        ensures r.store.allocations[n + |groups| + i].students == [singles[i].id]
      {
        assert r.store.allocations[n + (|groups| + i)].students == UnitIds(units[|groups| + i]);
      }
    }
  }

  /** A run for college c in the successful case places every student that was unallocated
      in c when it started. */
  lemma AllocateRoomsAllocatesEveryone(st: Store, c: CollegeId)
    requires c != [] && KeyedById(st)
    ensures var r := AllocateRoomsToGroup(st, Some(c));
      r.outcome.Ok? ==>
        forall s :: s in Unallocated(st, c) ==> s.id in r.store.students && r.store.students[s.id].isAllocated
  {
    var groups := BuildMutualGroups(st, Some(c)).value;
    var singles := Ungrouped(Unallocated(st, c), GroupedIds(groups));
    StepCommits();
    forall s | s in Unallocated(st, c)
      ensures var run := RunUnits(Step, st, Units(groups, singles));
        run.failure.None? ==> s.id in run.store.students && run.store.students[s.id].isAllocated
    {
      assert s.id in st.students;
      RunPlacesEveryone(Step, st, groups, singles, s);
    }
  }

  /** A successful run records one allocation per group, in group order, and after them one
      per ungrouped student, in roster order; earlier allocations are kept. */
  lemma AllocateRoomsGroupsFirst(st: Store, c: CollegeId)
    requires c != []
    ensures var r := AllocateRoomsToGroup(st, Some(c));
      var groups := BuildMutualGroups(st, Some(c)).value;
      r.outcome.Ok? ==>
        GroupsThenSingles(st.allocations, r.store.allocations, groups, Ungrouped(Unallocated(st, c), GroupedIds(groups)))
  {
    var groups := BuildMutualGroups(st, Some(c)).value;
    var singles := Ungrouped(Unallocated(st, c), GroupedIds(groups));
    StepCommits();
    RunGroupsFirst(Step, st, groups, singles);
  }

  /** A failed run stops at its first failing unit: the store keeps exactly what the units
      before it committed, and the error is that unit's, wrapped. */
  lemma AllocateRoomsStopsAtFailure(st: Store, c: CollegeId)
    requires c != []
    ensures var r := AllocateRoomsToGroup(st, Some(c));
      var plan := Plan(st, c, BuildMutualGroups(st, Some(c)).value);
      r.outcome.Err? ==> exists d :: (0 <= d < |plan| &&
        RunUnits(Step, st, plan[..d]) == Run(r.store, d, None) &&
        Step(r.store, plan[d]).Err? &&
        r.outcome.error == FinalAllocationFailed(Step(r.store, plan[d]).error))
  {
    var plan := Plan(st, c, BuildMutualGroups(st, Some(c)).value);
    RunUnitsPrefix(Step, st, plan);
    RunUnitsStopsAtFailure(Step, st, plan);
  }

  /** No run, successful or not, overfills or mis-flags a room. */
  lemma AllocateRoomsKeepsRooms(st: Store, collegeId: Option<CollegeId>)
    requires RoomsConsistent(st)
    ensures RoomsConsistent(AllocateRoomsToGroup(st, collegeId).store)
  {
    if collegeId.Some? && collegeId.value != [] {
      var plan := Plan(st, collegeId.value, BuildMutualGroups(st, collegeId).value);
      StepCommits();
      RunUnitsKeepsRooms(Step, st, plan);
    }
  }

  /** allocateRoomsToGroup as written: the group discovery module is bound whole rather than
      its exported function, so calling it throws a TypeError after the read-only student
      query and before any write, and the run reports "Final Room Allocation failed" whatever
      the store and the college. */
  function AllocateRoomsAsWritten(st: Store, collegeId: Option<CollegeId>): (r: RunResult)
    ensures r.store == st && r.outcome.Err? && r.outcome.error.FinalAllocationFailed?
  {
    RunResult(st, Err(FinalAllocationFailed(NotAFunction)))
  }

  /** The discrepancy: for a college with no accepted roommate requests and nobody left to
      place, the corrected run succeeds without writing anything, while the run as written
      fails. */
  lemma ImportFindingWitness(st: Store, c: CollegeId)
    requires c != [] && AcceptedRequests(st.requests, c) == [] && Unallocated(st, c) == []
    ensures AllocateRoomsToGroup(st, Some(c)) == RunResult(st, Ok(()))
    ensures AllocateRoomsAsWritten(st, Some(c)).outcome.Err?
  {
    var groups := BuildMutualGroups(st, Some(c)).value;
    assert groups == [];
    assert Ungrouped(Unallocated(st, c), GroupedIds(groups)) == [];
    assert Plan(st, c, groups) == [];
  }
}
