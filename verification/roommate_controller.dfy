/** The roommate-group admission rules of backend/controllers/roommateController.js: the
    checks a roommate request must pass before it is recorded, and the group transition an
    accepted OTP performs. Time is a millisecond clock value handed in; the OTP is an opaque
    string. */
module RoommateController {
  import opened Models

  /** How long a request's OTP stays valid: ten minutes, in milliseconds. */
  const OtpLifetime: nat := 10 * 60 * 1000

  /** The group id a member lookup falls back to when the sender has none. */
  const NoGroupPlaceholder: GroupId := "new_group"

  /** A group id counts only when it is present and not empty, as JavaScript tests it. */
  predicate Grouped(s: Student) {
    s.groupId.Some? && s.groupId.value != []
  }

  /** Decimal spelling of n. */
  function Digits(n: nat): (r: string)
    ensures |r| >= 1 && forall i :: 0 <= i < |r| ==> '0' <= r[i] <= '9'
    decreases n
  {
    var d := [(('0' as int) + n % 10) as char];
    if n < 10 then d else Digits(n / 10) + d
  }

  /** The id of a group founded by student id at clock value now. */
  function GroupIdFor(id: StudentId, now: nat): (g: GroupId)
    ensures g != [] && g != NoGroupPlaceholder
  {
    var g := "group_" + id + "_" + Digits(now);
    assert g[0] == 'g' != NoGroupPlaceholder[0];
    g
  }

  /** The student matches a lookup by roll number, within a college when one is given. */
  predicate RollMatches(s: Student, roll: string, college: Option<CollegeId>) {
    s.rollNo == roll && (college.None? || s.college == college.value)
  }

  /** `Student.findOne({rollNo, college})`: the first matching student in natural order. */
  function FindByRoll(st: Store, roll: string, college: Option<CollegeId>): (r: Option<Student>)
    ensures r.Some? ==> exists id :: id in st.roster && id in st.students && st.students[id] == r.value
    ensures r.Some? ==> RollMatches(r.value, roll, college)
    ensures r.None? <==>
      forall id :: id in st.roster && id in st.students ==> !RollMatches(st.students[id], roll, college)
  {
    FindByRollFrom(st.students, st.roster, roll, college)
  }

  function FindByRollFrom(students: map<StudentId, Student>, order: seq<StudentId>, roll: string, college: Option<CollegeId>): (r: Option<Student>)
    ensures r.Some? ==> exists id :: id in order && id in students && students[id] == r.value
    ensures r.Some? ==> RollMatches(r.value, roll, college)
    ensures r.None? <==>
      forall id :: id in order && id in students ==> !RollMatches(students[id], roll, college)
  {
    if |order| == 0 then None
    else
      assert forall id :: id in order <==> id == order[0] || id in order[1..];
      if order[0] in students && RollMatches(students[order[0]], roll, college) then Some(students[order[0]])
      else FindByRollFrom(students, order[1..], roll, college)
  }

  /** `Hostel.findById(id)`: the first hostel with that id. */
  function HostelById(hs: seq<Hostel>, id: Option<HostelId>): (r: Option<Hostel>)
    ensures r.Some? <==> id.Some? && exists k :: 0 <= k < |hs| && hs[k].id == id.value
    ensures r.Some? ==> r.value in hs && r.value.id == id.value
  {
    if id.None? || |hs| == 0 then None
    else if hs[0].id == id.value then Some(hs[0])
    else
      var r := HostelById(hs[1..], id);
      assert forall k :: 0 < k < |hs| ==> hs[k] == hs[1..][k - 1];
      r
  }

  /** The ids of the students of college c whose group id is g:
      `Student.find({groupId: g, college: c})`. */
  function GroupMembers(st: Store, g: GroupId, c: CollegeId): set<StudentId> {
    set id | id in st.students && st.students[id].groupId == Some(g) && st.students[id].college == c
  }

  /** A pending request between a and b, in either direction. */
  ghost predicate PendingBetween(reqs: seq<RoommateRequest>, a: StudentId, b: StudentId) {
    exists k :: 0 <= k < |reqs| && reqs[k].status == Pending &&
      ((reqs[k].from == a && reqs[k].to == b) || (reqs[k].from == b && reqs[k].to == a))
  }

  /** `RoommateRequest.findOne({$or: [...], status: "pending"})`, as a yes/no. */
  function AnyPendingBetween(reqs: seq<RoommateRequest>, a: StudentId, b: StudentId): (r: bool)
    ensures r <==> PendingBetween(reqs, a, b)
  {
    if |reqs| == 0 then false
    else
      var rest := AnyPendingBetween(reqs[1..], a, b);
      assert forall k :: 0 < k < |reqs| ==> reqs[k] == reqs[1..][k - 1];
      assert rest ==> PendingBetween(reqs, a, b) by {
        if rest {
          var k :| 0 <= k < |reqs[1..]| && reqs[1..][k].status == Pending &&
            ((reqs[1..][k].from == a && reqs[1..][k].to == b) || (reqs[1..][k].from == b && reqs[1..][k].to == a));
          assert reqs[k + 1] == reqs[1..][k];
        }
      }
      (reqs[0].status == Pending &&
       ((reqs[0].from == a && reqs[0].to == b) || (reqs[0].from == b && reqs[0].to == a))) || rest
  }

  /** The request matches `findOne({from, to, otp, status: "pending"})`. */
  predicate Awaits(q: RoommateRequest, from: StudentId, to: StudentId, otp: string) {
    q.from == from && q.to == to && q.otp == otp && q.status == Pending
  }

  /** The position of the first request awaiting verification with this OTP. */
  function FindRequest(reqs: seq<RoommateRequest>, from: StudentId, to: StudentId, otp: string): (r: Option<nat>)
    ensures r.Some? ==> r.value < |reqs| && Awaits(reqs[r.value], from, to, otp)
    ensures r.Some? ==> forall k :: 0 <= k < r.value ==> !Awaits(reqs[k], from, to, otp)
    ensures r.None? <==> forall k :: 0 <= k < |reqs| ==> !Awaits(reqs[k], from, to, otp)
  {
    if |reqs| == 0 then None
    else if Awaits(reqs[0], from, to, otp) then Some(0)
    else
      var r := FindRequest(reqs[1..], from, to, otp);
      assert forall k :: 0 < k < |reqs| ==> reqs[k] == reqs[1..][k - 1];
      if r.Some? then Some(r.value + 1) else None
  }

  /** The OTP of a request created at createdAt has lapsed at clock value now. */
  predicate Expired(createdAt: nat, now: nat) {
    now - createdAt > OtpLifetime
  }

  /** The store after a request handler, and its answer. */
  datatype Reply = Reply(store: Store, result: Result<()>)

  /** Write a student record back under its id. */
  function Save(st: Store, s: Student): (r: Store)
    ensures r.students == st.students[s.id := s]
    ensures r.roster == st.roster && r.hostels == st.hostels && r.rooms == st.rooms
    ensures r.allocations == st.allocations && r.requests == st.requests
  {
    st.(students := st.students[s.id := s])
  }

  /** The sender's group and hostel once the group step of sendRoommateRequest is done: an
      ungrouped sender founds a group, leads it and fixes its hostel, and that is saved even
      when a later check fails; a grouped sender's saved choice is looked up. */
  datatype GroupSetup = GroupSetup(store: Store, sender: Student, group: GroupId, hostel: Option<Hostel>)

  /** The sender as the founder and leader of group g, housed in hostel h. */
  function Founder(from: Student, g: GroupId, h: HostelId): Student {
    from.(groupId := Some(g), isLeader := true, groupHostelChoice := Some(h))
  }

  function FoundOrJoin(st: Store, from: Student, hostelId: Option<HostelId>, now: nat): (r: Result<GroupSetup>)
    ensures Grouped(from) ==>
      r == Ok(GroupSetup(st, from, from.groupId.value, HostelById(st.hostels, from.groupHostelChoice)))
    ensures !Grouped(from) ==>
      && (r.Err? <==> hostelId.None? || hostelId.value == [] || HostelById(st.hostels, hostelId).None?
                      || HostelById(st.hostels, hostelId).value.gender != from.gender)
      && (r.Err? ==> r.error in {HostelChoiceRequired, HostelNotFound, HostelGenderMismatch})
      && (r.Ok? ==>
            && HostelById(st.hostels, hostelId).Some? && r.value.hostel == HostelById(st.hostels, hostelId)
            && r.value.group == GroupIdFor(from.id, now)
            && r.value.sender == Founder(from, r.value.group, r.value.hostel.value.id)
            && r.value.store == Save(st, r.value.sender))
  {
    if Grouped(from) then
      Ok(GroupSetup(st, from, from.groupId.value, HostelById(st.hostels, from.groupHostelChoice)))
    else
      var g := GroupIdFor(from.id, now);
      if hostelId.None? || hostelId.value == [] then Err(HostelChoiceRequired)
      else
        match HostelById(st.hostels, hostelId)
        case None => Err(HostelNotFound)
        case Some(h) =>
          if h.gender != from.gender then Err(HostelGenderMismatch)
          else
            var leader := Founder(from, g, h.id);
            Ok(GroupSetup(Save(st, leader), leader, g, Some(h)))
  }

  /** sendRoommateRequest, from the sender's roll number and college to the recorded
      request. The OTP is an input; its e-mail delivery is not modelled. */
  function SendRoommateRequest(st: Store, fromRoll: string, college: CollegeId, toRoll: string,
                               hostelId: Option<HostelId>, now: nat, otp: string): (r: Reply)
    ensures FindByRoll(st, fromRoll, Some(college)).None? || FindByRoll(st, toRoll, Some(college)).None? ==>
      r == Reply(st, Err(StudentsNotFound))
  {
    var fromFound := FindByRoll(st, fromRoll, Some(college));
    var toFound := FindByRoll(st, toRoll, Some(college));
    if fromFound.None? || toFound.None? then Reply(st, Err(StudentsNotFound))
    else
      var from, to := fromFound.value, toFound.value;
      if from.id == to.id then Reply(st, Err(SelfRequest))
      else if from.gender != to.gender then Reply(st, Err(GenderMismatch))
      else if from.isAllocated || to.isAllocated then Reply(st, Err(OneAlreadyAllocated))
      else if Grouped(from) && from.groupId == to.groupId then Reply(st, Err(AlreadyInSameGroup))
      else if Grouped(to) && to.groupId != from.groupId then Reply(st, Err(InAnotherGroup))
      else if AnyPendingBetween(st.requests, from.id, to.id) then Reply(st, Err(RequestAlreadyPending))
      else AdmitRequest(st, from, to, college, hostelId, now, otp)
  }

  /** Past the checks on the two students: the sender's group is founded or looked up, then
      the leader and size checks, then the request is recorded. Only the founding sender and
      the new request are ever written. */
  function AdmitRequest(st: Store, from: Student, to: Student, college: CollegeId,
                        hostelId: Option<HostelId>, now: nat, otp: string): (r: Reply)
    ensures r.store.hostels == st.hostels
    ensures r.result.Err? ==>
      r.result.error in {HostelChoiceRequired, HostelNotFound, HostelGenderMismatch, NotGroupLeader, NullReference}
      || r.result.error.GroupFull?
    ensures Grouped(from) && !from.isLeader ==> r == Reply(st, Err(NotGroupLeader))
    ensures r.result.Err? ==> r.store.requests == st.requests
    ensures r.result.Ok? ==>
      && |r.store.requests| == |st.requests| + 1 && r.store.requests[..|st.requests|] == st.requests
      && Records(r.store.requests[|st.requests|], from, to, otp, now)
    ensures || r.store.students == st.students
            || (&& !Grouped(from) && HostelById(st.hostels, hostelId).Some?
                && r.store.students == Save(st, Founder(from, GroupIdFor(from.id, now), HostelById(st.hostels, hostelId).value.id)).students)
  {
    match FoundOrJoin(st, from, hostelId, now)
    case Err(e) => Reply(st, Err(e))
    case Ok(setup) =>
      var st1 := setup.store;
      if Grouped(setup.sender) && !setup.sender.isLeader then Reply(st1, Err(NotGroupLeader))
      else if setup.hostel.None? then Reply(st1, Err(NullReference))
      else
        var cap := setup.hostel.value.roomCapacity;
        if |GroupMembers(st1, setup.group, college)| + 1 > cap then Reply(st1, Err(GroupFull(cap)))
        else
          var q := RoommateRequest(from.id, to.id, otp, Pending, setup.group, now, Some(from.college));
          assert (st1.requests + [q])[..|st.requests|] == st.requests;
          Reply(st1.(requests := st1.requests + [q]), Ok(()))
  }

  /** verifyRoommateOtp: the recipient-side confirmation. Students are looked up by roll
      number alone. */
  function VerifyRoommateOtp(st: Store, fromRoll: string, toRoll: string, otp: string, now: nat): (r: Reply)
    ensures FindByRoll(st, fromRoll, None).None? || FindByRoll(st, toRoll, None).None? ==>
      r == Reply(st, Err(StudentsNotFound))
  {
    var fromFound := FindByRoll(st, fromRoll, None);
    var toFound := FindByRoll(st, toRoll, None);
    if fromFound.None? || toFound.None? then Reply(st, Err(StudentsNotFound))
    else
      var from, to := fromFound.value, toFound.value;
      if from.gender != to.gender then Reply(st, Err(GenderMismatch))
      else if from.college != to.college then Reply(st, Err(CollegeMismatch))
      else if from.isAllocated || to.isAllocated then Reply(st, Err(OneAlreadyAllocated))
      else
        match FindRequest(st.requests, from.id, to.id, otp)
        case None => Reply(st, Err(InvalidOtpOrExpired))
        case Some(k) =>
          if Expired(st.requests[k].createdAt, now) then Reply(st, Err(InvalidOtpOrExpired))
          else if Grouped(from) && !from.isLeader then Reply(st, Err(NotGroupLeader))
          else
            match HostelById(st.hostels, from.groupHostelChoice)
            case None => Reply(st, Err(HostelNotFound))
            case Some(h) =>
              var lookup := if Grouped(from) then from.groupId.value else NoGroupPlaceholder;
              if |GroupMembers(st, lookup, from.college)| + 1 > h.roomCapacity then
                Reply(st, Err(GroupFull(h.roomCapacity)))
              else if Grouped(to) then Reply(st, Err(InvalidGroupState))
              else
                var g := if Grouped(from) then from.groupId.value else GroupIdFor(from.id, now);
                var from' := from.(groupId := Some(g), isLeader := true, isRegistered := true);
                var to' := to.(groupId := Some(g), isLeader := false, isRegistered := true,
                               groupHostelChoice := from.groupHostelChoice);
                var st1 := Save(Save(st, to'), from');
                Reply(st1.(requests := st1.requests[k := st1.requests[k].(status := Accepted)]), Ok(()))
  }

  /** The request a successful sendRoommateRequest records. */
  predicate Records(q: RoommateRequest, from: Student, to: Student, otp: string, now: nat) {
    q.from == from.id && q.to == to.id && q.otp == otp && q.status == Pending &&
    q.createdAt == now && q.college == Some(from.college)
  }

  /** A request is recorded only when every check passed: two different students of the
      college, of one gender, neither allocated, the recipient in no group and no request
      already pending between them either way; the request is appended, pending, under the
      sender's group, and the sender leads that group in the new store. */
  lemma SendAccepted(st: Store, fromRoll: string, college: CollegeId, toRoll: string,
                     hostelId: Option<HostelId>, now: nat, otp: string)
    requires KeyedById(st)
    ensures var r := SendRoommateRequest(st, fromRoll, college, toRoll, hostelId, now, otp);
      r.result.Ok? ==>
        var from := FindByRoll(st, fromRoll, Some(college)).value;
        var to := FindByRoll(st, toRoll, Some(college)).value;
        && from.id != to.id && from.gender == to.gender && from.college == college
        && !from.isAllocated && !to.isAllocated
        && !Grouped(to) && !PendingBetween(st.requests, from.id, to.id)
        && |r.store.requests| == |st.requests| + 1
        && r.store.requests[..|st.requests|] == st.requests
        && Records(r.store.requests[|st.requests|], from, to, otp, now)
        && from.id in r.store.students
        && var sender := r.store.students[from.id];
           && Grouped(sender) && sender.isLeader
           && sender.groupId == Some(r.store.requests[|st.requests|].groupId)
           && HostelById(r.store.hostels, sender.groupHostelChoice).Some?
           && |GroupMembers(r.store, sender.groupId.value, college)| + 1
                <= HostelById(r.store.hostels, sender.groupHostelChoice).value.roomCapacity
           && (!Grouped(from) ==>
                 sender == Founder(from, GroupIdFor(from.id, now), hostelId.value)
                 && HostelById(r.store.hostels, hostelId).value.gender == from.gender)
  {
    var found := FindByRoll(st, fromRoll, Some(college));
    if found.Some? {
      FoundIsStored(st, found.value);
    }
  }

  /** A record found in a store keyed by id sits under its own id. */
  lemma FoundIsStored(st: Store, s: Student)
    requires KeyedById(st) && exists id :: id in st.roster && id in st.students && st.students[id] == s
    ensures s.id in st.students && st.students[s.id] == s
  {
    var id :| id in st.roster && id in st.students && st.students[id] == s;
  }

  /** The checks before the group step, in the order they are made: each one rejects exactly
      when the earlier ones passed and it fails. */
  lemma SendChecks(st: Store, fromRoll: string, college: CollegeId, toRoll: string,
                   hostelId: Option<HostelId>, now: nat, otp: string)
    requires FindByRoll(st, fromRoll, Some(college)).Some? && FindByRoll(st, toRoll, Some(college)).Some?
    ensures var r := SendRoommateRequest(st, fromRoll, college, toRoll, hostelId, now, otp);
      var from := FindByRoll(st, fromRoll, Some(college)).value;
      var to := FindByRoll(st, toRoll, Some(college)).value;
      var sameGroup := Grouped(from) && from.groupId == to.groupId;
      var otherGroup := Grouped(to) && to.groupId != from.groupId;
      && (r.result == Err(SelfRequest) <==> from.id == to.id)
      && (r.result == Err(GenderMismatch) <==> from.id != to.id && from.gender != to.gender)
      && (r.result == Err(OneAlreadyAllocated) <==>
            from.id != to.id && from.gender == to.gender && (from.isAllocated || to.isAllocated))
      && (r.result == Err(AlreadyInSameGroup) <==>
            from.id != to.id && from.gender == to.gender && !from.isAllocated && !to.isAllocated && sameGroup)
      && (r.result == Err(InAnotherGroup) <==>
            from.id != to.id && from.gender == to.gender && !from.isAllocated && !to.isAllocated &&
            !sameGroup && otherGroup)
      && (r.result == Err(RequestAlreadyPending) <==>
            from.id != to.id && from.gender == to.gender && !from.isAllocated && !to.isAllocated &&
            !sameGroup && !otherGroup && PendingBetween(st.requests, from.id, to.id))
  {
  }

  /** The checks on the two students write nothing, and a sender that is a member but not
      the leader of its group is refused before anything is written. */
  lemma SendChecksWriteNothing(st: Store, fromRoll: string, college: CollegeId, toRoll: string,
                               hostelId: Option<HostelId>, now: nat, otp: string)
    requires FindByRoll(st, fromRoll, Some(college)).Some? && FindByRoll(st, toRoll, Some(college)).Some?
    ensures var r := SendRoommateRequest(st, fromRoll, college, toRoll, hostelId, now, otp);
      var from := FindByRoll(st, fromRoll, Some(college)).value;
      var to := FindByRoll(st, toRoll, Some(college)).value;
      var sameGroup := Grouped(from) && from.groupId == to.groupId;
      var otherGroup := Grouped(to) && to.groupId != from.groupId;
      && ((r.result.Err? &&
           r.result.error in {SelfRequest, GenderMismatch, OneAlreadyAllocated, AlreadyInSameGroup,
                              InAnotherGroup, RequestAlreadyPending}) ==> r.store == st)
      && ((from.id != to.id && from.gender == to.gender && !from.isAllocated && !to.isAllocated &&
           !sameGroup && !otherGroup && !PendingBetween(st.requests, from.id, to.id) &&
           Grouped(from) && !from.isLeader) ==> r == Reply(st, Err(NotGroupLeader)))
  {
  }

  /** A rejected request writes nothing, except that a sender founding a group keeps it (as
      its leader, with the chosen hostel) when the hostel turns out to have no room for a
      second member. */
  lemma SendFailureWrites(st: Store, fromRoll: string, college: CollegeId, toRoll: string,
                          hostelId: Option<HostelId>, now: nat, otp: string)
    ensures var r := SendRoommateRequest(st, fromRoll, college, toRoll, hostelId, now, otp);
      r.result.Err? ==>
        || r.store == st
        || (var from := FindByRoll(st, fromRoll, Some(college)).value;
            && !Grouped(from) && r.result.error.GroupFull?
            && r.store == Save(st, Founder(from, GroupIdFor(from.id, now), hostelId.value)))
  {
  }

  /** The sender after a successful confirmation: in its group (a new one, founded now, if it
      had none), leading it, and registered. */
  function Confirmed(from: Student, now: nat): Student {
    var g := if Grouped(from) then from.groupId.value else GroupIdFor(from.id, now);
    from.(groupId := Some(g), isLeader := true, isRegistered := true)
  }

  /** The recipient after a successful confirmation: a registered non-leader member of the
      sender's group, housed in the sender's hostel. */
  function Joined(to: Student, leader: Student): Student {
    to.(groupId := leader.groupId, isLeader := false, isRegistered := true,
        groupHostelChoice := leader.groupHostelChoice)
  }

  /** A confirmation succeeds only for two unallocated students of one gender and college, the
      recipient in no group, a pending request from the sender to the recipient carrying this
      OTP and at most ten minutes old, a sender that leads its group if it has one, and a
      hostel choice with room for one more member. The request becomes accepted, the sender
      leads the (possibly new) group, the recipient joins it, and no other record changes. */
  lemma VerifyAccepted(st: Store, fromRoll: string, toRoll: string, otp: string, now: nat)
    requires KeyedById(st)
    ensures var r := VerifyRoommateOtp(st, fromRoll, toRoll, otp, now);
      r.result.Ok? ==>
        var from := FindByRoll(st, fromRoll, None).value;
        var to := FindByRoll(st, toRoll, None).value;
        var k := FindRequest(st.requests, from.id, to.id, otp).value;
        var h := HostelById(st.hostels, from.groupHostelChoice);
        && from.gender == to.gender && from.college == to.college
        && !from.isAllocated && !to.isAllocated && !Grouped(to)
        && (Grouped(from) ==> from.isLeader)
        && FindRequest(st.requests, from.id, to.id, otp).Some?
        && Awaits(st.requests[k], from.id, to.id, otp) && !Expired(st.requests[k].createdAt, now)
        && r.store.requests == st.requests[k := st.requests[k].(status := Accepted)]
        && h.Some?
        && |GroupMembers(st, if Grouped(from) then from.groupId.value else NoGroupPlaceholder, from.college)| + 1
             <= h.value.roomCapacity
        && r.store.students == st.students[to.id := Joined(to, Confirmed(from, now))][from.id := Confirmed(from, now)]
        && r.store.roster == st.roster && r.store.hostels == st.hostels
        && r.store.rooms == st.rooms && r.store.allocations == st.allocations
  {
  }

  /** A rejected confirmation writes nothing. */
  lemma VerifyFailureWritesNothing(st: Store, fromRoll: string, toRoll: string, otp: string, now: nat)
    ensures var r := VerifyRoommateOtp(st, fromRoll, toRoll, otp, now);
      r.result.Err? ==> r.store == st
  {
  }

  /** The checks of a confirmation, in order: each rejects exactly when the earlier ones
      passed and it fails. The request check looks at the first pending request from the
      sender to the recipient with this OTP only; the size check counts the sender's group, or
      the "new_group" placeholder for an ungrouped sender; and past every check, a recipient
      already in a group is refused as an invalid group state. */
  lemma VerifyChecks(st: Store, fromRoll: string, toRoll: string, otp: string, now: nat)
    requires FindByRoll(st, fromRoll, None).Some? && FindByRoll(st, toRoll, None).Some?
    ensures var r := VerifyRoommateOtp(st, fromRoll, toRoll, otp, now);
      var from := FindByRoll(st, fromRoll, None).value;
      var to := FindByRoll(st, toRoll, None).value;
      var q := FindRequest(st.requests, from.id, to.id, otp);
      var basic := from.gender == to.gender && from.college == to.college && !from.isAllocated && !to.isAllocated;
      var past := basic && q.Some? && !Expired(st.requests[q.value].createdAt, now) && !(Grouped(from) && !from.isLeader);
      var h := HostelById(st.hostels, from.groupHostelChoice);
      var lookup := if Grouped(from) then from.groupId.value else NoGroupPlaceholder;
      && (r.result == Err(GenderMismatch) <==> from.gender != to.gender)
      && (r.result == Err(CollegeMismatch) <==> from.gender == to.gender && from.college != to.college)
      && (r.result == Err(OneAlreadyAllocated) <==>
            from.gender == to.gender && from.college == to.college && (from.isAllocated || to.isAllocated))
      && (r.result == Err(InvalidOtpOrExpired) <==>
            basic && (q.None? || Expired(st.requests[q.value].createdAt, now)))
      && (r.result == Err(NotGroupLeader) <==>
            basic && q.Some? && !Expired(st.requests[q.value].createdAt, now) && Grouped(from) && !from.isLeader)
      && (r.result == Err(HostelNotFound) <==> past && h.None?)
      && (r.result.Err? && r.result.error.GroupFull? <==>
            past && h.Some? && |GroupMembers(st, lookup, from.college)| + 1 > h.value.roomCapacity)
      && (r.result == Err(InvalidGroupState) <==>
            past && h.Some? && |GroupMembers(st, lookup, from.college)| + 1 <= h.value.roomCapacity && Grouped(to))
  {
  }

  /** No request is addressed to its own sender: the request schema refuses to save one. */
  ghost predicate NoSelfRequests(reqs: seq<RoommateRequest>) {
    forall k :: 0 <= k < |reqs| ==> reqs[k].from != reqs[k].to
  }

  /** The members of any one group share a gender. */
  ghost predicate SingleGender(students: map<StudentId, Student>) {
    forall a, b ::
      (a in students && b in students && Grouped(students[a]) && students[a].groupId == students[b].groupId) ==>
        students[a].gender == students[b].gender
  }

  /** The members of any one group share a hostel choice. */
  ghost predicate SharedChoice(students: map<StudentId, Student>) {
    forall a, b ::
      (a in students && b in students && Grouped(students[a]) && students[a].groupId == students[b].groupId) ==>
        students[a].groupHostelChoice == students[b].groupHostelChoice
  }

  /** Only a student in a group holds a group hostel choice. */
  ghost predicate ChoiceNeedsGroup(students: map<StudentId, Student>) {
    forall a :: a in students && students[a].groupHostelChoice.Some? ==> Grouped(students[a])
  }

  /** Every group whose hostel exists has, counted per college as the controller counts it, no
      more members than a room of that hostel holds. */
  ghost predicate GroupsFit(st: Store) {
    forall a ::
      (a in st.students && Grouped(st.students[a]) && HostelById(st.hostels, st.students[a].groupHostelChoice).Some?) ==>
        |GroupMembers(st, st.students[a].groupId.value, st.students[a].college)|
          <= HostelById(st.hostels, st.students[a].groupHostelChoice).value.roomCapacity
  }

  /** The group invariants the two handlers keep. */
  ghost predicate GroupsSound(st: Store) {
    && KeyedById(st) && NoSelfRequests(st.requests)
    && SingleGender(st.students) && SharedChoice(st.students) && ChoiceNeedsGroup(st.students)
    && GroupsFit(st)
  }

  /** Student y of the map before stands for student x of the map after: same gender, group,
      hostel choice and college. */
  ghost predicate Mirrors(before: map<StudentId, Student>, y: StudentId, after: map<StudentId, Student>, x: StudentId) {
    x in after && y in before &&
    after[x].gender == before[y].gender && after[x].groupId == before[y].groupId &&
    after[x].groupHostelChoice == before[y].groupHostelChoice && after[x].college == before[y].college
  }

  /** If every record after mirrors some record before, the shape invariants carry over. */
  lemma MirroredShape(before: map<StudentId, Student>, after: map<StudentId, Student>, rep: StudentId -> StudentId)
    requires forall x :: x in after ==> Mirrors(before, rep(x), after, x)
    requires SingleGender(before) && SharedChoice(before) && ChoiceNeedsGroup(before)
    ensures SingleGender(after) && SharedChoice(after) && ChoiceNeedsGroup(after)
  {
    forall a, b | a in after && b in after && Grouped(after[a]) && after[a].groupId == after[b].groupId
      ensures after[a].gender == after[b].gender && after[a].groupHostelChoice == after[b].groupHostelChoice
    {
      assert Mirrors(before, rep(a), after, a) && Mirrors(before, rep(b), after, b);
    }
    forall a | a in after && after[a].groupHostelChoice.Some?
      ensures Grouped(after[a])
    {
      assert Mirrors(before, rep(a), after, a);
    }
  }

  /** Who is in group g of college c after to joins from's group. */
  lemma MembersAfterJoin(st: Store, st2: Store, from: Student, to: Student, g: GroupId, c: CollegeId)
    requires from.id in st.students && to.id in st.students && from.id != to.id && Grouped(from)
    requires st2.students == st.students[to.id := Joined(to, from.(isRegistered := true))][from.id := from.(isRegistered := true)]
    requires st.students[from.id] == from && st.students[to.id] == to && from.college == to.college
    ensures GroupMembers(st2, g, c) ==
      (GroupMembers(st, g, c) - {to.id}) + (if g == from.groupId.value && c == from.college then {to.id} else {})
  {
  }

  /** Adding one member who was not yet in the group grows its count by one; anything else
      only shrinks a count. */
  lemma CountAfterJoin(st: Store, st2: Store, from: Student, to: Student, g: GroupId, c: CollegeId)
    requires from.id in st.students && to.id in st.students && from.id != to.id && Grouped(from) && !Grouped(to)
    requires st2.students == st.students[to.id := Joined(to, from.(isRegistered := true))][from.id := from.(isRegistered := true)]
    requires st.students[from.id] == from && st.students[to.id] == to && from.college == to.college
    ensures g == from.groupId.value && c == from.college ==> |GroupMembers(st2, g, c)| == |GroupMembers(st, g, c)| + 1
    ensures !(g == from.groupId.value && c == from.college) ==> |GroupMembers(st2, g, c)| <= |GroupMembers(st, g, c)|
  {
    MembersAfterJoin(st, st2, from, to, g, c);
    var before := GroupMembers(st, g, c);
    if g == from.groupId.value && c == from.college {
      assert to.id !in before;
    } else {
      assert GroupMembers(st2, g, c) == before - {to.id};
    }
  }

  /** The recipient joining the sender's group keeps every group invariant, provided the
      group had room for one more in its hostel. */
  lemma JoinKeepsSound(st: Store, st2: Store, from: Student, to: Student, h: Hostel)
    requires GroupsSound(st)
    requires from.id in st.students && st.students[from.id] == from
    requires to.id in st.students && st.students[to.id] == to && from.id != to.id
    requires Grouped(from) && !Grouped(to) && from.gender == to.gender && from.college == to.college
    requires HostelById(st.hostels, from.groupHostelChoice) == Some(h)
    requires |GroupMembers(st, from.groupId.value, from.college)| + 1 <= h.roomCapacity
    requires st2.hostels == st.hostels
    requires st2.students == st.students[to.id := Joined(to, from.(isRegistered := true))][from.id := from.(isRegistered := true)]
    ensures KeyedById(st2) && SingleGender(st2.students) && SharedChoice(st2.students)
    ensures ChoiceNeedsGroup(st2.students) && GroupsFit(st2)
  {
    JoinKeepsShape(st, st2, from, to);
    forall a | a in st2.students && Grouped(st2.students[a]) && HostelById(st2.hostels, st2.students[a].groupHostelChoice).Some?
      ensures |GroupMembers(st2, st2.students[a].groupId.value, st2.students[a].college)|
                <= HostelById(st2.hostels, st2.students[a].groupHostelChoice).value.roomCapacity
    {
      JoinFitsOne(st, st2, from, to, h, a);
    }
  }

  /** Joining keeps records keyed by id, groups single-gender and one hostel choice per group:
      the recipient now mirrors the sender. */
  lemma JoinKeepsShape(st: Store, st2: Store, from: Student, to: Student)
    requires GroupsSound(st)
    requires from.id in st.students && st.students[from.id] == from
    requires to.id in st.students && st.students[to.id] == to && from.id != to.id
    requires from.gender == to.gender && from.college == to.college
    requires st2.students == st.students[to.id := Joined(to, from.(isRegistered := true))][from.id := from.(isRegistered := true)]
    ensures KeyedById(st2) && SingleGender(st2.students) && SharedChoice(st2.students)
    ensures ChoiceNeedsGroup(st2.students)
  {
    var rep := (x: StudentId) => if x == to.id then from.id else x;
    forall x | x in st2.students
      ensures Mirrors(st.students, rep(x), st2.students, x)
    {
    }
    MirroredShape(st.students, st2.students, rep);
  }

  /** After joining, the group of student a still fits a room of its hostel. */
  lemma JoinFitsOne(st: Store, st2: Store, from: Student, to: Student, h: Hostel, a: StudentId)
    requires GroupsSound(st)
    requires from.id in st.students && st.students[from.id] == from
    requires to.id in st.students && st.students[to.id] == to && from.id != to.id
    requires Grouped(from) && !Grouped(to) && from.college == to.college
    requires HostelById(st.hostels, from.groupHostelChoice) == Some(h)
    requires |GroupMembers(st, from.groupId.value, from.college)| + 1 <= h.roomCapacity
    requires st2.hostels == st.hostels
    requires st2.students == st.students[to.id := Joined(to, from.(isRegistered := true))][from.id := from.(isRegistered := true)]
    requires a in st2.students && Grouped(st2.students[a])
    requires HostelById(st2.hostels, st2.students[a].groupHostelChoice).Some?
    ensures |GroupMembers(st2, st2.students[a].groupId.value, st2.students[a].college)|
              <= HostelById(st2.hostels, st2.students[a].groupHostelChoice).value.roomCapacity
  {
    var y := if a == to.id then from.id else a;
    assert y in st.students && Grouped(st.students[y]);
    assert st2.students[a].groupId == st.students[y].groupId;
    assert st2.students[a].groupHostelChoice == st.students[y].groupHostelChoice;
    assert st2.students[a].college == st.students[y].college;
    var g, c := st2.students[a].groupId.value, st2.students[a].college;
    CountAfterJoin(st, st2, from, to, g, c);
    if g == from.groupId.value && c == from.college {
      assert st.students[y].groupHostelChoice == from.groupHostelChoice;
    }
  }

  /** Founding a group under an id nobody holds keeps every group invariant. */
  lemma FoundKeepsSound(st: Store, from: Student, g: GroupId, h: Hostel)
    requires GroupsSound(st)
    requires from.id in st.students && st.students[from.id] == from && !Grouped(from) && g != []
    requires forall b :: b in st.students ==> st.students[b].groupId != Some(g)
    requires HostelById(st.hostels, Some(h.id)) == Some(h)
    ensures var st2 := Save(st, Founder(from, g, h.id));
      && KeyedById(st2) && SingleGender(st2.students) && SharedChoice(st2.students)
      && ChoiceNeedsGroup(st2.students) && GroupsFit(st2)
  {
    var st2 := Save(st, Founder(from, g, h.id));
    forall a | a in st2.students && Grouped(st2.students[a]) && HostelById(st2.hostels, st2.students[a].groupHostelChoice).Some?
      ensures |GroupMembers(st2, st2.students[a].groupId.value, st2.students[a].college)|
                <= HostelById(st2.hostels, st2.students[a].groupHostelChoice).value.roomCapacity
    {
      FoundFitsOne(st, from, g, h, a);
    }
  }

  /** After founding, the group of student a still fits a room of its hostel: the new group
      has one member, and every other group lost at most the founder. */
  lemma FoundFitsOne(st: Store, from: Student, g: GroupId, h: Hostel, a: StudentId)
    requires GroupsSound(st)
    requires from.id in st.students && st.students[from.id] == from && !Grouped(from) && g != []
    requires forall b :: b in st.students ==> st.students[b].groupId != Some(g)
    requires HostelById(st.hostels, Some(h.id)) == Some(h)
    requires var st2 := Save(st, Founder(from, g, h.id));
      a in st2.students && Grouped(st2.students[a]) && HostelById(st2.hostels, st2.students[a].groupHostelChoice).Some?
    ensures var st2 := Save(st, Founder(from, g, h.id));
      |GroupMembers(st2, st2.students[a].groupId.value, st2.students[a].college)|
        <= HostelById(st2.hostels, st2.students[a].groupHostelChoice).value.roomCapacity
  {
    var st2 := Save(st, Founder(from, g, h.id));
    if a == from.id {
      assert GroupMembers(st2, g, from.college) == {from.id};
    } else {
      var g', c := st2.students[a].groupId.value, st2.students[a].college;
      assert GroupMembers(st2, g', c) <= GroupMembers(st, g', c);
      SubsetCount(GroupMembers(st2, g', c), GroupMembers(st, g', c));
    }
  }

  lemma SubsetCount<T>(a: set<T>, b: set<T>)
    requires a <= b
    ensures |a| <= |b|
  {
    assert b == a + (b - a);
  }

  /** No group id that a student would mint at clock value now is held yet. */
  ghost predicate FreshAt(st: Store, now: nat) {
    forall a, b :: a in st.students && b in st.students ==> st.students[b].groupId != Some(GroupIdFor(a, now))
  }

  /** Confirmations keep the group invariants: no group ever outgrows a room of its hostel,
      mixes genders or splits its hostel choice. */
  lemma VerifyKeepsGroupsSound(st: Store, fromRoll: string, toRoll: string, otp: string, now: nat)
    requires GroupsSound(st)
    ensures GroupsSound(VerifyRoommateOtp(st, fromRoll, toRoll, otp, now).store)
  {
    var r := VerifyRoommateOtp(st, fromRoll, toRoll, otp, now);
    if r.result.Ok? {
      VerifyAccepted(st, fromRoll, toRoll, otp, now);
      var from := FindByRoll(st, fromRoll, None).value;
      var to := FindByRoll(st, toRoll, None).value;
      FoundIsStored(st, from);
      FoundIsStored(st, to);
      var k := FindRequest(st.requests, from.id, to.id, otp).value;
      AcceptKeepsSound(st, r.store, from, to, k, HostelById(st.hostels, from.groupHostelChoice).value, now);
    } else {
      VerifyFailureWritesNothing(st, fromRoll, toRoll, otp, now);
    }
  }

  /** Accepting request k, with the recipient joining the sender's group, keeps the group
      invariants whenever the group had room for one more in its hostel. */
  lemma AcceptKeepsSound(st: Store, st2: Store, from: Student, to: Student, k: nat, h: Hostel, now: nat)
    requires GroupsSound(st)
    requires from.id in st.students && st.students[from.id] == from
    requires to.id in st.students && st.students[to.id] == to
    requires k < |st.requests| && st.requests[k].from == from.id && st.requests[k].to == to.id
    requires from.gender == to.gender && from.college == to.college && !Grouped(to)
    requires Grouped(from) ==> from.isLeader
    requires HostelById(st.hostels, from.groupHostelChoice) == Some(h)
    requires |GroupMembers(st, if Grouped(from) then from.groupId.value else NoGroupPlaceholder, from.college)| + 1
               <= h.roomCapacity
    requires st2.requests == st.requests[k := st.requests[k].(status := Accepted)]
    requires st2.hostels == st.hostels
    requires st2.students == st.students[to.id := Joined(to, Confirmed(from, now))][from.id := Confirmed(from, now)]
    ensures GroupsSound(st2)
  {
    assert from.id != to.id;
    assert ChoiceNeedsGroup(st.students) && st.students[from.id].groupHostelChoice.Some?;
    assert Grouped(st.students[from.id]);
    assert Confirmed(from, now) == from.(isRegistered := true);
    JoinKeepsSound(st, st2, from, to, h);
    assert NoSelfRequests(st2.requests) by {
      forall j | 0 <= j < |st2.requests|
        ensures st2.requests[j].from != st2.requests[j].to
      {
        assert st2.requests[j].from == st.requests[j].from && st2.requests[j].to == st.requests[j].to;
      }
    }
  }

  /** st2 differs from st at most by the sender founding its group under the id minted at
      `now`, and by one new request between two different students. */
  ghost predicate SendShape(st: Store, st2: Store, fromRoll: string, college: CollegeId,
                            hostelId: Option<HostelId>, now: nat)
  {
    && st2.hostels == st.hostels
    && (|| st2.requests == st.requests
        || (&& |st2.requests| == |st.requests| + 1
            && st2.requests[..|st.requests|] == st.requests
            && st2.requests[|st.requests|].from != st2.requests[|st.requests|].to))
    && (|| st2.students == st.students
        || (&& FindByRoll(st, fromRoll, Some(college)).Some?
            && var from := FindByRoll(st, fromRoll, Some(college)).value;
            && !Grouped(from) && from.id in st.students && st.students[from.id] == from
            && HostelById(st.hostels, hostelId).Some?
            && st2.students == Save(st, Founder(from, GroupIdFor(from.id, now), HostelById(st.hostels, hostelId).value.id)).students))
  }

  /** What a request can write: the sender founding its group, and one new request between
      two different students. */
  lemma SendWrites(st: Store, fromRoll: string, college: CollegeId, toRoll: string,
                   hostelId: Option<HostelId>, now: nat, otp: string)
    requires KeyedById(st)
    ensures SendShape(st, SendRoommateRequest(st, fromRoll, college, toRoll, hostelId, now, otp).store,
                      fromRoll, college, hostelId, now)
  {
    SendWritesRequests(st, fromRoll, college, toRoll, hostelId, now, otp);
    SendWritesStudents(st, fromRoll, college, toRoll, hostelId, now, otp);
  }

  /** A request keeps the hostels and the earlier requests, and adds at most one request,
      between two different students. */
  lemma SendWritesRequests(st: Store, fromRoll: string, college: CollegeId, toRoll: string,
                           hostelId: Option<HostelId>, now: nat, otp: string)
    ensures var st2 := SendRoommateRequest(st, fromRoll, college, toRoll, hostelId, now, otp).store;
      && st2.hostels == st.hostels
      && (|| st2.requests == st.requests
          || (&& |st2.requests| == |st.requests| + 1
              && st2.requests[..|st.requests|] == st.requests
              && st2.requests[|st.requests|].from != st2.requests[|st.requests|].to))
  {
  }

  /** A request changes no student record, except a sender in no group founding one. */
  lemma SendWritesStudents(st: Store, fromRoll: string, college: CollegeId, toRoll: string,
                           hostelId: Option<HostelId>, now: nat, otp: string)
    requires KeyedById(st)
    ensures var st2 := SendRoommateRequest(st, fromRoll, college, toRoll, hostelId, now, otp).store;
      || st2.students == st.students
      || (&& FindByRoll(st, fromRoll, Some(college)).Some?
          && var from := FindByRoll(st, fromRoll, Some(college)).value;
          && !Grouped(from) && from.id in st.students && st.students[from.id] == from
          && HostelById(st.hostels, hostelId).Some?
          && st2.students == Save(st, Founder(from, GroupIdFor(from.id, now), HostelById(st.hostels, hostelId).value.id)).students)
  {
    var found := FindByRoll(st, fromRoll, Some(college));
    if found.Some? {
      FoundIsStored(st, found.value);
    }
  }

  /** The group invariants read only the students, the hostels and the requests. */
  lemma SoundFromParts(st: Store, st2: Store)
    requires GroupsSound(st) && st2.students == st.students && st2.hostels == st.hostels
    requires NoSelfRequests(st2.requests)
    ensures GroupsSound(st2)
  {
    assert forall g, c :: GroupMembers(st2, g, c) == GroupMembers(st, g, c);
  }

  /** Any store a request can leave behind keeps the group invariants. */
  lemma ShapeKeepsSound(st: Store, st2: Store, fromRoll: string, college: CollegeId,
                        hostelId: Option<HostelId>, now: nat)
    requires GroupsSound(st) && FreshAt(st, now)
    requires SendShape(st, st2, fromRoll, college, hostelId, now)
    ensures GroupsSound(st2)
  {
    assert NoSelfRequests(st2.requests) by {
      if st2.requests != st.requests {
        forall j | 0 <= j < |st2.requests|
          ensures st2.requests[j].from != st2.requests[j].to
        {
          if j < |st.requests| {
            assert st2.requests[j] == st2.requests[..|st.requests|][j];
          }
        }
      }
    }
    if st2.students == st.students {
      SoundFromParts(st, st2);
    } else {
      var from := FindByRoll(st, fromRoll, Some(college)).value;
      var h := HostelById(st.hostels, hostelId).value;
      FoundKeepsSound(st, from, GroupIdFor(from.id, now), h);
      SoundFromParts(Save(st, Founder(from, GroupIdFor(from.id, now), h.id)), st2);
    }
  }

  /** Requests keep the group invariants too, as long as the clock has moved on since any
      group was founded: a founding sender starts a group of one. */
  lemma SendKeepsGroupsSound(st: Store, fromRoll: string, college: CollegeId, toRoll: string,
                             hostelId: Option<HostelId>, now: nat, otp: string)
    requires GroupsSound(st) && FreshAt(st, now)
    ensures GroupsSound(SendRoommateRequest(st, fromRoll, college, toRoll, hostelId, now, otp).store)
  {
    var r := SendRoommateRequest(st, fromRoll, college, toRoll, hostelId, now, otp);
    SendWrites(st, fromRoll, college, toRoll, hostelId, now, otp);
    ShapeKeepsSound(st, r.store, fromRoll, college, hostelId, now);
  }
}
