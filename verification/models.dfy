/** The records of backend/models: students, hostels, rooms, allocations and roommate
    requests, and the store that holds them. Object ids are opaque strings; a collection's
    natural order is the order of its sequence. */
module Models {

  datatype Option<+T> = None | Some(value: T)

  type StudentId = string
  type HostelId = string
  type RoomId = string
  type CollegeId = string
  type GroupId = string

  datatype Gender = Male | Female | Other

  /** The only room capacities a hostel may declare. */
  type RoomCapacity = c: nat | 1 <= c <= 3 witness 1

  /** A student; groupId, isLeader, groupHostelChoice and isRegistered are the fields the
      roommate controller reads and writes. */
  datatype Student = Student(
    id: StudentId,
    name: string,
    rollNo: string,
    gender: Gender,
    college: CollegeId,
    preferredHostel: Option<HostelId>,
    isAllocated: bool,
    allocation: Option<nat>,
    groupId: Option<GroupId>,
    isLeader: bool,
    groupHostelChoice: Option<HostelId>,
    isRegistered: bool)

  datatype Hostel = Hostel(
    id: HostelId,
    name: string,
    gender: Gender,
    college: CollegeId,
    totalRooms: nat,
    roomCapacity: RoomCapacity,
    allowedYears: seq<nat>,
    isAvailableForAllocation: bool)

  datatype Room = Room(
    id: RoomId,
    hostel: HostelId,
    roomNumber: string,
    capacity: nat,
    occupants: seq<StudentId>,
    isFull: bool)

  /** One placement: a room and the students put into it together. Its id is its position
      in the store's allocation list. */
  datatype Allocation = Allocation(room: RoomId, students: seq<StudentId>, college: CollegeId)

  datatype RequestStatus = Pending | Accepted | Rejected | Timeout

  /** A roommate request; createdAt is in milliseconds. */
  datatype RoommateRequest = RoommateRequest(
    from: StudentId,
    to: StudentId,
    otp: string,
    status: RequestStatus,
    groupId: GroupId,
    createdAt: nat,
    college: Option<CollegeId>)

  /** The database: roster is the natural order of the student collection. */
  datatype Store = Store(
    roster: seq<StudentId>,
    students: map<StudentId, Student>,
    hostels: seq<Hostel>,
    rooms: seq<Room>,
    allocations: seq<Allocation>,
    requests: seq<RoommateRequest>)

  /** Every error the core raises or answers with. */
  datatype Error =
    | CollegeIdRequired
    | NullReference
    | NoAvailableRoom
    | NoAvailableRoomForGroup
    | SaveOnPlainObject
    | NotAFunction
    | StudentAlreadyAllocated(name: string)
    | FinalAllocationFailed(cause: Error)
    | StudentsNotFound
    | SelfRequest
    | GenderMismatch
    | CollegeMismatch
    | OneAlreadyAllocated
    | AlreadyInSameGroup
    | InAnotherGroup
    | RequestAlreadyPending
    | HostelChoiceRequired
    | HostelNotFound
    | HostelGenderMismatch
    | NotGroupLeader
    | GroupFull(maxAllowed: nat)
    | InvalidOtpOrExpired
    | InvalidGroupState

  datatype Result<+T> = Ok(value: T) | Err(error: Error) {
    predicate IsFailure() {
      Err?
    }

    function PropagateFailure<U>(): Result<U>
      requires Err?
    {
      Err(error)
    }

    function Extract(): T
      requires Ok?
    {
      value
    }
  }

  /** The store's map is keyed by each student's own id. */
  ghost predicate KeyedById(st: Store) {
    forall id :: id in st.students ==> st.students[id].id == id
  }

  /** ps lists positions below n in strictly increasing order. */
  ghost predicate Ascending(ps: seq<int>, n: int) {
    (forall k :: 0 <= k < |ps| ==> 0 <= ps[k] < n) &&
    forall k, l :: 0 <= k < l < |ps| ==> ps[k] < ps[l]
  }

  /** r is the elements of src at the positions ps, in that order. */
  ghost predicate Sublist<T>(ps: seq<int>, src: seq<T>, r: seq<T>) {
    Ascending(ps, |src|) && |ps| == |r| && forall k :: 0 <= k < |ps| ==> r[k] == src[ps[k]]
  }

  /** r is the stored records of the ids of order at the positions ps, in that order: what a
      query returns when it scans the collection in order. */
  ghost predicate PickedAt(ps: seq<int>, students: map<StudentId, Student>, order: seq<StudentId>, r: seq<Student>) {
    Ascending(ps, |order|) && |ps| == |r| &&
    forall k :: 0 <= k < |ps| ==> order[ps[k]] in students && r[k] == students[order[ps[k]]]
  }

  /** Every position moved one place on. */
  function Shift(ps: seq<int>): (qs: seq<int>)
    ensures |qs| == |ps| && forall k :: 0 <= k < |ps| ==> qs[k] == ps[k] + 1
  {
    seq(|ps|, k requires 0 <= k < |ps| => ps[k] + 1)
  }

  /** Positions of a tail, moved one place on, are positions of the whole list; so are they
      with the head's position 0 in front. */
  lemma AscendingCons(ps: seq<int>, n: nat)
    requires Ascending(ps, n)
    ensures Ascending(Shift(ps), n + 1) && Ascending([0] + Shift(ps), n + 1)
  {
    var qs := [0] + Shift(ps);
    assert forall k :: 0 < k < |qs| ==> qs[k] == ps[k - 1] + 1;
  }

  /** Picking from the tail of a list is picking from the list, one position on, with or
      without its head. */
  lemma SublistCons<T>(ps: seq<int>, src: seq<T>, r: seq<T>)
    requires |src| > 0 && Sublist(ps, src[1..], r)
    ensures Sublist(Shift(ps), src, r)
    ensures Sublist([0] + Shift(ps), src, [src[0]] + r)
  {
    AscendingCons(ps, |src[1..]|);
    var qs := Shift(ps);
    forall k | 0 <= k < |qs|
      ensures r[k] == src[qs[k]]
    {
      assert src[qs[k]] == src[1..][ps[k]];
    }
    var ws, rs := [0] + qs, [src[0]] + r;
    forall k | 0 <= k < |ws|
      ensures rs[k] == src[ws[k]]
    {
      if k > 0 {
        assert ws[k] == qs[k - 1] && rs[k] == r[k - 1];
      }
    }
  }

  lemma PickedCons(ps: seq<int>, students: map<StudentId, Student>, order: seq<StudentId>, r: seq<Student>)
    requires |order| > 0 && PickedAt(ps, students, order[1..], r)
    ensures PickedAt(Shift(ps), students, order, r)
    ensures order[0] in students ==> PickedAt([0] + Shift(ps), students, order, [students[order[0]]] + r)
  {
    AscendingCons(ps, |order[1..]|);
    var qs := Shift(ps);
    forall k | 0 <= k < |qs|
      ensures order[qs[k]] in students && r[k] == students[order[qs[k]]]
    {
      assert order[qs[k]] == order[1..][ps[k]];
    }
    if order[0] in students {
      var ws, rs := [0] + qs, [students[order[0]]] + r;
      forall k | 0 <= k < |ws|
        ensures order[ws[k]] in students && rs[k] == students[order[ws[k]]]
      {
        if k > 0 {
          assert ws[k] == qs[k - 1] && rs[k] == r[k - 1];
        }
      }
    }
  }

  function Ids(g: seq<Student>): (ids: seq<StudentId>)
    ensures |ids| == |g| && forall i :: 0 <= i < |g| ==> ids[i] == g[i].id
  {
    seq(|g|, i requires 0 <= i < |g| => g[i].id)
  }
}
