/** Roommate-group discovery of backend/utils/groupGraph.js: the accepted requests of one
    college are the edges of a graph over students, and the groups are its connected
    components with at least two members, found with the union-find. */
module GroupGraph {
  import opened Models
  import opened Connectivity
  import opened DisjointSet

  /** `RoommateRequest.find({college, status: "accepted"})`, in natural order. */
  function AcceptedRequests(reqs: seq<RoommateRequest>, c: CollegeId): (r: seq<RoommateRequest>)
    ensures forall q :: q in r <==> q in reqs && q.status == Accepted && q.college == Some(c)
  {
    if |reqs| == 0 then []
    else
      var rest := AcceptedRequests(reqs[1..], c);
      assert forall q :: q in reqs <==> q == reqs[0] || q in reqs[1..];
      if reqs[0].status == Accepted && reqs[0].college == Some(c) then [reqs[0]] + rest else rest
  }

  /** The requests as (from, to) edges between student ids. */
  function RequestPairs(reqs: seq<RoommateRequest>): (r: seq<(StudentId, StudentId)>)
    ensures |r| == |reqs| && forall k :: 0 <= k < |reqs| ==> r[k] == (reqs[k].from, reqs[k].to)
  {
    seq(|reqs|, k requires 0 <= k < |reqs| => (reqs[k].from, reqs[k].to))
  }

  ghost predicate NoDup<T>(s: seq<T>) {
    forall i, j :: 0 <= i < j < |s| ==> s[i] != s[j]
  }

  /** `Set.add`: a new id goes to the end, a known one changes nothing. */
  function AddNew(ids: seq<StudentId>, id: StudentId): (r: seq<StudentId>)
    ensures NoDup(ids) ==> NoDup(r)
    ensures forall x :: x in r <==> x in ids || x == id
  {
    if id in ids then ids else ids + [id]
  }

  /** The distinct students named by the requests, in order of first appearance (sender
      before receiver), as the insertion order of a JavaScript Set gives them. */
  function Participants(pairs: seq<(StudentId, StudentId)>): (ids: seq<StudentId>)
    ensures NoDup(ids)
    ensures forall k :: 0 <= k < |pairs| ==> pairs[k].0 in ids && pairs[k].1 in ids
  {
    if |pairs| == 0 then []
    else
      var pre := pairs[..|pairs| - 1];
      var last := pairs[|pairs| - 1];
      assert forall k :: 0 <= k < |pre| ==> pre[k] == pairs[k];
      AddNew(AddNew(Participants(pre), last.0), last.1)
  }

  /** Only students named by some request take part. */
  lemma {:induction false} ParticipantsAreEndpoints(pairs: seq<(StudentId, StudentId)>, x: StudentId)
    requires x in Participants(pairs)
    ensures Endpoint(pairs, x)
  {
    if |pairs| > 0 {
      var pre := pairs[..|pairs| - 1];
      if x in Participants(pre) {
        ParticipantsAreEndpoints(pre, x);
        EndpointOfPrefix(pairs, x);
      } else {
        EndpointOfLast(pairs);
      }
    }
  }

  lemma EndpointOfPrefix(pairs: seq<(StudentId, StudentId)>, x: StudentId)
    requires |pairs| > 0 && Endpoint(pairs[..|pairs| - 1], x)
    ensures Endpoint(pairs, x)
  {
    var k :| 0 <= k < |pairs| - 1 && (pairs[..|pairs| - 1][k].0 == x || pairs[..|pairs| - 1][k].1 == x);
    assert pairs[k] == pairs[..|pairs| - 1][k];
  }

  lemma EndpointOfLast(pairs: seq<(StudentId, StudentId)>)
    requires |pairs| > 0
    ensures Endpoint(pairs, pairs[|pairs| - 1].0) && Endpoint(pairs, pairs[|pairs| - 1].1)
  {
    assert pairs[|pairs| - 1] == pairs[|pairs| - 1];
  }

  /** `idToIndex.get(id)`: the position of id in ids, or |ids| when it is absent. */
  function IndexOf(ids: seq<StudentId>, id: StudentId): (i: nat)
    ensures i <= |ids|
    ensures id in ids ==> i < |ids| && ids[i] == id
    ensures id !in ids ==> i == |ids|
    ensures forall j :: 0 <= j < i ==> ids[j] != id
  {
    if |ids| == 0 then 0
    else if ids[0] == id then 0
    else 1 + IndexOf(ids[1..], id)
  }

  /** Without duplicates a position is the index of the id stored there. */
  lemma IndexOfAt(ids: seq<StudentId>, j: nat)
    requires NoDup(ids) && j < |ids|
    ensures IndexOf(ids, ids[j]) == j
  {
  }

  /** The id at a position, total so that it can rename edges back. */
  function IdAt(ids: seq<StudentId>, n: nat): StudentId {
    if n < |ids| then ids[n] else []
  }

  /** The request edges on dense indices, as `unionBySize(idToIndex.get(from), ...)` sees them. */
  function IndexEdges(ids: seq<StudentId>, pairs: seq<(StudentId, StudentId)>): (r: seq<(nat, nat)>)
    ensures |r| == |pairs|
    ensures forall k :: 0 <= k < |pairs| ==> r[k] == (IndexOf(ids, pairs[k].0), IndexOf(ids, pairs[k].1))
    ensures (forall k :: 0 <= k < |pairs| ==> pairs[k].0 in ids && pairs[k].1 in ids) ==> InRange(r, |ids|)
  {
    MapEdges(pairs, id => IndexOf(ids, id))
  }

  /** One entry of the leader map: a representative and the ids filed under it, in order. */
  datatype Bucket = Bucket(leader: nat, members: seq<StudentId>)

  /** No two buckets are filed under the same representative, as the keys of a Map. */
  ghost predicate DistinctLeaders(bs: seq<Bucket>) {
    forall a, b :: 0 <= a < b < |bs| ==> bs[a].leader != bs[b].leader
  }

  /** The representative of each of the first n nodes. */
  function Reps(d: DSU, n: nat): (rep: seq<nat>)
    requires Shape(d) && n <= |d.parent|
    ensures |rep| == n && forall j :: 0 <= j < n ==> rep[j] == Root(d, j)
  {
    seq(n, j requires 0 <= j < n && Shape(d) && n <= |d.parent| => Root(d, j))
  }

  /** The ids among the first k whose representative is L, in index order. */
  function Members(rep: seq<nat>, ids: seq<StudentId>, k: nat, L: nat): seq<StudentId>
    requires k <= |ids| == |rep|
  {
    if k == 0 then []
    else Members(rep, ids, k - 1, L) + (if rep[k - 1] == L then [ids[k - 1]] else [])
  }

  lemma {:induction false} MembersSpec(rep: seq<nat>, ids: seq<StudentId>, k: nat, L: nat, x: StudentId)
    requires k <= |ids| == |rep|
    ensures x in Members(rep, ids, k, L) <==> exists j :: 0 <= j < k && ids[j] == x && rep[j] == L
  {
    if k > 0 {
      MembersSpec(rep, ids, k - 1, L, x);
    }
  }

  /** The leaders stay distinct and every bucket holds exactly the first k ids filed under
      its leader. */
  ghost predicate Filed(rep: seq<nat>, ids: seq<StudentId>, k: nat, bs: seq<Bucket>)
    requires k <= |ids| == |rep|
  {
    && DistinctLeaders(bs)
    && (forall t :: 0 <= t < |bs| ==> bs[t].members == Members(rep, ids, k, bs[t].leader))
    && (forall t :: 0 <= t < |bs| ==> |bs[t].members| > 0)
  }

  /** bs is the leader map after the first k ids: one bucket per representative met so far,
      in order of first appearance, each holding exactly the ids filed under it. */
  ghost predicate Classes(rep: seq<nat>, ids: seq<StudentId>, k: nat, bs: seq<Bucket>)
    requires k <= |ids| == |rep|
  {
    && Filed(rep, ids, k, bs)
    && (forall j :: 0 <= j < k ==> HasBucket(bs, rep[j]))
  }

  /** Some bucket is filed under L. */
  ghost predicate HasBucket(bs: seq<Bucket>, L: nat) {
    exists t :: 0 <= t < |bs| && bs[t].leader == L
  }

  /** `groups.get(leader).push(id)`, opening the bucket if the leader is new. */
  function AddToBucket(bs: seq<Bucket>, leader: nat, id: StudentId): (r: seq<Bucket>)
    requires DistinctLeaders(bs)
    ensures HasBucket(bs, leader) ==>
      |r| == |bs| &&
      forall t :: 0 <= t < |bs| ==>
        r[t] == if bs[t].leader == leader then Bucket(leader, bs[t].members + [id]) else bs[t]
    ensures !HasBucket(bs, leader) ==> r == bs + [Bucket(leader, [id])]
  {
    if |bs| == 0 then [Bucket(leader, [id])]
    else if bs[0].leader == leader then [Bucket(leader, bs[0].members + [id])] + bs[1..]
    else [bs[0]] + AddToBucket(bs[1..], leader, id)
  }

  /** Filing the k-th id under its representative extends the leader map of the first k - 1. */
  lemma AddToBucketClasses(rep: seq<nat>, ids: seq<StudentId>, k: nat, bs: seq<Bucket>)
    requires 0 < k <= |ids| == |rep|
    requires Classes(rep, ids, k - 1, bs)
    ensures Classes(rep, ids, k, AddToBucket(bs, rep[k - 1], ids[k - 1]))
  {
    var bs2 := AddToBucket(bs, rep[k - 1], ids[k - 1]);
    if HasBucket(bs, rep[k - 1]) {
      FiledKnown(rep, ids, k, bs);
    } else {
      FiledNew(rep, ids, k, bs);
    }
    FiledCover(rep, ids, k, bs);
  }

  lemma FiledKnown(rep: seq<nat>, ids: seq<StudentId>, k: nat, bs: seq<Bucket>)
    requires 0 < k <= |ids| == |rep|
    requires Filed(rep, ids, k - 1, bs) && HasBucket(bs, rep[k - 1])
    ensures Filed(rep, ids, k, AddToBucket(bs, rep[k - 1], ids[k - 1]))
  {
    var bs2 := AddToBucket(bs, rep[k - 1], ids[k - 1]);
    forall t | 0 <= t < |bs2|
      ensures bs2[t].leader == bs[t].leader
      ensures bs2[t].members == Members(rep, ids, k, bs2[t].leader)
    {
      assert bs[t].members == Members(rep, ids, k - 1, bs[t].leader);
    }
  }

  lemma FiledNew(rep: seq<nat>, ids: seq<StudentId>, k: nat, bs: seq<Bucket>)
    requires 0 < k <= |ids| == |rep|
    requires Filed(rep, ids, k - 1, bs) && !HasBucket(bs, rep[k - 1])
    requires forall j :: 0 <= j < k - 1 ==> HasBucket(bs, rep[j])
    ensures Filed(rep, ids, k, AddToBucket(bs, rep[k - 1], ids[k - 1]))
  {
    var r := rep[k - 1];
    var bs2 := AddToBucket(bs, r, ids[k - 1]);
    assert bs2 == bs + [Bucket(r, [ids[k - 1]])];
    forall j | 0 <= j < k - 1
      ensures rep[j] != r
    {
      assert HasBucket(bs, rep[j]);
    }
    MembersAbsent(rep, ids, k - 1, r);
    assert Members(rep, ids, k, r) == [ids[k - 1]];
    forall t | 0 <= t < |bs|
      ensures bs2[t] == bs[t] && bs[t].leader != r
      ensures bs[t].members == Members(rep, ids, k, bs[t].leader)
    {
      assert bs[t].members == Members(rep, ids, k - 1, bs[t].leader);
    }
    assert DistinctLeaders(bs2) by {
      forall a, b | 0 <= a < b < |bs2|
        ensures bs2[a].leader != bs2[b].leader
      {
        if b < |bs| {
          assert bs[a].leader != bs[b].leader;
        }
      }
    }
  }

  /** No id filed under L among the first k when none of their representatives is L. */
  lemma {:induction false} MembersAbsent(rep: seq<nat>, ids: seq<StudentId>, k: nat, L: nat)
    requires k <= |ids| == |rep|
    requires forall j :: 0 <= j < k ==> rep[j] != L
    ensures Members(rep, ids, k, L) == []
  {
    if k > 0 {
      MembersAbsent(rep, ids, k - 1, L);
    }
  }

  /** Every one of the first k ids has a bucket for its representative. */
  lemma FiledCover(rep: seq<nat>, ids: seq<StudentId>, k: nat, bs: seq<Bucket>)
    requires 0 < k <= |ids| == |rep|
    requires Classes(rep, ids, k - 1, bs)
    ensures forall j :: 0 <= j < k ==> HasBucket(AddToBucket(bs, rep[k - 1], ids[k - 1]), rep[j])
  {
    var r := rep[k - 1];
    var bs2 := AddToBucket(bs, r, ids[k - 1]);
    forall j | 0 <= j < k
      ensures HasBucket(bs2, rep[j])
    {
      if j < k - 1 {
        var t :| 0 <= t < |bs| && bs[t].leader == rep[j];
        assert bs2[t].leader == rep[j];
      } else if t0 :| 0 <= t0 < |bs| && bs[t0].leader == r {
        assert bs2[t0].leader == rep[j];
      } else {
        assert bs2[|bs|].leader == rep[j];
      }
    }
  }

  /** `idList.forEach((id, idx) => groups[findUpar(idx)].push(id))` over the first k ids; the
      path compression of each find is threaded through, and leaves every representative as
      it was. */
  function GroupByLeader(d: DSU, ids: seq<StudentId>, k: nat): (res: (seq<Bucket>, DSU))
    requires Shape(d) && k <= |ids| && |ids| < |d.parent|
    ensures Shape(res.1) && |res.1.parent| == |d.parent|
    ensures forall y :: 0 <= y < |d.parent| ==> Root(res.1, y) == Root(d, y)
    ensures Classes(Reps(d, |ids|), ids, k, res.0)
  {
    if k == 0 then ([], d)
    else
      var (bs, d1) := GroupByLeader(d, ids, k - 1);
      var (leader, d2) := FindUpar(d1, k - 1);
      AddToBucketClasses(Reps(d, |ids|), ids, k, bs);
      (AddToBucket(bs, leader, ids[k - 1]), d2)
  }

  /** The buckets with more than one member, order kept. */
  function KeepShared(bs: seq<Bucket>): (r: seq<Bucket>)
    ensures forall b :: b in r <==> b in bs && |b.members| > 1
    ensures DistinctLeaders(bs) ==> DistinctLeaders(r)
  {
    if |bs| == 0 then []
    else
      var rest := KeepShared(bs[1..]);
      assert forall b :: b in bs <==> b == bs[0] || b in bs[1..];
      if |bs[0].members| > 1 then [bs[0]] + rest else rest
  }

  function MemberLists(bs: seq<Bucket>): (r: seq<seq<StudentId>>)
    ensures |r| == |bs| && forall t :: 0 <= t < |bs| ==> r[t] == bs[t].members
  {
    seq(|bs|, t requires 0 <= t < |bs| => bs[t].members)
  }

  /** The union-find over the participants after every edge has been united. */
  function Unions(pairs: seq<(StudentId, StudentId)>): (d: DSU)
    ensures Valid(d) && |d.parent| == |Participants(pairs)| + 1
  {
    var ids := Participants(pairs);
    var edges := IndexEdges(ids, pairs);
    assert InRange(edges, |ids| + 1);
    UnionAll(Make(|ids|), edges)
  }

  /** The leader map of all participants, without its single-member buckets. */
  function SharedBuckets(pairs: seq<(StudentId, StudentId)>): seq<Bucket> {
    var ids := Participants(pairs);
    KeepShared(GroupByLeader(Unions(pairs), ids, |ids|).0)
  }

  /** The member lists of the components with more than one participant, in the order their
      first member appears. */
  function MutualGroups(pairs: seq<(StudentId, StudentId)>): seq<seq<StudentId>> {
    MemberLists(SharedBuckets(pairs))
  }

  /** Dense index back to student id, as a function value. */
  function Back(ids: seq<StudentId>): nat -> StudentId {
    (n: nat) => IdAt(ids, n)
  }

  /** Student id to dense index, as a function value. */
  function There(ids: seq<StudentId>): StudentId -> nat {
    id => IndexOf(ids, id)
  }

  lemma IndexEdgesThere(ids: seq<StudentId>, pairs: seq<(StudentId, StudentId)>)
    ensures MapEdges(pairs, There(ids)) == IndexEdges(ids, pairs)
  {
  }

  lemma IndexEdgesBack(ids: seq<StudentId>, pairs: seq<(StudentId, StudentId)>)
    requires forall k :: 0 <= k < |pairs| ==> pairs[k].0 in ids && pairs[k].1 in ids
    ensures MapEdges(IndexEdges(ids, pairs), Back(ids)) == pairs
  {
  }

  /** The union-find's classes are the components of the index edges. */
  lemma UnionsComponents(pairs: seq<(StudentId, StudentId)>)
    ensures ClassesAreComponents(Unions(pairs), IndexEdges(Participants(pairs), pairs))
  {
    var ids := Participants(pairs);
    var edges := IndexEdges(ids, pairs);
    assert InRange(edges, |ids| + 1);
    UnionAllConnects(|ids|, edges);
  }

  /** Two participants share a representative exactly when a chain of requests joins them:
      the union-find result carried over from dense indices back to student ids. */
  lemma SameRootConnected(pairs: seq<(StudentId, StudentId)>, i: nat, j: nat)
    requires i < |Participants(pairs)| && j < |Participants(pairs)|
    ensures Root(Unions(pairs), i) == Root(Unions(pairs), j) <==>
      Connected(pairs, Participants(pairs)[i], Participants(pairs)[j])
  {
    var ids := Participants(pairs);
    var edges := IndexEdges(ids, pairs);
    UnionsComponents(pairs);
    assert Root(Unions(pairs), i) == Root(Unions(pairs), j) <==> Connected(edges, i, j);
    if Connected(edges, i, j) {
      IndexChainBack(ids, pairs, i, j);
    }
    if Connected(pairs, ids[i], ids[j]) {
      IdChainThere(ids, pairs, i, j);
    }
  }

  /** A chain over the index edges is a chain of requests between the ids at those indices. */
  lemma IndexChainBack(ids: seq<StudentId>, pairs: seq<(StudentId, StudentId)>, i: nat, j: nat)
    requires forall k :: 0 <= k < |pairs| ==> pairs[k].0 in ids && pairs[k].1 in ids
    requires i < |ids| && j < |ids| && Connected(IndexEdges(ids, pairs), i, j)
    ensures Connected(pairs, ids[i], ids[j])
  {
    IndexEdgesBack(ids, pairs);
    ConnectedImage(IndexEdges(ids, pairs), Back(ids), i, j);
    assert Back(ids)(i) == ids[i] && Back(ids)(j) == ids[j];
  }

  /** A chain of requests between two listed ids is a chain over the index edges. */
  lemma IdChainThere(ids: seq<StudentId>, pairs: seq<(StudentId, StudentId)>, i: nat, j: nat)
    requires NoDup(ids) && i < |ids| && j < |ids| && Connected(pairs, ids[i], ids[j])
    ensures Connected(IndexEdges(ids, pairs), i, j)
  {
    IndexEdgesThere(ids, pairs);
    ConnectedImage(pairs, There(ids), ids[i], ids[j]);
    IndexOfAt(ids, i);
    IndexOfAt(ids, j);
  }

  /** In a complete leader map, the bucket of a leader holds exactly the ids it represents. */
  lemma ClassMembers(rep: seq<nat>, ids: seq<StudentId>, bs: seq<Bucket>, b: Bucket, x: StudentId)
    requires |ids| == |rep| && NoDup(ids) && Classes(rep, ids, |ids|, bs) && b in bs
    ensures x in b.members <==> x in ids && rep[IndexOf(ids, x)] == b.leader
  {
    var s :| 0 <= s < |bs| && bs[s] == b;
    assert b.members == Members(rep, ids, |ids|, b.leader);
    MembersSpec(rep, ids, |ids|, b.leader, x);
    if x in b.members {
      var j :| 0 <= j < |ids| && ids[j] == x && rep[j] == b.leader;
      IndexOfAt(ids, j);
    }
  }

  /** In a complete leader map, two different ids with one representative share a bucket,
      which therefore has more than one member. */
  lemma ClassBucket(rep: seq<nat>, ids: seq<StudentId>, bs: seq<Bucket>, i: nat, j: nat)
    requires |ids| == |rep| && Classes(rep, ids, |ids|, bs)
    requires i < |ids| && j < |ids| && ids[i] != ids[j] && rep[i] == rep[j]
    ensures exists b :: b in bs && |b.members| > 1 && ids[i] in b.members && ids[j] in b.members
  {
    assert HasBucket(bs, rep[i]);
    var s :| 0 <= s < |bs| && bs[s].leader == rep[i];
    var m := bs[s].members;
    assert m == Members(rep, ids, |ids|, rep[i]);
    MembersSpec(rep, ids, |ids|, rep[i], ids[i]);
    MembersSpec(rep, ids, |ids|, rep[i], ids[j]);
    assert bs[s] in bs;
  }

  /** A kept bucket has at least two members, and holds exactly the participants whose
      representative is its leader. */
  lemma SharedBucketMembers(pairs: seq<(StudentId, StudentId)>, b: Bucket, x: StudentId)
    requires b in SharedBuckets(pairs)
    ensures |b.members| > 1
    ensures x in b.members <==>
      x in Participants(pairs) && Root(Unions(pairs), IndexOf(Participants(pairs), x)) == b.leader
  {
    var ids := Participants(pairs);
    var d := Unions(pairs);
    var bs := GroupByLeader(d, ids, |ids|).0;
    ClassMembers(Reps(d, |ids|), ids, bs, b, x);
  }

  /** Two different participants with one representative share a kept bucket. */
  lemma SharedBucketFor(pairs: seq<(StudentId, StudentId)>, i: nat, j: nat)
    requires i < |Participants(pairs)| && j < |Participants(pairs)|
    requires Participants(pairs)[i] != Participants(pairs)[j]
    requires Root(Unions(pairs), i) == Root(Unions(pairs), j)
    ensures exists b :: (b in SharedBuckets(pairs) &&
      Participants(pairs)[i] in b.members && Participants(pairs)[j] in b.members)
  {
    var ids := Participants(pairs);
    var d := Unions(pairs);
    var bs := GroupByLeader(d, ids, |ids|).0;
    ClassBucket(Reps(d, |ids|), ids, bs, i, j);
  }

  /** Same group iff chain: two different students end up in one mutual group exactly when a
      chain of the given requests joins them. */
  lemma MutualGroupsAreComponents(pairs: seq<(StudentId, StudentId)>, x: StudentId, y: StudentId)
    requires x != y
    ensures (exists t :: 0 <= t < |MutualGroups(pairs)| && x in MutualGroups(pairs)[t] && y in MutualGroups(pairs)[t]) <==>
      Connected(pairs, x, y)
  {
    if t :| 0 <= t < |MutualGroups(pairs)| && x in MutualGroups(pairs)[t] && y in MutualGroups(pairs)[t] {
      GroupedAreConnected(pairs, t, x, y);
    }
    if Connected(pairs, x, y) {
      ConnectedAreGrouped(pairs, x, y);
    }
  }

  lemma GroupedAreConnected(pairs: seq<(StudentId, StudentId)>, t: nat, x: StudentId, y: StudentId)
    requires t < |MutualGroups(pairs)| && x in MutualGroups(pairs)[t] && y in MutualGroups(pairs)[t]
    ensures Connected(pairs, x, y)
  {
    var ids := Participants(pairs);
    var kept := SharedBuckets(pairs);
    assert kept[t] in kept;
    SharedBucketMembers(pairs, kept[t], x);
    SharedBucketMembers(pairs, kept[t], y);
    SameRootConnected(pairs, IndexOf(ids, x), IndexOf(ids, y));
  }

  lemma ConnectedAreGrouped(pairs: seq<(StudentId, StudentId)>, x: StudentId, y: StudentId)
    requires x != y && Connected(pairs, x, y)
    ensures exists t :: 0 <= t < |MutualGroups(pairs)| && x in MutualGroups(pairs)[t] && y in MutualGroups(pairs)[t]
  {
    var ids := Participants(pairs);
    ConnectedEndpoints(pairs, x, y);
    EndpointTakesPart(pairs, x);
    EndpointTakesPart(pairs, y);
    var i, j := IndexOf(ids, x), IndexOf(ids, y);
    SameRootConnected(pairs, i, j);
    SharedBucketFor(pairs, i, j);
    var b :| b in SharedBuckets(pairs) && x in b.members && y in b.members;
    BucketIsGroup(pairs, b);
  }

  lemma EndpointTakesPart(pairs: seq<(StudentId, StudentId)>, x: StudentId)
    requires Endpoint(pairs, x)
    ensures x in Participants(pairs)
  {
    var k :| 0 <= k < |pairs| && (pairs[k].0 == x || pairs[k].1 == x);
  }

  lemma BucketIsGroup(pairs: seq<(StudentId, StudentId)>, b: Bucket)
    requires b in SharedBuckets(pairs)
    ensures exists t :: 0 <= t < |MutualGroups(pairs)| && MutualGroups(pairs)[t] == b.members
  {
    var kept := SharedBuckets(pairs);
    var t :| 0 <= t < |kept| && kept[t] == b;
    assert MutualGroups(pairs)[t] == b.members;
  }

  /** The mutual groups are disjoint, each has at least two members, and every member is
      named by some request. */
  lemma MutualGroupsPartition(pairs: seq<(StudentId, StudentId)>, t1: nat, t2: nat, x: StudentId)
    requires t1 < |MutualGroups(pairs)| && t2 < |MutualGroups(pairs)|
    ensures |MutualGroups(pairs)[t1]| >= 2
    ensures x in MutualGroups(pairs)[t1] ==> Endpoint(pairs, x)
    ensures t1 != t2 && x in MutualGroups(pairs)[t1] ==> x !in MutualGroups(pairs)[t2]
  {
    var kept := SharedBuckets(pairs);
    assert kept[t1] in kept && kept[t2] in kept;
    SharedBucketMembers(pairs, kept[t1], x);
    SharedBucketMembers(pairs, kept[t2], x);
    if x in MutualGroups(pairs)[t1] {
      ParticipantsAreEndpoints(pairs, x);
    }
  }

  /** The id lists of the mutual groups of one college's accepted requests. */
  function GroupIdLists(reqs: seq<RoommateRequest>, c: CollegeId): seq<seq<StudentId>> {
    MutualGroups(RequestPairs(AcceptedRequests(reqs, c)))
  }

  /** `Student.find({_id: {$in: group}})`: the stored students named in group, in the
      collection's natural order. Unknown ids are dropped. */
  function FetchStudents(st: Store, group: seq<StudentId>): (r: seq<Student>)
    ensures forall s :: s in r <==> exists id :: id in st.roster && id in group && id in st.students && s == st.students[id]
  {
    FetchFrom(st.students, st.roster, group)
  }

  function FetchFrom(students: map<StudentId, Student>, order: seq<StudentId>, group: seq<StudentId>): (r: seq<Student>)
    ensures forall s :: s in r <==> exists id :: id in order && id in group && id in students && s == students[id]
  {
    if |order| == 0 then []
    else
      var rest := FetchFrom(students, order[1..], group);
      assert forall id :: id in order <==> id == order[0] || id in order[1..];
      if order[0] in group && order[0] in students then [students[order[0]]] + rest else rest
  }

  /** `Student.find` scans the roster in order, so the first record fetched, the one the
      group allocation takes as leader, is the group member that comes first in the roster. */
  lemma FetchStudentsInOrder(st: Store, group: seq<StudentId>)
    ensures exists ps :: PickedAt(ps, st.students, st.roster, FetchStudents(st, group))
  {
    FetchFromInOrder(st.students, st.roster, group);
    var ps :| PickedAt(ps, st.students, st.roster, FetchFrom(st.students, st.roster, group));
    assert PickedAt(ps, st.students, st.roster, FetchStudents(st, group));
  }

  lemma {:induction false} FetchFromInOrder(students: map<StudentId, Student>, order: seq<StudentId>, group: seq<StudentId>)
    ensures exists ps :: PickedAt(ps, students, order, FetchFrom(students, order, group))
    decreases |order|
  {
    if |order| == 0 {
      assert PickedAt([], students, order, FetchFrom(students, order, group));
    } else {
      FetchFromInOrder(students, order[1..], group);
      var ps :| PickedAt(ps, students, order[1..], FetchFrom(students, order[1..], group));
      var rest := FetchFrom(students, order[1..], group);
      PickedCons(ps, students, order, rest);
      if order[0] in group && order[0] in students {
        assert PickedAt([0] + Shift(ps), students, order, FetchFrom(students, order, group));
      } else {
        assert PickedAt(Shift(ps), students, order, FetchFrom(students, order, group));
      }
    }
  }

  /** Without accepted requests there are no groups. */
  lemma NoPairsNoGroups()
    ensures MutualGroups([]) == []
  {
    assert Participants([]) == [];
    assert GroupByLeader(Unions([]), [], 0).0 == [];
  }

  /** The groups, each fetched from the store. */
  function FetchAll(st: Store, groups: seq<seq<StudentId>>): (r: seq<seq<Student>>)
    ensures |r| == |groups| && forall t :: 0 <= t < |groups| ==> r[t] == FetchStudents(st, groups[t])
  {
    seq(|groups|, t requires 0 <= t < |groups| => FetchStudents(st, groups[t]))
  }

  /** buildMutualGroups. A missing (or empty) college id is rejected; with no accepted
      request of the college the answer is empty without building anything; otherwise the
      mutual groups of its accepted requests, each fetched from the store. */
  function BuildMutualGroups(st: Store, collegeId: Option<CollegeId>): (r: Result<seq<seq<Student>>>)
    ensures r.Err? <==> collegeId.None? || collegeId.value == []
    ensures r.Err? ==> r.error == CollegeIdRequired
    ensures r.Ok? && AcceptedRequests(st.requests, collegeId.value) == [] ==> r.value == []
    ensures r.Ok? ==> r.value == FetchAll(st, GroupIdLists(st.requests, collegeId.value))
  {
    if collegeId.None? || collegeId.value == [] then Err(CollegeIdRequired)
    else
      var c := collegeId.value;
      if |AcceptedRequests(st.requests, c)| == 0 then
        NoPairsNoGroups();
        assert RequestPairs(AcceptedRequests(st.requests, c)) == [];
        Ok([])
      else
        Ok(FetchAll(st, GroupIdLists(st.requests, c)))
  }
}
