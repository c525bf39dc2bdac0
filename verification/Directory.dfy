/** The device directory of a chat and its choice of the coordinator. */
module Directory {
  import opened Common
  import opened Sorting
  import GroupSync

  /** An unrevoked device of a member with a published identity. */
  datatype Row = Row(id: string, login: string, userId: int, createdAt: int)

  /** Devices of the chat's creator first, then older devices, then by id. */
  function Comparing(byId: Compare<string>, creator: int, a: Row, b: Row): int {
    if (a.userId == creator) != (b.userId == creator) then if a.userId == creator then -1 else 1
    else if a.createdAt != b.createdAt then a.createdAt - b.createdAt
    else byId(a.id, b.id)
  }

  function ByRank(byId: Compare<string>, creator: int): Compare<Row> {
    (a, b) => Comparing(byId, creator, a, b)
  }

  lemma ByRankIsComparator(byId: Compare<string>, creator: int)
    requires Comparator(byId)
    ensures Comparator(ByRank(byId, creator))
  {
    forall a: Row, b: Row, c: Row
      ensures ByRank(byId, creator)(a, b) <= 0 || ByRank(byId, creator)(b, a) <= 0
      ensures ByRank(byId, creator)(a, b) < 0 <==> ByRank(byId, creator)(b, a) > 0
      ensures ByRank(byId, creator)(a, b) <= 0 && ByRank(byId, creator)(b, c) <= 0 ==> ByRank(byId, creator)(a, c) <= 0
    {
      assert byId(a.id, b.id) < 0 <==> byId(b.id, a.id) > 0;
      assert byId(a.id, b.id) <= 0 && byId(b.id, c.id) <= 0 ==> byId(a.id, c.id) <= 0;
    }
  }

  datatype Listing = Listing(coordinator: Option<string>, devices: seq<GroupSync.Device>)

  function DevicesOf(rows: seq<Row>): (ds: seq<GroupSync.Device>)
    ensures |ds| == |rows| && forall i :: 0 <= i < |ds| ==> ds[i] == GroupSync.Device(rows[i].id, rows[i].login)
  {
    seq(|rows|, i requires 0 <= i < |rows| => GroupSync.Device(rows[i].id, rows[i].login))
  }

  /** `list_chat_devices`: the rows sorted by rank, the first of them coordinating. */
  function ListChatDevices(byId: Compare<string>, creator: int, rows: seq<Row>): Listing {
    var sorted := Sort(ByRank(byId, creator), rows);
    Listing(if sorted == [] then None else Some(sorted[0].id), DevicesOf(sorted))
  }

  /**
    The coordinator is the oldest device of the chat's creator and, where the
    creator has no device, the oldest of all; among equally old ones it has
    the first id.
   */
  lemma CoordinatorRanksFirst(byId: Compare<string>, creator: int, rows: seq<Row>) returns (first: Row)
    requires Comparator(byId) && rows != []
    ensures first in rows && ListChatDevices(byId, creator, rows).coordinator == Some(first.id)
    ensures (exists r :: r in rows && r.userId == creator) ==> first.userId == creator
    ensures forall r :: r in rows && (r.userId == creator || first.userId != creator) ==>
              first.createdAt < r.createdAt || (first.createdAt == r.createdAt && byId(first.id, r.id) <= 0)
  {
    var sorted := Sort(ByRank(byId, creator), rows);
    ByRankIsComparator(byId, creator);
    SortIsStable(ByRank(byId, creator), rows);
    SortMembers(ByRank(byId, creator), rows);
    first := sorted[0];
    forall r | r in rows ensures Comparing(byId, creator, first, r) <= 0 {
      var i :| 0 <= i < |sorted| && sorted[i] == r;
      FirstIsLeast(ByRank(byId, creator), sorted, i);
    }
  }

  /** The row is listed above the other: the creator's first, then the older, then by id. */
  predicate Above(byId: Compare<string>, creator: int, a: Row, b: Row) {
    || (a.userId == creator && b.userId != creator)
    || ((a.userId == creator <==> b.userId == creator) &&
        (a.createdAt < b.createdAt || (a.createdAt == b.createdAt && byId(a.id, b.id) <= 0)))
  }

  /** The listed devices stand in that order, and the first of them coordinates. */
  lemma ListingInOrder(byId: Compare<string>, creator: int, rows: seq<Row>, a: Row, b: Row, i: nat, j: nat)
    requires Comparator(byId) && forall k, l :: 0 <= k < l < |rows| ==> rows[k].id != rows[l].id
    requires a in rows && b in rows
    requires var ds := ListChatDevices(byId, creator, rows).devices; i < j < |ds| && ds[i].id == a.id && ds[j].id == b.id
    ensures Above(byId, creator, a, b)
    ensures ListChatDevices(byId, creator, rows).coordinator == Some(ListChatDevices(byId, creator, rows).devices[0].id)
  {
    var sorted := Sort(ByRank(byId, creator), rows);
    ByRankIsComparator(byId, creator);
    SortIsStable(ByRank(byId, creator), rows);
    SortMembers(ByRank(byId, creator), rows);
    SortedPairs(ByRank(byId, creator), sorted, i, j);
    assert sorted[i] in rows && sorted[j] in rows;
    assert sorted[i] == a && sorted[j] == b;
  }

  /** Whatever order the rows come in, every caller gets the same listing, so no two devices coordinate at once. */
  lemma OneCoordinator(byId: Compare<string>, creator: int, rows: seq<Row>, others: seq<Row>)
    requires Comparator(byId) && (forall a, b :: byId(a, b) == 0 ==> a == b)
    requires multiset(rows) == multiset(others)
    requires forall i, j :: 0 <= i < j < |rows| ==> rows[i].id != rows[j].id
    ensures ListChatDevices(byId, creator, rows) == ListChatDevices(byId, creator, others)
  {
    forall a, b | a in rows && b in rows && ByRank(byId, creator)(a, b) == 0 ensures a == b {
      var i :| 0 <= i < |rows| && rows[i] == a;
      var j :| 0 <= j < |rows| && rows[j] == b;
    }
    ByRankIsComparator(byId, creator);
    RearrangedSortsAlike(ByRank(byId, creator), rows, others);
  }

  /** The listing names exactly the devices of the rows, each once. */
  lemma ListingIsComplete(byId: Compare<string>, creator: int, rows: seq<Row>)
    requires forall i, j :: 0 <= i < j < |rows| ==> rows[i].id != rows[j].id
    ensures var devices := ListChatDevices(byId, creator, rows).devices;
            && |devices| == |rows|
            && (forall d :: d in devices <==> exists r :: r in rows && d == GroupSync.Device(r.id, r.login))
            && (forall i, j :: 0 <= i < j < |devices| ==> devices[i].id != devices[j].id)
  {
    var sorted := Sort(ByRank(byId, creator), rows);
    SortHas(ByRank(byId, creator), rows);
    SortMembers(ByRank(byId, creator), rows);
    RepeatsRearranged(rows, sorted);
    forall i, j | 0 <= i < j < |sorted| ensures sorted[i].id != sorted[j].id {
      assert sorted[i] in rows && sorted[j] in rows;
    }
    forall d ensures d in DevicesOf(sorted) <==> exists r :: r in rows && d == GroupSync.Device(r.id, r.login) {
      if r :| r in rows && d == GroupSync.Device(r.id, r.login) {
        var i :| 0 <= i < |sorted| && sorted[i] == r;
        assert DevicesOf(sorted)[i] == d;
      }
    }
  }
}
