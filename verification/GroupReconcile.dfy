/**
  What the coordinator's reconciliation leaves behind, and how the other
  devices follow it from the rows it published.
 */
module GroupReconcile {
  import opened Common
  import opened GroupSync
  import Delivery

  // ---------------------------------------------------------------------------
  // The server's page
  // ---------------------------------------------------------------------------

  const PAGE_LIMIT := 500

  predicate VisibleTo(env: Envelope, device: DeviceId) {
    env.recipient == None || env.recipient == Some(device)
  }

  function Visible(log: seq<Envelope>, device: DeviceId): (r: seq<Envelope>)
    ensures |r| <= |log|
    ensures forall x :: x in r ==> x in log && VisibleTo(x, device)
  {
    if log == [] then []
    else
      var last := log[|log| - 1];
      Visible(log[..|log| - 1], device) + (if VisibleTo(last, device) then [last] else [])
  }

  /** The oldest rows a device may read, at most one page of them. */
  function Page(log: seq<Envelope>, device: DeviceId): seq<Envelope> {
    var rows := Visible(log, device);
    if |rows| <= PAGE_LIMIT then rows else rows[..PAGE_LIMIT]
  }

  /** Only a Welcome is addressed to one device. */
  predicate WellRouted(env: Envelope) {
    env.recipient.Some? <==> env.contentType == Welcome
  }

  lemma {:induction false} VisibleAppend(a: seq<Envelope>, b: seq<Envelope>, device: DeviceId)
    ensures Visible(a + b, device) == Visible(a, device) + Visible(b, device)
  {
    if b == [] {
      assert a + b == a;
    } else {
      var n := |b| - 1;
      assert (a + b)[..|a + b| - 1] == a + b[..n];
      VisibleAppend(a, b[..n], device);
    }
  }

  /** Rows behind a log leave a device's page as it is exactly when the page is full or none of them is for the device. */
  lemma PageUnchangedExactly(log: seq<Envelope>, later: seq<Envelope>, device: DeviceId)
    ensures Page(log + later, device) == Page(log, device) <==> |Visible(log, device)| >= PAGE_LIMIT || Visible(later, device) == []
  {
    VisibleAppend(log, later, device);
    var rows, more := Visible(log, device), Visible(later, device);
    if |rows| < PAGE_LIMIT && more != [] {
      assert |Page(log + later, device)| > |rows|;
    }
  }

  /** A stored row and the time it was stored. */
  datatype Row = Row(envelope: Envelope, createdAt: nat)

  /** What the listing leaves after it deleted the expired rows. */
  function Unexpired(rows: seq<Row>, now: nat): seq<Envelope> {
    if rows == [] then []
    else
      var last := rows[|rows| - 1];
      Unexpired(rows[..|rows| - 1], now) + (if last.createdAt + Delivery.RETENTION < now then [] else [last.envelope])
  }

  function Listing(rows: seq<Row>, device: DeviceId, now: nat): seq<Envelope> {
    Page(Unexpired(rows, now), device)
  }

  lemma {:induction false} UnexpiredAppend(a: seq<Row>, b: seq<Row>, now: nat)
    ensures Unexpired(a + b, now) == Unexpired(a, now) + Unexpired(b, now)
  {
    if b == [] {
      assert a + b == a;
    } else {
      var n := |b| - 1;
      assert (a + b)[..|a + b| - 1] == a + b[..n];
      UnexpiredAppend(a, b[..n], now);
    }
  }

  /**
    Later rows stay hidden from a device exactly as long as 500 earlier rows it
    may read have not expired, or none of the later rows is for it.
   */
  lemma LaterRowsHiddenExactly(rows: seq<Row>, later: seq<Row>, device: DeviceId, now: nat)
    ensures Listing(rows + later, device, now) == Listing(rows, device, now)
       <==> |Visible(Unexpired(rows, now), device)| >= PAGE_LIMIT || Visible(Unexpired(later, now), device) == []
  {
    UnexpiredAppend(rows, later, now);
    PageUnchangedExactly(Unexpired(rows, now), Unexpired(later, now), device);
  }

  // ---------------------------------------------------------------------------
  // Scanning rows one after another
  // ---------------------------------------------------------------------------

  function After(s: Scan, rows: seq<Envelope>, me: DeviceId, known: set<DeviceId>): Scan {
    FirstPass(s, rows, |rows|, me, known)
  }

  lemma {:induction false} PrefixOnly(s: Scan, a: seq<Envelope>, b: seq<Envelope>, i: nat, me: DeviceId, known: set<DeviceId>)
    requires i <= |a|
    ensures FirstPass(s, a + b, i, me, known) == FirstPass(s, a, i, me, known)
  {
    if i > 0 { PrefixOnly(s, a, b, i - 1, me, known); }
  }

  lemma AfterOne(s: Scan, a: seq<Envelope>, x: Envelope, me: DeviceId, known: set<DeviceId>)
    ensures After(s, a + [x], me, known) == FirstStep(After(s, a, me, known), x, me, known)
  {
    PrefixOnly(s, a, [x], |a|, me, known);
  }

  lemma {:induction false} AfterAppend(s: Scan, a: seq<Envelope>, b: seq<Envelope>, me: DeviceId, known: set<DeviceId>)
    ensures After(s, a + b, me, known) == After(After(s, a, me, known), b, me, known)
  {
    if b == [] {
      assert a + b == a;
    } else {
      var n := |b| - 1;
      assert b == b[..n] + [b[n]];
      assert a + b == (a + b[..n]) + [b[n]];
      AfterAppend(s, a, b[..n], me, known);
      AfterOne(s, a + b[..n], b[n], me, known);
      AfterOne(After(s, a, me, known), b[..n], b[n], me, known);
    }
  }

  /** Rows the server withholds are Welcomes, which the scan would pass over anyway. */
  lemma {:induction false} WithheldRowsDoNotMatter(s: Scan, log: seq<Envelope>, me: DeviceId, known: set<DeviceId>)
    requires forall x :: x in log ==> WellRouted(x)
    ensures After(s, Visible(log, me), me, known) == After(s, log, me, known)
  {
    if log != [] {
      var n := |log| - 1;
      var init, x := log[..n], log[n];
      assert log == init + [x];
      forall y | y in init ensures WellRouted(y) { assert y in log; }
      WithheldRowsDoNotMatter(s, init, me, known);
      AfterOne(s, init, x, me, known);
      assert x in log;
      if VisibleTo(x, me) {
        AfterOne(s, Visible(init, me), x, me, known);
      } else {
        assert Visible(log, me) == Visible(init, me);
      }
    }
  }

  lemma {:induction false} AllSkipped(s: Scan, rows: seq<Envelope>, me: DeviceId, known: set<DeviceId>)
    requires forall x :: x in rows ==> Skipped(x, me, s.group)
    ensures After(s, rows, me, known) == s
  {
    if rows != [] {
      var n := |rows| - 1;
      assert rows == rows[..n] + [rows[n]];
      forall y | y in rows[..n] ensures Skipped(y, me, s.group) { assert y in rows; }
      AllSkipped(s, rows[..n], me, known);
      AfterOne(s, rows[..n], rows[n], me, known);
      assert rows[n] in rows;
    }
  }

  // ---------------------------------------------------------------------------
  // Whom the coordinator adds and removes
  // ---------------------------------------------------------------------------

  predicate DistinctIds(devices: seq<Device>) {
    forall i, j :: 0 <= i < j < |devices| ==> devices[i].id != devices[j].id
  }

  lemma {:induction false} MissingHolds(devices: seq<Device>, me: DeviceId, members: set<DeviceId>)
    ensures forall d :: d in Missing(devices, me, members) <==> d in devices && d.id != me && d.id !in members
  {
    if devices != [] { MissingHolds(devices[1..], me, members); }
  }

  lemma MissingIds(devices: seq<Device>, me: DeviceId, members: set<DeviceId>)
    ensures Ids(Missing(devices, me, members)) == Ids(devices) - {me} - members
  {
    MissingHolds(devices, me, members);
    var missing := Missing(devices, me, members);
    forall x ensures x in Ids(missing) <==> x in Ids(devices) - {me} - members {
      if x in Ids(devices) - {me} - members {
        var d :| d in devices && d.id == x;
        assert d in missing;
      }
    }
  }

  lemma {:induction false} MissingDistinct(devices: seq<Device>, me: DeviceId, members: set<DeviceId>)
    requires DistinctIds(devices)
    ensures DistinctIds(Missing(devices, me, members))
  {
    if devices != [] {
      MissingDistinct(devices[1..], me, members);
      MissingHolds(devices[1..], me, members);
      var rest := Missing(devices[1..], me, members);
      forall j | 0 <= j < |rest| ensures rest[j].id != devices[0].id {
        assert rest[j] in rest && rest[j] in devices[1..];
      }
    }
  }

  /** The group after stale members are gone. */
  function Kept(me: DeviceId, start: Group, devices: seq<Device>): Group {
    var removed := Stale(me, start, devices);
    if removed == {} then start else Group(start.epoch + 1, start.members - removed)
  }

  predicate Claimable(me: DeviceId, server: Server, start: Group) {
    forall d :: d in server.devices && d.id != me && d.id !in start.members ==> d.id in server.inventory
  }

  function Wanted(me: DeviceId, server: Server, start: Group): seq<Device> {
    Missing(server.devices, me, Kept(me, start, server.devices).members)
  }

  lemma {:induction false} MissingAgrees(devices: seq<Device>, me: DeviceId, m: set<DeviceId>, m': set<DeviceId>)
    requires forall d :: d in devices && d.id != me ==> (d.id in m <==> d.id in m')
    ensures Missing(devices, me, m) == Missing(devices, me, m')
  {
    if devices != [] {
      assert devices[0] in devices;
      MissingAgrees(devices[1..], me, m, m');
    }
  }

  lemma KeptMissesTheSame(me: DeviceId, server: Server, start: Group)
    ensures Wanted(me, server, start) == Missing(server.devices, me, start.members)
  {
    MissingAgrees(server.devices, me, Kept(me, start, server.devices).members, start.members);
  }

  /** The commits of one reconciliation, in order, whether or not the server accepts them. */
  function Commits(me: DeviceId, server: Server, group: Option<Group>): (r: seq<Envelope>)
    ensures |r| <= 2
  {
    var start := Founded(me, group);
    var kept := Kept(me, start, server.devices);
    var wanted := Wanted(me, server, start);
    var removal := if kept == start then [] else [Removal(me, start, Stale(me, start, server.devices))];
    if (kept != start && server.accepts == 0) || wanted == [] || !Claimable(me, server, start) || group.None? then removal
    else removal + [Addition(me, kept, Ids(wanted))]
  }

  lemma ClaimableMatches(me: DeviceId, server: Server, start: Group)
    ensures Claimable(me, server, start) <==> !exists d :: d in Wanted(me, server, start) && d.id !in server.inventory
  {
    KeptMissesTheSame(me, server, start);
    MissingHolds(server.devices, me, start.members);
  }

  /** The rows the server accepts before the network fails. */
  function Cut(rows: seq<Envelope>, accepts: nat): seq<Envelope> {
    if |rows| <= accepts then rows else rows[..accepts]
  }

  function Grown(me: DeviceId, server: Server, kept: Group): Group {
    Group(kept.epoch + 1, kept.members + Ids(Missing(server.devices, me, kept.members)))
  }

  /** The Welcomes for everybody who is missing. */
  function Invitations(me: DeviceId, server: Server, kept: Group): seq<Envelope> {
    var missing := Missing(server.devices, me, kept.members);
    Welcomes(me, missing, Grown(me, server, kept), Claimed(missing, server.inventory))
  }

  /** The adding half: what it publishes, where it ends, and how it can fail. */
  lemma AddMissingShape(me: DeviceId, server: Server, created: bool, kept: Group, sent: seq<Envelope>)
    requires |sent| <= server.accepts
    ensures var r := AddMissing(me, server, created, kept, sent);
            var missing := Missing(server.devices, me, kept.members);
            var rows := sent + (if created then [] else [Addition(me, kept, Ids(missing))]) + Invitations(me, server, kept);
            if missing == [] then r == Reconciled(kept, sent, None)
            else if exists d :: d in missing && d.id !in server.inventory then r == Reconciled(kept, sent, Some(ClaimFailed))
            else r == Reconciled(Grown(me, server, kept), Cut(rows, server.accepts), if |rows| <= server.accepts then None else Some(PublishFailed))
  {
  }

  /** Published rows are the commits, then the Welcomes, cut off where the network failed. */
  lemma PublishedShape(me: DeviceId, server: Server, group: Option<Group>) returns (welcomes: seq<Envelope>)
    ensures var start := Founded(me, group);
            var r := Reconcile(me, server, group);
            var rows := Commits(me, server, group) + welcomes;
            var kept := Kept(me, start, server.devices);
            var stopped := Wanted(me, server, start) == [] || !Claimable(me, server, start) || (kept != start && server.accepts == 0);
            && r.published == Cut(rows, server.accepts)
            && (r.error == None <==> |rows| <= server.accepts && Claimable(me, server, start))
            && (r.error == Some(PublishFailed) <==> |rows| > server.accepts)
            && welcomes == (if stopped then [] else Invitations(me, server, kept))
            && r.group == (if stopped then kept else Grown(me, server, kept))
            && (r.error == None ==> |welcomes| == |Wanted(me, server, start)|)
  {
    var start := Founded(me, group);
    var kept := Kept(me, start, server.devices);
    var wanted := Wanted(me, server, start);
    ClaimableMatches(me, server, start);
    if kept == start {
      AddMissingShape(me, server, group.None?, start, []);
    } else if server.accepts > 0 {
      AddMissingShape(me, server, group.None?, kept, [Removal(me, start, Stale(me, start, server.devices))]);
    }
    welcomes := if wanted != [] && Claimable(me, server, start) && (kept == start || server.accepts > 0) then Invitations(me, server, kept) else [];
  }

  // ---------------------------------------------------------------------------
  // Main results: the coordinator
  // ---------------------------------------------------------------------------

  /**
    The reconciliation returns normally exactly when every missing device has
    a key package to claim and the server accepts every row; the tree then
    holds exactly the directory's devices.
   */
  lemma ReconcileMatchesDirectory(me: DeviceId, server: Server, group: Option<Group>)
    requires me in Ids(server.devices)
    requires group.Some? ==> me in group.value.members
    ensures var start := Founded(me, group);
            var r := Reconcile(me, server, group);
            && (r.error == None ==> r.group.members == Ids(server.devices))
            && (r.error == None <==>
                  && Claimable(me, server, start)
                  && |Commits(me, server, group)| + |Wanted(me, server, start)| <= server.accepts)
  {
    var start := Founded(me, group);
    var welcomes := PublishedShape(me, server, group);
    KeptAndWanted(me, server, start);
    var wanted := Wanted(me, server, start);
    if wanted == [] { assert Ids(wanted) == {}; }
  }

  /** Who is kept and who is added make up the directory. */
  lemma KeptAndWanted(me: DeviceId, server: Server, start: Group)
    requires me in Ids(server.devices) && me in start.members
    ensures Kept(me, start, server.devices).members + Ids(Wanted(me, server, start)) == Ids(server.devices)
  {
    KeptMissesTheSame(me, server, start);
    MissingIds(server.devices, me, start.members);
    assert Kept(me, start, server.devices).members == start.members - Stale(me, start, server.devices);
  }

  /** A foreign commit that leaves the device in the group, a Welcome that lists it, or any other row. */
  predicate Keeps(env: Envelope, me: DeviceId) {
    match env.wire
    case CommitWire(_, removes, adds) => env.sender == me || me !in removes || me in adds
    case WelcomeWire(_, members, _) => me in members
    case _ => true
  }

  predicate IsIn(group: Option<Group>, me: DeviceId) {
    group.Some? ==> me in group.value.members
  }

  lemma {:induction false} FirstPassKeeps(start: Scan, page: seq<Envelope>, i: nat, me: DeviceId, known: set<DeviceId>)
    requires i <= |page| && (forall x :: x in page ==> Keeps(x, me)) && IsIn(start.group, me) && start.deferred == []
    ensures var s := FirstPass(start, page, i, me, known);
            IsIn(s.group, me) && forall t :: 0 <= t < |s.deferred| ==> s.deferred[t].sender != me && Keeps(s.deferred[t], me)
  {
    if i > 0 {
      FirstPassKeeps(start, page, i - 1, me, known);
      assert page[i - 1] in page;
    }
  }

  lemma {:induction false} SecondPassKeeps(start: Scan, i: nat, me: DeviceId)
    requires i <= |start.deferred| && IsIn(start.group, me)
    requires forall t :: 0 <= t < |start.deferred| ==> start.deferred[t].sender != me && Keeps(start.deferred[t], me)
    ensures IsIn(SecondPass(start, i).group, me)
  {
    if i > 0 { SecondPassKeeps(start, i - 1, me); }
  }

  lemma {:induction false} JoinKeeps(start: Scan, packages: set<KeyPackage>, page: seq<Envelope>, i: nat, me: DeviceId, known: set<DeviceId>)
    requires i <= |page| && (forall x :: x in page ==> Keeps(x, me)) && IsIn(start.group, me) && start.deferred == []
    ensures var s := JoinLog(start, packages, page, i, known); IsIn(s.group, me) && s.deferred == []
  {
    if i > 0 {
      JoinKeeps(start, packages, page, i - 1, me, known);
      assert page[i - 1] in page;
    }
  }

  lemma ScanKeeps(group: Option<Group>, blocked: Option<ErrorCode>, page: seq<Envelope>, me: DeviceId, known: set<DeviceId>)
    requires IsIn(group, me) && forall x :: x in page ==> Keeps(x, me)
    ensures IsIn(ScanLog(group, blocked, page, me, known).group, me)
  {
    FirstPassKeeps(Scan(group, [], blocked, None), page, |page|, me, known);
    var first := FirstPass(Scan(group, [], blocked, None), page, |page|, me, known);
    SecondPassKeeps(first, |first.deferred|, me);
  }

  /** A device stays in its group, or joins one that lists it, when no row of its page takes it out. */
  lemma SyncKeeps(group: Option<Group>, packages: set<KeyPackage>, blocked: Option<ErrorCode>, page: seq<Envelope>, me: DeviceId, known: set<DeviceId>)
    requires IsIn(group, me) && forall x :: x in page ==> Keeps(x, me)
    ensures IsIn(JoinThenScan(group, packages, blocked, page, me, known).group, me)
  {
    var joined := JoinLog(Scan(None, [], blocked, None), packages, page, |page|, known);
    JoinKeeps(Scan(None, [], blocked, None), packages, page, |page|, me, known);
    ScanKeeps(group, blocked, page, me, known);
    ScanKeeps(joined.group, joined.blocked, page, me, known);
  }

  /** A coordinator that is in its group, whatever its page holds short of its own removal: a normal return leaves the directory's devices. */
  lemma CoordinatorSyncMatchesDirectory(me: DeviceId, server: Server, group: Option<Group>, blocked: Option<ErrorCode>,
                                        packages: set<KeyPackage>, known: set<DeviceId>)
    requires server.coordinator == Some(me)
    requires IsIn(group, me) && forall x :: x in server.page ==> Keeps(x, me)
    ensures var s := Synchronized(me, server, group, blocked, packages, known);
            s.error == None ==> s.group.Some? && s.group.value.members == Ids(server.devices)
  {
    SyncKeeps(group, packages, blocked, server.page, me, known);
    if me in Ids(server.devices) {
      ReconcileMatchesDirectory(me, server, JoinThenScan(group, packages, blocked, server.page, me, known).group);
    }
  }

  /** Position of the Welcome for one device among the rows. */
  predicate WelcomeAt(rows: seq<Envelope>, i: nat, device: DeviceId) {
    i < |rows| && rows[i].contentType == Welcome && rows[i].recipient == Some(device)
  }

  /** A reconciliation that returns normally published its commits and then one Welcome for each missing device. */
  lemma PublishedRows(me: DeviceId, server: Server, group: Option<Group>)
    requires Reconcile(me, server, group).error == None
    ensures var wanted := Missing(server.devices, me, Founded(me, group).members);
            var r := Reconcile(me, server, group);
            r.published == Commits(me, server, group) + Welcomes(me, wanted, r.group, Claimed(wanted, server.inventory))
  {
    KeptMissesTheSame(me, server, Founded(me, group));
    var welcomes := PublishedShape(me, server, group);
    if welcomes == [] { assert Welcomes(me, [], Reconcile(me, server, group).group, Claimed([], server.inventory)) == []; }
  }

  lemma CommitsAreCommits(me: DeviceId, server: Server, group: Option<Group>)
    ensures forall k :: 0 <= k < |Commits(me, server, group)| ==> Commits(me, server, group)[k].contentType == Commit
  {
  }

  /** The published Welcomes stand behind the commits, in the order of the missing devices. */
  lemma WelcomeRow(me: DeviceId, server: Server, group: Option<Group>, k: nat)
    requires Reconcile(me, server, group).error == None
    ensures var start := Founded(me, group);
            var r := Reconcile(me, server, group);
            var wanted := Missing(server.devices, me, start.members);
            var c := |Commits(me, server, group)|;
            && |r.published| == c + |wanted|
            && (k < c ==> r.published[k].contentType == Commit)
            && (c <= k < |r.published| ==>
                  r.published[k] == WelcomeTo(me, wanted[k - c].id, r.group, Claimed(wanted, server.inventory)))
  {
    PublishedRows(me, server, group);
    CommitsAreCommits(me, server, group);
    var commits, wanted := Commits(me, server, group), Missing(server.devices, me, Founded(me, group).members);
    var r := Reconcile(me, server, group);
    var welcomes := Welcomes(me, wanted, r.group, Claimed(wanted, server.inventory));
    assert r.published == commits + welcomes && |welcomes| == |wanted|;
    if k < |commits| {
      assert r.published[k] == commits[k];
    } else if k < |r.published| {
      assert r.published[k] == welcomes[k - |commits|];
    }
  }

  lemma SameIdSamePlace(devices: seq<Device>, i: nat, j: nat)
    requires DistinctIds(devices) && i < |devices| && j < |devices| && devices[i].id == devices[j].id
    ensures i == j
  {
  }

  /** Nobody but a missing device is sent a Welcome. */
  lemma NoOtherWelcome(me: DeviceId, server: Server, group: Option<Group>, device: DeviceId, k: nat)
    requires Reconcile(me, server, group).error == None
    requires WelcomeAt(Reconcile(me, server, group).published, k, device)
    ensures device in Ids(server.devices) - {me} - Founded(me, group).members
  {
    var start := Founded(me, group);
    WelcomeRow(me, server, group, k);
    MissingIds(server.devices, me, start.members);
    var wanted := Missing(server.devices, me, start.members);
    assert wanted[k - |Commits(me, server, group)|] in wanted;
  }

  /** Each device that was missing gets exactly one Welcome, sealed to its own key package, into the final group. */
  lemma OneWelcomeEach(me: DeviceId, server: Server, group: Option<Group>, device: DeviceId) returns (i: nat)
    requires DistinctIds(server.devices)
    requires Reconcile(me, server, group).error == None
    requires device in Ids(server.devices) - {me} - Founded(me, group).members
    ensures var r := Reconcile(me, server, group);
            && i < |r.published|
            && (forall k: nat :: WelcomeAt(r.published, k, device) <==> k == i)
            && r.published[i].epoch == r.group.epoch
            && r.published[i].sender == me
            && r.published[i].wire.WelcomeWire?
            && r.published[i].wire.epoch == r.group.epoch
            && r.published[i].wire.members == r.group.members
            && device in server.inventory && server.inventory[device] in r.published[i].wire.packages
  {
    var start := Founded(me, group);
    var r := Reconcile(me, server, group);
    var wanted := Missing(server.devices, me, start.members);
    var c := |Commits(me, server, group)|;
    MissingIds(server.devices, me, start.members);
    MissingDistinct(server.devices, me, start.members);
    var d :| d in wanted && d.id == device;
    var j: nat :| j < |wanted| && wanted[j] == d;
    i := c + j;
    WelcomeRow(me, server, group, i);
    WantedClaimed(me, server, group, d);
    forall k: nat ensures WelcomeAt(r.published, k, device) <==> k == i {
      WelcomeRow(me, server, group, k);
      if WelcomeAt(r.published, k, device) { SameIdSamePlace(wanted, k - c, j); }
    }
  }

  lemma WantedClaimed(me: DeviceId, server: Server, group: Option<Group>, d: Device)
    requires Reconcile(me, server, group).error == None
    requires d in Missing(server.devices, me, Founded(me, group).members)
    ensures d.id in server.inventory
    ensures server.inventory[d.id] in Claimed(Missing(server.devices, me, Founded(me, group).members), server.inventory)
  {
    var welcomes := PublishedShape(me, server, group);
    MissingHolds(server.devices, me, Founded(me, group).members);
  }

  // ---------------------------------------------------------------------------
  // Main results: the other devices
  // ---------------------------------------------------------------------------

  lemma RemovalApplies(me: DeviceId, g: Group, removed: set<DeviceId>, o: DeviceId, known: set<DeviceId>, blocked: Option<ErrorCode>)
    requires o != me && me in known
    ensures FirstStep(Scan(Some(g), [], blocked, None), Removal(me, g, removed), o, known)
         == Scan(Some(Group(g.epoch + 1, g.members - removed)), [], blocked, None)
  {
    assert g.members - removed + {} == g.members - removed;
  }

  lemma AdditionApplies(me: DeviceId, g: Group, added: set<DeviceId>, o: DeviceId, known: set<DeviceId>, blocked: Option<ErrorCode>)
    requires o != me && me in known
    ensures FirstStep(Scan(Some(g), [], blocked, None), Addition(me, g, added), o, known)
         == Scan(Some(Group(g.epoch + 1, g.members + added)), [], blocked, None)
  {
    assert g.members - {} + added == g.members + added;
  }

  /** Applying the first n commits of a reconciliation to the group it started from. */
  lemma CommitsApply(me: DeviceId, server: Server, g: Group, o: DeviceId, known: set<DeviceId>, blocked: Option<ErrorCode>, n: nat)
    returns (h: Group)
    requires o != me && me in known
    requires n <= |Commits(me, server, Some(g))|
    ensures After(Scan(Some(g), [], blocked, None), Commits(me, server, Some(g))[..n], o, known) == Scan(Some(h), [], blocked, None)
    ensures h.epoch == g.epoch + n
    ensures var r := Reconcile(me, server, Some(g));
            r.group.epoch == g.epoch + |Commits(me, server, Some(g))| && (n == |Commits(me, server, Some(g))| ==> h == r.group)
  {
    var start := Scan(Some(g), [], blocked, None);
    var commits := Commits(me, server, Some(g));
    var welcomes := PublishedShape(me, server, Some(g));
    var kept := Kept(me, g, server.devices);
    h := g;
    if n >= 1 {
      assert commits[..1] == [] + [commits[0]];
      AfterOne(start, [], commits[0], o, known);
      if kept == g {
        AdditionApplies(me, g, Ids(Wanted(me, server, g)), o, known, blocked);
        h := Group(g.epoch + 1, g.members + Ids(Wanted(me, server, g)));
      } else {
        RemovalApplies(me, g, Stale(me, g, server.devices), o, known, blocked);
        h := kept;
      }
    }
    if n == 2 {
      assert commits[..2] == commits[..1] + [commits[1]];
      AfterOne(start, commits[..1], commits[1], o, known);
      AdditionApplies(me, kept, Ids(Wanted(me, server, g)), o, known, blocked);
      h := Group(kept.epoch + 1, kept.members + Ids(Wanted(me, server, g)));
    }
  }

  /** Published rows start with the accepted commits; the rest are Welcomes. */
  lemma PublishedSplit(me: DeviceId, server: Server, group: Option<Group>) returns (n: nat, welcomes: seq<Envelope>)
    ensures var commits := Commits(me, server, group);
            && n == (if |commits| <= server.accepts then |commits| else server.accepts)
            && Reconcile(me, server, group).published == commits[..n] + welcomes
            && (forall x :: x in welcomes ==> x.contentType == Welcome)
            && (forall x :: x in Reconcile(me, server, group).published ==> WellRouted(x))
  {
    var all := PublishedShape(me, server, group);
    var commits := Commits(me, server, group);
    n, welcomes := CutSplit(commits, all, server.accepts);
    forall x | x in Reconcile(me, server, group).published ensures WellRouted(x) { assert x in commits || x in all; }
  }

  /** A cut through two lists leaves a prefix of each. */
  lemma CutSplit(a: seq<Envelope>, b: seq<Envelope>, accepts: nat) returns (n: nat, rest: seq<Envelope>)
    ensures n == (if |a| <= accepts then |a| else accepts) && Cut(a + b, accepts) == a[..n] + rest
    ensures forall x :: x in rest ==> x in b
    ensures forall x :: x in Cut(a + b, accepts) ==> x in a || x in b
  {
    n := if |a| <= accepts then |a| else accepts;
    var room := accepts - n;
    rest := if |b| <= room then b else b[..room];
  }

  /**
    An observer that stood where the coordinator started ends where the
    coordinator ended if and only if the server accepted every commit.  The
    observer's page is the whole log it may read, as long as that fits.
   */
  lemma ObserverFollows(me: DeviceId, server: Server, g: Group, log: seq<Envelope>, o: DeviceId, blocked: Option<ErrorCode>, known: set<DeviceId>)
    requires o != me && me in known
    requires forall x :: x in log ==> WellRouted(x) && Skipped(x, o, Some(g))
    requires |Visible(log + Reconcile(me, server, Some(g)).published, o)| <= PAGE_LIMIT
    ensures var r := Reconcile(me, server, Some(g));
            var s := ScanLog(Some(g), blocked, Page(log + r.published, o), o, known);
            && s.thrown.None? && s.blocked == blocked
            && (s.group == Some(r.group) <==> |Commits(me, server, Some(g))| <= server.accepts)
  {
    var r := Reconcile(me, server, Some(g));
    var rows := log + r.published;
    var start := Scan(Some(g), [], blocked, None);
    var n, welcomes := PublishedSplit(me, server, Some(g));
    var commits := Commits(me, server, Some(g));
    forall x | x in rows ensures WellRouted(x) {
      assert x in log || x in r.published;
    }
    WithheldRowsDoNotMatter(start, rows, o, known);
    AfterAppend(start, log, r.published, o, known);
    AllSkipped(start, log, o, known);
    AfterAppend(start, commits[..n], welcomes, o, known);
    var h := CommitsApply(me, server, g, o, known, blocked, n);
    AllSkipped(Scan(Some(h), [], blocked, None), welcomes, o, known);
  }

  /** A row the Welcome loop passes over: no Welcome, or one sealed to other key packages. */
  predicate NotForMe(env: Envelope, packages: set<KeyPackage>, known: set<DeviceId>) {
    env.contentType == Welcome ==> env.sender in known && Join(packages, env.wire) == Failure(Duplicate)
  }

  /** The Welcome loop stops at the first Welcome it can open. */
  lemma {:induction false} JoinsAt(packages: set<KeyPackage>, page: seq<Envelope>, i: nat, n: nat, known: set<DeviceId>, blocked: Option<ErrorCode>, g: Group)
    requires i < |page| && n <= |page|
    requires forall k :: 0 <= k < i ==> NotForMe(page[k], packages, known)
    requires page[i].contentType == Welcome && page[i].sender in known
    requires Join(packages, page[i].wire) == Success(g)
    ensures JoinLog(Scan(None, [], blocked, None), packages, page, n, known)
         == Scan(if n <= i then None else Some(g), [], blocked, None)
  {
    if n > 0 { JoinsAt(packages, page, i, n - 1, known, blocked, g); }
  }

  lemma {:induction false} VisibleHolds(log: seq<Envelope>, device: DeviceId, x: Envelope)
    requires x in log && VisibleTo(x, device)
    ensures x in Visible(log, device)
  {
    if x != log[|log| - 1] {
      var k :| 0 <= k < |log| && log[k] == x;
      assert log[..|log| - 1][k] == x;
      VisibleHolds(log[..|log| - 1], device, x);
    }
  }

  /** First row the Welcome loop does not pass over. */
  lemma FirstForMe(rows: seq<Envelope>, packages: set<KeyPackage>, known: set<DeviceId>) returns (i: nat)
    requires exists x :: x in rows && !NotForMe(x, packages, known)
    ensures i < |rows| && !NotForMe(rows[i], packages, known)
    ensures forall k :: 0 <= k < i ==> NotForMe(rows[k], packages, known)
  {
    var w :| w in rows && !NotForMe(w, packages, known);
    var j: nat :| j < |rows| && rows[j] == w;
    i := 0;
    while NotForMe(rows[i], packages, known)
      decreases j - i
      invariant i <= j
      invariant forall k :: 0 <= k < i ==> NotForMe(rows[k], packages, known)
    {
      i := i + 1;
    }
  }

  /** An older row of the log: neither a Welcome the device can still open nor one the scan has to deal with. */
  predicate Old(env: Envelope, device: DeviceId, packages: set<KeyPackage>, known: set<DeviceId>, g: Group) {
    VisibleTo(env, device) ==> NotForMe(env, packages, known) && Skipped(env, device, Some(g))
  }

  /** The only Welcome the new device can open is the one it was sent, and no row lies beyond the final epoch. */
  lemma NewDevicePage(me: DeviceId, server: Server, group: Option<Group>, log: seq<Envelope>, device: DeviceId,
                      packages: set<KeyPackage>, known: set<DeviceId>, x: Envelope)
    requires DistinctIds(server.devices)
    requires Reconcile(me, server, group).error == None
    requires device in Ids(server.devices) - {me} - Founded(me, group).members
    requires device in server.inventory ==> server.inventory[device] in packages
    requires forall y :: y in log ==> Old(y, device, packages, known, Reconcile(me, server, group).group)
    requires x in log + Reconcile(me, server, group).published && VisibleTo(x, device)
    ensures var r := Reconcile(me, server, group);
            && Skipped(x, device, Some(r.group))
            && (!NotForMe(x, packages, known) ==> x.contentType == Welcome && x.sender == me && Join(packages, x.wire) == Success(r.group))
  {
    var r := Reconcile(me, server, group);
    if x !in log {
      var k: nat :| k < |r.published| && r.published[k] == x;
      WelcomeRow(me, server, group, k);
      if x.contentType == Welcome {
        var i := OneWelcomeEach(me, server, group, device);
        assert WelcomeAt(r.published, k, device);
        OpensForHolder(server.inventory[device], x.wire);
      }
    }
  }

  lemma OpensForHolder(package: KeyPackage, wire: Wire)
    requires wire.WelcomeWire? && package in wire.packages
    ensures forall packages: set<KeyPackage> :: package in packages ==> Join(packages, wire) == Success(Group(wire.epoch, wire.members))
  {
    forall packages: set<KeyPackage> | package in packages ensures packages * wire.packages != {} {
      assert package in packages * wire.packages;
    }
  }

  /** Where on its page a device the coordinator just added finds its Welcome. */
  lemma NewDeviceWelcome(me: DeviceId, server: Server, group: Option<Group>, log: seq<Envelope>, device: DeviceId,
                         packages: set<KeyPackage>, known: set<DeviceId>) returns (i: nat)
    requires DistinctIds(server.devices) && me in known
    requires Reconcile(me, server, group).error == None
    requires device in Ids(server.devices) - {me} - Founded(me, group).members
    requires device in server.inventory ==> server.inventory[device] in packages
    requires forall y :: y in log ==> Old(y, device, packages, known, Reconcile(me, server, group).group)
    ensures var r := Reconcile(me, server, group);
            var page := Visible(log + r.published, device);
            && i < |page|
            && (forall k :: 0 <= k < i ==> NotForMe(page[k], packages, known))
            && page[i].contentType == Welcome && page[i].sender in known && Join(packages, page[i].wire) == Success(r.group)
            && (forall x :: x in page ==> Skipped(x, device, Some(r.group)))
  {
    var r := Reconcile(me, server, group);
    var page := Visible(log + r.published, device);
    var w := OneWelcomeEach(me, server, group, device);
    assert WelcomeAt(r.published, w, device);
    assert r.published[w] in log + r.published;
    VisibleHolds(log + r.published, device, r.published[w]);
    OpensForHolder(server.inventory[device], r.published[w].wire);
    i := FirstForMe(page, packages, known);
    NewDevicePage(me, server, group, log, device, packages, known, page[i]);
    forall x | x in page ensures Skipped(x, device, Some(r.group)) {
      NewDevicePage(me, server, group, log, device, packages, known, x);
    }
  }

  /**
    A device the coordinator just added joins from its Welcome, behind any
    Welcomes it used before, and the rest of its page leaves it in the final group.
   */
  lemma NewDeviceJoins(me: DeviceId, server: Server, group: Option<Group>, log: seq<Envelope>, device: DeviceId,
                       packages: set<KeyPackage>, blocked: Option<ErrorCode>, known: set<DeviceId>)
    requires DistinctIds(server.devices) && me in known
    requires Reconcile(me, server, group).error == None
    requires device in Ids(server.devices) - {me} - Founded(me, group).members
    requires device in server.inventory ==> server.inventory[device] in packages
    requires forall y :: y in log ==> Old(y, device, packages, known, Reconcile(me, server, group).group)
    requires |Visible(log + Reconcile(me, server, group).published, device)| <= PAGE_LIMIT
    ensures var r := Reconcile(me, server, group);
            JoinThenScan(None, packages, blocked, Page(log + r.published, device), device, known) == Scan(Some(r.group), [], blocked, None)
  {
    var r := Reconcile(me, server, group);
    var page := Page(log + r.published, device);
    var i := NewDeviceWelcome(me, server, group, log, device, packages, known);
    JoinsAt(packages, page, i, |page|, known, blocked, r.group);
    AllSkipped(Scan(Some(r.group), [], blocked, None), page, device, known);
  }
}
