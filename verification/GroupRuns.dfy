/**
  Several synchronisations in a row: a repeated call, and observers that follow
  a run of reconciliations, scanning anywhere along it.
 */
module GroupRuns {
  import opened Common
  import opened GroupSync
  import opened GroupReconcile
  import GroupScan

  // ---------------------------------------------------------------------------
  // The same call again
  // ---------------------------------------------------------------------------

  lemma SettledLater(env: Envelope, me: DeviceId, known: set<DeviceId>, before: Option<Group>, after: Option<Group>)
    requires GroupScan.Settled(env, me, known, before) && GroupScan.NoEarlier(before, after)
    ensures GroupScan.Settled(env, me, known, after)
  {
  }

  lemma {:induction false} NoWelcomeNoJoin(start: Scan, packages: set<KeyPackage>, page: seq<Envelope>, i: nat, known: set<DeviceId>)
    requires i <= |page| && start.thrown.None? && start.group.None?
    ensures var s := JoinLog(start, packages, page, i, known);
            && (s.thrown.None? && s.group.None? ==> forall j :: 0 <= j < i ==> NotForMe(page[j], packages, known))
            && ((forall j :: 0 <= j < i ==> NotForMe(page[j], packages, known)) ==> s == start)
  {
    if i > 0 { NoWelcomeNoJoin(start, packages, page, i - 1, known); }
  }

  /** A finished reconciliation finds nothing left to do. */
  lemma ReconciledAgain(me: DeviceId, server: Server, group: Option<Group>, later: Server)
    requires me in Ids(server.devices) && IsIn(group, me) && later.devices == server.devices
    requires Reconcile(me, server, group).error == None
    ensures var r := Reconcile(me, server, group); Reconcile(me, later, Some(r.group)) == Reconciled(r.group, [], None)
  {
    var g := Reconcile(me, server, group).group;
    ReconcileMatchesDirectory(me, server, group);
    MissingIds(later.devices, me, g.members);
    var missing := Missing(later.devices, me, g.members);
    assert |missing| > 0 ==> missing[0].id in Ids(missing);
    assert Stale(me, g, later.devices) == {};
  }

  /**
    A synchronisation that returned normally and is called again, over the same
    directory and a page that holds nothing but the rows of the first page and
    those the first call published, publishes nothing and changes nothing.
   */
  lemma SynchronizedAgain(me: DeviceId, server: Server, group: Option<Group>, blocked: Option<ErrorCode>, packages: set<KeyPackage>,
                          known: set<DeviceId>, later: Server, cause: Option<ErrorCode>)
    requires forall x :: x in server.page ==> GroupScan.Honest(x)
    requires server.coordinator == Some(me) ==> IsIn(group, me) && forall x :: x in server.page ==> Keeps(x, me)
    requires Synchronized(me, server, group, blocked, packages, known).error == None
    requires later.devices == server.devices && later.coordinator == server.coordinator
    requires forall x :: x in later.page ==> x in server.page || x in Synchronized(me, server, group, blocked, packages, known).published
    ensures var s := Synchronized(me, server, group, blocked, packages, known);
            Synchronized(me, later, s.group, cause, packages, known) == Synced(s.group, cause, [], None)
  {
    var scan := JoinThenScan(group, packages, blocked, server.page, me, known);
    var s := Synchronized(me, server, group, blocked, packages, known);
    if server.coordinator == Some(me) {
      SyncKeeps(group, packages, blocked, server.page, me, known);
      ReconciledAgain(me, server, scan.group, later);
    }
    PageSettles(group, packages, blocked, server.page, me, known);
    forall j | 0 <= j < |later.page| ensures GroupScan.Settled(later.page[j], me, known, s.group) {
      if later.page[j] in server.page { SettledLater(later.page[j], me, known, scan.group, s.group); }
    }
    SettledSync(s.group, packages, cause, later.page, me, known);
  }

  lemma PageSettles(group: Option<Group>, packages: set<KeyPackage>, blocked: Option<ErrorCode>, page: seq<Envelope>, me: DeviceId, known: set<DeviceId>)
    requires forall x :: x in page ==> GroupScan.Honest(x)
    requires JoinThenScan(group, packages, blocked, page, me, known).thrown.None?
    ensures var s := JoinThenScan(group, packages, blocked, page, me, known);
            && (forall x :: x in page ==> GroupScan.Settled(x, me, known, s.group))
            && (s.group.None? ==> forall x :: x in page ==> NotForMe(x, packages, known))
  {
    var joined := JoinLog(Scan(None, [], blocked, None), packages, page, |page|, known);
    var from := if group.Some? then group else joined.group;
    var cause := if group.Some? then blocked else joined.blocked;
    GroupScan.ScanSettles(from, cause, page, me, known);
    NoWelcomeNoJoin(Scan(None, [], blocked, None), packages, page, |page|, known);
    GroupScan.ScanNeverGoesBack(from, cause, page, me, known);
  }

  lemma SettledSync(group: Option<Group>, packages: set<KeyPackage>, blocked: Option<ErrorCode>, page: seq<Envelope>, me: DeviceId, known: set<DeviceId>)
    requires forall j :: 0 <= j < |page| ==> GroupScan.Settled(page[j], me, known, group)
    requires group.None? ==> forall j :: 0 <= j < |page| ==> NotForMe(page[j], packages, known)
    ensures JoinThenScan(group, packages, blocked, page, me, known) == Scan(group, [], blocked, None)
  {
    NoWelcomeNoJoin(Scan(None, [], blocked, None), packages, page, |page|, known);
    GroupScan.SettledPageIsSkipped(group, blocked, page, |page|, me, known);
  }

  // ---------------------------------------------------------------------------
  // An observer behind a run of reconciliations
  // ---------------------------------------------------------------------------

  /** The coordinator's group before reconciliation i, and after the last one. */
  function GroupAt(g: Group, run: seq<Reconciled>, i: nat): Group
    requires i <= |run|
  {
    if i == 0 then g else run[i - 1].group
  }

  /** Reconciliation i starts from the group the one before it left. */
  predicate ReconcilesAt(me: DeviceId, servers: seq<Server>, g: Group, run: seq<Reconciled>, i: nat)
    requires i < |run| == |servers|
  {
    run[i] == Reconcile(me, servers[i], Some(GroupAt(g, run, i)))
  }

  predicate IsRun(me: DeviceId, servers: seq<Server>, g: Group, run: seq<Reconciled>) {
    |run| == |servers| && forall i :: 0 <= i < |servers| ==> ReconcilesAt(me, servers, g, run, i)
  }

  /** Reconciling with one server state after the other. */
  function RunOf(me: DeviceId, servers: seq<Server>, g: Group): (run: seq<Reconciled>)
    ensures IsRun(me, servers, g, run)
  {
    if servers == [] then []
    else
      var n := |servers| - 1;
      var before := RunOf(me, servers[..n], g);
      var run := before + [Reconcile(me, servers[n], Some(GroupAt(g, before, n)))];
      assert forall i :: 0 <= i < n ==> ReconcilesAt(me, servers[..n], g, before, i) ==> ReconcilesAt(me, servers, g, run, i);
      run
  }

  /** Every row that reconciliations k to n - 1 stored, in order. */
  function Stored(run: seq<Reconciled>, k: nat, n: nat): seq<Envelope>
    requires k <= n <= |run|
  {
    if n == k then [] else Stored(run, k, n - 1) + run[n - 1].published
  }

  /** The server accepted every commit, whatever became of the Welcomes. */
  predicate CommitsAccepted(me: DeviceId, server: Server, g: Group) {
    |Commits(me, server, Some(g))| <= server.accepts
  }

  predicate AcceptedAt(me: DeviceId, servers: seq<Server>, g: Group, run: seq<Reconciled>, i: nat)
    requires i < |run| == |servers|
  {
    CommitsAccepted(me, servers[i], GroupAt(g, run, i))
  }

  /** The same for reconciliations k to n - 1. */
  predicate Accepted(me: DeviceId, servers: seq<Server>, g: Group, run: seq<Reconciled>, k: nat, n: nat)
    requires k <= n <= |run| == |servers|
  {
    forall i :: k <= i < n ==> AcceptedAt(me, servers, g, run, i)
  }

  lemma {:induction false} SplitRun(run: seq<Reconciled>, k: nat, n: nat)
    requires k <= n <= |run|
    ensures Stored(run, 0, n) == Stored(run, 0, k) + Stored(run, k, n)
  {
    if n > k { SplitRun(run, k, n - 1); }
  }

  /** An observer that lost its place: every commit it has put aside, and every one to come, builds on an epoch it never reaches. */
  ghost predicate LeftBehind(s: Scan, epoch: nat) {
    && s.group.Some? && s.group.value.epoch < epoch && s.thrown.None?
    && forall t :: 0 <= t < |s.deferred| ==> Beyond(s.deferred[t], s.group.value.epoch)
  }

  predicate Beyond(env: Envelope, epoch: nat) {
    env.wire.CommitWire? && env.wire.base > epoch
  }

  lemma {:induction false} StaysBehind(s: Scan, rows: seq<Envelope>, me: DeviceId, o: DeviceId, known: set<DeviceId>, epoch: nat)
    requires LeftBehind(s, epoch) && me in known
    requires forall x :: x in rows ==> x.sender == me && (x.contentType == Welcome || (x.wire.CommitWire? && x.wire.base >= epoch))
    ensures LeftBehind(After(s, rows, o, known), epoch) && After(s, rows, o, known).group == s.group
  {
    if rows != [] {
      var n := |rows| - 1;
      assert rows == rows[..n] + [rows[n]];
      StaysBehind(s, rows[..n], me, o, known, epoch);
      AfterOne(s, rows[..n], rows[n], o, known);
      assert rows[n] in rows;
    }
  }

  lemma {:induction false} SecondPassStuck(s: Scan, epoch: nat, i: nat)
    requires LeftBehind(s, epoch) && i <= |s.deferred|
    ensures SecondPass(s, i).group == s.group
  {
    if i > 0 {
      SecondPassStuck(s, epoch, i - 1);
      assert Beyond(s.deferred[i - 1], s.group.value.epoch);
    }
  }

  /** What the observer is after the rows of a run that ends in the given group. */
  ghost predicate Follows(s: Scan, g: Group, accepted: bool, blocked: Option<ErrorCode>) {
    if accepted then s == Scan(Some(g), [], blocked, None) else LeftBehind(s, g.epoch)
  }

  /** The rows of one reconciliation, between the groups it starts from and ends in. */
  predicate RowBetween(x: Envelope, me: DeviceId, first: nat, last: nat) {
    && x.sender == me && WellRouted(x) && GroupScan.Honest(x)
    && (x.contentType == Welcome || (x.contentType == Commit && x.wire.CommitWire? && x.wire.base >= first && x.epoch <= last))
  }

  lemma PublishedBetween(me: DeviceId, server: Server, g: Group)
    ensures var r := Reconcile(me, server, Some(g));
            g.epoch <= r.group.epoch && forall x :: x in r.published ==> RowBetween(x, me, g.epoch, r.group.epoch)
  {
    var welcomes := PublishedShape(me, server, Some(g));
  }

  /** One more reconciliation. */
  lemma OneMore(me: DeviceId, server: Server, g: Group, r: Reconciled, s: Scan, accepted: bool, o: DeviceId, known: set<DeviceId>, blocked: Option<ErrorCode>)
    requires o != me && me in known && r == Reconcile(me, server, Some(g)) && Follows(s, g, accepted, blocked)
    ensures Follows(After(s, r.published, o, known), r.group, accepted && CommitsAccepted(me, server, g), blocked)
  {
    if accepted {
      var n, welcomes := PublishedSplit(me, server, Some(g));
      var commits := Commits(me, server, Some(g));
      AfterAppend(s, commits[..n], welcomes, o, known);
      var h := CommitsApply(me, server, g, o, known, blocked, n);
      AllSkipped(Scan(Some(h), [], blocked, None), welcomes, o, known);
    } else {
      PublishedBetween(me, server, g);
      StaysBehind(s, r.published, me, o, known, g.epoch);
    }
  }

  /** After reconciliations k to n - 1 an observer that stood at k has kept up, or is left behind for good. */
  lemma {:induction false} KeptUpOrLeftBehind(me: DeviceId, servers: seq<Server>, g: Group, run: seq<Reconciled>, k: nat, n: nat,
                                              o: DeviceId, known: set<DeviceId>, blocked: Option<ErrorCode>)
    requires o != me && me in known && IsRun(me, servers, g, run) && k <= n <= |run|
    ensures Follows(After(Scan(Some(GroupAt(g, run, k)), [], blocked, None), Stored(run, k, n), o, known),
                    GroupAt(g, run, n), Accepted(me, servers, g, run, k, n), blocked)
  {
    if n == k {
      assert Accepted(me, servers, g, run, k, n);
    } else {
      var start, stored := Scan(Some(GroupAt(g, run, k)), [], blocked, None), Stored(run, k, n - 1);
      KeptUpOrLeftBehind(me, servers, g, run, k, n - 1, o, known, blocked);
      AfterAppend(start, stored, run[n - 1].published, o, known);
      FollowOn(me, servers, g, run, k, n, After(start, stored, o, known), o, known, blocked);
    }
  }

  /** The step of the induction: reconciliation n - 1. */
  lemma FollowOn(me: DeviceId, servers: seq<Server>, g: Group, run: seq<Reconciled>, k: nat, n: nat,
                 s: Scan, o: DeviceId, known: set<DeviceId>, blocked: Option<ErrorCode>)
    requires o != me && me in known && IsRun(me, servers, g, run) && k < n <= |run|
    requires Follows(s, GroupAt(g, run, n - 1), Accepted(me, servers, g, run, k, n - 1), blocked)
    ensures Follows(After(s, run[n - 1].published, o, known), GroupAt(g, run, n), Accepted(me, servers, g, run, k, n), blocked)
  {
    var accepted := Accepted(me, servers, g, run, k, n - 1);
    assert ReconcilesAt(me, servers, g, run, n - 1);
    OneMore(me, servers[n - 1], GroupAt(g, run, n - 1), run[n - 1], s, accepted, o, known, blocked);
    AcceptedSnoc(me, servers, g, run, k, n);
  }

  lemma AcceptedSnoc(me: DeviceId, servers: seq<Server>, g: Group, run: seq<Reconciled>, k: nat, n: nat)
    requires k < n <= |run| == |servers|
    ensures Accepted(me, servers, g, run, k, n) <==>
              Accepted(me, servers, g, run, k, n - 1) && CommitsAccepted(me, servers[n - 1], GroupAt(g, run, n - 1))
  {
    assert AcceptedAt(me, servers, g, run, n - 1) == CommitsAccepted(me, servers[n - 1], GroupAt(g, run, n - 1));
  }

  lemma {:induction false} StoredBetween(me: DeviceId, servers: seq<Server>, g: Group, run: seq<Reconciled>, k: nat, n: nat)
    requires IsRun(me, servers, g, run) && k <= n <= |run|
    ensures GroupAt(g, run, k).epoch <= GroupAt(g, run, n).epoch
    ensures forall x :: x in Stored(run, k, n) ==> RowBetween(x, me, GroupAt(g, run, k).epoch, GroupAt(g, run, n).epoch)
  {
    if n > k {
      StoredBetween(me, servers, g, run, k, n - 1);
      assert ReconcilesAt(me, servers, g, run, n - 1);
      PublishedBetween(me, servers[n - 1], GroupAt(g, run, n - 1));
    }
  }

  // ---------------------------------------------------------------------------
  // Scanning at any points of the run
  // ---------------------------------------------------------------------------

  /** Each scan reads the page as it is after so many reconciliations. */
  predicate Points(points: seq<nat>, n: nat) {
    (forall i :: 0 <= i < |points| ==> points[i] <= n) && forall i, j :: 0 <= i < j < |points| ==> points[i] <= points[j]
  }

  function Last(points: seq<nat>): nat {
    if points == [] then 0 else points[|points| - 1]
  }

  /** The observer after a scan at each point, one after the other, also past scans that threw. */
  function Observed(run: seq<Reconciled>, g: Group, log: seq<Envelope>, o: DeviceId, blocked: Option<ErrorCode>,
                    known: set<DeviceId>, points: seq<nat>): Scan
    requires Points(points, |run|)
  {
    if points == [] then Scan(Some(g), [], blocked, None)
    else
      var n := |points| - 1;
      var before := Observed(run, g, log, o, blocked, known, points[..n]);
      ScanLog(before.group, before.blocked, Page(log + Stored(run, 0, points[n]), o), o, known)
  }

  /** A row of the run that the group has no use for, now or later. */
  predicate Useless(x: Envelope, me: DeviceId, o: DeviceId, h: Group) {
    Skipped(x, o, Some(h)) || (x.sender == me && x.contentType == Commit && Beyond(x, h.epoch))
  }

  /** Where an observer stands after scanning the first k reconciliations. */
  ghost predicate Stands(group: Option<Group>, me: DeviceId, servers: seq<Server>, g: Group, run: seq<Reconciled>, o: DeviceId, k: nat)
    requires k <= |run| == |servers|
  {
    if Accepted(me, servers, g, run, 0, k) then group == Some(GroupAt(g, run, k))
    else
      && group.Some? && g.epoch <= group.value.epoch < GroupAt(g, run, k).epoch
      && forall x :: x in Stored(run, 0, k) ==> Useless(x, me, o, group.value)
  }

  lemma {:induction false} UselessRows(h: Group, rows: seq<Envelope>, me: DeviceId, o: DeviceId, known: set<DeviceId>, blocked: Option<ErrorCode>, epoch: nat)
    requires me in known && h.epoch < epoch && forall x :: x in rows ==> Useless(x, me, o, h)
    ensures LeftBehind(After(Scan(Some(h), [], blocked, None), rows, o, known), epoch)
    ensures After(Scan(Some(h), [], blocked, None), rows, o, known).group == Some(h)
  {
    if rows != [] {
      var n := |rows| - 1;
      assert rows == rows[..n] + [rows[n]];
      UselessRows(h, rows[..n], me, o, known, blocked, epoch);
      AfterOne(Scan(Some(h), [], blocked, None), rows[..n], rows[n], o, known);
      assert rows[n] in rows;
    }
  }

  /** A page that fits, read from the group at k: first the older rows, then those of reconciliations k to n - 1. */
  lemma PageAfter(run: seq<Reconciled>, log: seq<Envelope>, o: DeviceId, known: set<DeviceId>, start: Scan, k: nat, n: nat)
    requires k <= n <= |run| && |Visible(log + Stored(run, 0, n), o)| <= PAGE_LIMIT
    requires forall x :: x in log + Stored(run, 0, n) ==> WellRouted(x)
    ensures var page := Page(log + Stored(run, 0, n), o);
            FirstPass(start, page, |page|, o, known) == After(After(start, log + Stored(run, 0, k), o, known), Stored(run, k, n), o, known)
  {
    SplitRun(run, k, n);
    assert log + Stored(run, 0, n) == (log + Stored(run, 0, k)) + Stored(run, k, n);
    WithheldRowsDoNotMatter(start, log + Stored(run, 0, n), o, known);
    AfterAppend(start, log + Stored(run, 0, k), Stored(run, k, n), o, known);
  }

  /** One more scan, at point n, of an observer that last scanned at k. */
  lemma ScanAt(me: DeviceId, servers: seq<Server>, g: Group, run: seq<Reconciled>, log: seq<Envelope>, o: DeviceId, known: set<DeviceId>,
               before: Scan, k: nat, n: nat)
    requires o != me && me in known && IsRun(me, servers, g, run) && k <= n <= |run|
    requires forall x :: x in log ==> WellRouted(x) && Skipped(x, o, Some(g))
    requires |Visible(log + Stored(run, 0, n), o)| <= PAGE_LIMIT
    requires Stands(before.group, me, servers, g, run, o, k)
    ensures Stands(ScanLog(before.group, before.blocked, Page(log + Stored(run, 0, n), o), o, known).group, me, servers, g, run, o, n)
  {
    var page := Page(log + Stored(run, 0, n), o);
    var h := before.group.value;
    var start := Scan(Some(h), [], before.blocked, None);
    var first := FirstPass(start, page, |page|, o, known);
    StoredBetween(me, servers, g, run, 0, k);
    StoredBetween(me, servers, g, run, 0, n);
    StoredBetween(me, servers, g, run, k, n);
    PageAfter(run, log, o, known, start, k, n);
    SplitRun(run, k, n);
    if Accepted(me, servers, g, run, 0, k) {
      AllSkipped(start, log + Stored(run, 0, k), o, known);
      KeptUpOrLeftBehind(me, servers, g, run, k, n, o, known, before.blocked);
      if Accepted(me, servers, g, run, k, n) {
        assert Accepted(me, servers, g, run, 0, n);
      } else {
        LostPlace(me, run, o, known, start, k, n, GroupAt(g, run, n).epoch);
        SecondPassStuck(first, GroupAt(g, run, n).epoch, |first.deferred|);
      }
    } else {
      forall x | x in Stored(run, k, n) ensures Useless(x, me, o, h) { }
      var rows := log + Stored(run, 0, n);
      assert forall x :: x in rows ==> Useless(x, me, o, h);
      WithheldRowsDoNotMatter(start, rows, o, known);
      UselessRows(h, rows, me, o, known, before.blocked, GroupAt(g, run, n).epoch);
      SecondPassStuck(first, GroupAt(g, run, n).epoch, |first.deferred|);
    }
  }

  /** What the scan that lost its place leaves is of no use to it any more. */
  lemma LostPlace(me: DeviceId, run: seq<Reconciled>, o: DeviceId, known: set<DeviceId>, start: Scan, k: nat, n: nat, epoch: nat)
    requires me in known && k <= n <= |run| && start.deferred == [] && start.thrown.None? && start.group.Some?
    requires forall x :: x in Stored(run, k, n) ==> RowBetween(x, me, start.group.value.epoch, epoch)
    requires LeftBehind(After(start, Stored(run, k, n), o, known), epoch)
    ensures var s := After(start, Stored(run, k, n), o, known);
            start.group.value.epoch <= s.group.value.epoch && forall x :: x in Stored(run, k, n) ==> Useless(x, me, o, s.group.value)
  {
    var rows := Stored(run, k, n);
    forall j | 0 <= j < |rows| ensures GroupScan.Honest(rows[j]) { assert rows[j] in rows; }
    GroupScan.FirstPassSettles(start.group, start.blocked, rows, |rows|, o, known);
    GroupScan.FirstPassNeverGoesBack(start, rows, |rows|, o, known);
    var s := After(start, rows, o, known);
    forall x | x in rows ensures Useless(x, me, o, s.group.value) {
      var j :| 0 <= j < |rows| && rows[j] == x;
      assert GroupScan.Settled(rows[j], o, known, s.group) || rows[j] in s.deferred;
    }
  }

  lemma EarlierFits(run: seq<Reconciled>, log: seq<Envelope>, o: DeviceId, k: nat, n: nat)
    requires k <= n <= |run|
    ensures |Visible(log + Stored(run, 0, k), o)| <= |Visible(log + Stored(run, 0, n), o)|
  {
    SplitRun(run, k, n);
    assert log + Stored(run, 0, n) == (log + Stored(run, 0, k)) + Stored(run, k, n);
    VisibleAppend(log + Stored(run, 0, k), Stored(run, k, n), o);
  }

  lemma {:induction false} ScansStand(me: DeviceId, servers: seq<Server>, g: Group, run: seq<Reconciled>, log: seq<Envelope>, o: DeviceId,
                                      blocked: Option<ErrorCode>, known: set<DeviceId>, points: seq<nat>)
    requires o != me && me in known && IsRun(me, servers, g, run) && Points(points, |run|)
    requires forall x :: x in log ==> WellRouted(x) && Skipped(x, o, Some(g))
    requires |Visible(log + Stored(run, 0, Last(points)), o)| <= PAGE_LIMIT
    ensures Stands(Observed(run, g, log, o, blocked, known, points).group, me, servers, g, run, o, Last(points))
  {
    if points != [] {
      var n := |points| - 1;
      EarlierFits(run, log, o, Last(points[..n]), points[n]);
      ScansStand(me, servers, g, run, log, o, blocked, known, points[..n]);
      ScanAt(me, servers, g, run, log, o, known, Observed(run, g, log, o, blocked, known, points[..n]), Last(points[..n]), points[n]);
    }
  }

  /**
    Over any run of reconciliations, with any directories, claims and network
    failures: an observer that stood where the coordinator started, scanning at
    any points of the run, stands where the coordinator stood at the last of
    them if and only if every commit up to there was stored.
   */
  lemma ObserverFollowsScans(me: DeviceId, servers: seq<Server>, g: Group, run: seq<Reconciled>, log: seq<Envelope>, o: DeviceId,
                             blocked: Option<ErrorCode>, known: set<DeviceId>, points: seq<nat>)
    requires o != me && me in known && IsRun(me, servers, g, run) && Points(points, |run|)
    requires forall x :: x in log ==> WellRouted(x) && Skipped(x, o, Some(g))
    ensures |Visible(log + Stored(run, 0, Last(points)), o)| <= PAGE_LIMIT ==>
              (Observed(run, g, log, o, blocked, known, points).group == Some(GroupAt(g, run, Last(points)))
               <==> Accepted(me, servers, g, run, 0, Last(points)))
  {
    if |Visible(log + Stored(run, 0, Last(points)), o)| <= PAGE_LIMIT {
      ScansStand(me, servers, g, run, log, o, blocked, known, points);
    }
  }

  /** In particular one scan at the end suffices. */
  lemma ObserverFollowsRun(me: DeviceId, servers: seq<Server>, g: Group, log: seq<Envelope>, o: DeviceId, blocked: Option<ErrorCode>, known: set<DeviceId>)
    requires o != me && me in known
    requires forall x :: x in log ==> WellRouted(x) && Skipped(x, o, Some(g))
    ensures var run := RunOf(me, servers, g);
            var page := log + Stored(run, 0, |run|);
            |Visible(page, o)| <= PAGE_LIMIT ==>
              (ScanLog(Some(g), blocked, Page(page, o), o, known).group == Some(GroupAt(g, run, |run|)) <==> Accepted(me, servers, g, run, 0, |run|))
  {
    var run := RunOf(me, servers, g);
    var points := [|run|];
    assert points[..0] == [];
    ObserverFollowsScans(me, servers, g, run, log, o, blocked, known, points);
  }

  /**
    A device that was just added and scans for the first time only after any
    number of further reconciliations joins from its Welcome and follows them
    in the same call, if and only if every commit since its Welcome was stored.
   */
  lemma JoinsAndFollows(me: DeviceId, server: Server, group: Option<Group>, servers: seq<Server>, run: seq<Reconciled>, log: seq<Envelope>,
                        device: DeviceId, packages: set<KeyPackage>, blocked: Option<ErrorCode>, known: set<DeviceId>)
    requires DistinctIds(server.devices) && me in known
    requires Reconcile(me, server, group).error == None
    requires device in Ids(server.devices) - {me} - Founded(me, group).members
    requires device in server.inventory ==> server.inventory[device] in packages
    requires forall y :: y in log ==> Old(y, device, packages, known, Reconcile(me, server, group).group)
    requires IsRun(me, servers, Reconcile(me, server, group).group, run)
    ensures var r := Reconcile(me, server, group);
            var page := log + r.published + Stored(run, 0, |run|);
            |Visible(page, device)| <= PAGE_LIMIT ==>
              (JoinThenScan(None, packages, blocked, Page(page, device), device, known).group == Some(GroupAt(r.group, run, |run|))
               <==> Accepted(me, servers, r.group, run, 0, |run|))
  {
    var r := Reconcile(me, server, group);
    var stored := Stored(run, 0, |run|);
    if |Visible(log + r.published + stored, device)| <= PAGE_LIMIT {
      var page := Page(log + r.published + stored, device);
      VisibleAppend(log + r.published, stored, device);
      var i := NewDeviceWelcome(me, server, group, log, device, packages, known);
      JoinsAt(packages, page, i, |page|, known, blocked, r.group);
      FollowsFrom(me, servers, r.group, run, Visible(log + r.published, device), device, known, blocked);
    }
  }

  /** A page that starts with rows of no use and goes on with a whole run. */
  lemma FollowsFrom(me: DeviceId, servers: seq<Server>, g: Group, run: seq<Reconciled>, older: seq<Envelope>,
                    o: DeviceId, known: set<DeviceId>, blocked: Option<ErrorCode>)
    requires o != me && me in known && IsRun(me, servers, g, run)
    requires forall x :: x in older ==> Skipped(x, o, Some(g))
    ensures ScanLog(Some(g), blocked, older + Visible(Stored(run, 0, |run|), o), o, known).group == Some(GroupAt(g, run, |run|))
       <==> Accepted(me, servers, g, run, 0, |run|)
  {
    var start, stored := Scan(Some(g), [], blocked, None), Stored(run, 0, |run|);
    StoredBetween(me, servers, g, run, 0, |run|);
    AfterAppend(start, older, Visible(stored, o), o, known);
    AllSkipped(start, older, o, known);
    WithheldRowsDoNotMatter(start, stored, o, known);
    KeptUpOrLeftBehind(me, servers, g, run, 0, |run|, o, known, blocked);
    var first := After(start, stored, o, known);
    if LeftBehind(first, GroupAt(g, run, |run|).epoch) {
      SecondPassStuck(first, GroupAt(g, run, |run|).epoch, |first.deferred|);
    }
  }
}
