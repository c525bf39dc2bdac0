/**
  Who may change a group: a device that is not the coordinator only listens,
  and rows of senders the directory does not name move nobody.
 */
module GroupRoles {
  import opened Common
  import opened GroupSync
  import GroupReconcile
  import GroupScan

  // ---------------------------------------------------------------------------
  // Everybody but the coordinator
  // ---------------------------------------------------------------------------

  /**
    A synchronisation publishes only for the listed coordinator, and only after
    its page was read to the end.  Every other listed device ends exactly where
    its page takes it, and one the directory does not list stays as it was.
   */
  lemma OnlyTheCoordinatorActs(me: DeviceId, server: Server, group: Option<Group>, blocked: Option<ErrorCode>,
                               packages: set<KeyPackage>, known: set<DeviceId>)
    ensures var s := Synchronized(me, server, group, blocked, packages, known);
            var page := JoinThenScan(group, packages, blocked, server.page, me, known);
            var listed := exists d :: d in server.devices && d.id == me;
            && (!listed ==> s == Synced(group, blocked, [], Some(NoPublishedIdentity)))
            && (listed && server.coordinator != Some(me) ==>
                  s == Synced(page.group, page.blocked, [], if page.thrown.Some? then Some(EnvelopeError(page.thrown.value)) else None))
            && (s.published != [] ==> listed && server.coordinator == Some(me) && page.thrown.None?)
            && (s.error == Some(ClaimFailed) || s.error == Some(PublishFailed) ==> server.coordinator == Some(me))
            && (listed && page.thrown.Some? ==> s == Synced(page.group, page.blocked, [], Some(EnvelopeError(page.thrown.value))))
  {
    assert me in Ids(server.devices) <==> exists d :: d in server.devices && d.id == me;
  }

  lemma {:induction false} NoWelcomeNoGroup(start: Scan, packages: set<KeyPackage>, page: seq<Envelope>, i: nat, known: set<DeviceId>)
    requires i <= |page| && forall j :: 0 <= j < i ==> page[j].contentType != Welcome || page[j].sender !in known
    requires start.group.None?
    ensures JoinLog(start, packages, page, i, known).group.None?
  {
    if i > 0 { NoWelcomeNoGroup(start, packages, page, i - 1, known); }
  }

  /** Nobody but the coordinator founds a group: without a Welcome of a known sender there is still none. */
  lemma OthersNeverFound(me: DeviceId, server: Server, blocked: Option<ErrorCode>, packages: set<KeyPackage>, known: set<DeviceId>)
    requires server.coordinator != Some(me)
    requires forall x :: x in server.page ==> x.contentType != Welcome || x.sender !in known
    ensures Synchronized(me, server, None, blocked, packages, known).group.None?
  {
    var page := server.page;
    NoWelcomeNoGroup(Scan(None, [], blocked, None), packages, page, |page|, known);
    var joined := JoinLog(Scan(None, [], blocked, None), packages, page, |page|, known);
    GroupScan.GroupStaysAbsent(Scan(None, [], joined.blocked, None), page, |page|, me, known);
  }

  // ---------------------------------------------------------------------------
  // Senders
  // ---------------------------------------------------------------------------

  /** A sender is known exactly when the directory last named a non-empty login for it. */
  lemma {:induction false} KnownSenders(owners: map<DeviceId, string>, devices: seq<Device>, d: DeviceId)
    ensures forall k :: 0 <= k < |devices| && devices[k].id == d && (forall l :: k < l < |devices| ==> devices[l].id != d) ==>
              (d in Attributable(Owners(owners, devices)) <==> devices[k].login != "")
    ensures (forall k :: 0 <= k < |devices| ==> devices[k].id != d) ==>
              (d in Attributable(Owners(owners, devices)) <==> d in owners && owners[d] != "")
  {
    if devices != [] {
      var n := |devices| - 1;
      var rest, last := devices[..n], devices[n];
      KnownSenders(owners, rest, d);
      assert Owners(owners, devices) == Owners(owners, rest)[last.id := last.login];
      if last.id != d {
        assert d in Attributable(Owners(owners, devices)) <==> d in Attributable(Owners(owners, rest));
        forall k | 0 <= k < |devices| && devices[k].id == d && (forall l :: k < l < |devices| ==> devices[l].id != d)
          ensures d in Attributable(Owners(owners, devices)) <==> devices[k].login != ""
        {
          assert rest[k] == devices[k] && forall l :: k < l < |rest| ==> rest[l] == devices[l];
        }
        if forall k :: 0 <= k < |devices| ==> devices[k].id != d {
          assert forall k :: 0 <= k < |rest| ==> rest[k] == devices[k];
        }
      }
    }
  }

  /** A row the first pass has to open: from elsewhere, about membership, and ahead of the local epoch. */
  predicate Opened(env: Envelope, me: DeviceId, group: Option<Group>) {
    && env.sender != me && (env.contentType == Commit || env.contentType == Proposal)
    && (group.Some? ==> env.epoch > group.value.epoch)
  }

  /** What each kind of payload does to a device that opens it. */
  lemma OpenedRow(g: Group, deferred: seq<Envelope>, blocked: Option<ErrorCode>, env: Envelope, me: DeviceId, known: set<DeviceId>)
    ensures var s := Scan(Some(g), deferred, blocked, None);
            var t := FirstStep(s, env, me, known);
            if !Opened(env, me, Some(g)) then t == s
            else if env.sender !in known then t == Scan(Some(g), deferred, Some(UnknownSenderDevice), Some(UnknownSenderDevice))
            else
              match env.wire
              case CommitWire(base, removes, adds) =>
                if base == g.epoch then t == Scan(Some(Group(g.epoch + 1, g.members - removes + adds)), deferred, blocked, None)
                else t == Scan(Some(g), deferred + [env], Some(MissingCommit), None)
              case ProposalWire(base) =>
                if base == g.epoch then t == s else t == Scan(Some(g), deferred + [env], Some(MissingCommit), None)
              case MalformedWire => t == Scan(Some(g), deferred, Some(CorruptedCiphertext), Some(CorruptedCiphertext))
              case WelcomeWire(_, _, _) => t == Scan(Some(g), deferred, Some(ProtocolViolation), Some(ProtocolViolation))
              case _ => t == s
  {
  }

  /** What each Welcome does to a device without a group. */
  lemma OpenedWelcome(blocked: Option<ErrorCode>, packages: set<KeyPackage>, env: Envelope, known: set<DeviceId>)
    requires env.contentType == Welcome
    ensures var t := JoinLog(Scan(None, [], blocked, None), packages, [env], 1, known);
            if env.sender !in known then t == Scan(None, [], Some(UnknownSenderDevice), Some(UnknownSenderDevice))
            else
              match env.wire
              case WelcomeWire(epoch, members, sealed) =>
                if exists k :: k in packages && k in sealed then t == Scan(Some(Group(epoch, members)), [], blocked, None)
                else t == Scan(None, [], blocked, None)
              case MalformedWire => t == Scan(None, [], Some(CorruptedCiphertext), Some(CorruptedCiphertext))
              case _ => t == Scan(None, [], Some(ProtocolViolation), Some(ProtocolViolation))
  {
    var start := Scan(None, [], blocked, None);
    assert JoinLog(start, packages, [env], 0, known) == start;
    if env.wire.WelcomeWire? {
      if k :| k in packages && k in env.wire.packages { assert k in packages * env.wire.packages; }
      if packages * env.wire.packages != {} {
        var k :| k in packages * env.wire.packages;
        assert k in packages && k in env.wire.packages;
      }
    }
  }

  lemma {:induction false} UnknownMoveNothing(start: Scan, page: seq<Envelope>, i: nat, me: DeviceId, known: set<DeviceId>)
    requires i <= |page| && start.deferred == []
    requires forall j :: 0 <= j < i && Opened(page[j], me, start.group) ==> page[j].sender !in known
    ensures var s := FirstPass(start, page, i, me, known); s.group == start.group && s.deferred == []
  {
    if i > 0 { UnknownMoveNothing(start, page, i - 1, me, known); }
  }

  /** On any page, only rows of known senders ever move a device. */
  lemma UnknownSendersMoveNobody(group: Option<Group>, packages: set<KeyPackage>, blocked: Option<ErrorCode>, page: seq<Envelope>,
                                 me: DeviceId, known: set<DeviceId>)
    requires forall x :: x in page && Opened(x, me, group) ==> x.sender !in known
    requires group.None? ==> forall x :: x in page && x.contentType == Welcome ==> x.sender !in known
    ensures JoinThenScan(group, packages, blocked, page, me, known).group == group
  {
    var joined := JoinLog(Scan(None, [], blocked, None), packages, page, |page|, known);
    var start := Scan(group, [], if group.Some? then blocked else joined.blocked, None);
    if group.None? { NoWelcomeNoGroup(Scan(None, [], blocked, None), packages, page, |page|, known); }
    UnknownMoveNothing(start, page, |page|, me, known);
  }

  /** The first row of an unknown sender that has to be opened ends the scan with an error, whatever stands behind it. */
  lemma UnknownSenderStops(group: Option<Group>, blocked: Option<ErrorCode>, a: seq<Envelope>, x: Envelope, b: seq<Envelope>,
                           me: DeviceId, known: set<DeviceId>)
    requires var s := FirstPass(Scan(group, [], blocked, None), a, |a|, me, known);
             s.thrown.None? && Opened(x, me, s.group) && x.sender !in known
    ensures ScanLog(group, blocked, a + [x] + b, me, known) ==
              FirstPass(Scan(group, [], blocked, None), a, |a|, me, known).(blocked := Some(UnknownSenderDevice), thrown := Some(UnknownSenderDevice))
  {
    var start, page := Scan(group, [], blocked, None), a + [x] + b;
    var s := FirstPass(start, a, |a|, me, known);
    GroupReconcile.PrefixOnly(start, a + [x], b, |a| + 1, me, known);
    GroupReconcile.PrefixOnly(start, a, [x], |a|, me, known);
    assert (a + [x])[|a|] == x;
    FirstPassStops(start, page, |a| + 1, |page|, me, known);
    SecondPassStops(FirstPass(start, page, |page|, me, known), 0, |s.deferred|);
  }

  // ---------------------------------------------------------------------------
  // The coordinator's rows
  // ---------------------------------------------------------------------------

  /** The members that left the directory. */
  function Departed(me: DeviceId, members: set<DeviceId>, devices: seq<Device>): set<DeviceId> {
    set m | m in members && m != me && forall d :: d in devices ==> d.id != m
  }

  /** The listed devices that are not members yet. */
  function Newcomers(me: DeviceId, members: set<DeviceId>, devices: seq<Device>): set<DeviceId> {
    set d | d in devices && d.id != me && d.id !in members :: d.id
  }

  lemma SameSets(me: DeviceId, g: Group, devices: seq<Device>)
    ensures Stale(me, g, devices) == Departed(me, g.members, devices)
    ensures Ids(Missing(devices, me, g.members)) == Newcomers(me, g.members, devices)
  {
    GroupReconcile.MissingIds(devices, me, g.members);
    assert forall m :: m in Ids(devices) <==> exists d :: d in devices && d.id == m;
  }

  lemma NobodyMissing(devices: seq<Device>, me: DeviceId, members: set<DeviceId>)
    ensures Missing(devices, me, members) == [] <==> Ids(Missing(devices, me, members)) == {}
  {
    var missing := Missing(devices, me, members);
    if missing != [] { assert missing[0].id in Ids(missing); }
  }

  /**
    A reconciliation that succeeds leaves one epoch for the departed members
    and one for the newcomers: first a commit that removes exactly the former,
    then, unless it founded the group, one that adds exactly the latter, and
    behind the commits only Welcomes.
   */
  lemma PublishesExactly(me: DeviceId, server: Server, group: Option<Group>)
    requires Reconcile(me, server, group).error.None?
    ensures var r := Reconcile(me, server, group);
            var g := if group.Some? then group.value else Group(0, {me});
            var gone, added := Departed(me, g.members, server.devices), Newcomers(me, g.members, server.devices);
            var e := if gone == {} then g.epoch else g.epoch + 1;
            var commits := (if gone == {} then [] else [Envelope(me, None, Commit, e, CommitWire(g.epoch, gone, {}))])
                         + (if added == {} || group.None? then [] else [Envelope(me, None, Commit, e + 1, CommitWire(e, {}, added))]);
            && r.group == Group(if added == {} then e else e + 1, g.members - gone + added)
            && commits <= r.published
            && (forall k :: |commits| <= k < |r.published| ==> r.published[k].contentType == Welcome && r.published[k].recipient.Some?)
  {
    var g := Founded(me, group);
    SameSets(me, g, server.devices);
    GroupReconcile.KeptMissesTheSame(me, server, g);
    NobodyMissing(server.devices, me, g.members);
    var welcomes := GroupReconcile.PublishedShape(me, server, group);
  }

  /** The same chat with a network that carries more requests. */
  function Carrying(server: Server, more: nat): Server {
    server.(accepts := more)
  }

  /** When the network fails, exactly the first rows of the whole reconciliation are stored, as many as it carried. */
  lemma FailureIsPrefix(me: DeviceId, server: Server, group: Option<Group>, more: nat)
    requires more >= server.accepts
    ensures var some, all := Reconcile(me, server, group).published, Reconcile(me, Carrying(server, more), group).published;
            some <= all && |some| == if |all| <= server.accepts then |all| else server.accepts
  {
    var start := Founded(me, group);
    var few := GroupReconcile.PublishedShape(me, server, group);
    var many := GroupReconcile.PublishedShape(me, Carrying(server, more), group);
    GroupReconcile.ClaimableMatches(me, server, start);
    GroupReconcile.ClaimableMatches(me, Carrying(server, more), start);
  }
}
