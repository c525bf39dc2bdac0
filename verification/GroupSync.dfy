/**
  Group synchronisation of one browser client: the log scan of
  `synchronizeMlsGroup`, the coordinator's membership reconciliation and the
  fail-closed send policy.  The MLS library is an abstract epoch machine: a
  commit applies exactly in the epoch it was created in.
 */
module GroupSync {
  import opened Common

  type DeviceId = string
  type ChatId = string

  datatype KeyPackage = KeyPackage(device: DeviceId, serial: nat)

  datatype ContentType = Application | Commit | Proposal | Welcome

  /** What the opaque payload turns out to be once the MLS library opens it. */
  datatype Wire =
    | CommitWire(base: nat, removes: set<DeviceId>, adds: set<DeviceId>)
    | ProposalWire(base: nat)
    | WelcomeWire(epoch: nat, members: set<DeviceId>, packages: set<KeyPackage>)
    | ApplicationWire
    | SpentWire      // a message whose ratchet secret was already used
    | MalformedWire

  /** A row of the server log.  Label and payload are chosen by the sender; the server compares neither. */
  datatype Envelope = Envelope(
    sender: DeviceId, recipient: Option<DeviceId>, contentType: ContentType, epoch: nat, wire: Wire)

  datatype Group = Group(epoch: nat, members: set<DeviceId>)

  datatype ErrorCode =
    | Duplicate | StaleEpoch | MissingCommit | CorruptedCiphertext
    | UnknownSenderDevice | ProtocolViolation

  predicate IsExpected(code: ErrorCode) {
    code == Duplicate || code == StaleEpoch
  }

  /** The local group after the MLS library processed one message, or the class of its error. */
  function Process(group: Option<Group>, wire: Wire): Result<Group, ErrorCode> {
    if group.None? then Failure(ProtocolViolation)
    else
      var g := group.value;
      match wire
      case CommitWire(base, removes, adds) =>
        if base == g.epoch then Success(Group(g.epoch + 1, g.members - removes + adds)) else Failure(MissingCommit)
      case ProposalWire(base) => if base == g.epoch then Success(g) else Failure(MissingCommit)
      case ApplicationWire => Success(g)
      case SpentWire => Failure(Duplicate)
      case MalformedWire => Failure(CorruptedCiphertext)
      case WelcomeWire(_, _, _) => Failure(ProtocolViolation)
  }

  /** The group a Welcome opens to, for a client holding one of the key packages it was sealed to. */
  function Join(packages: set<KeyPackage>, wire: Wire): Result<Group, ErrorCode> {
    match wire
    case WelcomeWire(epoch, members, sealed) =>
      if packages * sealed != {} then Success(Group(epoch, members)) else Failure(Duplicate)
    case MalformedWire => Failure(CorruptedCiphertext)
    case _ => Failure(ProtocolViolation)
  }

  // ---------------------------------------------------------------------------
  // The log scan, as a function of the log
  // ---------------------------------------------------------------------------

  /** One row the scan passes over without opening it. */
  predicate Skipped(env: Envelope, me: DeviceId, group: Option<Group>) {
    || env.sender == me
    || env.contentType == Application
    || env.contentType == Welcome
    || (group.Some? && env.epoch <= group.value.epoch)
  }

  /** `blocked` is the cause held against the chat by the send policy. */
  datatype Scan = Scan(
    group: Option<Group>, deferred: seq<Envelope>, blocked: Option<ErrorCode>, thrown: Option<ErrorCode>)

  function Report(s: Scan, code: ErrorCode): Scan {
    if IsExpected(code) then s else s.(blocked := Some(code))
  }

  function Abort(s: Scan, code: ErrorCode): Scan {
    if IsExpected(code) then s else s.(blocked := Some(code), thrown := Some(code))
  }

  function FirstStep(s: Scan, env: Envelope, me: DeviceId, known: set<DeviceId>): Scan {
    if s.thrown.Some? || Skipped(env, me, s.group) then s
    else if env.sender !in known then Abort(s, UnknownSenderDevice)
    else match Process(s.group, env.wire)
      case Success(g) => s.(group := Some(g))
      case Failure(code) =>
        if code == MissingCommit then Report(s, code).(deferred := s.deferred + [env]) else Abort(s, code)
  }

  /** The first pass over the rows before position i. */
  function FirstPass(start: Scan, page: seq<Envelope>, i: nat, me: DeviceId, known: set<DeviceId>): Scan
    requires i <= |page|
  {
    if i == 0 then start else FirstStep(FirstPass(start, page, i - 1, me, known), page[i - 1], me, known)
  }

  function SecondStep(s: Scan, env: Envelope): Scan {
    if s.thrown.Some? then s
    else match Process(s.group, env.wire)
      case Success(g) => s.(group := Some(g))
      case Failure(code) => Abort(s, code)
  }

  /** The second pass over the deferred rows before position i. */
  function SecondPass(start: Scan, i: nat): Scan
    requires i <= |start.deferred|
  {
    if i == 0 then start else SecondStep(SecondPass(start, i - 1), start.deferred[i - 1])
  }

  /** Both passes over one page of the log. */
  function ScanLog(group: Option<Group>, blocked: Option<ErrorCode>, page: seq<Envelope>, me: DeviceId, known: set<DeviceId>): Scan
  {
    var first := FirstPass(Scan(group, [], blocked, None), page, |page|, me, known);
    SecondPass(first, |first.deferred|)
  }

  /** The Welcome loop over the rows before position i, entered only without a local group. */
  function JoinLog(start: Scan, packages: set<KeyPackage>, page: seq<Envelope>, i: nat, known: set<DeviceId>): Scan
    requires i <= |page|
  {
    if i == 0 then start
    else
      var s := JoinLog(start, packages, page, i - 1, known);
      var env := page[i - 1];
      if s.thrown.Some? || s.group.Some? || env.contentType != Welcome then s
      else if env.sender !in known then Abort(s, UnknownSenderDevice)
      else match Join(packages, env.wire)
        case Success(g) => s.(group := Some(g))
        case Failure(code) => Abort(s, code)
  }

  function JoinThenScan(group: Option<Group>, packages: set<KeyPackage>, blocked: Option<ErrorCode>,
                        page: seq<Envelope>, me: DeviceId, known: set<DeviceId>): Scan
  {
    if group.Some? then ScanLog(group, blocked, page, me, known)
    else
      var joined := JoinLog(Scan(None, [], blocked, None), packages, page, |page|, known);
      if joined.thrown.Some? then joined else ScanLog(joined.group, joined.blocked, page, me, known)
  }

  // ---------------------------------------------------------------------------
  // The server as this client sees it
  // ---------------------------------------------------------------------------

  datatype Device = Device(id: DeviceId, login: string)

  function Ids(devices: seq<Device>): set<DeviceId> {
    set d | d in devices :: d.id
  }

  datatype SyncError =
    | NoPublishedIdentity
    | EnvelopeError(code: ErrorCode)
    | ClaimFailed
    | PublishFailed

  /**
    What the server will answer during one synchronisation: the directory and
    the page it returns, the key packages it will hand out, and how many
    publish requests it accepts before the network fails.
   */
  datatype Server = Server(
    devices: seq<Device>, coordinator: Option<DeviceId>, page: seq<Envelope>,
    inventory: map<DeviceId, KeyPackage>, accepts: nat)

  // ---------------------------------------------------------------------------
  // The coordinator's reconciliation, as a function of its group
  // ---------------------------------------------------------------------------

  datatype Reconciled = Reconciled(group: Group, published: seq<Envelope>, error: Option<SyncError>)

  function Missing(devices: seq<Device>, me: DeviceId, members: set<DeviceId>): (r: seq<Device>)
  {
    if devices == [] then []
    else
      var d := devices[0];
      (if d.id != me && d.id !in members then [d] else []) + Missing(devices[1..], me, members)
  }

  function Removal(me: DeviceId, g: Group, removed: set<DeviceId>): Envelope {
    Envelope(me, None, Commit, g.epoch + 1, CommitWire(g.epoch, removed, {}))
  }

  function Addition(me: DeviceId, g: Group, added: set<DeviceId>): Envelope {
    Envelope(me, None, Commit, g.epoch + 1, CommitWire(g.epoch, {}, added))
  }

  function WelcomeTo(me: DeviceId, target: DeviceId, g: Group, packages: set<KeyPackage>): Envelope {
    Envelope(me, Some(target), Welcome, g.epoch, WelcomeWire(g.epoch, g.members, packages))
  }

  function Welcomes(me: DeviceId, targets: seq<Device>, g: Group, packages: set<KeyPackage>): (r: seq<Envelope>)
    ensures |r| == |targets|
    ensures forall i :: 0 <= i < |r| ==> r[i] == WelcomeTo(me, targets[i].id, g, packages)
  {
    seq(|targets|, i requires 0 <= i < |targets| => WelcomeTo(me, targets[i].id, g, packages))
  }

  function Claimed(targets: seq<Device>, inventory: map<DeviceId, KeyPackage>): set<KeyPackage> {
    set d | d in targets && d.id in inventory :: inventory[d.id]
  }

  /** The group the coordinator starts from: its own, or a freshly founded one. */
  function Founded(me: DeviceId, group: Option<Group>): Group {
    if group.Some? then group.value else Group(0, {me})
  }

  function Stale(me: DeviceId, g: Group, devices: seq<Device>): set<DeviceId> {
    g.members - {me} - Ids(devices)
  }

  function Reconcile(me: DeviceId, server: Server, group: Option<Group>): Reconciled {
    var start := Founded(me, group);
    var removed := Stale(me, start, server.devices);
    if removed == {} then AddMissing(me, server, group.None?, start, [])
    else
      var kept := Group(start.epoch + 1, start.members - removed);
      if server.accepts == 0 then Reconciled(kept, [], Some(PublishFailed))
      else AddMissing(me, server, group.None?, kept, [Removal(me, start, removed)])
  }

  function AddMissing(me: DeviceId, server: Server, created: bool, g: Group, sent: seq<Envelope>): Reconciled
    requires |sent| <= server.accepts
  {
    var missing := Missing(server.devices, me, g.members);
    if missing == [] then Reconciled(g, sent, None)
    else if exists d :: d in missing && d.id !in server.inventory then Reconciled(g, sent, Some(ClaimFailed))
    else
      var added := Ids(missing);
      var grown := Group(g.epoch + 1, g.members + added);
      var rows := sent + (if created then [] else [Addition(me, g, added)])
                + Welcomes(me, missing, grown, Claimed(missing, server.inventory));
      if |rows| <= server.accepts then Reconciled(grown, rows, None)
      else Reconciled(grown, rows[..server.accepts], Some(PublishFailed))
  }

  /** What one call of `synchronizeMlsGroup` does to the chat it is called for. */
  datatype Synced = Synced(group: Option<Group>, blocked: Option<ErrorCode>, published: seq<Envelope>, error: Option<SyncError>)

  function Synchronized(me: DeviceId, server: Server, group: Option<Group>, blocked: Option<ErrorCode>,
                        packages: set<KeyPackage>, known: set<DeviceId>): Synced
  {
    if me !in Ids(server.devices) then Synced(group, blocked, [], Some(NoPublishedIdentity))
    else
      var s := JoinThenScan(group, packages, blocked, server.page, me, known);
      if s.thrown.Some? then Synced(s.group, s.blocked, [], Some(EnvelopeError(s.thrown.value)))
      else if server.coordinator != Some(me) then Synced(s.group, s.blocked, [], None)
      else
        var r := Reconcile(me, server, s.group);
        Synced(Some(r.group), s.blocked, r.published, r.error)
  }

  /** The owners known after a directory was read: later entries win, old entries stay. */
  function Owners(owners: map<DeviceId, string>, devices: seq<Device>): map<DeviceId, string> {
    if devices == [] then owners
    else
      var rest := devices[..|devices| - 1];
      var last := devices[|devices| - 1];
      Owners(owners, rest)[last.id := last.login]
  }

  function Attributable(owners: map<DeviceId, string>): set<DeviceId> {
    set d | d in owners && owners[d] != ""
  }

  /** One package for every device in turn, or nothing if a device has none to claim. */
  method ClaimPackages(missing: seq<Device>, inventory: map<DeviceId, KeyPackage>) returns (packages: Option<set<KeyPackage>>)
    ensures packages.None? <==> exists d :: d in missing && d.id !in inventory
    ensures packages.Some? ==> packages.value == Claimed(missing, inventory)
  {
    var claimed: set<KeyPackage> := {};
    for i := 0 to |missing|
      invariant claimed == Claimed(missing[..i], inventory)
      invariant forall d :: d in missing[..i] ==> d.id in inventory
    {
      if missing[i].id !in inventory {
        assert missing[i] in missing;
        return None;
      }
      assert missing[..i + 1] == missing[..i] + [missing[i]];
      claimed := claimed + {inventory[missing[i].id]};
    }
    assert missing[..|missing|] == missing;
    packages := Some(claimed);
  }

  /** The browser client's module state, for every chat. */
  class Client {
    var deviceOwners: map<DeviceId, string>
    var localDevicesByChat: map<ChatId, DeviceId>
    var blockedChats: map<ChatId, ErrorCode>
    var groups: map<ChatId, Group>
    var packages: set<KeyPackage>
    /** Rows the server accepted from this client during the last synchronisation. */
    var published: seq<Envelope>

    constructor ()
      ensures deviceOwners == map[] && localDevicesByChat == map[] && blockedChats == map[] && groups == map[]
      ensures packages == {} && published == []
    {
      deviceOwners, localDevicesByChat, blockedChats, groups := map[], map[], map[], map[];
      packages, published := {}, [];
    }

    /** Senders the client can attribute: an empty login counts as no owner. */
    function Known(): set<DeviceId>
      reads this
    {
      Attributable(deviceOwners)
    }

    function GroupOf(chat: ChatId): Option<Group>
      reads this
    {
      if chat in groups then Some(groups[chat]) else None
    }

    function BlockOf(chat: ChatId): Option<ErrorCode>
      reads this
    {
      if chat in blockedChats then Some(blockedChats[chat]) else None
    }

    method ReportMlsIssue(chat: ChatId, code: ErrorCode)
      modifies this`blockedChats
      ensures blockedChats == if IsExpected(code) then old(blockedChats) else old(blockedChats)[chat := code]
    {
      if !IsExpected(code) {
        blockedChats := blockedChats[chat := code];
      }
    }

    method JoinFromWelcome(chat: ChatId, page: seq<Envelope>) returns (thrown: Option<ErrorCode>)
      requires chat !in groups
      modifies this`groups, this`blockedChats
      ensures Scan(GroupOf(chat), [], BlockOf(chat), thrown)
           == JoinLog(Scan(None, [], old(BlockOf(chat)), None), packages, page, |page|, Known())
      ensures OthersKept(chat, old(groups), old(blockedChats))
    {
      ghost var start := Scan(None, [], BlockOf(chat), None);
      thrown := None;
      var i := 0;
      while i < |page|
        invariant i <= |page|
        invariant thrown == None && chat !in groups
        invariant Scan(None, [], BlockOf(chat), None) == JoinLog(start, packages, page, i, Known())
        invariant OthersKept(chat, old(groups), old(blockedChats))
      {
        var env := page[i];
        i := i + 1;
        if env.contentType == Welcome {
          var code := UnknownSenderDevice;
          if env.sender in deviceOwners && deviceOwners[env.sender] != "" {
            var joined := Join(packages, env.wire);
            if joined.Success? {
              groups := groups[chat := joined.value];
              JoinStops(start, packages, page, i, |page|, Known());
              return;
            }
            code := joined.error;
          }
          ReportMlsIssue(chat, code);
          if !IsExpected(code) {
            thrown := Some(code);
            JoinStops(start, packages, page, i, |page|, Known());
            return;
          }
        }
      }
    }

    /** True when no chat but this one has a different group or block than in the given maps. */
    ghost predicate OthersKept(chat: ChatId, groups0: map<ChatId, Group>, blocked0: map<ChatId, ErrorCode>)
      reads this
    {
      groups - {chat} == groups0 - {chat} && blockedChats - {chat} == blocked0 - {chat}
    }

    method ScanPage(deviceId: DeviceId, chat: ChatId, page: seq<Envelope>)
      returns (deferred: seq<Envelope>, thrown: Option<ErrorCode>)
      modifies this`groups, this`blockedChats
      ensures Scan(GroupOf(chat), deferred, BlockOf(chat), thrown)
           == FirstPass(Scan(old(GroupOf(chat)), [], old(BlockOf(chat)), None), page, |page|, deviceId, Known())
      ensures OthersKept(chat, old(groups), old(blockedChats))
    {
      ghost var start := Scan(GroupOf(chat), [], BlockOf(chat), None);
      thrown := None;
      deferred := [];
      var localEpoch := if chat in groups then Some(groups[chat].epoch) else None;
      var i := 0;
      while i < |page|
        invariant i <= |page|
        invariant localEpoch == if chat in groups then Some(groups[chat].epoch) else None
        invariant Scan(GroupOf(chat), deferred, BlockOf(chat), None) == FirstPass(start, page, i, deviceId, Known())
        invariant OthersKept(chat, old(groups), old(blockedChats))
      {
        var env := page[i];
        i := i + 1;
        if env.sender == deviceId { continue; }
        if env.contentType == Application { continue; }
        if env.contentType == Welcome { continue; }
        if localEpoch.Some? && env.epoch <= localEpoch.value { continue; }
        var code := UnknownSenderDevice;
        if env.sender in deviceOwners && deviceOwners[env.sender] != "" {
          var processed := Process(GroupOf(chat), env.wire);
          if processed.Success? {
            groups := groups[chat := processed.value];
            localEpoch := Some(processed.value.epoch);
            continue;
          }
          code := processed.error;
        }
        ReportMlsIssue(chat, code);
        if code == MissingCommit {
          deferred := deferred + [env];
        } else if !IsExpected(code) {
          thrown := Some(code);
          FirstPassStops(start, page, i, |page|, deviceId, Known());
          return;
        }
      }
    }

    method RetryDeferred(chat: ChatId, deferred: seq<Envelope>) returns (thrown: Option<ErrorCode>)
      modifies this`groups, this`blockedChats
      ensures Scan(GroupOf(chat), deferred, BlockOf(chat), thrown)
           == SecondPass(Scan(old(GroupOf(chat)), deferred, old(BlockOf(chat)), None), |deferred|)
      ensures OthersKept(chat, old(groups), old(blockedChats))
    {
      ghost var start := Scan(GroupOf(chat), deferred, BlockOf(chat), None);
      thrown := None;
      var i := 0;
      while i < |deferred|
        invariant i <= |deferred|
        invariant Scan(GroupOf(chat), deferred, BlockOf(chat), None) == SecondPass(start, i)
        invariant OthersKept(chat, old(groups), old(blockedChats))
      {
        var processed := Process(GroupOf(chat), deferred[i].wire);
        i := i + 1;
        if processed.Success? {
          groups := groups[chat := processed.value];
        } else {
          ReportMlsIssue(chat, processed.error);
          if !IsExpected(processed.error) {
            thrown := Some(processed.error);
            SecondPassStops(start, i, |deferred|);
            return;
          }
        }
      }
    }

    method ScanEnvelopes(deviceId: DeviceId, chat: ChatId, page: seq<Envelope>) returns (thrown: Option<ErrorCode>)
      modifies this`groups, this`blockedChats
      ensures var s := ScanLog(old(GroupOf(chat)), old(BlockOf(chat)), page, deviceId, Known());
              GroupOf(chat) == s.group && BlockOf(chat) == s.blocked && thrown == s.thrown
      ensures OthersKept(chat, old(groups), old(blockedChats))
    {
      var deferred;
      deferred, thrown := ScanPage(deviceId, chat, page);
      if thrown.None? {
        thrown := RetryDeferred(chat, deferred);
      } else {
        SecondPassStops(Scan(GroupOf(chat), deferred, BlockOf(chat), thrown), 0, |deferred|);
      }
    }

    /** Appends one row to the server log, or fails once the network accepts no more. */
    method PublishEnvelope(accepts: nat, row: Envelope) returns (ok: bool)
      modifies this`published
      ensures ok == (|old(published)| < accepts)
      ensures published == if ok then old(published) + [row] else old(published)
    {
      ok := |published| < accepts;
      if ok { published := published + [row]; }
    }

    /** Creates the group when there is none, and tells whether it did. */
    method EnsureGroup(deviceId: DeviceId, chat: ChatId) returns (created: bool)
      modifies this`groups
      ensures created == (chat !in old(groups))
      ensures groups == old(groups)[chat := Founded(deviceId, old(GroupOf(chat)))]
    {
      created := chat !in groups;
      if created {
        groups := groups[chat := Group(0, {deviceId})];
      }
    }

    method RemoveStale(deviceId: DeviceId, chat: ChatId, server: Server) returns (ok: bool)
      requires chat in groups && published == []
      modifies this`groups, this`published
      ensures var g := old(groups)[chat];
              var removed := Stale(deviceId, g, server.devices);
              if removed == {} then ok && groups == old(groups) && published == []
              else
                && groups == old(groups)[chat := Group(g.epoch + 1, g.members - removed)]
                && ok == (server.accepts > 0)
                && published == if ok then [Removal(deviceId, g, removed)] else []
    {
      ok := true;
      var g := groups[chat];
      var removed := Stale(deviceId, g, server.devices);
      if removed != {} {
        groups := groups[chat := Group(g.epoch + 1, g.members - removed)];
        ok := PublishEnvelope(server.accepts, Removal(deviceId, g, removed));
      }
    }

    method ReconcileMembers(deviceId: DeviceId, chat: ChatId, server: Server) returns (error: Option<SyncError>)
      requires published == []
      modifies this`groups, this`published
      ensures chat in groups
      ensures Reconciled(groups[chat], published, error) == Reconcile(deviceId, server, old(GroupOf(chat)))
      ensures groups - {chat} == old(groups) - {chat}
    {
      var created := EnsureGroup(deviceId, chat);
      var ok := RemoveStale(deviceId, chat, server);
      if !ok { return Some(PublishFailed); }
      error := AddMembers(deviceId, chat, server, created);
    }

    method AddMembers(deviceId: DeviceId, chat: ChatId, server: Server, created: bool) returns (error: Option<SyncError>)
      requires chat in groups && |published| <= server.accepts
      modifies this`groups, this`published
      ensures chat in groups
      ensures Reconciled(groups[chat], published, error)
           == AddMissing(deviceId, server, created, old(groups)[chat], old(published))
      ensures groups - {chat} == old(groups) - {chat}
    {
      var missing := Missing(server.devices, deviceId, groups[chat].members);
      if missing == [] { return None; }
      var packages := ClaimPackages(missing, server.inventory);
      if packages.None? { return Some(ClaimFailed); }
      error := InviteMembers(deviceId, chat, server, created, missing, packages.value);
    }

    method InviteMembers(deviceId: DeviceId, chat: ChatId, server: Server, created: bool, missing: seq<Device>, packages: set<KeyPackage>)
      returns (error: Option<SyncError>)
      requires chat in groups && |published| <= server.accepts
      modifies this`groups, this`published
      ensures groups == old(groups)[chat := Group(old(groups)[chat].epoch + 1, old(groups)[chat].members + Ids(missing))]
      ensures var rows := old(published) + (if created then [] else [Addition(deviceId, old(groups)[chat], Ids(missing))])
                + Welcomes(deviceId, missing, groups[chat], packages);
              if |rows| <= server.accepts then published == rows && error == None
              else published == rows[..server.accepts] && error == Some(PublishFailed)
    {
      var before := groups[chat];
      var added := Group(before.epoch + 1, before.members + Ids(missing));
      groups := groups[chat := added];
      ghost var rows := published + (if created then [] else [Addition(deviceId, before, Ids(missing))]);
      ghost var all := rows + Welcomes(deviceId, missing, added, packages);
      if !created {
        var ok := PublishEnvelope(server.accepts, Addition(deviceId, before, Ids(missing)));
        if !ok {
          assert all[..server.accepts] == published;
          return Some(PublishFailed);
        }
      }
      var i := 0;
      while i < |missing|
        invariant i <= |missing| && |published| <= server.accepts && groups == old(groups)[chat := added]
        invariant published == rows + Welcomes(deviceId, missing, added, packages)[..i]
      {
        var ok := PublishEnvelope(server.accepts, WelcomeTo(deviceId, missing[i].id, added, packages));
        if !ok {
          assert all[..server.accepts] == published;
          return Some(PublishFailed);
        }
        i := i + 1;
      }
      error := None;
    }

    method SynchronizeMlsGroup(deviceId: DeviceId, chat: ChatId, server: Server) returns (error: Option<SyncError>)
      modifies this
      ensures deviceOwners == Owners(old(deviceOwners), server.devices)
      ensures localDevicesByChat == old(localDevicesByChat)[chat := deviceId]
      ensures packages == old(packages)
      ensures Synced(GroupOf(chat), BlockOf(chat), published, error)
           == Synchronized(deviceId, server, old(GroupOf(chat)), old(BlockOf(chat)), packages, Known())
      ensures OthersKept(chat, old(groups), old(blockedChats))
    {
      published := [];
      var i := 0;
      while i < |server.devices|
        invariant i <= |server.devices|
        invariant deviceOwners == Owners(old(deviceOwners), server.devices[..i])
        invariant unchanged(`groups, `blockedChats, `packages, `localDevicesByChat) && published == []
      {
        assert server.devices[..i + 1][..i] == server.devices[..i];
        deviceOwners := deviceOwners[server.devices[i].id := server.devices[i].login];
        i := i + 1;
      }
      assert server.devices[..i] == server.devices;
      localDevicesByChat := localDevicesByChat[chat := deviceId];
      if deviceId !in Ids(server.devices) { return Some(NoPublishedIdentity); }
      var thrown: Option<ErrorCode>;
      if chat !in groups {
        thrown := JoinFromWelcome(chat, server.page);
        if thrown.Some? { return Some(EnvelopeError(thrown.value)); }
        JoinLogShape(Scan(None, [], old(BlockOf(chat)), None), packages, server.page, |server.page|, Known());
      }
      thrown := ScanEnvelopes(deviceId, chat, server.page);
      if thrown.Some? { return Some(EnvelopeError(thrown.value)); }
      if server.coordinator != Some(deviceId) { return None; }
      error := ReconcileMembers(deviceId, chat, server);
    }

    /** `explicitMlsResync` around `synchronizeMlsGroup`: only success lifts the block. */
    method ResynchronizeMlsGroup(deviceId: DeviceId, chat: ChatId, server: Server) returns (error: Option<SyncError>)
      modifies this
      ensures var s := Synchronized(deviceId, server, old(GroupOf(chat)), old(BlockOf(chat)), old(packages), Known());
              && GroupOf(chat) == s.group && published == s.published && error == s.error
              && BlockOf(chat) == if s.error.None? then None else s.blocked
      ensures deviceOwners == Owners(old(deviceOwners), server.devices)
      ensures OthersKept(chat, old(groups), old(blockedChats))
    {
      error := SynchronizeMlsGroup(deviceId, chat, server);
      if error.None? {
        blockedChats := blockedChats - {chat};
      }
    }
  }

  // ---------------------------------------------------------------------------
  // A thrown scan stays as it is
  // ---------------------------------------------------------------------------

  lemma {:induction false} JoinStops(start: Scan, packages: set<KeyPackage>, page: seq<Envelope>, i: nat, j: nat, known: set<DeviceId>)
    requires i <= j <= |page|
    requires var s := JoinLog(start, packages, page, i, known); s.thrown.Some? || s.group.Some?
    ensures JoinLog(start, packages, page, j, known) == JoinLog(start, packages, page, i, known)
  {
    if i < j { JoinStops(start, packages, page, i, j - 1, known); }
  }

  lemma {:induction false} FirstPassStops(start: Scan, page: seq<Envelope>, i: nat, j: nat, me: DeviceId, known: set<DeviceId>)
    requires i <= j <= |page|
    requires FirstPass(start, page, i, me, known).thrown.Some?
    ensures FirstPass(start, page, j, me, known) == FirstPass(start, page, i, me, known)
  {
    if i < j { FirstPassStops(start, page, i, j - 1, me, known); }
  }

  lemma {:induction false} SecondPassStops(start: Scan, i: nat, j: nat)
    requires i <= j <= |start.deferred|
    requires SecondPass(start, i).thrown.Some?
    ensures SecondPass(start, j) == SecondPass(start, i)
  {
    if i < j { SecondPassStops(start, i, j - 1); }
  }

  lemma {:induction false} JoinLogShape(start: Scan, packages: set<KeyPackage>, page: seq<Envelope>, i: nat, known: set<DeviceId>)
    requires i <= |page|
    ensures JoinLog(start, packages, page, i, known).deferred == start.deferred
  {
    if i > 0 { JoinLogShape(start, packages, page, i - 1, known); }
  }
}
