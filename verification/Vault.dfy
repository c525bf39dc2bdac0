/**
  The encrypted browser vault: the MLS worker's handlers over IndexedDB, for
  one device id, with storage writes that may fail and a worker that may die
  at every transaction boundary.  Cryptography is symbolic: a ciphertext opens
  only under the key, the nonce and the associated data it was sealed with.
 */
module Vault {
  import opened Common

  // ---------------------------------------------------------------------------
  // Symbolic cryptography
  // ---------------------------------------------------------------------------

  type Bytes = seq<nat>

  const PBKDF2_ITERATIONS: nat := 600000
  const MIN_PASSPHRASE := 10

  datatype Key =
    | Kek(passphrase: string, salt: nat, iterations: nat)
    | Dek(raw: Bytes)
    | LegacyKey(id: nat)

  datatype Purpose = WrapsDek | HoldsState | HoldsLegacyState

  datatype Cipher =
    | Sealed(key: Key, iv: nat, device: string, purpose: Purpose, plain: Bytes)
    | Garbage(id: nat)

  function Open(key: Key, iv: nat, device: string, purpose: Purpose, c: Cipher): Option<Bytes> {
    if c.Sealed? && c.key == key && c.iv == iv && c.device == device && c.purpose == purpose then Some(c.plain) else None
  }

  // ---------------------------------------------------------------------------
  // Vault records
  // ---------------------------------------------------------------------------

  /** `kdfKnown` is the check on the derivation's name and on the type of its iteration count. */
  datatype Record =
    | V1(iv: nat, ciphertext: Cipher)
    | V2(device: string, kdfKnown: bool, salt: nat, iterations: nat,
         wrappedDek: Cipher, wrapIv: nat, stateCiphertext: Cipher, stateIv: nat)
    | Unknown(id: nat)

  /** The random values one wrap-and-encrypt cycle draws. */
  datatype Nonces = Nonces(rawDek: Bytes, salt: nat, wrapIv: nat, stateIv: nat)

  predicate ValidV2(record: Option<Record>, device: string) {
    record.Some? && record.value.V2? && record.value.device == device && record.value.kdfKnown
  }

  function PassphraseKey(passphrase: string, salt: nat, iterations: nat): Option<Key> {
    if |passphrase| < MIN_PASSPHRASE then None else Some(Kek(passphrase, salt, iterations))
  }

  function UnwrapDek(device: string, passphrase: string, record: Record): Option<Key>
    requires record.V2?
  {
    var kek := PassphraseKey(passphrase, record.salt, record.iterations);
    if kek.None? then None
    else
      var raw := Open(kek.value, record.wrapIv, device, WrapsDek, record.wrappedDek);
      if raw.None? then None else Some(Dek(raw.value))
  }

  function BuildV2(device: string, passphrase: string, state: Bytes, nonces: Nonces): Record {
    V2(device, true, nonces.salt, PBKDF2_ITERATIONS,
       Sealed(Kek(passphrase, nonces.salt, PBKDF2_ITERATIONS), nonces.wrapIv, device, WrapsDek, nonces.rawDek), nonces.wrapIv,
       Sealed(Dek(nonces.rawDek), nonces.stateIv, device, HoldsState, state), nonces.stateIv)
  }

  /** The same record with its data key wrapped under a new passphrase: the derivation's iteration count stays as stored. */
  function Rewrapped(record: Record, dek: Key, passphrase: string, nonces: Nonces): Record
    requires record.V2? && dek.Dek?
  {
    record.(salt := nonces.salt,
            wrappedDek := Sealed(Kek(passphrase, nonces.salt, PBKDF2_ITERATIONS), nonces.wrapIv, record.device, WrapsDek, dek.raw),
            wrapIv := nonces.wrapIv)
  }

  function OpenState(device: string, dek: Key, record: Record): Option<Bytes>
    requires record.V2?
  {
    Open(dek, record.stateIv, device, HoldsState, record.stateCiphertext)
  }

  /** What a passphrase gets out of a stored record. */
  function OpenRecord(record: Option<Record>, device: string, passphrase: string): Option<Bytes> {
    if !ValidV2(record, device) then None
    else
      var dek := UnwrapDek(device, passphrase, record.value);
      if dek.None? then None else OpenState(device, dek.value, record.value)
  }

  // ---------------------------------------------------------------------------
  // The MLS client as the vault stores it
  // ---------------------------------------------------------------------------

  /** Where the next ciphertext of the group will stand: its epoch and its generation in that epoch. */
  datatype Position = Position(epoch: nat, generation: nat)

  predicate Before(p: Position, q: Position) {
    p.epoch < q.epoch || (p.epoch == q.epoch && p.generation < q.generation)
  }

  datatype MlsClient = MlsClient(group: Option<Position>, rest: Bytes)

  function ExportState(c: MlsClient): Bytes {
    (if c.group.None? then [0, 0, 0] else [1, c.group.value.epoch, c.group.value.generation]) + c.rest
  }

  /** The constructor of the client: an empty state makes a fresh client, a malformed one is refused. */
  function RestoreState(state: Bytes, seed: Bytes): Option<MlsClient> {
    if state == [] then Some(MlsClient(None, seed))
    else if |state| < 3 || state[0] > 1 then None
    else Some(MlsClient(if state[0] == 0 then None else Some(Position(state[1], state[2])), state[3..]))
  }

  /** What one handler asks of the client; `rest` is whatever else changes in its storage. */
  datatype Operation =
    | CreateGroup(rest: Bytes)
    | JoinGroup(epoch: nat, rest: Bytes)
    | Encrypt(rest: Bytes)
    | Advance(rest: Bytes)   // adding, removing, updating, or processing a commit
    | Absorb(rest: Bytes)    // processing anything else

  function Operate(c: MlsClient, op: Operation): Option<MlsClient> {
    match op
    case CreateGroup(rest) => if c.group.Some? then None else Some(MlsClient(Some(Position(0, 0)), rest))
    case JoinGroup(epoch, rest) => if c.group.Some? then None else Some(MlsClient(Some(Position(epoch, 0)), rest))
    case Encrypt(rest) =>
      if c.group.None? then None
      else Some(MlsClient(Some(Position(c.group.value.epoch, c.group.value.generation + 1)), rest))
    case Advance(rest) =>
      if c.group.None? then None else Some(MlsClient(Some(Position(c.group.value.epoch + 1, 0)), rest))
    case Absorb(rest) => if c.group.None? then None else Some(MlsClient(c.group, rest))
  }

  // ---------------------------------------------------------------------------
  // Storage faults and replies
  // ---------------------------------------------------------------------------

  datatype Write = Commits | Fails | CrashesBefore | CrashesAfter

  predicate TakesEffect(w: Write) {
    w == Commits || w == CrashesAfter
  }

  predicate Crashes(w: Write) {
    w == CrashesBefore || w == CrashesAfter
  }

  /** What reading the migration candidate back gives: the stored value, or any value at all. */
  datatype Read = Faithful | Returns(record: Option<Record>)

  datatype Reply = Replied | ReleasedCiphertext(position: Position) | Refused | NoReply

  // ---------------------------------------------------------------------------
  // The vault seen from outside
  // ---------------------------------------------------------------------------

  datatype AbstractVault =
    | NoVault
    | LegacyVault(state: Bytes)
    | LockedWith(passphrase: string, state: Bytes)

  predicate Increasing(s: seq<Position>) {
    forall i, j :: 0 <= i < j < |s| ==> Before(s[i], s[j])
  }

  /** No released ciphertext stands at or behind the position the next one would take. */
  predicate Ahead(released: seq<Position>, group: Option<Position>) {
    released != [] ==> group.Some? && Before(released[|released| - 1], group.value)
  }

  function StoredPosition(state: Bytes): Option<Position> {
    if |state| >= 3 && state[0] == 1 then Some(Position(state[1], state[2])) else None
  }

  // ---------------------------------------------------------------------------
  // What each handler does to the vault, the client and the lock
  // ---------------------------------------------------------------------------

  /** The committed vault, the loaded client, whether a data key is held and whether a device is active. */
  datatype Session = Session(vault: AbstractVault, client: Option<MlsClient>, unlocked: bool, active: bool)

  datatype Outcome = Outcome(session: Session, reply: Reply)

  function Forgotten(s: Session): Session {
    Session(s.vault, None, false, false)
  }

  function CreateStep(s: Session, passphrase: string, w: Write): Outcome {
    if !s.vault.NoVault? then Outcome(s, Refused)
    else
      var t := s.(active := true);
      if |passphrase| < MIN_PASSPHRASE then Outcome(t, Refused)
      else
        var u := if TakesEffect(w) then t.(vault := LockedWith(passphrase, [])) else t;
        if Crashes(w) then Outcome(Forgotten(u), NoReply)
        else if w == Fails then Outcome(u, Refused)
        else Outcome(u.(unlocked := true), Replied)
  }

  function UnlockStep(s: Session, passphrase: string): Outcome {
    var right := s.vault.LockedWith? && passphrase == s.vault.passphrase;
    Outcome(s.(active := true, unlocked := right), if right then Replied else Refused)
  }

  function ChangeStep(s: Session, oldPassphrase: string, newPassphrase: string, w: Write): Outcome {
    if |oldPassphrase| < MIN_PASSPHRASE || |newPassphrase| < MIN_PASSPHRASE then Outcome(s, Refused)
    else
      var t := s.(active := true);
      if !(s.vault.LockedWith? && oldPassphrase == s.vault.passphrase) then Outcome(t, Refused)
      else
        var u := if TakesEffect(w) then t.(vault := LockedWith(newPassphrase, s.vault.state)) else t;
        if Crashes(w) then Outcome(Forgotten(u), NoReply)
        else if w == Fails then Outcome(u.(unlocked := false), Refused)
        else Outcome(u.(unlocked := true), Replied)
  }

  /** What the candidate reads back as. */
  function ReadBack(device: string, passphrase: string, state: Bytes, nonces: Nonces, readBack: Read): Option<Record> {
    if readBack == Faithful then Some(BuildV2(device, passphrase, state, nonces)) else readBack.record
  }

  function MigrateStep(device: string, s: Session, passphrase: string, nonces: Nonces, readBack: Read, first: Write, commit: Write, cleanup: Write): Outcome {
    if |passphrase| < MIN_PASSPHRASE || !s.vault.LegacyVault? then Outcome(s, Refused)
    else
      var record := ReadBack(device, passphrase, s.vault.state, nonces, readBack);
      var verified := first == Commits && OpenRecord(record, device, passphrase) == Some(s.vault.state);
      PromoteStep(s, passphrase, first, verified, commit, cleanup)
  }

  /** The migration once the candidate was read back. */
  function PromoteStep(s: Session, passphrase: string, first: Write, verified: bool, commit: Write, cleanup: Write): Outcome
    requires s.vault.LegacyVault?
  {
    var t := s.(active := true);
    var u := if verified && TakesEffect(commit) then t.(vault := LockedWith(passphrase, s.vault.state)) else t;
    if Crashes(first) || (verified && Crashes(commit)) then Outcome(Forgotten(u), NoReply)
    else if verified && commit == Commits then Outcome(u.(unlocked := true), Replied)
    else if Crashes(cleanup) then Outcome(Forgotten(u), NoReply)
    else Outcome(u.(unlocked := false), Refused)
  }

  function PersistStep(s: Session, w: Write): Outcome {
    if s.client.None? || !s.active || !s.unlocked || !s.vault.LockedWith? then Outcome(s, Refused)
    else
      var t := if TakesEffect(w) then s.(vault := LockedWith(s.vault.passphrase, ExportState(s.client.value))) else s;
      if Crashes(w) then Outcome(Forgotten(t), NoReply)
      else Outcome(t, if w == Fails then Refused else Replied)
  }

  function Loaded(s: Session, seed: Bytes): Option<MlsClient> {
    if s.vault.NoVault? then RestoreState([], seed)
    else if s.vault.LockedWith? && s.unlocked then RestoreState(s.vault.state, seed)
    else None
  }

  function InitializeStep(s: Session, packageCount: nat, seed: Bytes, rest: Bytes, w: Write): Outcome {
    var client := if s.client.Some? && s.active then s.client else Loaded(s, seed);
    var t := s.(active := true, client := client);
    if client.None? || packageCount > 100 then Outcome(t, Refused)
    else PersistStep(t.(client := Some(client.value.(rest := rest))), w)
  }

  function PerformStep(s: Session, op: Operation, w: Write): Outcome {
    if !s.unlocked || !s.active || s.client.None? || Operate(s.client.value, op).None? then Outcome(s, Refused)
    else
      var out := PersistStep(s.(client := Operate(s.client.value, op)), w);
      if out.reply == Replied && op.Encrypt? && s.client.value.group.Some? then out.(reply := ReleasedCiphertext(s.client.value.group.value))
      else out
  }

  /** When the migration promotes the candidate, and when it replies. */
  lemma Migrates(device: string, s: Session, passphrase: string, nonces: Nonces, readBack: Read, first: Write, commit: Write, cleanup: Write)
    ensures var out := MigrateStep(device, s, passphrase, nonces, readBack, first, commit, cleanup);
            if |passphrase| < MIN_PASSPHRASE || !s.vault.LegacyVault? then out == Outcome(s, Refused)
            else
              var stored := ReadBack(device, passphrase, s.vault.state, nonces, readBack);
              var promoted := first == Commits && TakesEffect(commit) && OpenRecord(stored, device, passphrase) == Some(s.vault.state);
              && out.session.vault == (if promoted then LockedWith(passphrase, s.vault.state) else s.vault)
              && (out.reply == Replied <==> promoted && commit == Commits)
              && (out.reply == Replied ==> out.session.unlocked && out.session.active)
              && (readBack == Faithful ==> OpenRecord(stored, device, passphrase) == Some(s.vault.state))
              && (readBack == Faithful ==> stored.value.V2? && stored.value.iterations == PBKDF2_ITERATIONS)
  {
  }

  method BytesEqual(left: Bytes, right: Bytes) returns (equal: bool)
    ensures equal <==> left == right
  {
    if |left| != |right| { return false; }
    var i := 0;
    while i < |left|
      invariant i <= |left|
      invariant left[..i] == right[..i]
    {
      if left[i] != right[i] { return false; }
      i := i + 1;
    }
    equal := true;
  }

  class Worker {
    const deviceId: string

    // IndexedDB
    var live: Option<Record>
    var candidate: Option<Record>
    var legacyKey: Option<Key>

    // worker memory
    var client: Option<MlsClient>
    var activeDek: Option<Key>
    var active: bool

    // specification
    ghost var vault: AbstractVault
    ghost var released: seq<Position>

    /** The stored record is exactly the committed vault, and a held data key is the key the record wraps. */
    ghost predicate Valid()
      reads this
    {
      && Increasing(released)
      && (client.Some? ==> Ahead(released, client.value.group))
      && match vault
         case NoVault => live.None? && activeDek.None? && released == []
         case LegacyVault(state) =>
           && live.Some? && live.value.V1? && legacyKey.Some?
           && Open(legacyKey.value, live.value.iv, deviceId, HoldsLegacyState, live.value.ciphertext) == Some(state)
           && activeDek.None? && client.None? && released == []
         case LockedWith(passphrase, state) =>
           && |passphrase| >= MIN_PASSPHRASE
           && ValidV2(live, deviceId)
           && live.value.iterations == PBKDF2_ITERATIONS
           && live.value.wrappedDek.Sealed?
           && live.value.wrappedDek == Sealed(Kek(passphrase, live.value.salt, PBKDF2_ITERATIONS), live.value.wrapIv, deviceId, WrapsDek, live.value.wrappedDek.plain)
           && live.value.stateCiphertext == Sealed(Dek(live.value.wrappedDek.plain), live.value.stateIv, deviceId, HoldsState, state)
           && (activeDek.Some? ==> activeDek.value == Dek(live.value.wrappedDek.plain))
           && Ahead(released, StoredPosition(state))
    }

    ghost function Now(): Session
      reads this
    {
      Session(vault, client, activeDek.Some?, active)
    }

    constructor Empty(device: string)
      ensures Valid() && vault == NoVault && released == [] && deviceId == device
    {
      deviceId := device;
      live, candidate, legacyKey := None, None, None;
      client, activeDek, active := None, None, false;
      vault, released := NoVault, [];
    }

    constructor Legacy(device: string, key: Key, iv: nat, state: Bytes)
      ensures Valid() && vault == LegacyVault(state) && released == [] && deviceId == device
    {
      deviceId := device;
      live := Some(V1(iv, Sealed(key, iv, device, HoldsLegacyState, state)));
      candidate, legacyKey := None, Some(key);
      client, activeDek, active := None, None, false;
      vault, released := LegacyVault(state), [];
    }

    /** The worker dies, or `lock` drops everything it holds in memory. */
    method Forget()
      modifies this`client, this`activeDek, this`active
      ensures client == None && activeDek == None && !active
      ensures Now() == Forgotten(old(Now()))
      ensures old(Valid()) ==> Valid()
    {
      client, activeDek, active := None, None, false;
    }

    method CreateVault(passphrase: string, nonces: Nonces, w: Write) returns (reply: Reply)
      requires Valid()
      modifies this
      ensures Valid() && released == old(released) && !reply.ReleasedCiphertext?
      ensures vault == if old(vault).NoVault? && |passphrase| >= MIN_PASSPHRASE && TakesEffect(w)
                       then LockedWith(passphrase, []) else old(vault)
      ensures reply == Replied <==> old(vault).NoVault? && |passphrase| >= MIN_PASSPHRASE && w == Commits
      ensures reply == NoReply <==> old(vault).NoVault? && |passphrase| >= MIN_PASSPHRASE && Crashes(w)
      ensures reply == Replied ==> activeDek.Some? && active
      ensures reply == Refused ==> activeDek == old(activeDek)
      ensures if reply == NoReply then client.None? && activeDek.None? && !active else client == old(client)
      ensures Outcome(Now(), reply) == CreateStep(old(Now()), passphrase, w)
    {
      if live.Some? { return Refused; }
      active := true;
      if |passphrase| < MIN_PASSPHRASE { return Refused; }
      var record := BuildV2(deviceId, passphrase, [], nonces);
      if TakesEffect(w) {
        live := Some(record);
        vault := LockedWith(passphrase, []);
      }
      if Crashes(w) { Forget(); return NoReply; }
      if w == Fails { return Refused; }
      activeDek := Some(Dek(nonces.rawDek));
      reply := Replied;
    }

    method UnlockVault(passphrase: string) returns (reply: Reply)
      requires Valid()
      modifies this`active, this`activeDek
      ensures Valid()
      ensures reply == Replied <==> vault.LockedWith? && passphrase == vault.passphrase
      ensures reply == Replied ==> activeDek.Some? && active
      ensures reply != Replied ==> reply == Refused && activeDek.None?
      ensures Outcome(Now(), reply) == UnlockStep(old(Now()), passphrase)
      ensures !reply.ReleasedCiphertext?
    {
      active := true;
      if !ValidV2(live, deviceId) { return Refused; }
      var dek := UnwrapDek(deviceId, passphrase, live.value);
      if dek.None? || OpenState(deviceId, dek.value, live.value).None? {
        activeDek := None;
        return Refused;
      }
      activeDek := dek;
      reply := Replied;
    }

    method ChangePassphrase(oldPassphrase: string, newPassphrase: string, nonces: Nonces, w: Write) returns (reply: Reply)
      requires Valid()
      modifies this
      ensures Valid() && released == old(released) && !reply.ReleasedCiphertext?
      ensures var accepted := old(vault).LockedWith? && oldPassphrase == old(vault).passphrase && |newPassphrase| >= MIN_PASSPHRASE;
              && vault == (if accepted && TakesEffect(w) then LockedWith(newPassphrase, old(vault).state) else old(vault))
              && (reply == Replied <==> accepted && w == Commits)
              && (reply == NoReply <==> accepted && Crashes(w))
              && (reply == Refused ==> activeDek == if accepted then None else old(activeDek))
      ensures reply == Replied ==> activeDek.Some? && active
      ensures if reply == NoReply then client.None? && activeDek.None? && !active else client == old(client)
      ensures Outcome(Now(), reply) == ChangeStep(old(Now()), oldPassphrase, newPassphrase, w)
    {
      if |oldPassphrase| < MIN_PASSPHRASE || |newPassphrase| < MIN_PASSPHRASE { return Refused; }
      active := true;
      if !ValidV2(live, deviceId) { return Refused; }
      var dek := UnwrapDek(deviceId, oldPassphrase, live.value);
      if dek.None? { return Refused; }
      var next := Rewrapped(live.value, dek.value, newPassphrase, nonces);
      if TakesEffect(w) {
        live := Some(next);
        vault := LockedWith(newPassphrase, vault.state);
      }
      if Crashes(w) { Forget(); return NoReply; }
      if w == Fails {
        activeDek := None;
        return Refused;
      }
      activeDek := dek;
      reply := Replied;
    }

    /** The legacy plaintext, when the record and its key are both there. */
    method LoadLegacyState() returns (plain: Option<Bytes>)
      requires Valid() && live.Some? && live.value.V1?
      ensures vault.LegacyVault? && plain == Some(vault.state) && unchanged(this)
    {
      if legacyKey.None? { return None; }
      plain := Open(legacyKey.value, live.value.iv, deviceId, HoldsLegacyState, live.value.ciphertext);
    }

    /** Steps 1 to 6 of the migration: `None` is any failure before the promotion. */
    method MigrateV1ToV2(passphrase: string, plain: Bytes, nonces: Nonces, readBack: Read, first: Write, commit: Write)
      returns (dek: Option<Key>, crashed: bool)
      requires Valid() && vault == LegacyVault(plain)
      modifies this`live, this`candidate, this`legacyKey, this`vault
      ensures if vault == old(vault) then live == old(live) && legacyKey == old(legacyKey)
              else
                && vault == LockedWith(passphrase, plain)
                && OpenRecord(live, deviceId, passphrase) == Some(plain)
                && |passphrase| >= MIN_PASSPHRASE
                && live.value.wrappedDek.Sealed? && dek == Some(Dek(live.value.wrappedDek.plain))
                && first == Commits && TakesEffect(commit)
                && candidate == None && legacyKey == None
                && (readBack == Faithful ==> live == Some(BuildV2(deviceId, passphrase, plain, nonces)))
                && (readBack.Returns? ==> live == readBack.record)
      ensures crashed <==> |passphrase| >= MIN_PASSPHRASE && (Crashes(first) || (dek.Some? && Crashes(commit)))
      ensures vault != old(vault) <==> dek.Some? && TakesEffect(commit)
      ensures dek.Some? ==> |passphrase| >= MIN_PASSPHRASE && first == Commits
      ensures readBack == Faithful && |passphrase| >= MIN_PASSPHRASE && first == Commits ==> dek.Some?
      ensures dek.Some? <==>
                (|passphrase| >= MIN_PASSPHRASE && first == Commits
                 && OpenRecord(ReadBack(deviceId, passphrase, plain, nonces, readBack), deviceId, passphrase) == Some(plain))
    {
      crashed := false;
      dek := None;
      if |passphrase| < MIN_PASSPHRASE { return; }
      var record := BuildV2(deviceId, passphrase, plain, nonces);
      if TakesEffect(first) { candidate := Some(record); }
      if Crashes(first) { crashed := true; return; }
      if first == Fails { return; }
      var stored := if readBack == Faithful then candidate else readBack.record;
      if !ValidV2(stored, deviceId) { return; }
      var restored := UnwrapDek(deviceId, passphrase, stored.value);
      if restored.None? { return; }
      var text := OpenState(deviceId, restored.value, stored.value);
      if text.None? { return; }
      var same := BytesEqual(text.value, plain);
      if !same { return; }
      dek := restored;
      if TakesEffect(commit) {
        live, candidate, legacyKey := stored, None, None;
        vault := LockedWith(passphrase, plain);
      }
      crashed := Crashes(commit);
    }

    /**
      The migration handler.  Whatever the candidate reads back as, and wherever
      the writes fail, the legacy record and key are both untouched, or the new
      record opens under the new passphrase to the legacy plaintext.
     */
    method MigrateVault(passphrase: string, nonces: Nonces, readBack: Read, first: Write, commit: Write, cleanup: Write)
      returns (reply: Reply)
      requires Valid()
      modifies this`live, this`candidate, this`legacyKey, this`client, this`activeDek, this`active, this`vault
      ensures released == old(released) && !reply.ReleasedCiphertext?
      ensures old(vault).LegacyVault? ==>
                || (vault == old(vault) && live == old(live) && legacyKey == old(legacyKey))
                || (vault == LockedWith(passphrase, old(vault).state)
                    && OpenRecord(live, deviceId, passphrase) == Some(old(vault).state))
      ensures !old(vault).LegacyVault? ==> vault == old(vault) && live == old(live)
      ensures reply == Replied ==> old(vault).LegacyVault? && vault == LockedWith(passphrase, old(vault).state) && activeDek.Some? && active
      ensures readBack == Faithful ==>
                var promoted := old(vault).LegacyVault? && |passphrase| >= MIN_PASSPHRASE && first == Commits && TakesEffect(commit);
                && vault == (if promoted then LockedWith(passphrase, old(vault).state) else old(vault))
                && (reply == Replied <==> promoted && commit == Commits)
      ensures readBack == Faithful || (live.Some? && live.value.V2? ==> live.value.iterations == PBKDF2_ITERATIONS) ==> Valid()
      ensures Outcome(Now(), reply) == MigrateStep(deviceId, old(Now()), passphrase, nonces, readBack, first, commit, cleanup)
      ensures vault != old(vault) ==> live == ReadBack(deviceId, passphrase, old(vault).state, nonces, readBack)
    {
      ghost var before := Now();
      reply := Refused;
      if |passphrase| >= MIN_PASSPHRASE && live.Some? && live.value.V1? {
        var plain := LoadLegacyState();
        if plain.Some? { reply := PromoteOrCleanUp(passphrase, plain.value, nonces, readBack, first, commit, cleanup); }
      }
      Migrates(deviceId, before, passphrase, nonces, readBack, first, commit, cleanup);
    }

    /** The migration and, when it fails, the removal of the candidate and of the key. */
    method PromoteOrCleanUp(passphrase: string, plain: Bytes, nonces: Nonces, readBack: Read, first: Write, commit: Write, cleanup: Write)
      returns (reply: Reply)
      requires Valid() && vault == LegacyVault(plain) && |passphrase| >= MIN_PASSPHRASE
      modifies this`live, this`candidate, this`legacyKey, this`client, this`activeDek, this`active, this`vault
      ensures released == old(released) && !reply.ReleasedCiphertext?
      ensures reply == Replied ==> activeDek.Some? && active
      ensures Outcome(Now(), reply) == MigrateStep(deviceId, old(Now()), passphrase, nonces, readBack, first, commit, cleanup)
      ensures if vault == old(vault) then live == old(live) && legacyKey == old(legacyKey)
              else
                && live == ReadBack(deviceId, passphrase, plain, nonces, readBack)
                && vault == LockedWith(passphrase, plain) && OpenRecord(live, deviceId, passphrase) == Some(plain)
      ensures readBack == Faithful || (live.Some? && live.value.V2? ==> live.value.iterations == PBKDF2_ITERATIONS) ==> Valid()
    {
      active := true;
      var dek, crashed := MigrateV1ToV2(passphrase, plain, nonces, readBack, first, commit);
      if crashed {
        Forget();
        return NoReply;
      }
      if dek.Some? && commit == Commits {
        activeDek := dek;
        return Replied;
      }
      activeDek := None;
      if TakesEffect(cleanup) { candidate := None; }
      if Crashes(cleanup) { Forget(); return NoReply; }
      reply := Refused;
    }

    /** Re-encrypts the client's state under the held data key and stores it, leaving the wrapped key alone. */
    method Persist(iv: nat, w: Write) returns (reply: Reply)
      requires Valid()
      modifies this
      ensures Valid() && released == old(released) && !reply.ReleasedCiphertext?
      ensures var ready := old(client.Some? && active && activeDek.Some?);
              && (ready ==> old(vault).LockedWith?)
              && vault == (if ready && TakesEffect(w) then LockedWith(old(vault).passphrase, ExportState(old(client).value)) else old(vault))
              && (reply == Replied <==> ready && w == Commits)
              && (if ready && Crashes(w) then client.None? && activeDek.None? && !active
                  else client == old(client) && activeDek == old(activeDek) && active == old(active))
      ensures Outcome(Now(), reply) == PersistStep(old(Now()), w)
    {
      if client.None? || !active || activeDek.None? { return Refused; }
      var plaintext := ExportState(client.value);
      if TakesEffect(w) {
        live := Some(live.value.(stateIv := iv, stateCiphertext := Sealed(activeDek.value, iv, deviceId, HoldsState, plaintext)));
        vault := LockedWith(vault.passphrase, plaintext);
      }
      if Crashes(w) { Forget(); return NoReply; }
      if w == Fails { return Refused; }
      reply := Replied;
    }

    /** Loads the client the vault holds, or a fresh one when there is no vault. */
    method LoadClient(seed: Bytes) returns (loaded: Option<MlsClient>)
      requires Valid()
      ensures loaded.Some? ==> Ahead(released, loaded.value.group)
      ensures loaded.Some? && vault.LockedWith? ==> loaded.value.group == StoredPosition(vault.state)
      ensures vault.LockedWith? && activeDek.Some? ==> loaded == RestoreState(vault.state, seed)
      ensures vault.LegacyVault? ==> loaded.None?
      ensures loaded == Loaded(Now(), seed)
      ensures unchanged(this)
    {
      var state: Bytes := [];
      if live.Some? {
        if live.value.V1? || activeDek.None? || !live.value.V2? { return None; }
        var text := OpenState(deviceId, activeDek.value, live.value);
        if text.None? { return None; }
        state := text.value;
      }
      loaded := RestoreState(state, seed);
    }

    method Initialize(packageCount: nat, seed: Bytes, rest: Bytes, iv: nat, w: Write) returns (reply: Reply)
      requires Valid()
      modifies this
      ensures Valid() && released == old(released) && !reply.ReleasedCiphertext?
      ensures reply == Replied ==>
                && old(vault).LockedWith? && client.Some?
                && vault == LockedWith(old(vault).passphrase, ExportState(client.value))
                && client.value.group == (if old(client).Some? && old(active) then old(client).value.group
                                          else StoredPosition(old(vault).state))
      ensures reply == Replied <==>
                && old(vault).LockedWith? && old(activeDek).Some? && packageCount <= 100 && w == Commits
                && ((old(client).Some? && old(active)) || RestoreState(old(vault).state, seed).Some?)
      ensures reply == Replied ==> activeDek.Some? && active
      ensures old(vault).LockedWith? ==> vault.LockedWith? && vault.passphrase == old(vault).passphrase
      ensures !old(vault).LockedWith? ==> vault == old(vault)
      ensures Outcome(Now(), reply) == InitializeStep(old(Now()), packageCount, seed, rest, w)
    {
      var ready := EnsureClient(seed);
      if !ready || packageCount > 100 { return Refused; }
      client := Some(client.value.(rest := rest));
      reply := Persist(iv, w);
    }

    /** Keeps the client of the active device, or loads the stored one. */
    method EnsureClient(seed: Bytes) returns (ready: bool)
      requires Valid()
      modifies this`client, this`active
      ensures Valid() && active && ready == client.Some?
      ensures client == if old(client).Some? && old(active) then old(client) else Loaded(old(Now()), seed)
      ensures client.Some? && vault.LockedWith? && !(old(client).Some? && old(active)) ==> client.value.group == StoredPosition(vault.state)
    {
      if client.Some? && !active { client := None; }
      active := true;
      if client.None? { client := LoadClient(seed); }
      ready := client.Some?;
    }

    /**
      The handlers that change the group.  The result leaves the worker only
      after the state that produced it is stored.
     */
    method Perform(op: Operation, iv: nat, w: Write) returns (reply: Reply)
      requires Valid()
      modifies this
      ensures Valid()
      ensures var ready := old(client.Some? && active && activeDek.Some?) && Operate(old(client).value, op).Some?;
              && (ready ==> old(vault).LockedWith?)
              && vault == (if ready && TakesEffect(w)
                           then LockedWith(old(vault).passphrase, ExportState(Operate(old(client).value, op).value)) else old(vault))
              && (op.Encrypt? && ready && w == Commits ==> reply == ReleasedCiphertext(old(client).value.group.value))
              && (reply.ReleasedCiphertext? ==> op.Encrypt? && ready && w == Commits)
              && (reply == Replied <==> !op.Encrypt? && ready && w == Commits)
      ensures released == old(released) + (if reply.ReleasedCiphertext? then [reply.position] else [])
      ensures Outcome(Now(), reply) == PerformStep(old(Now()), op, w)
    {
      if activeDek.None? || !active || client.None? { return Refused; }
      var next := Operate(client.value, op);
      if next.None? { return Refused; }
      var position := client.value.group;
      client := next;
      reply := Persist(iv, w);
      if reply == Replied && op.Encrypt? {
        released := released + [position.value];
        reply := ReleasedCiphertext(position.value);
      }
    }
  }

  // ---------------------------------------------------------------------------
  // Every run of the request queue
  // ---------------------------------------------------------------------------

  datatype Command =
    | Create(passphrase: string, nonces: Nonces, w: Write)
    | Unlock(passphrase: string)
    | Change(oldPassphrase: string, newPassphrase: string, nonces: Nonces, w: Write)
    | Migrate(passphrase: string, nonces: Nonces, readBack: Read, first: Write, w: Write, cleanup: Write)
    | Start(packageCount: nat, seed: Bytes, rest: Bytes, iv: nat, w: Write)
    | Do(op: Operation, iv: nat, w: Write)
    | Lock
    | Crash

  function Step(device: string, s: Session, c: Command): Outcome {
    match c
    case Create(p, _, w) => CreateStep(s, p, w)
    case Unlock(p) => UnlockStep(s, p)
    case Change(p, q, _, w) => ChangeStep(s, p, q, w)
    case Migrate(p, nonces, readBack, first, w, cleanup) => MigrateStep(device, s, p, nonces, readBack, first, w, cleanup)
    case Start(count, seed, rest, _, w) => InitializeStep(s, count, seed, rest, w)
    case Do(op, _, w) => PerformStep(s, op, w)
    case Lock => Outcome(Forgotten(s), Replied)
    case Crash => Outcome(Forgotten(s), NoReply)
  }

  datatype History = History(session: Session, replies: seq<Reply>)

  /** The session after a run of commands, and their replies. */
  function After(device: string, s: Session, cs: seq<Command>): (h: History)
    ensures |h.replies| == |cs|
  {
    if cs == [] then History(s, [])
    else
      var before := After(device, s, cs[..|cs| - 1]);
      var out := Step(device, before.session, cs[|cs| - 1]);
      History(out.session, before.replies + [out.reply])
  }

  function Positions(replies: seq<Reply>): seq<Position> {
    if replies == [] then []
    else
      var last := replies[|replies| - 1];
      Positions(replies[..|replies| - 1]) + (if last.ReleasedCiphertext? then [last.position] else [])
  }

  /** A candidate that the passphrase opens carries the standard iteration count; what it holds is left open. */
  predicate Standard(device: string, c: Command) {
    c.Migrate? && c.readBack.Returns? && OpenRecord(c.readBack.record, device, c.passphrase).Some? ==>
      c.readBack.record.value.iterations == PBKDF2_ITERATIONS
  }

  /** One more command at the end of a run. */
  lemma OneMoreCommand(device: string, s: Session, cs: seq<Command>, i: nat, h: History, out: Outcome)
    requires i < |cs| && h == After(device, s, cs[..i]) && out == Step(device, h.session, cs[i])
    ensures History(out.session, h.replies + [out.reply]) == After(device, s, cs[..i + 1])
    ensures Positions(h.replies + [out.reply]) == Positions(h.replies) + (if out.reply.ReleasedCiphertext? then [out.reply.position] else [])
  {
    assert cs[..i + 1][..i] == cs[..i];
    assert (h.replies + [out.reply])[..|h.replies|] == h.replies;
  }

  method Dispatch(worker: Worker, c: Command) returns (reply: Reply)
    requires worker.Valid() && Standard(worker.deviceId, c)
    modifies worker
    ensures worker.Valid()
    ensures Outcome(worker.Now(), reply) == Step(worker.deviceId, old(worker.Now()), c)
    ensures worker.released == old(worker.released) + (if reply.ReleasedCiphertext? then [reply.position] else [])
  {
    match c
    case Create(p, nonces, w) => reply := worker.CreateVault(p, nonces, w);
    case Unlock(p) => reply := worker.UnlockVault(p);
    case Change(p, q, nonces, w) => reply := worker.ChangePassphrase(p, q, nonces, w);
    case Migrate(p, nonces, readBack, first, w, cleanup) => reply := worker.MigrateVault(p, nonces, readBack, first, w, cleanup);
    case Start(count, seed, rest, iv, w) => reply := worker.Initialize(count, seed, rest, iv, w);
    case Do(op, iv, w) => reply := worker.Perform(op, iv, w);
    case Lock => worker.Forget(); reply := Replied;
    case Crash => worker.Forget(); reply := NoReply;
  }

  /**
    The request queue, one request after the other, over any run with any
    failures and crashes: vault, client, lock and replies are those of the
    fold, the stored record stays openable, and the positions of all released
    ciphertexts strictly increase.
   */
  method RunQueue(worker: Worker, commands: seq<Command>) returns (replies: seq<Reply>)
    requires worker.Valid() && forall i :: 0 <= i < |commands| ==> Standard(worker.deviceId, commands[i])
    modifies worker
    ensures worker.Valid()
    ensures History(worker.Now(), replies) == After(worker.deviceId, old(worker.Now()), commands)
    ensures worker.released == old(worker.released) + Positions(replies)
    ensures Increasing(worker.released)
    ensures forall p :: OpenRecord(worker.live, worker.deviceId, p)
              == if worker.vault.LockedWith? && worker.vault.passphrase == p then Some(worker.vault.state) else None
  {
    replies := [];
    for i := 0 to |commands|
      invariant worker.Valid()
      invariant History(worker.Now(), replies) == After(worker.deviceId, old(worker.Now()), commands[..i])
      invariant worker.released == old(worker.released) + Positions(replies)
    {
      ghost var h := History(worker.Now(), replies);
      var reply := Dispatch(worker, commands[i]);
      OneMoreCommand(worker.deviceId, old(worker.Now()), commands, i, h, Outcome(worker.Now(), reply));
      replies := replies + [reply];
    }
    assert commands[..|commands|] == commands;
    forall p ensures OpenRecord(worker.live, worker.deviceId, p)
        == if worker.vault.LockedWith? && worker.vault.passphrase == p then Some(worker.vault.state) else None
    {
      OnlyThePassphraseOpens(worker, p);
    }
  }

  // ---------------------------------------------------------------------------
  // What a run leaves in the vault
  // ---------------------------------------------------------------------------

  /** Who can open the vault, decided by the committed commands alone. */
  datatype Access = Nobody | LegacyKeyHolder | Holder(passphrase: string)

  function AccessTo(v: AbstractVault): Access {
    match v
    case NoVault => Nobody
    case LegacyVault(_) => LegacyKeyHolder
    case LockedWith(passphrase, _) => Holder(passphrase)
  }

  function AccessStep(a: Access, c: Command): Access {
    match c
    case Create(p, _, w) => if a == Nobody && |p| >= MIN_PASSPHRASE && TakesEffect(w) then Holder(p) else a
    case Change(p, q, _, w) =>
      if a == Holder(p) && |p| >= MIN_PASSPHRASE && |q| >= MIN_PASSPHRASE && TakesEffect(w) then Holder(q) else a
    case Migrate(p, _, _, first, w, _) =>
      if a == LegacyKeyHolder && |p| >= MIN_PASSPHRASE && first == Commits && TakesEffect(w) then Holder(p) else a
    case _ => a
  }

  function AccessRun(a: Access, cs: seq<Command>): Access {
    if cs == [] then a else AccessStep(AccessRun(a, cs[..|cs| - 1]), cs[|cs| - 1])
  }

  /** With faithful read-backs the passphrase is that of the last committed create, change or migration. */
  lemma {:induction false} AccessFollows(device: string, s: Session, cs: seq<Command>)
    requires forall i :: 0 <= i < |cs| && cs[i].Migrate? ==> cs[i].readBack == Faithful
    ensures AccessTo(After(device, s, cs).session.vault) == AccessRun(AccessTo(s.vault), cs)
  {
    if cs != [] { AccessFollows(device, s, cs[..|cs| - 1]); }
  }

  /** The client a command would store: the one it starts, or the one its operation leads to. */
  function Offered(s: Session, c: Command): Option<MlsClient> {
    match c
    case Start(count, seed, rest, _, _) =>
      var client := if s.client.Some? && s.active then s.client else Loaded(s, seed);
      if client.None? || count > 100 then None else Some(client.value.(rest := rest))
    case Do(op, _, _) => if s.active && s.client.Some? then Operate(s.client.value, op) else None
    case _ => None
  }

  function StateOf(v: AbstractVault): Bytes {
    if v.NoVault? then [] else v.state
  }

  /**
    The committed state after a command: what the command offered if the vault
    is open and its write took effect, and otherwise what it was before.
   */
  lemma CommittedState(device: string, s: Session, c: Command)
    requires s.unlocked ==> s.vault.LockedWith?
    ensures var t := Step(device, s, c).session;
            && (t.unlocked ==> t.vault.LockedWith?)
            && StateOf(t.vault) ==
                 if s.unlocked && Offered(s, c).Some? && TakesEffect(c.w) then ExportState(Offered(s, c).value) else StateOf(s.vault)
  {
  }

  /** So a reloaded client is the one that was stored last. */
  lemma ReloadsLastStored(device: string, s: Session, c: Command, seed: Bytes)
    requires s.unlocked && s.vault.LockedWith? && Offered(s, c).Some? && TakesEffect(c.w)
    ensures var t := Step(device, s, c).session;
            t.vault.LockedWith? && Loaded(Forgotten(t).(unlocked := true), seed) == Offered(s, c)
  {
    CommittedState(device, s, c);
    ClientRoundTrip(Offered(s, c).value, seed);
  }

  // ---------------------------------------------------------------------------
  // When the vault is open
  // ---------------------------------------------------------------------------

  /** The passphrase commands: after a normal reply the data key is held. */
  predicate Opens(c: Command) {
    c.Create? || c.Unlock? || c.Change? || c.Migrate?
  }

  /**
    A command that creates, opens, changes or migrates the vault and replies
    leaves it open, with its device active and the loaded client as it was.
    A failed write of a change, a failed migration and a refused unlock lose the
    data key; any other refusal keeps it; a crash or a lock drops all memory.
   */
  lemma LeavesOpen(device: string, s: Session, c: Command)
    requires Opens(c) || c.Lock? || c.Crash?
    ensures var out := Step(device, s, c);
            && (Opens(c) && out.reply == Replied ==> out.session.vault.LockedWith? && out.session.unlocked && out.session.active)
            && (Opens(c) && out.reply != NoReply ==> out.session.client == s.client)
            && (c.Unlock? && out.reply == Refused ==> !out.session.unlocked)
            && (c.Change? && out.reply == Refused ==>
                  out.session.unlocked == (s.unlocked && !(c.w == Fails && s.vault == LockedWith(c.oldPassphrase, StateOf(s.vault))
                                                           && |c.oldPassphrase| >= 10 && |c.newPassphrase| >= 10)))
            && (c.Migrate? && out.reply == Refused ==> out.session.unlocked == (s.unlocked && (!s.vault.LegacyVault? || |c.passphrase| < 10)))
            && (c.Create? && out.reply == Refused ==> out.session.unlocked == s.unlocked)
            && (c.Lock? || c.Crash? || out.reply == NoReply ==>
                  out.session.client.None? && !out.session.unlocked && !out.session.active)
  {
  }

  /**
    After any run: once such a command replied, an initialisation of at most a
    hundred packages whose write commits replies too, if the stored state
    restores to a client or one is loaded and active.
   */
  lemma OpenedVaultInitializes(device: string, s: Session, cs: seq<Command>, c: Command, start: Command)
    requires Opens(c) && start.Start? && start.packageCount <= 100 && start.w == Commits
    requires var out := Step(device, After(device, s, cs).session, c);
             out.reply == Replied && (out.session.client.Some? || RestoreState(StateOf(out.session.vault), start.seed).Some?)
    ensures var h := After(device, s, cs + [c, start]);
            h.replies[|cs|] == Replied && h.replies[|cs| + 1] == Replied
            && h.session.unlocked && h.session.active && h.session.client.Some?
            && h.session.vault == LockedWith(h.session.vault.passphrase, ExportState(h.session.client.value))
  {
    var before := After(device, s, cs).session;
    assert (cs + [c, start])[..|cs| + 1] == cs + [c] && (cs + [c])[..|cs|] == cs;
    LeavesOpen(device, before, c);
    var open := Step(device, before, c).session;
    assert StateOf(open.vault) == open.vault.state;
  }

  /** Requests that change the group: the client moves on as the operation says, or everything in memory is gone. */
  lemma Performs(device: string, s: Session, op: Operation, iv: nat, w: Write)
    requires s.unlocked ==> s.vault.LockedWith?
    ensures var t := Step(device, s, Do(op, iv, w)).session;
            var ready := s.unlocked && s.active && s.client.Some? && Operate(s.client.value, op).Some?;
            if ready && (w == CrashesBefore || w == CrashesAfter) then t.client.None? && !t.unlocked && !t.active
            else t.client == (if ready then Operate(s.client.value, op) else s.client) && t.unlocked == s.unlocked && t.active == s.active
  {
  }

  /** In every reachable state one passphrase opens the stored record, to the committed state; every other is refused. */
  lemma OnlyThePassphraseOpens(worker: Worker, passphrase: string)
    requires worker.Valid()
    ensures OpenRecord(worker.live, worker.deviceId, passphrase)
         == if worker.vault.LockedWith? && worker.vault.passphrase == passphrase then Some(worker.vault.state) else None
  {
  }

  // ---------------------------------------------------------------------------
  // The iteration count
  // ---------------------------------------------------------------------------

  /**
    Changing the passphrase of a record that opens keeps it openable exactly
    when the record carries the standard iteration count; otherwise no
    passphrase opens the result.
   */
  lemma RewrapNeedsStandardIterations(device: string, record: Record, passphrase: string, next: string, nonces: Nonces, dek: Key)
    requires ValidV2(Some(record), device)
    requires UnwrapDek(device, passphrase, record) == Some(dek) && OpenState(device, dek, record).Some?
    requires |next| >= MIN_PASSPHRASE
    ensures var rewrapped := Some(Rewrapped(record, dek, next, nonces));
            if record.iterations == PBKDF2_ITERATIONS then
              OpenRecord(rewrapped, device, next) == OpenRecord(Some(record), device, passphrase)
            else forall p :: OpenRecord(rewrapped, device, p) == None
  {
  }

  /**
    A candidate that reads back with another iteration count passes every check
    of the migration, and after the next passphrase change nothing opens it.
   */
  lemma OtherIterationsStrandTheVault(device: string, passphrase: string, plain: Bytes, nonces: Nonces, iterations: nat) returns (stored: Record)
    requires |passphrase| >= MIN_PASSPHRASE && iterations != PBKDF2_ITERATIONS
    ensures ValidV2(Some(stored), device) && OpenRecord(Some(stored), device, passphrase) == Some(plain)
    ensures UnwrapDek(device, passphrase, stored) == Some(Dek(nonces.rawDek))
    ensures forall next, later, p :: OpenRecord(Some(Rewrapped(stored, Dek(nonces.rawDek), next, later)), device, p) == None
  {
    stored := V2(device, true, nonces.salt, iterations,
                 Sealed(Kek(passphrase, nonces.salt, iterations), nonces.wrapIv, device, WrapsDek, nonces.rawDek), nonces.wrapIv,
                 Sealed(Dek(nonces.rawDek), nonces.stateIv, device, HoldsState, plain), nonces.stateIv);
  }

  // ---------------------------------------------------------------------------
  // Stored client states
  // ---------------------------------------------------------------------------

  lemma ClientRoundTrip(c: MlsClient, seed: Bytes)
    ensures RestoreState(ExportState(c), seed) == Some(c)
    ensures StoredPosition(ExportState(c)) == c.group
  {
    assert ExportState(c)[3..] == c.rest;
  }
}
