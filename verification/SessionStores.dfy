/**
  The two session stores.  Both answer like one plain map from token to
  session and expiry time; tokens are hashed injectively, so a store key
  stands for its token.
 */
module SessionStores {
  import opened Common

  type Token = string
  type DeviceId = string

  datatype SessionData = SessionData(userId: int, deviceId: DeviceId)

  datatype Session = Session(data: SessionData, expires: real)

  /** Keys of the two namespaces, `session:` and `device-sessions:`. */
  datatype StoreKey = SessionKey(token: Token) | DeviceKey(device: DeviceId)

  // ---------------------------------------------------------------------------
  // The specification
  // ---------------------------------------------------------------------------

  type Sessions = map<Token, Session>

  function Lookup(m: Sessions, token: Token, now: real): Option<SessionData> {
    if token in m && m[token].expires > now then Some(m[token].data) else None
  }

  function Without(m: Sessions, device: DeviceId): Sessions {
    map t | t in m && m[t].data.deviceId != device :: m[t]
  }

  // ---------------------------------------------------------------------------
  // In memory
  // ---------------------------------------------------------------------------

  class InMemorySessionStore {
    const ttl: real
    var tokens: map<StoreKey, Session>
    var deviceKeys: map<DeviceId, set<StoreKey>>

    ghost var sessions: Sessions
    ghost var issued: set<Token>
    ghost var clock: real

    /** The device index holds a key exactly when the token map assigns the key to that device. */
    ghost predicate IndexExact()
      reads this
    {
      && (forall d, k :: d in deviceKeys && k in deviceKeys[d] ==> k in tokens && tokens[k].data.deviceId == d)
      && (forall k :: k in tokens ==> tokens[k].data.deviceId in deviceKeys && k in deviceKeys[tokens[k].data.deviceId])
    }

    ghost predicate Valid()
      reads this
    {
      && IndexExact()
      && (forall k :: k in tokens ==> k.SessionKey? && k.token in sessions && sessions[k.token] == tokens[k])
      && (forall t :: t in sessions && sessions[t].expires > clock ==> SessionKey(t) in tokens)
      && (forall t :: t in sessions ==> t in issued)
    }

    constructor (ttl: real)
      ensures Valid() && sessions == map[] && issued == {} && this.ttl == ttl && clock == 0.0
    {
      this.ttl := ttl;
      tokens, deviceKeys := map[], map[];
      sessions, issued, clock := map[], {}, 0.0;
    }

    method Issue(userId: int, deviceId: DeviceId, token: Token, now: real)
      requires Valid() && token !in issued && clock <= now
      modifies this
      ensures Valid() && clock == now && issued == old(issued) + {token}
      ensures sessions == old(sessions)[token := Session(SessionData(userId, deviceId), now + ttl)]
    {
      var key := SessionKey(token);
      tokens := tokens[key := Session(SessionData(userId, deviceId), now + ttl)];
      var keys := if deviceId in deviceKeys then deviceKeys[deviceId] else {};
      deviceKeys := deviceKeys[deviceId := keys + {key}];
      sessions := sessions[token := Session(SessionData(userId, deviceId), now + ttl)];
      issued, clock := issued + {token}, now;
    }

    /** Drops one key from its device's set, if the device has one. */
    method Discard(deviceId: DeviceId, key: StoreKey)
      modifies this`deviceKeys
      ensures deviceKeys == if deviceId in old(deviceKeys) then old(deviceKeys)[deviceId := old(deviceKeys)[deviceId] - {key}] else old(deviceKeys)
    {
      if deviceId in deviceKeys {
        deviceKeys := deviceKeys[deviceId := deviceKeys[deviceId] - {key}];
      }
    }

    /** An expired entry is dropped when it is asked for. */
    method Resolve(token: Token, now: real) returns (data: Option<SessionData>)
      requires Valid() && clock <= now
      modifies this
      ensures Valid() && clock == now && issued == old(issued) && sessions == old(sessions)
      ensures data == Lookup(sessions, token, now)
    {
      clock := now;
      var key := SessionKey(token);
      if key !in tokens { return None; }
      var session := tokens[key];
      if session.expires <= now {
        tokens := tokens - {key};
        Discard(session.data.deviceId, key);
        return None;
      }
      data := Some(session.data);
    }

    method Revoke(token: Token, now: real)
      requires Valid() && clock <= now
      modifies this
      ensures Valid() && clock == now && issued == old(issued)
      ensures sessions == old(sessions) - {token}
    {
      var key := SessionKey(token);
      if key in tokens {
        var session := tokens[key];
        tokens := tokens - {key};
        Discard(session.data.deviceId, key);
      }
      sessions := sessions - {token};
      clock := now;
    }

    method RevokeDevice(deviceId: DeviceId, now: real)
      requires Valid() && clock <= now
      modifies this
      ensures Valid() && clock == now && issued == old(issued)
      ensures sessions == Without(old(sessions), deviceId)
    {
      var keys := if deviceId in deviceKeys then deviceKeys[deviceId] else {};
      assert forall k :: k in keys <==> k in tokens && tokens[k].data.deviceId == deviceId;
      deviceKeys := deviceKeys - {deviceId};
      tokens := tokens - keys;
      sessions := Without(sessions, deviceId);
      clock := now;
    }
  }

  // ---------------------------------------------------------------------------
  // In Redis
  // ---------------------------------------------------------------------------

  datatype KeySet = KeySet(members: set<StoreKey>, expires: Option<real>)

  predicate Gone(expires: Option<real>, now: real) {
    expires.Some? && expires.value <= now
  }

  /** The device set holds the key and expires no earlier than the given time. */
  predicate Covers(sets: map<StoreKey, KeySet>, device: StoreKey, key: StoreKey, until: real) {
    && device in sets
    && key in sets[device].members
    && (sets[device].expires.Some? ==> sets[device].expires.value >= until)
  }

  /** Live strings are covered by their device's set; sets hold only keys of their own device. */
  ghost predicate KeysConsistent(strings: map<StoreKey, Session>, sets: map<StoreKey, KeySet>, issued: set<Token>, clock: real, ttl: real) {
    && (forall k :: k in strings ==> k.SessionKey? && k.token in issued && strings[k].expires <= clock + ttl)
    && (forall k :: k in strings && strings[k].expires > clock ==>
          Covers(sets, DeviceKey(strings[k].data.deviceId), k, strings[k].expires))
    && (forall d :: d in sets ==> d.DeviceKey?)
    && (forall d, k :: d in sets && k in sets[d].members ==>
          k.SessionKey? && k.token in issued && (k in strings ==> strings[k].data.deviceId == d.device))
  }

  /** The live strings are the live sessions. */
  ghost predicate Agrees(strings: map<StoreKey, Session>, sessions: Sessions, issued: set<Token>, clock: real) {
    && (forall t :: t in sessions ==> t in issued)
    && (forall t :: t in issued && SessionKey(t) in strings && strings[SessionKey(t)].expires > clock ==>
          t in sessions && sessions[t] == strings[SessionKey(t)])
    && (forall t :: t in sessions && sessions[t].expires > clock ==> SessionKey(t) in strings && strings[SessionKey(t)] == sessions[t])
  }

  lemma IssueKeepsKeys(strings: map<StoreKey, Session>, sets: map<StoreKey, KeySet>, issued: set<Token>, clock: real, ttl: real,
                       token: Token, session: Session, now: real, members: set<StoreKey>)
    requires KeysConsistent(strings, sets, issued, clock, ttl) && token !in issued && clock <= now
    requires session.expires == now + ttl
    requires var device := DeviceKey(session.data.deviceId);
             members == if device in sets && !Gone(sets[device].expires, now) then sets[device].members else {}
    ensures KeysConsistent(strings[SessionKey(token) := session],
                           sets[DeviceKey(session.data.deviceId) := KeySet(members + {SessionKey(token)}, Some(now + ttl))],
                           issued + {token}, now, ttl)
  {
  }

  lemma IssueAgrees(strings: map<StoreKey, Session>, sets: map<StoreKey, KeySet>, sessions: Sessions, issued: set<Token>,
                    clock: real, ttl: real, token: Token, session: Session, now: real)
    requires KeysConsistent(strings, sets, issued, clock, ttl) && Agrees(strings, sessions, issued, clock)
    requires token !in issued && clock <= now
    ensures Agrees(strings[SessionKey(token) := session], sessions[token := session], issued + {token}, now)
  {
  }

  lemma RevokeDeviceKeepsKeys(strings: map<StoreKey, Session>, sets: map<StoreKey, KeySet>, issued: set<Token>, clock: real, ttl: real,
                              deviceId: DeviceId, now: real, keys: set<StoreKey>)
    requires KeysConsistent(strings, sets, issued, clock, ttl) && clock <= now
    requires var device := DeviceKey(deviceId);
             keys == if device in sets && !Gone(sets[device].expires, now) then sets[device].members else {}
    ensures KeysConsistent(strings - keys, sets - {DeviceKey(deviceId)}, issued, now, ttl)
  {
  }

  lemma RevokeDeviceAgrees(strings: map<StoreKey, Session>, sets: map<StoreKey, KeySet>, sessions: Sessions, issued: set<Token>,
                           clock: real, ttl: real, deviceId: DeviceId, now: real, keys: set<StoreKey>)
    requires KeysConsistent(strings, sets, issued, clock, ttl) && Agrees(strings, sessions, issued, clock) && clock <= now
    requires var device := DeviceKey(deviceId);
             keys == if device in sets && !Gone(sets[device].expires, now) then sets[device].members else {}
    ensures Agrees(strings - keys, Without(sessions, deviceId), issued, now)
  {
  }

  lemma RevokeKeepsKeys(strings: map<StoreKey, Session>, sets: map<StoreKey, KeySet>, issued: set<Token>, clock: real, ttl: real,
                        key: StoreKey, now: real, after: map<StoreKey, KeySet>)
    requires KeysConsistent(strings, sets, issued, clock, ttl) && clock <= now
    requires forall d :: d in after ==> d in sets && after[d].members <= sets[d].members
    requires forall d, k :: d in sets && k in sets[d].members && k != key ==> d in after && k in after[d].members && after[d].expires == sets[d].expires
    ensures KeysConsistent(strings - {key}, after, issued, now, ttl)
  {
  }

  lemma RevokeAgrees(strings: map<StoreKey, Session>, sessions: Sessions, issued: set<Token>, clock: real, token: Token, now: real)
    requires Agrees(strings, sessions, issued, clock) && clock <= now
    ensures Agrees(strings - {SessionKey(token)}, sessions - {token}, issued, now)
  {
  }

  /** `strings` and `sets` are the server's keys, including those whose time has run out. */
  class RedisSessionStore {
    const ttl: real
    var strings: map<StoreKey, Session>
    var sets: map<StoreKey, KeySet>

    ghost var sessions: Sessions
    ghost var issued: set<Token>
    ghost var clock: real

    predicate LiveString(key: StoreKey, now: real)
      reads this
    {
      key in strings && strings[key].expires > now
    }

    predicate LiveSet(key: StoreKey, now: real)
      reads this
    {
      key in sets && !Gone(sets[key].expires, now)
    }

    ghost predicate Valid()
      reads this
    {
      && ttl > 0.0
      && KeysConsistent(strings, sets, issued, clock, ttl)
      && Agrees(strings, sessions, issued, clock)
    }

    constructor (ttl: real)
      requires ttl > 0.0
      ensures Valid() && sessions == map[] && issued == {} && this.ttl == ttl && clock == 0.0
    {
      this.ttl := ttl;
      strings, sets := map[], map[];
      sessions, issued, clock := map[], {}, 0.0;
    }

    /** SADD on a key that may have expired, then EXPIRE. */
    method AddToDeviceSet(device: StoreKey, key: StoreKey, now: real)
      modifies this`sets
      ensures sets == old(sets)[device := KeySet((if old(LiveSet(device, now)) then old(sets)[device].members else {}) + {key}, Some(now + ttl))]
    {
      var members := if LiveSet(device, now) then sets[device].members else {};
      var expires := if LiveSet(device, now) then sets[device].expires else None;
      sets := sets[device := KeySet(members + {key}, expires)];
      sets := sets[device := sets[device].(expires := Some(now + ttl))];
    }

    method Issue(userId: int, deviceId: DeviceId, token: Token, now: real)
      requires Valid() && token !in issued && clock <= now
      modifies this
      ensures Valid() && clock == now && issued == old(issued) + {token}
      ensures sessions == old(sessions)[token := Session(SessionData(userId, deviceId), now + ttl)]
    {
      var key := SessionKey(token);
      var session := Session(SessionData(userId, deviceId), now + ttl);
      ghost var members := if LiveSet(DeviceKey(deviceId), now) then sets[DeviceKey(deviceId)].members else {};
      IssueKeepsKeys(strings, sets, issued, clock, ttl, token, session, now, members);
      IssueAgrees(strings, sets, sessions, issued, clock, ttl, token, session, now);
      Record(key, session, DeviceKey(deviceId), now);
      sessions, issued, clock := sessions[token := session], issued + {token}, now;
    }

    /** The transaction of SET, SADD and EXPIRE. */
    method Record(key: StoreKey, session: Session, device: StoreKey, now: real)
      modifies this`strings, this`sets
      ensures strings == old(strings)[key := session]
      ensures sets == old(sets)[device := KeySet((if old(LiveSet(device, now)) then old(sets)[device].members else {}) + {key}, Some(now + ttl))]
    {
      strings := strings[key := session];
      AddToDeviceSet(device, key, now);
    }

    method Resolve(token: Token, now: real) returns (data: Option<SessionData>)
      requires Valid() && clock <= now
      modifies this`clock
      ensures Valid() && clock == now
      ensures data == Lookup(sessions, token, now)
    {
      clock := now;
      if !LiveString(SessionKey(token), now) { return None; }
      data := Some(strings[SessionKey(token)].data);
    }

    /** SREM: a set that loses its last member is deleted. */
    method RemoveFromDeviceSet(device: StoreKey, key: StoreKey, now: real)
      modifies this`sets
      ensures sets == if !old(LiveSet(device, now)) then old(sets)
                      else if old(sets)[device].members - {key} == {} then old(sets) - {device}
                      else old(sets)[device := old(sets)[device].(members := old(sets)[device].members - {key})]
    {
      if LiveSet(device, now) {
        var members := sets[device].members - {key};
        if members == {} {
          sets := sets - {device};
        } else {
          sets := sets[device := sets[device].(members := members)];
        }
      }
    }

    method Revoke(token: Token, now: real)
      requires Valid() && clock <= now
      modifies this
      ensures Valid() && clock == now && issued == old(issued)
      ensures sessions == old(sessions) - {token}
    {
      var key := SessionKey(token);
      ghost var before := sets;
      if LiveString(key, now) {
        RemoveFromDeviceSet(DeviceKey(strings[key].data.deviceId), key, now);
      }
      RevokeKeepsKeys(strings, before, issued, clock, ttl, key, now, sets);
      RevokeAgrees(strings, sessions, issued, clock, token, now);
      strings := strings - {key};
      sessions := sessions - {token};
      clock := now;
    }

    method RevokeDevice(deviceId: DeviceId, now: real)
      requires Valid() && clock <= now
      modifies this
      ensures Valid() && clock == now && issued == old(issued)
      ensures sessions == Without(old(sessions), deviceId)
    {
      var device := DeviceKey(deviceId);
      var keys := if LiveSet(device, now) then sets[device].members else {};
      RevokeDeviceKeepsKeys(strings, sets, issued, clock, ttl, deviceId, now, keys);
      RevokeDeviceAgrees(strings, sets, sessions, issued, clock, ttl, deviceId, now, keys);
      strings := strings - keys;
      sets := sets - {device};
      sessions := Without(sessions, deviceId);
      clock := now;
    }
  }

  // ---------------------------------------------------------------------------
  // Every command sequence
  // ---------------------------------------------------------------------------

  datatype Command =
    | IssueToken(userId: int, deviceId: DeviceId, token: Token, now: real)
    | ResolveToken(token: Token, now: real)
    | RevokeToken(token: Token, now: real)
    | RevokeTokensOf(deviceId: DeviceId, now: real)

  function Step(m: Sessions, c: Command, ttl: real): Sessions {
    match c
    case IssueToken(u, d, t, now) => m[t := Session(SessionData(u, d), now + ttl)]
    case ResolveToken(_, _) => m
    case RevokeToken(t, _) => m - {t}
    case RevokeTokensOf(d, _) => Without(m, d)
  }

  /** What a command answers: only `resolve` answers anything. */
  function Answer(m: Sessions, c: Command): Option<SessionData> {
    if c.ResolveToken? then Lookup(m, c.token, c.now) else None
  }

  function Answers(m: Sessions, cs: seq<Command>, ttl: real): seq<Option<SessionData>>
    decreases |cs|
  {
    if cs == [] then [] else [Answer(m, cs[0])] + Answers(Step(m, cs[0], ttl), cs[1..], ttl)
  }

  function RunAll(m: Sessions, cs: seq<Command>, ttl: real): Sessions
    decreases |cs|
  {
    if cs == [] then m else RunAll(Step(m, cs[0], ttl), cs[1..], ttl)
  }

  /** Fresh tokens and one clock that never goes back. */
  predicate Admissible(cs: seq<Command>, issued: set<Token>, clock: real) {
    cs == [] ||
    (clock <= cs[0].now
     && (cs[0].IssueToken? ==> cs[0].token !in issued)
     && Admissible(cs[1..], if cs[0].IssueToken? then issued + {cs[0].token} else issued, cs[0].now))
  }

  method ExecuteInMemory(store: InMemorySessionStore, c: Command) returns (answer: Option<SessionData>)
    requires store.Valid() && store.clock <= c.now && (c.IssueToken? ==> c.token !in store.issued)
    modifies store
    ensures store.Valid() && store.sessions == Step(old(store.sessions), c, store.ttl) && store.clock == c.now
    ensures store.issued == if c.IssueToken? then old(store.issued) + {c.token} else old(store.issued)
    ensures answer == Answer(old(store.sessions), c)
  {
    answer := None;
    match c
    case IssueToken(u, d, t, now) => store.Issue(u, d, t, now);
    case ResolveToken(t, now) => answer := store.Resolve(t, now);
    case RevokeToken(t, now) => store.Revoke(t, now);
    case RevokeTokensOf(d, now) => store.RevokeDevice(d, now);
  }

  /** The answers of the in-memory store over any command sequence are those of the plain map. */
  method RunInMemory(store: InMemorySessionStore, cs: seq<Command>) returns (answers: seq<Option<SessionData>>)
    requires store.Valid() && Admissible(cs, store.issued, store.clock)
    modifies store
    ensures store.Valid() && store.sessions == RunAll(old(store.sessions), cs, store.ttl)
    ensures answers == Answers(old(store.sessions), cs, store.ttl)
  {
    answers := [];
    var i := 0;
    assert cs[0..] == cs;
    while i < |cs|
      invariant i <= |cs| && store.Valid()
      invariant Admissible(cs[i..], store.issued, store.clock)
      invariant answers + Answers(store.sessions, cs[i..], store.ttl) == Answers(old(store.sessions), cs, store.ttl)
      invariant RunAll(store.sessions, cs[i..], store.ttl) == RunAll(old(store.sessions), cs, store.ttl)
    {
      ghost var before := store.sessions;
      var answer := ExecuteInMemory(store, cs[i]);
      OneCommand(before, cs, i, store.ttl, answers, answer);
      answers := answers + [answer];
      i := i + 1;
    }
    assert answers + [] == answers;
  }

  method ExecuteInRedis(store: RedisSessionStore, c: Command) returns (answer: Option<SessionData>)
    requires store.Valid() && store.clock <= c.now && (c.IssueToken? ==> c.token !in store.issued)
    modifies store
    ensures store.Valid() && store.sessions == Step(old(store.sessions), c, store.ttl) && store.clock == c.now
    ensures store.issued == if c.IssueToken? then old(store.issued) + {c.token} else old(store.issued)
    ensures answer == Answer(old(store.sessions), c)
  {
    answer := None;
    match c
    case IssueToken(u, d, t, now) => store.Issue(u, d, t, now);
    case ResolveToken(t, now) => answer := store.Resolve(t, now);
    case RevokeToken(t, now) => store.Revoke(t, now);
    case RevokeTokensOf(d, now) => store.RevokeDevice(d, now);
  }

  /** The answers of the Redis store over any command sequence are those of the plain map. */
  method RunRedis(store: RedisSessionStore, cs: seq<Command>) returns (answers: seq<Option<SessionData>>)
    requires store.Valid() && Admissible(cs, store.issued, store.clock)
    modifies store
    ensures store.Valid() && store.sessions == RunAll(old(store.sessions), cs, store.ttl)
    ensures answers == Answers(old(store.sessions), cs, store.ttl)
  {
    answers := [];
    var i := 0;
    assert cs[0..] == cs;
    while i < |cs|
      invariant i <= |cs| && store.Valid()
      invariant Admissible(cs[i..], store.issued, store.clock)
      invariant answers + Answers(store.sessions, cs[i..], store.ttl) == Answers(old(store.sessions), cs, store.ttl)
      invariant RunAll(store.sessions, cs[i..], store.ttl) == RunAll(old(store.sessions), cs, store.ttl)
    {
      ghost var before := store.sessions;
      var answer := ExecuteInRedis(store, cs[i]);
      OneCommand(before, cs, i, store.ttl, answers, answer);
      answers := answers + [answer];
      i := i + 1;
    }
    assert answers + [] == answers;
  }

  lemma OneCommand(m: Sessions, cs: seq<Command>, i: nat, ttl: real, answers: seq<Option<SessionData>>, answer: Option<SessionData>)
    requires i < |cs| && answer == Answer(m, cs[i])
    ensures answers + Answers(m, cs[i..], ttl) == (answers + [answer]) + Answers(Step(m, cs[i], ttl), cs[i + 1..], ttl)
    ensures RunAll(m, cs[i..], ttl) == RunAll(Step(m, cs[i], ttl), cs[i + 1..], ttl)
    ensures cs[i..][0] == cs[i] && cs[i..][1..] == cs[i + 1..]
  {
    assert cs[i..][1..] == cs[i + 1..];
  }

  /** A token that is gone never comes back, whatever happens afterwards. */
  lemma {:induction false} RevokedStaysRevoked(m: Sessions, cs: seq<Command>, ttl: real, token: Token)
    requires token !in m
    requires forall i :: 0 <= i < |cs| && cs[i].IssueToken? ==> cs[i].token != token
    ensures token !in RunAll(m, cs, ttl)
    decreases |cs|
  {
    if cs != [] {
      RevokedStaysRevoked(Step(m, cs[0], ttl), cs[1..], ttl, token);
    }
  }

  /** A session can live no longer than one ttl from its issue, under any later commands. */
  lemma {:induction false} SessionsNeverOutliveTtl(m: Sessions, cs: seq<Command>, ttl: real, token: Token, bound: real)
    requires token in m ==> m[token].expires <= bound
    requires forall i :: 0 <= i < |cs| && cs[i].IssueToken? ==> cs[i].token != token
    ensures forall now :: now >= bound ==> Lookup(RunAll(m, cs, ttl), token, now) == None
    decreases |cs|
  {
    if cs != [] {
      SessionsNeverOutliveTtl(Step(m, cs[0], ttl), cs[1..], ttl, token, bound);
    }
  }

  // ---------------------------------------------------------------------------
  // What is answered, from the commands alone
  // ---------------------------------------------------------------------------

  /** The command ends what was issued under the token for the device. */
  predicate Ends(c: Command, token: Token, device: DeviceId) {
    match c
    case IssueToken(_, _, t, _) => t == token
    case ResolveToken(_, _) => false
    case RevokeToken(t, _) => t == token
    case RevokeTokensOf(d, _) => d == device
  }

  /** Command j issued the session, and no command behind it ended it. */
  predicate StandsFrom(cs: seq<Command>, j: nat, token: Token, data: SessionData) {
    && j < |cs| && cs[j].IssueToken? && cs[j].token == token && data == SessionData(cs[j].userId, cs[j].deviceId)
    && forall k :: j < k < |cs| ==> !Ends(cs[k], token, data.deviceId)
  }

  lemma {:induction false} OneMoreStep(m: Sessions, cs: seq<Command>, c: Command, ttl: real)
    ensures RunAll(m, cs + [c], ttl) == Step(RunAll(m, cs, ttl), c, ttl)
    decreases |cs|
  {
    if cs == [] {
      assert [] + [c] == [c] && [c][1..] == [];
    } else {
      OneMoreStep(Step(m, cs[0], ttl), cs[1..], c, ttl);
      assert (cs + [c])[1..] == cs[1..] + [c];
    }
  }

  /** After a command a session stands if it was just issued, or stood and was not ended. */
  lemma StandsAfter(cs: seq<Command>, c: Command, j: nat, token: Token, data: SessionData)
    ensures StandsFrom(cs + [c], j, token, data) <==>
            || (j < |cs| && StandsFrom(cs, j, token, data) && !Ends(c, token, data.deviceId))
            || (j == |cs| && c.IssueToken? && c.token == token && data == SessionData(c.userId, c.deviceId))
  {
    var all := cs + [c];
    assert all[|cs|] == c && forall k :: 0 <= k < |cs| ==> all[k] == cs[k];
    if j < |cs| && StandsFrom(all, j, token, data) {
      assert !Ends(all[|cs|], token, data.deviceId);
    }
  }

  /** The map after any commands holds exactly the sessions that stand, each until one ttl from its issue. */
  lemma {:induction false} StandsExactly(cs: seq<Command>, ttl: real, token: Token, data: SessionData, expires: real)
    ensures token in RunAll(map[], cs, ttl) && RunAll(map[], cs, ttl)[token] == Session(data, expires) <==>
            exists j: nat :: StandsFrom(cs, j, token, data) && expires == cs[j].now + ttl
    decreases |cs|
  {
    if cs != [] {
      var n := |cs| - 1;
      var rest, c := cs[..n], cs[n];
      assert cs == rest + [c];
      StandsExactly(rest, ttl, token, data, expires);
      OneMoreStep(map[], rest, c, ttl);
      forall j: nat ensures StandsFrom(cs, j, token, data) <==>
          || (j < n && StandsFrom(rest, j, token, data) && !Ends(c, token, data.deviceId))
          || (j == n && c.IssueToken? && c.token == token && data == SessionData(c.userId, c.deviceId))
      {
        StandsAfter(rest, c, j, token, data);
      }
      var m := RunAll(map[], rest, ttl);
      if c.IssueToken? && c.token == token {
        assert StandsFrom(cs, n, token, SessionData(c.userId, c.deviceId));
      } else if Ends(c, token, data.deviceId) {
        assert !(token in Step(m, c, ttl) && Step(m, c, ttl)[token] == Session(data, expires));
      } else {
        assert (token in Step(m, c, ttl) && Step(m, c, ttl)[token] == Session(data, expires))
          <==> (token in m && m[token] == Session(data, expires));
        if j: nat :| StandsFrom(rest, j, token, data) && expires == rest[j].now + ttl {
          assert StandsFrom(cs, j, token, data) && cs[j] == rest[j];
        }
      }
    }
  }

  lemma {:induction false} AnswerAt(m: Sessions, cs: seq<Command>, i: nat, ttl: real)
    requires i < |cs|
    ensures |Answers(m, cs, ttl)| == |cs| && Answers(m, cs, ttl)[i] == Answer(RunAll(m, cs[..i], ttl), cs[i])
    decreases |cs|
  {
    if i > 0 {
      AnswerAt(Step(m, cs[0], ttl), cs[1..], i - 1, ttl);
      assert cs[..i][1..] == cs[1..][..i - 1];
    } else if |cs| > 1 {
      AnswerAt(Step(m, cs[0], ttl), cs[1..], 0, ttl);
    }
  }

  /**
    From an empty store, a token is resolved to a user and device if and only
    if an earlier command issued it to them less than one ttl ago, and since
    then neither the token nor its device was revoked nor the token issued anew.
   */
  lemma ResolvedExactly(cs: seq<Command>, i: nat, ttl: real, data: SessionData)
    requires i < |cs| && cs[i].ResolveToken?
    ensures |Answers(map[], cs, ttl)| == |cs|
    ensures Answers(map[], cs, ttl)[i] == Some(data) <==>
            exists j: nat :: StandsFrom(cs[..i], j, cs[i].token, data) && cs[i].now < cs[j].now + ttl
  {
    AnswerAt(map[], cs, i, ttl);
    var m, token := RunAll(map[], cs[..i], ttl), cs[i].token;
    if token in m {
      StandsExactly(cs[..i], ttl, token, data, m[token].expires);
    }
    if j: nat :| StandsFrom(cs[..i], j, token, data) && cs[i].now < cs[j].now + ttl {
      StandsExactly(cs[..i], ttl, token, data, cs[j].now + ttl);
    }
  }
}
