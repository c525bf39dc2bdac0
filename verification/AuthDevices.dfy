/**
  Login, refresh rotation, logout and device revocation over the device and
  refresh-session tables and the session store's specification.  Each request
  handler is one step.
 */
module AuthDevices {
  import opened Common
  import opened SessionStores

  const MAX_ACTIVE_DEVICES := 5

  datatype Status = Pending | Active | Revoked

  datatype Device = Device(user: int, status: Status, revokedAt: Option<real>)

  datatype User = User(active: bool, placeholder: bool)

  datatype RefreshRow = RefreshRow(user: int, device: DeviceId, token: Token, expires: real, revokedAt: Option<real>)

  /** HTTP status of a refused request. */
  type Refusal = nat

  predicate Usable(users: map<int, User>, user: int) {
    user in users && users[user].active && !users[user].placeholder
  }

  predicate IsActive(devices: map<DeviceId, Device>, id: DeviceId) {
    id in devices && devices[id].revokedAt.None? && devices[id].status == Active
  }

  predicate IsPending(devices: map<DeviceId, Device>, id: DeviceId) {
    id in devices && devices[id].revokedAt.None? && devices[id].status == Pending
  }

  /** A session of an unrevoked device, approved or not, and a usable user. */
  predicate Standing(devices: map<DeviceId, Device>, users: map<int, User>, data: SessionData) {
    && data.deviceId in devices && devices[data.deviceId].revokedAt.None? && devices[data.deviceId].status != Revoked
    && Usable(users, data.userId)
  }

  /** An approved and unrevoked device of the user. */
  predicate IsUsersActive(device: Device, user: int) {
    device.user == user && device.status == Active && device.revokedAt.None?
  }

  /** The row holds the token, is unrevoked and unexpired, and its device and its user are active. */
  predicate MayExchange(row: RefreshRow, devices: map<DeviceId, Device>, users: map<int, User>, token: Token, now: real) {
    && row.token == token && row.revokedAt.None? && now < row.expires
    && row.device in devices && devices[row.device].status == Active && devices[row.device].revokedAt.None?
    && row.user in users && users[row.user].active && !users[row.user].placeholder
  }

  function ActiveOf(devices: map<DeviceId, Device>, user: int): set<DeviceId> {
    set d | d in devices && devices[d].user == user && IsActive(devices, d)
  }

  lemma ActiveOnes(devices: map<DeviceId, Device>, user: int)
    ensures ActiveOf(devices, user) == set d | d in devices && IsUsersActive(devices[d], user)
  {
  }

  /** Devices stay, keep their user, and once revoked stay revoked. */
  ghost predicate Later(before: map<DeviceId, Device>, after: map<DeviceId, Device>) {
    forall d :: d in before ==>
      && d in after && after[d].user == before[d].user
      && (before[d].revokedAt.Some? ==> after[d] == before[d])
  }

  /** The hash column is unique. */
  ghost predicate UniqueTokens(rows: map<string, RefreshRow>) {
    forall a, b :: a in rows && b in rows ==> TokensDiffer(rows, a, b)
  }

  predicate TokensDiffer(rows: map<string, RefreshRow>, a: string, b: string)
    requires a in rows && b in rows
  {
    rows[a].token == rows[b].token ==> a == b
  }

  lemma OneRow(rows: map<string, RefreshRow>, token: Token)
    requires UniqueTokens(rows)
    ensures forall a, b :: a in rows && b in rows && rows[a].token == token && rows[b].token == token ==> a == b
  {
    forall a, b | a in rows && b in rows && rows[a].token == token && rows[b].token == token ensures a == b {
      assert TokensDiffer(rows, a, b);
    }
  }

  function RowWith(rows: map<string, RefreshRow>, token: Token): (r: Option<string>)
    requires UniqueTokens(rows)
    ensures r.Some? ==> r.value in rows && rows[r.value].token == token
    ensures r.None? ==> forall id :: id in rows ==> rows[id].token != token
  {
    if exists id :: id in rows && rows[id].token == token then
      OneRow(rows, token);
      var id :| id in rows && rows[id].token == token;
      Some(id)
    else None
  }

  /** The presented refresh token names an unrevoked, unexpired row of an active device and a usable user. */
  predicate Exchangeable(rows: map<string, RefreshRow>, devices: map<DeviceId, Device>, users: map<int, User>, presented: Token, now: real)
    requires UniqueTokens(rows)
  {
    var id := RowWith(rows, presented);
    id.Some? &&
    var row := rows[id.value];
    row.revokedAt.None? && row.expires > now && IsActive(devices, row.device) && Usable(users, row.user)
  }

  /** A refused exchange revokes the live row it names when the row's device is not active or its user not usable. */
  function RefusedRows(rows: map<string, RefreshRow>, presented: Token, now: real): (after: map<string, RefreshRow>)
    requires UniqueTokens(rows)
    ensures after.Keys == rows.Keys
  {
    var id := RowWith(rows, presented);
    if id.Some? && rows[id.value].revokedAt.None? && rows[id.value].expires > now
    then rows[id.value := rows[id.value].(revokedAt := Some(now))]
    else rows
  }

  /** The row of the presented token gets the new one. */
  function ExchangedRows(rows: map<string, RefreshRow>, presented: Token, refresh: Token): map<string, RefreshRow>
    requires UniqueTokens(rows)
  {
    var id := RowWith(rows, presented);
    if id.Some? then rows[id.value := rows[id.value].(token := refresh)] else rows
  }

  function LoggedOutRows(rows: map<string, RefreshRow>, presented: Option<Token>, now: real): map<string, RefreshRow>
    requires UniqueTokens(rows)
  {
    var id := if presented.Some? then RowWith(rows, presented.value) else None;
    if id.Some? && rows[id.value].revokedAt.None? then rows[id.value := rows[id.value].(revokedAt := Some(now))] else rows
  }

  predicate FewActive(devices: map<DeviceId, Device>, user: int) {
    |ActiveOf(devices, user)| <= MAX_ACTIVE_DEVICES
  }

  ghost predicate DevicesValid(devices: map<DeviceId, Device>) {
    && (forall u :: FewActive(devices, u))
    && (forall d :: d in devices ==> (devices[d].revokedAt.Some? <==> devices[d].status == Revoked))
  }

  /** Sessions belong to unrevoked devices and end within the given span of their family's login. */
  ghost predicate SessionsValid(sessions: Sessions, born: map<Token, real>, devices: map<DeviceId, Device>, span: real) {
    forall t :: t in sessions ==>
      && t in born && sessions[t].expires < born[t] + span
      && sessions[t].data.deviceId in devices && devices[sessions[t].data.deviceId].revokedAt.None?
  }

  /** Rows keep the expiry of the login their token descends from, and those of revoked devices are revoked. */
  ghost predicate RowsValid(rows: map<string, RefreshRow>, roots: map<Token, real>, devices: map<DeviceId, Device>, refreshTtl: real) {
    forall id :: id in rows ==>
      && rows[id].token in roots && rows[id].expires == roots[rows[id].token] + refreshTtl
      && rows[id].device in devices
      && (devices[rows[id].device].revokedAt.Some? ==> rows[id].revokedAt.Some?)
  }

  /** No row holds a refresh token that was already exchanged. */
  ghost predicate RowsUnspent(rows: map<string, RefreshRow>, roots: map<Token, real>, exchanged: set<Token>) {
    && UniqueTokens(rows)
    && (forall id :: id in rows ==> rows[id].token !in exchanged)
    && exchanged <= roots.Keys
  }

  ghost predicate TokensValid(devices: map<DeviceId, Device>, sessions: Sessions, born: map<Token, real>, rows: map<string, RefreshRow>,
                              roots: map<Token, real>, exchanged: set<Token>, refreshTtl: real, sessionTtl: real)
  {
    && SessionsValid(sessions, born, devices, refreshTtl + sessionTtl)
    && RowsValid(rows, roots, devices, refreshTtl)
    && RowsUnspent(rows, roots, exchanged)
  }

  /** What a login or a refresh hands out. */
  datatype Tokens = Tokens(access: Token, refresh: Token, device: DeviceId)

  class AuthService {
    const sessionTtl: real
    const refreshTtl: real
    var users: map<int, User>
    var devices: map<DeviceId, Device>
    var refreshRows: map<string, RefreshRow>
    var sessions: Sessions

    /** When the login of its family was, for each access token ever issued and each refresh token ever handed out. */
    ghost var born: map<Token, real>
    ghost var roots: map<Token, real>
    /** Refresh tokens already exchanged. */
    ghost var exchanged: set<Token>

    ghost predicate Valid()
      reads this
    {
      && sessionTtl > 0.0 && refreshTtl > 0.0
      && DevicesValid(devices)
      && TokensValid(devices, sessions, born, refreshRows, roots, exchanged, refreshTtl, sessionTtl)
    }

    constructor (sessionTtl: real, refreshTtl: real, users: map<int, User>)
      requires sessionTtl > 0.0 && refreshTtl > 0.0
      ensures Valid() && devices == map[] && sessions == map[] && refreshRows == map[] && born == map[] && roots == map[]
    {
      this.sessionTtl, this.refreshTtl, this.users := sessionTtl, refreshTtl, users;
      devices, refreshRows, sessions := map[], map[], map[];
      born, roots, exchanged := map[], map[], {};
    }

    /** `get_current_user`: the bearer of a live token whose device is active. */
    method GetCurrentUser(token: Token, now: real) returns (r: Result<int, Refusal>)
      modifies this`sessions
      ensures old(Valid()) ==> Valid()
      ensures r.Success? <==>
                token in old(sessions) && now < old(sessions)[token].expires &&
                var d, u := old(sessions)[token].data.deviceId, old(sessions)[token].data.userId;
                && d in devices && devices[d].status == Active && devices[d].revokedAt.None?
                && u in users && users[u].active && !users[u].placeholder
      ensures r.Success? ==> r.value == old(sessions)[token].data.userId
      ensures var data := Lookup(old(sessions), token, now);
              sessions == if data.Some? && !IsActive(devices, data.value.deviceId) && !IsPending(devices, data.value.deviceId)
                          then old(sessions) - {token} else old(sessions)
    {
      var data := Lookup(sessions, token, now);
      if data.None? { return Failure(401); }
      var id := data.value.deviceId;
      if id in devices && devices[id].status == Pending && devices[id].revokedAt.None? { return Failure(403); }
      if id !in devices || devices[id].revokedAt.Some? || devices[id].status != Active {
        sessions := sessions - {token};
        return Failure(401);
      }
      if !Usable(users, data.value.userId) { return Failure(401); }
      r := Success(data.value.userId);
    }

    /** `get_current_device`: pending devices pass, revoked ones lose the token. */
    method GetCurrentDevice(token: Token, now: real) returns (r: Result<DeviceId, Refusal>)
      modifies this`sessions
      ensures old(Valid()) ==> Valid()
      ensures r.Success? <==>
                token in old(sessions) && now < old(sessions)[token].expires &&
                var d, u := old(sessions)[token].data.deviceId, old(sessions)[token].data.userId;
                && d in devices && devices[d].status != Revoked && devices[d].revokedAt.None?
                && u in users && users[u].active && !users[u].placeholder
      ensures var data := Lookup(old(sessions), token, now);
              && (r.Success? <==> data.Some? && Standing(devices, users, data.value))
              && sessions == if data.Some? && !Standing(devices, users, data.value) then old(sessions) - {token} else old(sessions)
      ensures r.Success? ==> r.value == Lookup(old(sessions), token, now).value.deviceId
    {
      var data := Lookup(sessions, token, now);
      if data.None? { return Failure(401); }
      var id := data.value.deviceId;
      if id !in devices || devices[id].revokedAt.Some? || devices[id].status == Revoked || !Usable(users, data.value.userId) {
        sessions := sessions - {token};
        return Failure(401);
      }
      r := Success(id);
    }

    method GetActiveDevice(token: Token, now: real) returns (r: Result<DeviceId, Refusal>)
      modifies this`sessions
      ensures old(Valid()) ==> Valid()
      ensures r.Success? <==>
                token in old(sessions) && now < old(sessions)[token].expires &&
                var d, u := old(sessions)[token].data.deviceId, old(sessions)[token].data.userId;
                && d in devices && devices[d].status == Active && devices[d].revokedAt.None?
                && u in users && users[u].active && !users[u].placeholder
      ensures r.Success? ==> r.value == Lookup(old(sessions), token, now).value.deviceId
      ensures var data := Lookup(old(sessions), token, now);
              sessions == if data.Some? && !Standing(devices, users, data.value) then old(sessions) - {token} else old(sessions)
    {
      r := GetCurrentDevice(token, now);
      if r.Success? && devices[r.value].status != Active { r := Failure(403); }
    }

    /** `_issue_tokens`: stores the row with its new refresh token and issues an access token, both of the family of the given login. */
    method IssueTokens(id: string, row: RefreshRow, access: Token, now: real, ghost login: real)
      modifies this`refreshRows, this`sessions, this`roots, this`born
      ensures refreshRows == old(refreshRows)[id := row]
      ensures sessions == old(sessions)[access := Session(SessionData(row.user, row.device), now + sessionTtl)]
      ensures roots == old(roots)[row.token := login] && born == old(born)[access := login]
    {
      refreshRows := refreshRows[id := row];
      sessions := sessions[access := Session(SessionData(row.user, row.device), now + sessionTtl)];
      roots, born := roots[row.token := login], born[access := login];
    }

    method Login(user: int, passwordOk: bool, device: DeviceId, row: string, refresh: Token, access: Token, now: real)
      returns (r: Result<Tokens, Refusal>)
      requires Valid()
      requires device !in devices && row !in refreshRows && refresh !in roots && access !in born
      modifies this
      ensures Valid() && Later(old(devices), devices) && users == old(users)
      ensures r.Success? <==>
                && user in users && users[user].active && !users[user].placeholder && passwordOk
                && |set d | d in old(devices) && IsUsersActive(old(devices)[d], user)| < 5
      ensures r.Success? ==>
                && r.value == Tokens(access, refresh, device)
                && devices == old(devices)[device := Device(user, Active, None)]
                && sessions == old(sessions)[access := Session(SessionData(user, device), now + sessionTtl)]
                && born == old(born)[access := now] && roots == old(roots)[refresh := now]
                && refreshRows == old(refreshRows)[row := RefreshRow(user, device, refresh, now + refreshTtl, None)]
      ensures r.Failure? ==> devices == old(devices) && sessions == old(sessions) && refreshRows == old(refreshRows) && born == old(born) && roots == old(roots)
    {
      ActiveOnes(devices, user);
      if !Usable(users, user) || !passwordOk { return Failure(401); }
      if |ActiveOf(devices, user)| >= MAX_ACTIVE_DEVICES { return Failure(409); }
      Admit(user, device, row, refresh, access, now);
      r := Success(Tokens(access, refresh, device));
    }

    /** Adds the new device with its first refresh row and access token. */
    method Admit(user: int, device: DeviceId, row: string, refresh: Token, access: Token, now: real)
      requires Valid() && |ActiveOf(devices, user)| < MAX_ACTIVE_DEVICES
      requires device !in devices && row !in refreshRows && refresh !in roots && access !in born
      modifies this`devices, this`refreshRows, this`sessions, this`born, this`roots
      ensures Valid()
      ensures devices == old(devices)[device := Device(user, Active, None)]
      ensures sessions == old(sessions)[access := Session(SessionData(user, device), now + sessionTtl)]
      ensures born == old(born)[access := now] && roots == old(roots)[refresh := now]
      ensures refreshRows == old(refreshRows)[row := RefreshRow(user, device, refresh, now + refreshTtl, None)]
    {
      OneMoreActive(devices, user, device);
      LoginKeepsTokens(devices, sessions, born, refreshRows, roots, exchanged, refreshTtl, sessionTtl,
                       user, device, row, refresh, access, now);
      devices := devices[device := Device(user, Active, None)];
      var first := RefreshRow(user, device, refresh, now + refreshTtl, None);
      IssueTokens(row, first, access, now, now);
    }

    method RevokeRow(id: string, now: real)
      requires Valid() && id in refreshRows
      modifies this`refreshRows
      ensures Valid()
      ensures refreshRows == old(refreshRows)[id := old(refreshRows)[id].(revokedAt := Some(now))]
    {
      RevokeRowKeepsTokens(devices, sessions, born, refreshRows, roots, exchanged, refreshTtl, sessionTtl, id, now);
      refreshRows := refreshRows[id := refreshRows[id].(revokedAt := Some(now))];
    }

    /** Replaces the refresh token of a row and issues an access token of the same family. */
    method Rotate(id: string, refresh: Token, access: Token, now: real)
      requires Valid() && refresh !in roots && access !in born
      requires id in refreshRows && refreshRows[id].expires > now && IsActive(devices, refreshRows[id].device)
      modifies this`refreshRows, this`sessions, this`born, this`roots, this`exchanged
      ensures Valid()
      ensures var row := old(refreshRows)[id];
              && refreshRows == old(refreshRows)[id := row.(token := refresh)]
              && sessions == old(sessions)[access := Session(SessionData(row.user, row.device), now + sessionTtl)]
              && exchanged == old(exchanged) + {row.token} && row.token in old(roots)
              && roots == old(roots)[refresh := old(roots)[row.token]] && born == old(born)[access := old(roots)[row.token]]
    {
      RefreshKeepsTokens(devices, sessions, born, refreshRows, roots, exchanged, refreshTtl, sessionTtl, id, refresh, access, now);
      var row := refreshRows[id];
      IssueTokens(id, row.(token := refresh), access, now, roots[row.token]);
      exchanged := exchanged + {row.token};
    }

    /** Exchanges a refresh token; the row keeps its expiry, so a family cannot extend itself. */
    method Refresh(presented: Token, refresh: Token, access: Token, now: real) returns (r: Result<Tokens, Refusal>)
      requires Valid()
      requires refresh !in roots && access !in born
      modifies this
      ensures Valid() && devices == old(devices) && users == old(users)
      ensures r.Success? <==> Exchangeable(old(refreshRows), devices, users, presented, now)
      ensures r.Success? <==> exists id :: id in old(refreshRows) && MayExchange(old(refreshRows)[id], devices, users, presented, now)
      ensures r.Success? ==>
                var id := RowWith(old(refreshRows), presented).value;
                var row := old(refreshRows)[id];
                && r.value == Tokens(access, refresh, row.device)
                && refreshRows == old(refreshRows)[id := row.(token := refresh)]
                && refreshRows == ExchangedRows(old(refreshRows), presented, refresh)
                && sessions == old(sessions)[access := Session(SessionData(row.user, row.device), now + sessionTtl)]
                && exchanged == old(exchanged) + {presented} && presented !in old(exchanged) && presented in old(roots)
                && roots == old(roots)[refresh := old(roots)[presented]] && born == old(born)[access := old(roots)[presented]]
      ensures r.Failure? ==>
                && sessions == old(sessions) && born == old(born) && roots == old(roots) && exchanged == old(exchanged)
                && refreshRows == RefusedRows(old(refreshRows), presented, now)
    {
      var found := RowWith(refreshRows, presented);
      if found.None? { return Failure(401); }
      var id := found.value;
      var row := refreshRows[id];
      if row.revokedAt.Some? || row.expires <= now { return Failure(401); }
      if !IsActive(devices, row.device) || !Usable(users, row.user) {
        RevokeRow(id, now);
        return Failure(401);
      }
      Rotate(id, refresh, access, now);
      r := Success(Tokens(access, refresh, row.device));
    }

    /** Revokes the access token and, if it is not revoked yet, the row of the presented refresh token; no other row. */
    method Logout(token: Token, presented: Option<Token>, now: real)
      requires Valid()
      modifies this`sessions, this`refreshRows
      ensures Valid()
      ensures sessions == old(sessions) - {token}
      ensures var found := if presented.Some? then RowWith(old(refreshRows), presented.value) else None;
              refreshRows == if found.Some? && old(refreshRows)[found.value].revokedAt.None?
                             then old(refreshRows)[found.value := old(refreshRows)[found.value].(revokedAt := Some(now))]
                             else old(refreshRows)
      ensures refreshRows == LoggedOutRows(old(refreshRows), presented, now)
    {
      sessions := sessions - {token};
      if presented.Some? {
        var found := RowWith(refreshRows, presented.value);
        if found.Some? && refreshRows[found.value].revokedAt.None? {
          RevokeRow(found.value, now);
        }
      }
    }

    method RevokeAll(device: DeviceId, now: real)
      requires Valid() && device in devices
      modifies this`devices, this`refreshRows, this`sessions
      ensures Valid()
      ensures devices == if old(devices)[device].revokedAt.None? then RevokedDevice(old(devices), device, now) else old(devices)
      ensures refreshRows == RevokedRows(old(refreshRows), device, now)
      ensures sessions == Without(old(sessions), device)
    {
      ghost var before := devices;
      if devices[device].revokedAt.None? {
        RevokingShrinks(devices, device, now);
        devices := devices[device := devices[device].(revokedAt := Some(now), status := Revoked)];
      }
      RevokeKeepsTokens(before, sessions, born, refreshRows, roots, exchanged, refreshTtl, sessionTtl, device, now, devices);
      refreshRows := RevokedRows(refreshRows, device, now);
      sessions := Without(sessions, device);
    }

    /** Revokes one of the caller's own devices with all its tokens. */
    method RevokeDevice(token: Token, device: DeviceId, now: real) returns (r: Result<(), Refusal>)
      requires Valid()
      modifies this`devices, this`refreshRows, this`sessions
      ensures Valid()
      ensures r.Success? ==>
                && device in old(devices)
                && devices == (if old(devices)[device].revokedAt.None? then RevokedDevice(old(devices), device, now) else old(devices))
                && refreshRows == RevokedRows(old(refreshRows), device, now)
                && sessions == Without(old(sessions), device)
      ensures r.Failure? ==> devices == old(devices) && refreshRows == old(refreshRows) && (sessions == old(sessions) || sessions == old(sessions) - {token})
      ensures r.Success? <==>
                var data := Lookup(old(sessions), token, now);
                && data.Some? && Standing(old(devices), users, data.value)
                && device in old(devices) && old(devices)[device].user == old(devices)[data.value.deviceId].user
    {
      var current := GetCurrentDevice(token, now);
      if current.Failure? { return Failure(current.error); }
      if device !in devices || devices[device].user != devices[current.value].user { return Failure(404); }
      RevokeAll(device, now);
      r := Success(());
    }
  }

  /** The bulk update of a device's refresh rows. */
  function RevokedRows(rows: map<string, RefreshRow>, device: DeviceId, now: real): map<string, RefreshRow> {
    map id | id in rows :: if rows[id].device == device && rows[id].revokedAt.None? then rows[id].(revokedAt := Some(now)) else rows[id]
  }

  /** It revokes the unrevoked rows of the device and no other. */
  lemma RevokesOneDevice(rows: map<string, RefreshRow>, device: DeviceId, now: real, id: string)
    ensures id in RevokedRows(rows, device, now) <==> id in rows
    ensures id in rows && (rows[id].device != device || rows[id].revokedAt.Some?) ==> RevokedRows(rows, device, now)[id] == rows[id]
    ensures id in rows && rows[id].device == device && rows[id].revokedAt.None? ==>
              RevokedRows(rows, device, now)[id] == rows[id].(revokedAt := Some(now))
  {
  }

  function RevokedDevice(devices: map<DeviceId, Device>, device: DeviceId, now: real): map<DeviceId, Device>
    requires device in devices
  {
    devices[device := devices[device].(revokedAt := Some(now), status := Revoked)]
  }

  lemma ActiveAfterAdmission(devices: map<DeviceId, Device>, user: int, device: DeviceId, u: int)
    requires device !in devices
    ensures ActiveOf(devices[device := Device(user, Active, None)], u) == ActiveOf(devices, u) + (if u == user then {device} else {})
  {
  }

  lemma OneMoreActive(devices: map<DeviceId, Device>, user: int, device: DeviceId)
    requires device !in devices && DevicesValid(devices) && |ActiveOf(devices, user)| < MAX_ACTIVE_DEVICES
    ensures DevicesValid(devices[device := Device(user, Active, None)])
  {
    var after := devices[device := Device(user, Active, None)];
    forall u ensures FewActive(after, u) {
      ActiveAfterAdmission(devices, user, device, u);
      assert FewActive(devices, u);
    }
  }

  lemma LoginKeepsTokens(devices: map<DeviceId, Device>, sessions: Sessions, born: map<Token, real>, rows: map<string, RefreshRow>,
                         roots: map<Token, real>, exchanged: set<Token>, refreshTtl: real, sessionTtl: real,
                         user: int, device: DeviceId, row: string, refresh: Token, access: Token, now: real)
    requires TokensValid(devices, sessions, born, rows, roots, exchanged, refreshTtl, sessionTtl)
    requires device !in devices && row !in rows && refresh !in roots && access !in born && refreshTtl > 0.0
    ensures TokensValid(devices[device := Device(user, Active, None)],
                        sessions[access := Session(SessionData(user, device), now + sessionTtl)], born[access := now],
                        rows[row := RefreshRow(user, device, refresh, now + refreshTtl, None)], roots[refresh := now],
                        exchanged, refreshTtl, sessionTtl)
  {
  }

  lemma RevokeRowKeepsTokens(devices: map<DeviceId, Device>, sessions: Sessions, born: map<Token, real>, rows: map<string, RefreshRow>,
                             roots: map<Token, real>, exchanged: set<Token>, refreshTtl: real, sessionTtl: real,
                             id: string, now: real)
    requires TokensValid(devices, sessions, born, rows, roots, exchanged, refreshTtl, sessionTtl)
    requires id in rows
    ensures TokensValid(devices, sessions, born, rows[id := rows[id].(revokedAt := Some(now))], roots, exchanged, refreshTtl, sessionTtl)
  {
    var after := rows[id := rows[id].(revokedAt := Some(now))];
    forall a, b | a in after && b in after ensures TokensDiffer(after, a, b) {
      assert TokensDiffer(rows, a, b);
    }
  }

  lemma RefreshKeepsTokens(devices: map<DeviceId, Device>, sessions: Sessions, born: map<Token, real>, rows: map<string, RefreshRow>,
                           roots: map<Token, real>, exchanged: set<Token>, refreshTtl: real, sessionTtl: real,
                           id: string, refresh: Token, access: Token, now: real)
    requires TokensValid(devices, sessions, born, rows, roots, exchanged, refreshTtl, sessionTtl)
    requires id in rows && rows[id].expires > now && IsActive(devices, rows[id].device)
    requires refresh !in roots && access !in born
    ensures rows[id].token in roots
    ensures TokensValid(devices, sessions[access := Session(SessionData(rows[id].user, rows[id].device), now + sessionTtl)],
                        born[access := roots[rows[id].token]], rows[id := rows[id].(token := refresh)],
                        roots[refresh := roots[rows[id].token]], exchanged + {rows[id].token}, refreshTtl, sessionTtl)
  {
  }

  lemma ActiveAfterRevocation(devices: map<DeviceId, Device>, device: DeviceId, now: real, u: int)
    requires device in devices
    ensures ActiveOf(RevokedDevice(devices, device, now), u) == ActiveOf(devices, u) - {device}
  {
  }

  lemma RevokingShrinks(devices: map<DeviceId, Device>, device: DeviceId, now: real)
    requires device in devices && DevicesValid(devices)
    ensures DevicesValid(RevokedDevice(devices, device, now))
  {
    var after := RevokedDevice(devices, device, now);
    forall u ensures FewActive(after, u) {
      ActiveAfterRevocation(devices, device, now, u);
      assert FewActive(devices, u);
    }
  }

  lemma RevokingIsLater(devices: map<DeviceId, Device>, rows: map<string, RefreshRow>, device: DeviceId, now: real, after: map<DeviceId, Device>)
    requires device in devices
    requires after == if devices[device].revokedAt.None? then RevokedDevice(devices, device, now) else devices
    ensures Later(devices, after) && after.Keys == devices.Keys
    ensures RevokedRows(rows, device, now).Keys == rows.Keys
  {
  }

  lemma RevokeKeepsTokens(devices: map<DeviceId, Device>, sessions: Sessions, born: map<Token, real>, rows: map<string, RefreshRow>,
                          roots: map<Token, real>, exchanged: set<Token>, refreshTtl: real, sessionTtl: real,
                          device: DeviceId, now: real, after: map<DeviceId, Device>)
    requires TokensValid(devices, sessions, born, rows, roots, exchanged, refreshTtl, sessionTtl)
    requires device in devices && (after == devices || after == RevokedDevice(devices, device, now))
    ensures TokensValid(after, Without(sessions, device), born, RevokedRows(rows, device, now), roots, exchanged, refreshTtl, sessionTtl)
  {
  }

  // ---------------------------------------------------------------------------
  // Every reachable state
  // ---------------------------------------------------------------------------

  /** No access token descended from a login resolves once both lifetimes have passed since that login. */
  lemma FamilyExpires(service: AuthService, token: Token, now: real)
    requires service.Valid()
    requires token in service.born && now >= service.born[token] + service.refreshTtl + service.sessionTtl
    ensures Lookup(service.sessions, token, now) == None
  {
  }

  /** No token of a revoked device is left in the store, and none of its refresh rows can be exchanged. */
  lemma RevokedDeviceHoldsNothing(service: AuthService, device: DeviceId)
    requires service.Valid() && device in service.devices && service.devices[device].revokedAt.Some?
    ensures HoldsNothing(service, device)
  {
  }

  /** An exchanged refresh token matches no row, so it is never accepted again. */
  lemma ExchangedIsSpent(service: AuthService, token: Token)
    requires service.Valid() && token in service.exchanged
    ensures RowWith(service.refreshRows, token) == None
  {
  }

  // ---------------------------------------------------------------------------
  // Runs
  // ---------------------------------------------------------------------------

  /** One request with the random values its handler draws. */
  datatype Request =
    | LoginRequest(user: int, passwordOk: bool, device: DeviceId, row: string, refresh: Token, access: Token, now: real)
    | RefreshRequest(presented: Token, refresh: Token, access: Token, now: real)
    | LogoutRequest(token: Token, refreshToken: Option<Token>, now: real)
    | RevokeRequest(token: Token, device: DeviceId, now: real)

  /** Every device id, row id, refresh token and access token drawn so far. */
  datatype Pool = Pool(devices: set<DeviceId>, rows: set<string>, refresh: set<Token>, access: set<Token>)

  predicate Inside(p: Pool, q: Pool) {
    p.devices <= q.devices && p.rows <= q.rows && p.refresh <= q.refresh && p.access <= q.access
  }

  predicate Fresh(p: Pool, q: Request) {
    match q
    case LoginRequest(_, _, device, row, refresh, access, _) =>
      device !in p.devices && row !in p.rows && refresh !in p.refresh && access !in p.access
    case RefreshRequest(_, refresh, access, _) => refresh !in p.refresh && access !in p.access
    case _ => true
  }

  function Draw(p: Pool, q: Request): Pool {
    match q
    case LoginRequest(_, _, device, row, refresh, access, _) =>
      Pool(p.devices + {device}, p.rows + {row}, p.refresh + {refresh}, p.access + {access})
    case RefreshRequest(_, refresh, access, _) => Pool(p.devices, p.rows, p.refresh + {refresh}, p.access + {access})
    case _ => p
  }

  /** No random value is drawn twice. */
  predicate AllFresh(p: Pool, qs: seq<Request>)
    decreases |qs|
  {
    qs == [] || (Fresh(p, qs[0]) && AllFresh(Draw(p, qs[0]), qs[1..]))
  }

  lemma {:induction false} FewerDrawn(p: Pool, q: Pool, qs: seq<Request>)
    requires Inside(p, q) && AllFresh(q, qs)
    ensures AllFresh(p, qs)
    decreases |qs|
  {
    if qs != [] { FewerDrawn(Draw(p, qs[0]), Draw(q, qs[0]), qs[1..]); }
  }

  ghost function Drawn(service: AuthService): Pool
    reads service
  {
    Pool(service.devices.Keys, service.refreshRows.Keys, service.roots.Keys, service.born.Keys)
  }

  /** The login each token ever handed out descends from: refresh tokens and access tokens. */
  datatype Families = Families(roots: map<Token, real>, born: map<Token, real>)

  /** A login starts a family, a refresh adds its two tokens to the family of the presented one. */
  function FamilyStep(f: Families, q: Request, ok: bool): Families {
    match q
    case LoginRequest(_, _, _, _, refresh, access, now) => if ok then Families(f.roots[refresh := now], f.born[access := now]) else f
    case RefreshRequest(presented, refresh, access, _) =>
      if ok && presented in f.roots
      then Families(f.roots[refresh := f.roots[presented]], f.born[access := f.roots[presented]])
      else f
    case _ => f
  }

  /** The refresh rows after one request that was or was not served. */
  function RowStep(rows: map<string, RefreshRow>, refreshTtl: real, q: Request, ok: bool): map<string, RefreshRow>
    requires UniqueTokens(rows)
  {
    match q
    case LoginRequest(user, _, device, row, refresh, _, now) =>
      if ok then rows[row := RefreshRow(user, device, refresh, now + refreshTtl, None)] else rows
    case RefreshRequest(presented, refresh, _, now) =>
      if ok then ExchangedRows(rows, presented, refresh) else RefusedRows(rows, presented, now)
    case LogoutRequest(_, refreshToken, now) => LoggedOutRows(rows, refreshToken, now)
    case RevokeRequest(_, device, now) => if ok then RevokedRows(rows, device, now) else rows
  }

  /** The presented token stands in an unrevoked row, and the new one is another. */
  predicate Takes(rows: map<string, RefreshRow>, q: Request)
    requires UniqueTokens(rows) && q.RefreshRequest?
  {
    var id := RowWith(rows, q.presented);
    id.Some? && rows[id.value].revokedAt.None? && q.refresh != q.presented
  }

  /** No unrevoked row holds the token. */
  ghost predicate Dead(rows: map<string, RefreshRow>, token: Token) {
    forall id :: id in rows && rows[id].token == token ==> rows[id].revokedAt.Some?
  }

  predicate Draws(q: Request, token: Token) {
    (q.LoginRequest? || q.RefreshRequest?) && q.refresh == token
  }

  /** A served refresh presented the token, or a logout named it. */
  predicate Spends(q: Request, ok: bool, token: Token) {
    ok && ((q.RefreshRequest? && q.presented == token) || (q.LogoutRequest? && q.refreshToken == Some(token)))
  }

  /** A dead token stays dead unless it is drawn again, and a spent one is dead. */
  lemma DeadStays(rows: map<string, RefreshRow>, refreshTtl: real, q: Request, ok: bool, token: Token)
    requires UniqueTokens(rows) && (q.RefreshRequest? && ok ==> Takes(rows, q))
    requires (Dead(rows, token) && !Draws(q, token)) || Spends(q, ok, token)
    ensures Dead(RowStep(rows, refreshTtl, q, ok), token)
  {
    OneRow(rows, token);
  }

  /** Presenting a dead token is not served. */
  lemma DeadIsRefused(rows: map<string, RefreshRow>, q: Request)
    requires UniqueTokens(rows) && q.RefreshRequest? && Dead(rows, q.presented)
    ensures !Takes(rows, q)
  {
  }

  /** Every token spent in the run, and not drawn again since, is dead. */
  ghost predicate SpentAreDead(qs: seq<Request>, oks: seq<bool>, rows: map<string, RefreshRow>)
    requires |oks| <= |qs|
  {
    forall k, token :: 0 <= k < |oks| && Spends(qs[k], oks[k], token) && Undrawn(qs, k, |oks|, token) ==> Dead(rows, token)
  }

  predicate Undrawn(qs: seq<Request>, k: nat, j: nat, token: Token)
    requires k < j <= |qs|
  {
    forall m :: k < m < j ==> !Draws(qs[m], token)
  }

  /** A refresh token that was exchanged or logged out is never accepted later in the run, short of being drawn again. */
  ghost predicate NeverAgain(qs: seq<Request>, oks: seq<bool>)
    requires |oks| <= |qs|
  {
    forall k, j :: 0 <= k < j < |oks| && qs[j].RefreshRequest? && Spends(qs[k], oks[k], qs[j].presented) && Undrawn(qs, k, j, qs[j].presented) ==> !oks[j]
  }

  lemma OneMoreSpent(qs: seq<Request>, oks: seq<bool>, ok: bool, rows: map<string, RefreshRow>, refreshTtl: real)
    requires |oks| < |qs| && UniqueTokens(rows) && SpentAreDead(qs, oks, rows) && NeverAgain(qs, oks)
    requires qs[|oks|].RefreshRequest? && ok ==> Takes(rows, qs[|oks|])
    ensures SpentAreDead(qs, oks + [ok], RowStep(rows, refreshTtl, qs[|oks|], ok)) && NeverAgain(qs, oks + [ok])
  {
    var n, q := |oks|, qs[|oks|];
    forall k, token | 0 <= k <= n && Spends(qs[k], (oks + [ok])[k], token) && Undrawn(qs, k, n + 1, token)
      ensures Dead(RowStep(rows, refreshTtl, q, ok), token)
    {
      if k < n {
        assert Spends(qs[k], oks[k], token) && Undrawn(qs, k, n, token);
        assert !Draws(qs[n], token);
      }
      DeadStays(rows, refreshTtl, q, ok, token);
    }
    if q.RefreshRequest? && ok {
      forall k | 0 <= k < n && Spends(qs[k], oks[k], q.presented) && Undrawn(qs, k, n, q.presented) ensures false {
        DeadIsRefused(rows, q);
      }
    }
  }

  /** Every token with the login it descends from, read off the served requests. */
  function FamiliesAfter(f: Families, qs: seq<Request>, oks: seq<bool>): Families
    requires |qs| == |oks|
  {
    if qs == [] then f
    else var n := |qs| - 1; FamilyStep(FamiliesAfter(f, qs[..n], oks[..n]), qs[n], oks[n])
  }

  lemma OneMoreServed(f: Families, qs: seq<Request>, i: nat, oks: seq<bool>, ok: bool)
    requires i < |qs| && |oks| == i
    ensures FamiliesAfter(f, qs[..i + 1], oks + [ok]) == FamilyStep(FamiliesAfter(f, qs[..i], oks), qs[i], ok)
  {
    assert qs[..i + 1][..i] == qs[..i] && (oks + [ok])[..i] == oks;
  }

  /** The devices the served requests revoked are revoked. */
  ghost predicate RevokedBy(qs: seq<Request>, oks: seq<bool>, devices: map<DeviceId, Device>)
    requires |oks| <= |qs|
  {
    forall i :: 0 <= i < |oks| && qs[i].RevokeRequest? && oks[i] ==> qs[i].device in devices && devices[qs[i].device].revokedAt.Some?
  }

  lemma StayRevoked(qs: seq<Request>, oks: seq<bool>, ok: bool, before: map<DeviceId, Device>, after: map<DeviceId, Device>)
    requires |oks| < |qs| && RevokedBy(qs, oks, before) && Later(before, after)
    requires var q := qs[|oks|]; q.RevokeRequest? && ok ==> q.device in after && after[q.device].revokedAt.Some?
    ensures RevokedBy(qs, oks + [ok], after)
  {
    forall i | 0 <= i < |oks| && qs[i].RevokeRequest? && oks[i] ensures qs[i].device in after && after[qs[i].device].revokedAt.Some? {
      assert qs[i].device in before && before[qs[i].device].revokedAt.Some?;
    }
  }

  /** What the served requests revoked or spent is revoked or dead, and no spent token was accepted again. */
  ghost predicate Remembered(qs: seq<Request>, oks: seq<bool>, devices: map<DeviceId, Device>, rows: map<string, RefreshRow>)
    requires |oks| <= |qs|
  {
    RevokedBy(qs, oks, devices) && SpentAreDead(qs, oks, rows) && NeverAgain(qs, oks)
  }

  lemma StillRemembered(qs: seq<Request>, oks: seq<bool>, ok: bool, before: map<DeviceId, Device>, after: map<DeviceId, Device>,
                        rows: map<string, RefreshRow>, refreshTtl: real)
    requires |oks| < |qs| && UniqueTokens(rows) && Remembered(qs, oks, before, rows) && Later(before, after)
    requires var q := qs[|oks|];
             && (q.RevokeRequest? && ok ==> q.device in after && after[q.device].revokedAt.Some?)
             && (q.RefreshRequest? && ok ==> Takes(rows, q))
    ensures Remembered(qs, oks + [ok], after, RowStep(rows, refreshTtl, qs[|oks|], ok))
  {
    StayRevoked(qs, oks, ok, before, after);
    OneMoreSpent(qs, oks, ok, rows, refreshTtl);
  }

  /** What serving one request does, whichever it is. */
  twostate predicate Served(service: AuthService, q: Request, ok: bool)
    requires old(service.Valid())
    reads service
  {
    && service.Valid() && Later(old(service.devices), service.devices)
    && Inside(Drawn(service), Draw(old(Drawn(service)), q))
    && Families(service.roots, service.born) == FamilyStep(old(Families(service.roots, service.born)), q, ok)
    && (q.RevokeRequest? && ok ==> q.device in service.devices && service.devices[q.device].revokedAt.Some?)
    && service.refreshRows == RowStep(old(service.refreshRows), service.refreshTtl, q, ok)
    && (q.RefreshRequest? && ok ==> Takes(old(service.refreshRows), q))
  }

  method ServeLogin(service: AuthService, q: Request) returns (ok: bool)
    requires service.Valid() && Fresh(Drawn(service), q) && q.LoginRequest?
    modifies service
    ensures Served(service, q, ok)
  {
    var r := service.Login(q.user, q.passwordOk, q.device, q.row, q.refresh, q.access, q.now);
    ok := r.Success?;
  }

  method ServeRefresh(service: AuthService, q: Request) returns (ok: bool)
    requires service.Valid() && Fresh(Drawn(service), q) && q.RefreshRequest?
    modifies service
    ensures Served(service, q, ok)
  {
    var r := service.Refresh(q.presented, q.refresh, q.access, q.now);
    ok := r.Success?;
  }

  method ServeLogout(service: AuthService, q: Request) returns (ok: bool)
    requires service.Valid() && Fresh(Drawn(service), q) && q.LogoutRequest?
    modifies service
    ensures Served(service, q, ok)
  {
    service.Logout(q.token, q.refreshToken, q.now);
    ok := true;
  }

  method ServeRevoke(service: AuthService, q: Request) returns (ok: bool)
    requires service.Valid() && Fresh(Drawn(service), q) && q.RevokeRequest?
    modifies service
    ensures Served(service, q, ok)
  {
    ghost var before, rows := service.devices, service.refreshRows;
    var r := service.RevokeDevice(q.token, q.device, q.now);
    if r.Failure? { return false; }
    RevokingIsLater(before, rows, q.device, q.now, service.devices);
    ok := true;
  }

  method Serve(service: AuthService, q: Request) returns (ok: bool)
    requires service.Valid() && Fresh(Drawn(service), q)
    modifies service
    ensures Served(service, q, ok)
  {
    match q
    case LoginRequest(_, _, _, _, _, _, _) => ok := ServeLogin(service, q);
    case RefreshRequest(_, _, _, _) => ok := ServeRefresh(service, q);
    case LogoutRequest(_, _, _) => ok := ServeLogout(service, q);
    case RevokeRequest(_, _, _) => ok := ServeRevoke(service, q);
  }

  lemma NextFresh(pool: Pool, qs: seq<Request>, i: nat)
    requires i < |qs| && AllFresh(pool, qs[i..])
    ensures Fresh(pool, qs[i]) && AllFresh(Draw(pool, qs[i]), qs[i + 1..])
  {
    assert qs[i..][0] == qs[i] && qs[i..][1..] == qs[i + 1..];
  }

  /**
    Over any run of requests: every token's family is the one its login
    started, no access token outlives that login by more than the two
    lifetimes, no user has more than five active devices, a device revoked
    before or during the run holds nothing at its end, and a refresh token that
    was exchanged or logged out is not accepted again.
   */
  method ServeAll(service: AuthService, requests: seq<Request>) returns (oks: seq<bool>)
    requires service.Valid() && AllFresh(Drawn(service), requests)
    modifies service
    ensures service.Valid() && Later(old(service.devices), service.devices) && |oks| == |requests|
    ensures Families(service.roots, service.born) == FamiliesAfter(old(Families(service.roots, service.born)), requests, oks)
    ensures forall t, now :: t in service.born && now >= service.born[t] + service.refreshTtl + service.sessionTtl
              ==> Lookup(service.sessions, t, now) == None
    ensures forall u :: FewActive(service.devices, u)
    ensures RevokedBy(requests, oks, service.devices) && NeverAgain(requests, oks)
    ensures forall d :: d in service.devices && service.devices[d].revokedAt.Some? ==> HoldsNothing(service, d)
  {
    oks := [];
    for i := 0 to |requests|
      invariant service.Valid() && AllFresh(Drawn(service), requests[i..]) && |oks| == i
      invariant Later(old(service.devices), service.devices)
      invariant Families(service.roots, service.born) == FamiliesAfter(old(Families(service.roots, service.born)), requests[..i], oks)
      invariant Remembered(requests, oks, service.devices, service.refreshRows)
    {
      NextFresh(Drawn(service), requests, i);
      ghost var pool, before, rows := Draw(Drawn(service), requests[i]), service.devices, service.refreshRows;
      var ok := Serve(service, requests[i]);
      FewerDrawn(Drawn(service), pool, requests[i + 1..]);
      OneMoreServed(old(Families(service.roots, service.born)), requests, i, oks, ok);
      StillRemembered(requests, oks, ok, before, service.devices, rows, service.refreshTtl);
      oks := oks + [ok];
    }
    assert requests[..|requests|] == requests;
    EveryTokenEnds(service);
  }

  lemma EveryTokenEnds(service: AuthService)
    requires service.Valid()
    ensures forall t, now :: t in service.born && now >= service.born[t] + service.refreshTtl + service.sessionTtl
              ==> Lookup(service.sessions, t, now) == None
    ensures forall u :: FewActive(service.devices, u)
    ensures forall d :: d in service.devices && service.devices[d].revokedAt.Some? ==> HoldsNothing(service, d)
  {
    forall d | d in service.devices && service.devices[d].revokedAt.Some? ensures HoldsNothing(service, d) {
      RevokedDeviceHoldsNothing(service, d);
    }
    forall t, now | t in service.born && now >= service.born[t] + service.refreshTtl + service.sessionTtl
      ensures Lookup(service.sessions, t, now) == None
    {
      FamilyExpires(service, t, now);
    }
  }

  /** No live access token and no exchangeable refresh row. */
  ghost predicate HoldsNothing(service: AuthService, d: DeviceId)
    reads service
  {
    && (forall t, now :: Lookup(service.sessions, t, now) != None ==> Lookup(service.sessions, t, now).value.deviceId != d)
    && (forall id :: id in service.refreshRows && service.refreshRows[id].device == d ==> service.refreshRows[id].revokedAt.Some?)
  }
}
