/**
  The safety code: when the identity directory and the group tree are found to
  agree, what text their devices are hashed under, and how the digest is shown.
 */
module SafetyCode {
  import opened Common
  import opened Sorting
  import Base64

  type Bytes = Base64.Bytes

  /** An identity of the directory; an absent field is the empty string. */
  datatype Identity = Identity(login: string, deviceId: string, identityKey: string, claimed: string)

  /** A credential of the group tree. */
  datatype Credential = Credential(deviceId: string, identityKey: string, fingerprint: string)

  /** A verified device, as it goes into the code. */
  datatype Device = Device(login: string, deviceId: string, fingerprint: string)

  datatype Code = Code(display: string, digest: string, identities: seq<Device>)

  datatype SafetyError = MissingCredentials | SetsDiffer | InvalidIdentity | Unverified

  /** What the browser provides: `localeCompare`, `toLowerCase`, SHA-256 and UTF-8. */
  datatype Host = Host(collate: Compare<string>, lower: string -> string, sha256: Bytes -> Bytes, utf8: string -> Bytes)

  // ---------------------------------------------------------------------------
  // Rendering
  // ---------------------------------------------------------------------------

  function HexDigit(n: nat): char
    requires n < 16
  {
    if n < 10 then '0' + n as char else 'a' + (n - 10) as char
  }

  function Hex(bytes: Bytes): string {
    if bytes == [] then "" else [HexDigit(bytes[0] / 16), HexDigit(bytes[0] % 16)] + Hex(bytes[1..])
  }

  function Decimal(n: nat): char
    requires n < 10
  {
    '0' + n as char
  }

  /** A byte in decimal, padded to three digits. */
  function Padded(b: Base64.Byte): string {
    [Decimal(b / 100), Decimal(b / 10 % 10), Decimal(b % 10)]
  }

  function Digits(bytes: Bytes): (r: string)
    ensures |r| == 3 * |bytes|
  {
    if bytes == [] then "" else Padded(bytes[0]) + Digits(bytes[1..])
  }

  function Chunks(s: string): seq<string> {
    if |s| <= 5 then [s] else [s[..5]] + Chunks(s[5..])
  }

  function JoinWith(separator: char, parts: seq<string>): string {
    if parts == [] then ""
    else if |parts| == 1 then parts[0]
    else parts[0] + [separator] + JoinWith(separator, parts[1..])
  }

  /** The first sixty digits in groups of five. */
  function Display(digest: Bytes): string {
    var digits := Digits(digest);
    JoinWith(' ', Chunks(if |digits| <= 60 then digits else digits[..60]))
  }

  lemma {:induction false} HexInjective(a: Bytes, b: Bytes)
    requires Hex(a) == Hex(b)
    ensures a == b
  {
    HexLength(a);
    HexLength(b);
    if a != [] {
      assert Hex(a)[0] == Hex(b)[0] && Hex(a)[1] == Hex(b)[1];
      assert Hex(a)[2..] == Hex(a[1..]) && Hex(b)[2..] == Hex(b[1..]);
      HexInjective(a[1..], b[1..]);
      assert a == [a[0]] + a[1..] && b == [b[0]] + b[1..];
    }
  }

  lemma {:induction false} HexLength(bytes: Bytes)
    ensures |Hex(bytes)| == 2 * |bytes|
    ensures forall i :: 0 <= i < |Hex(bytes)| ==> Hex(bytes)[i] != '\n' && Hex(bytes)[i] != ':'
  {
    if bytes != [] { HexLength(bytes[1..]); }
  }

  lemma {:induction false} DigitsPrefix(bytes: Bytes, n: nat)
    requires n <= |bytes|
    ensures Digits(bytes)[..3 * n] == Digits(bytes[..n])
  {
    if n != 0 {
      DigitsPrefix(bytes[1..], n - 1);
      assert bytes[..n][1..] == bytes[1..][..n - 1];
      assert Digits(bytes)[..3 * n] == Padded(bytes[0]) + Digits(bytes[1..])[..3 * n - 3];
    }
  }

  lemma Decimals(b: Base64.Byte)
    ensures b == b / 100 * 100 + b / 10 % 10 * 10 + b % 10
  {
  }

  lemma PaddedInjective(a: Base64.Byte, b: Base64.Byte)
    requires Padded(a) == Padded(b)
    ensures a == b
  {
    assert Padded(a)[0] == Padded(b)[0] && Padded(a)[1] == Padded(b)[1] && Padded(a)[2] == Padded(b)[2];
    assert a / 100 == b / 100 && a / 10 % 10 == b / 10 % 10 && a % 10 == b % 10;
    Decimals(a);
    Decimals(b);
  }

  lemma {:induction false} DigitsInjective(a: Bytes, b: Bytes)
    requires Digits(a) == Digits(b)
    ensures a == b
  {
    if a != [] {
      assert Digits(a)[..3] == Padded(a[0]) && Digits(b)[..3] == Padded(b[0]);
      PaddedInjective(a[0], b[0]);
      assert Digits(a)[3..] == Digits(a[1..]) && Digits(b)[3..] == Digits(b[1..]);
      DigitsInjective(a[1..], b[1..]);
      assert a == [a[0]] + a[1..] && b == [b[0]] + b[1..];
    }
  }

  predicate AllDigits(s: string) {
    forall i :: 0 <= i < |s| ==> '0' <= s[i] <= '9'
  }

  /** n groups of five digits, separated by single spaces. */
  predicate Groups(text: string, n: nat) {
    if n == 0 then text == ""
    else |text| >= 5 && AllDigits(text[..5]) &&
         if n == 1 then |text| == 5 else |text| > 5 && text[5] == ' ' && Groups(text[6..], n - 1)
  }

  lemma JoinedChunks(s: string)
    requires |s| > 5
    ensures JoinWith(' ', Chunks(s)) == s[..5] + [' '] + JoinWith(' ', Chunks(s[5..]))
  {
    assert Chunks(s)[1..] == Chunks(s[5..]);
    assert Chunks(s[5..]) != [];
  }

  lemma {:induction false} GroupsOfFive(s: string, n: nat)
    requires n >= 1 && |s| == 5 * n && AllDigits(s)
    ensures Groups(JoinWith(' ', Chunks(s)), n)
  {
    if n == 1 {
      assert Chunks(s) == [s];
    } else {
      var joined, tail := JoinWith(' ', Chunks(s)), JoinWith(' ', Chunks(s[5..]));
      JoinedChunks(s);
      GroupsOfFive(s[5..], n - 1);
      assert joined[..5] == s[..5] && joined[6..] == tail;
    }
  }

  /** Grouping loses nothing. */
  lemma {:induction false} ChunksInjective(s: string, t: string, n: nat)
    requires n >= 1 && |s| == 5 * n && |t| == 5 * n
    requires JoinWith(' ', Chunks(s)) == JoinWith(' ', Chunks(t))
    ensures s == t
  {
    if n == 1 {
      assert Chunks(s) == [s] && Chunks(t) == [t];
    } else {
      JoinedChunks(s);
      JoinedChunks(t);
      var joined := JoinWith(' ', Chunks(s));
      assert joined[..5] == s[..5] && joined[..5] == t[..5];
      assert joined[6..] == JoinWith(' ', Chunks(s[5..])) && joined[6..] == JoinWith(' ', Chunks(t[5..]));
      ChunksInjective(s[5..], t[5..], n - 1);
      assert s == s[..5] + s[5..] && t == t[..5] + t[5..];
    }
  }

  lemma {:induction false} AreDigits(bytes: Bytes)
    ensures AllDigits(Digits(bytes))
  {
    if bytes != [] { AreDigits(bytes[1..]); }
  }

  lemma FirstSixty(digest: Bytes)
    requires |digest| >= 20
    ensures Display(digest) == JoinWith(' ', Chunks(Digits(digest[..20])))
  {
    DigitsPrefix(digest, 20);
    if |Digits(digest)| <= 60 { assert Digits(digest)[..60] == Digits(digest); }
  }

  /** The display is twelve groups of five digits. */
  lemma TwelveGroups(digest: Bytes)
    requires |digest| >= 20
    ensures Groups(Display(digest), 12)
  {
    FirstSixty(digest);
    AreDigits(digest[..20]);
    GroupsOfFive(Digits(digest[..20]), 12);
  }

  /** Two digests are displayed alike exactly when their first twenty bytes agree. */
  lemma DisplayedAlikeExactly(a: Bytes, b: Bytes)
    requires |a| >= 20 && |b| >= 20
    ensures Display(a) == Display(b) <==> a[..20] == b[..20]
  {
    FirstSixty(a);
    FirstSixty(b);
    if Display(a) == Display(b) {
      ChunksInjective(Digits(a[..20]), Digits(b[..20]), 12);
      DigitsInjective(a[..20], b[..20]);
    }
  }

  // ---------------------------------------------------------------------------
  // The comparison of directory and tree
  // ---------------------------------------------------------------------------

  /** The lower-case hexadecimal SHA-256 of the decoded key, if it decodes. */
  function Fingerprint(host: Host, identityKey: string): Option<string> {
    if identityKey == "" then None
    else
      var bytes := Base64.Decode(identityKey);
      if bytes.None? then None else Some(Hex(host.sha256(bytes.value)))
  }

  /** The credential proves the identity: one key on both sides, and both claim its fingerprint. */
  predicate Proves(host: Host, c: Credential, i: Identity) {
    && c.deviceId == i.deviceId && c.identityKey == i.identityKey
    && Fingerprint(host, i.identityKey) == Some(host.lower(i.claimed))
    && Fingerprint(host, i.identityKey) == Some(host.lower(c.fingerprint))
  }

  predicate Named(i: Identity) {
    i.login != "" && i.deviceId != ""
  }

  predicate DistinctIdentities(ids: seq<Identity>) {
    forall i, j :: 0 <= i < j < |ids| ==> ids[i].deviceId != ids[j].deviceId
  }

  predicate DistinctCredentials(cs: seq<Credential>) {
    forall i, j :: 0 <= i < j < |cs| ==> cs[i].deviceId != cs[j].deviceId
  }

  /** The device ids of a list of identities. */
  function Ids(ids: seq<Identity>): set<string> {
    if ids == [] then {} else Ids(ids[..|ids| - 1]) + {ids[|ids| - 1].deviceId}
  }

  /** The tree has a credential that proves the identity. */
  predicate Known(host: Host, cs: seq<Credential>, i: Identity) {
    exists c :: c in cs && Proves(host, c, i)
  }

  /** Directory and tree hold the same devices, at least two, each named and proved. */
  predicate Agree(host: Host, ids: seq<Identity>, cs: seq<Credential>) {
    && |ids| >= 2
    && DistinctIdentities(ids) && DistinctCredentials(cs)
    && (forall i :: i in ids ==> Named(i) && Known(host, cs, i))
    && (forall c :: c in cs ==> c.deviceId in Ids(ids))
  }

  function SortKey(i: Identity): string {
    i.login + ":" + i.deviceId
  }

  function ByKey(host: Host): Compare<Identity> {
    (a, b) => host.collate(SortKey(a), SortKey(b))
  }

  function Flat(sets: seq<seq<Identity>>): seq<Identity> {
    if sets == [] then [] else sets[0] + Flat(sets[1..])
  }

  /** An identity's device with its derived fingerprint. */
  function DeviceOf(host: Host, i: Identity): Device {
    var derived := Fingerprint(host, i.identityKey);
    Device(i.login, i.deviceId, if derived.Some? then derived.value else "")
  }

  function Devices(host: Host, ids: seq<Identity>): (ds: seq<Device>)
    ensures |ds| == |ids|
  {
    seq(|ids|, k requires 0 <= k < |ids| => DeviceOf(host, ids[k]))
  }

  const PREFIX := "secure-messenger-safety-v1\n"

  function Line(host: Host, d: Device): string {
    d.login + ":" + d.deviceId + ":" + host.lower(d.fingerprint)
  }

  function Lines(host: Host, ds: seq<Device>): (lines: seq<string>)
    ensures |lines| == |ds|
  {
    seq(|ds|, k requires 0 <= k < |ds| => Line(host, ds[k]))
  }

  /** The text that is hashed. */
  function Text(host: Host, ds: seq<Device>): string {
    PREFIX + JoinWith('\n', Lines(host, ds))
  }

  function CodeOf(host: Host, ds: seq<Device>): Code {
    var digest := host.sha256(host.utf8(Text(host, ds)));
    Code(Display(digest), Hex(digest), ds)
  }

  /** What agreeing directories and trees yield. */
  function CodeFor(host: Host, ids: seq<Identity>, cs: seq<Credential>): Code
    requires Agree(host, ids, cs)
  {
    SortKeeps(host, ids);
    CodeOf(host, Devices(host, Sort(ByKey(host), ids)))
  }

  lemma SortKeeps(host: Host, ids: seq<Identity>)
    ensures multiset(Sort(ByKey(host), ids)) == multiset(ids) && |Sort(ByKey(host), ids)| == |ids|
    ensures forall i :: i in Sort(ByKey(host), ids) <==> i in ids
  {
    SortHas(ByKey(host), ids);
    SortMembers(ByKey(host), ids);
  }

  /** `new Map`: the last credential of every device. */
  function ToMap(cs: seq<Credential>): map<string, Credential> {
    if cs == [] then map[] else ToMap(cs[..|cs| - 1])[cs[|cs| - 1].deviceId := cs[|cs| - 1]]
  }

  lemma {:induction false} MapHas(cs: seq<Credential>, id: string)
    ensures id in ToMap(cs) ==> ToMap(cs)[id] in cs && ToMap(cs)[id].deviceId == id
    ensures id !in ToMap(cs) ==> forall c :: c in cs ==> c.deviceId != id
  {
    if cs != [] {
      MapHas(cs[..|cs| - 1], id);
      assert cs == cs[..|cs| - 1] + [cs[|cs| - 1]];
    }
  }

  /** The map is as large as the list exactly when no device has two credentials. */
  lemma {:induction false} MapSize(cs: seq<Credential>)
    ensures |ToMap(cs)| <= |cs|
    ensures |ToMap(cs)| == |cs| <==> DistinctCredentials(cs)
  {
    if cs != [] {
      var n := |cs| - 1;
      MapSize(cs[..n]);
      MapHas(cs[..n], cs[n].deviceId);
      OneMoreDistinct(cs, n);
    }
  }

  lemma OneMoreDistinct(cs: seq<Credential>, n: nat)
    requires n + 1 == |cs|
    ensures DistinctCredentials(cs) <==> DistinctCredentials(cs[..n]) && forall c :: c in cs[..n] ==> c.deviceId != cs[n].deviceId
  {
    if DistinctCredentials(cs) {
      forall c | c in cs[..n] ensures c.deviceId != cs[n].deviceId {
        var k :| 0 <= k < n && cs[k] == c;
      }
    }
    if forall c :: c in cs[..n] ==> c.deviceId != cs[n].deviceId {
      forall k | 0 <= k < n ensures cs[k].deviceId != cs[n].deviceId { assert cs[k] in cs[..n]; }
    }
  }

  lemma {:induction false} IdIn(ids: seq<Identity>, id: string)
    ensures id in Ids(ids) <==> exists i :: i in ids && i.deviceId == id
  {
    if ids != [] {
      var n := |ids| - 1;
      IdIn(ids[..n], id);
      assert ids == ids[..n] + [ids[n]];
      assert ids[n] in ids;
    }
  }

  lemma IdsAre(ids: seq<Identity>)
    ensures forall id :: id in Ids(ids) <==> exists i :: i in ids && i.deviceId == id
  {
    forall id ensures id in Ids(ids) <==> exists i :: i in ids && i.deviceId == id { IdIn(ids, id); }
  }

  lemma {:induction false} IdsSize(ids: seq<Identity>)
    requires DistinctIdentities(ids)
    ensures |Ids(ids)| == |ids|
  {
    if ids != [] {
      var n := |ids| - 1;
      IdsSize(ids[..n]);
      IdIn(ids[..n], ids[n].deviceId);
    }
  }

  lemma SubsetOfSameSize(a: set<string>, b: set<string>)
    requires a <= b && |b| <= |a|
    ensures a == b
  {
    assert b == a + (b - a);
    assert |b| == |a| + |b - a|;
  }

  /** Every identity proved and as many credentials as identities: then every credential has its identity. */
  lemma NoCredentialLeftOver(host: Host, ids: seq<Identity>, cs: seq<Credential>)
    requires DistinctIdentities(ids) && DistinctCredentials(cs) && |ids| == |cs|
    requires forall i :: i in ids ==> Known(host, cs, i)
    ensures forall c :: c in cs ==> c.deviceId in Ids(ids)
  {
    MapSize(cs);
    IdsSize(ids);
    forall id | id in Ids(ids) ensures id in ToMap(cs) {
      IdIn(ids, id);
      var i :| i in ids && i.deviceId == id;
      var c :| c in cs && Proves(host, c, i);
      MapHas(cs, id);
    }
    SubsetOfSameSize(Ids(ids), ToMap(cs).Keys);
    forall c | c in cs ensures c.deviceId in Ids(ids) { MapHas(cs, c.deviceId); }
  }

  /** Where directory and tree agree, every credential proves an identity too. */
  lemma AgreeBothWays(host: Host, ids: seq<Identity>, cs: seq<Credential>, c: Credential)
    requires Agree(host, ids, cs) && c in cs
    ensures exists i :: i in ids && Proves(host, c, i)
  {
    IdIn(ids, c.deviceId);
    var i :| i in ids && i.deviceId == c.deviceId;
    var d :| d in cs && Proves(host, d, i);
    SameCredential(cs, c, d);
  }

  lemma SameCredential(cs: seq<Credential>, c: Credential, d: Credential)
    requires DistinctCredentials(cs) && c in cs && d in cs && c.deviceId == d.deviceId
    ensures c == d
  {
  }

  lemma AgreeAt(host: Host, ids: seq<Identity>, cs: seq<Credential>, id: string)
    requires Agree(host, ids, cs)
    ensures id in Ids(ids) <==> id in ToMap(cs)
  {
    MapHas(cs, id);
    if id in Ids(ids) {
      IdIn(ids, id);
      var i :| i in ids && i.deviceId == id;
      var c :| c in cs && Proves(host, c, i);
    }
  }

  /** Agreement fixes the sizes the source compares. */
  lemma AgreeSizes(host: Host, ids: seq<Identity>, cs: seq<Credential>)
    requires Agree(host, ids, cs)
    ensures |ToMap(cs)| == |cs| == |ids|
  {
    MapSize(cs);
    IdsSize(ids);
    forall id ensures id in Ids(ids) <==> id in ToMap(cs) { AgreeAt(host, ids, cs, id); }
    assert Ids(ids) == ToMap(cs).Keys;
  }

  /** With one credential a device, knowing an identity is a lookup in the map. */
  lemma KnownIs(host: Host, cs: seq<Credential>, i: Identity)
    requires DistinctCredentials(cs)
    ensures Known(host, cs, i) <==> i.deviceId in ToMap(cs) && Proves(host, ToMap(cs)[i.deviceId], i)
  {
    MapHas(cs, i.deviceId);
    if Known(host, cs, i) {
      var c :| c in cs && Proves(host, c, i);
      SameCredential(cs, c, ToMap(cs)[i.deviceId]);
    }
  }

  lemma DistinctRearranged(s: seq<Identity>, t: seq<Identity>)
    requires DistinctIdentities(s) && multiset(s) == multiset(t)
    ensures DistinctIdentities(t)
  {
    RepeatsRearranged(s, t);
    forall k, l | 0 <= k < l < |t| ensures t[k].deviceId != t[l].deviceId {
      assert t[k] in s && t[l] in s;
    }
  }

  lemma IdsRearranged(s: seq<Identity>, t: seq<Identity>)
    requires multiset(s) == multiset(t)
    ensures Ids(s) == Ids(t)
  {
    IdsAre(s);
    IdsAre(t);
    forall i ensures i in s <==> i in t { assert i in multiset(s) <==> i in multiset(t); }
  }

  /** Whether directory and tree agree does not depend on the order of the directory. */
  lemma AgreeRearranged(host: Host, ids: seq<Identity>, others: seq<Identity>, cs: seq<Credential>)
    requires multiset(ids) == multiset(others) && Agree(host, ids, cs)
    ensures Agree(host, others, cs)
  {
    DistinctRearranged(ids, others);
    IdsRearranged(ids, others);
    assert |others| == |multiset(others)| == |multiset(ids)| == |ids|;
    forall i | i in others ensures Named(i) && Known(host, cs, i) { assert i in multiset(others); }
  }

  /** What the matching loop establishes. */
  predicate Verified(host: Host, ids: seq<Identity>, cs: seq<Credential>) {
    DistinctIdentities(ids) && forall i :: i in ids ==> Named(i) && Known(host, cs, i)
  }

  lemma OneMoreIdentity(ids: seq<Identity>, i: Identity)
    ensures DistinctIdentities(ids + [i]) <==> DistinctIdentities(ids) && i.deviceId !in Ids(ids)
  {
    var more := ids + [i];
    IdIn(ids, i.deviceId);
    assert more[|ids|] == i && forall k :: 0 <= k < |ids| ==> more[k] == ids[k];
    if DistinctIdentities(more) {
      assert forall k, l :: 0 <= k < l < |ids| ==> more[k].deviceId != more[l].deviceId;
      forall j | j in ids ensures j.deviceId != i.deviceId {
        var k :| 0 <= k < |ids| && ids[k] == j;
        assert more[k].deviceId != more[|ids|].deviceId;
      }
    }
    if i.deviceId !in Ids(ids) {
      forall k | 0 <= k < |ids| ensures ids[k].deviceId != i.deviceId { assert ids[k] in ids; }
    }
  }

  lemma OneMoreVerified(host: Host, ids: seq<Identity>, cs: seq<Credential>, i: Identity)
    ensures Verified(host, ids + [i], cs)
       <==> Verified(host, ids, cs) && i.deviceId !in Ids(ids) && Named(i) && Known(host, cs, i)
  {
    OneMoreIdentity(ids, i);
    assert forall j :: j in ids + [i] <==> j in ids || j == i;
  }

  lemma VerifiedPrefix(host: Host, ids: seq<Identity>, cs: seq<Credential>, n: nat)
    requires n <= |ids| && Verified(host, ids, cs)
    ensures Verified(host, ids[..n], cs)
  {
    assert forall i :: i in ids[..n] ==> i in ids;
  }

  /** The checks the loop makes on one identity against its credential. */
  predicate Passes(host: Host, credentials: map<string, Credential>, i: Identity) {
    var derived := Fingerprint(host, i.identityKey);
    && derived.Some? && i.deviceId in credentials
    && derived.value == host.lower(i.claimed)
    && i.identityKey == credentials[i.deviceId].identityKey
    && derived.value == host.lower(credentials[i.deviceId].fingerprint)
  }

  lemma PassesIsKnown(host: Host, cs: seq<Credential>, i: Identity)
    requires DistinctCredentials(cs)
    ensures Passes(host, ToMap(cs), i) <==> Known(host, cs, i)
  {
    KnownIs(host, cs, i);
    MapHas(cs, i.deviceId);
  }

  /** One turn of the matching loop. */
  lemma NextVerified(host: Host, ids: seq<Identity>, cs: seq<Credential>, k: nat)
    requires k < |ids| && DistinctCredentials(cs) && Verified(host, ids[..k], cs)
    ensures var i := ids[k];
            && (Verified(host, ids[..k + 1], cs) <==> i.deviceId !in Ids(ids[..k]) && Named(i) && Passes(host, ToMap(cs), i))
            && Ids(ids[..k + 1]) == Ids(ids[..k]) + {i.deviceId}
            && Devices(host, ids[..k + 1]) == Devices(host, ids[..k]) + [DeviceOf(host, i)]
    ensures Verified(host, ids, cs) ==> Verified(host, ids[..k + 1], cs)
  {
    assert ids[..k + 1][..k] == ids[..k] && ids[..k + 1] == ids[..k] + [ids[k]];
    OneMoreVerified(host, ids[..k], cs, ids[k]);
    PassesIsKnown(host, cs, ids[k]);
    if Verified(host, ids, cs) { VerifiedPrefix(host, ids, cs, k + 1); }
  }

  /** The matching loop: succeeds exactly when every identity is named, new and proved by its credential. */
  method VerifyDevices(host: Host, identities: seq<Identity>, cs: seq<Credential>, credentials: map<string, Credential>)
      returns (r: Result<seq<Device>, SafetyError>)
    requires DistinctCredentials(cs) && credentials == ToMap(cs)
    ensures r.Success? <==> Verified(host, identities, cs)
    ensures r.Success? ==> r.value == Devices(host, identities)
  {
    var devices, seen: set<string> := [], {};
    for k := 0 to |identities|
      invariant seen == Ids(identities[..k]) && Verified(host, identities[..k], cs)
      invariant devices == Devices(host, identities[..k])
    {
      var identity := identities[k];
      NextVerified(host, identities, cs, k);
      if identity.login == "" || identity.deviceId == "" || identity.deviceId in seen { return Failure(InvalidIdentity); }
      seen := seen + {identity.deviceId};
      if !Passes(host, credentials, identity) { return Failure(Unverified); }
      devices := devices + [DeviceOf(host, identity)];
    }
    assert identities[..|identities|] == identities;
    r := Success(devices);
  }

  /** `createSafetyCode`: succeeds exactly on agreement, with the code of the sorted devices. */
  method CreateSafetyCode(host: Host, identitySets: seq<seq<Identity>>, verified: Option<seq<Credential>>)
      returns (r: Result<Code, SafetyError>)
    ensures r.Success? <==> verified.Some? && Agree(host, Flat(identitySets), verified.value)
    ensures r.Success? ==> r.value == CodeFor(host, Flat(identitySets), verified.value)
  {
    if verified.None? { return Failure(MissingCredentials); }
    ghost var ids := Flat(identitySets);
    var identities := Sort(ByKey(host), Flat(identitySets));
    SortKeeps(host, ids);
    if Agree(host, ids, verified.value) {
      AgreeRearranged(host, ids, identities, verified.value);
      AgreeSizes(host, identities, verified.value);
    }
    var credentials := ToMap(verified.value);
    if |identities| < 2 || |credentials| != |identities| || |credentials| != |verified.value| { return Failure(SetsDiffer); }
    MapSize(verified.value);
    var devices := VerifyDevices(host, identities, verified.value, credentials);
    if devices.Failure? { return Failure(devices.error); }
    NoCredentialLeftOver(host, identities, verified.value);
    AgreeRearranged(host, identities, ids, verified.value);
    r := Success(CodeOf(host, devices.value));
  }
}
