/** What the safety code depends on, and what equal codes mean. */
module SafetyLaws {
  import opened Common
  import opened Sorting
  import opened SafetyCode

  // ---------------------------------------------------------------------------
  // The order of the inputs
  // ---------------------------------------------------------------------------

  lemma KnownRearranged(host: Host, cs: seq<Credential>, others: seq<Credential>, i: Identity)
    requires multiset(cs) == multiset(others)
    ensures Known(host, cs, i) ==> Known(host, others, i)
  {
    if c :| c in cs && Proves(host, c, i) {
      assert c in multiset(others);
    }
  }

  lemma DistinctCredentialsRearranged(cs: seq<Credential>, others: seq<Credential>)
    requires DistinctCredentials(cs) && multiset(cs) == multiset(others)
    ensures DistinctCredentials(others)
  {
    RepeatsRearranged(cs, others);
    forall k, l | 0 <= k < l < |others| ensures others[k].deviceId != others[l].deviceId {
      assert others[k] in cs && others[l] in cs;
    }
  }

  /** Agreement depends on no order at all. */
  lemma AgreeIgnoresOrder(host: Host, ids: seq<Identity>, others: seq<Identity>, cs: seq<Credential>, ds: seq<Credential>)
    requires multiset(ids) == multiset(others) && multiset(cs) == multiset(ds) && Agree(host, ids, cs)
    ensures Agree(host, others, ds)
  {
    AgreeRearranged(host, ids, others, cs);
    DistinctCredentialsRearranged(cs, ds);
    forall i | i in others ensures Named(i) && Known(host, ds, i) { KnownRearranged(host, cs, ds, i); }
    forall c | c in ds ensures c.deviceId in Ids(others) { assert c in multiset(ds); assert c in cs; }
  }

  lemma ByKeyIsComparator(host: Host)
    requires Comparator(host.collate)
    ensures Comparator(ByKey(host))
  {
    forall a: Identity, b: Identity, c: Identity
      ensures ByKey(host)(a, b) <= 0 || ByKey(host)(b, a) <= 0
      ensures ByKey(host)(a, b) < 0 <==> ByKey(host)(b, a) > 0
      ensures ByKey(host)(a, b) <= 0 && ByKey(host)(b, c) <= 0 ==> ByKey(host)(a, c) <= 0
    {
      var x, y, z := SortKey(a), SortKey(b), SortKey(c);
      assert host.collate(x, y) < 0 <==> host.collate(y, x) > 0;
      assert host.collate(x, y) <= 0 && host.collate(y, z) <= 0 ==> host.collate(x, z) <= 0;
    }
  }

  /** Sorted directories with distinct devices list the same devices only if they are the same. */
  lemma DevicesDetermine(host: Host, ids: seq<Identity>, s: seq<Identity>, t: seq<Identity>)
    requires DistinctIdentities(ids) && (forall i :: i in s ==> i in ids) && (forall i :: i in t ==> i in ids)
    requires Devices(host, s) == Devices(host, t)
    ensures s == t
  {
    assert |s| == |Devices(host, s)| == |t|;
    forall k | 0 <= k < |s| ensures s[k] == t[k] {
      assert Devices(host, s)[k].deviceId == Devices(host, t)[k].deviceId;
      assert s[k] in ids && t[k] in ids;
    }
  }

  /**
    Rearranging directory and tree lists the devices alike if and only if
    devices that tie in the sort stay in the same order.
   */
  lemma ListedAlikeExactly(host: Host, ids: seq<Identity>, others: seq<Identity>, cs: seq<Credential>, ds: seq<Credential>)
    requires Comparator(host.collate) && multiset(ids) == multiset(others) && multiset(cs) == multiset(ds)
    requires Agree(host, ids, cs)
    ensures Agree(host, others, ds)
    ensures SameTies(ByKey(host), ids, others) <==> CodeFor(host, ids, cs).identities == CodeFor(host, others, ds).identities
    ensures SameTies(ByKey(host), ids, others) ==> CodeFor(host, ids, cs) == CodeFor(host, others, ds)
  {
    AgreeIgnoresOrder(host, ids, others, cs, ds);
    ByKeyIsComparator(host);
    SortsAlikeExactly(ByKey(host), ids, others);
    if Listed(host, others) == Listed(host, ids) { ListedSort(host, ids, others); }
  }

  /**
    The outcome depends on no order; and the listed devices are the same for
    every order of the directory if and only if no two devices tie.
   */
  lemma CodeIgnoresOrder(host: Host, ids: seq<Identity>, cs: seq<Credential>)
    requires Comparator(host.collate) && Agree(host, ids, cs)
    ensures forall others, ds | multiset(others) == multiset(ids) && multiset(ds) == multiset(cs) :: Agree(host, others, ds)
    ensures Separates(ByKey(host), ids) <==>
              forall others | multiset(others) == multiset(ids) :: Listed(host, others) == Listed(host, ids)
    ensures Separates(ByKey(host), ids) ==>
              forall others, ds | multiset(others) == multiset(ids) && multiset(ds) == multiset(cs) :: CodeFor(host, others, ds) == CodeFor(host, ids, cs)
  {
    forall others, ds | multiset(others) == multiset(ids) && multiset(ds) == multiset(cs) ensures Agree(host, others, ds) {
      AgreeIgnoresOrder(host, ids, others, cs, ds);
    }
    ByKeyIsComparator(host);
    SeparatesExactly(ByKey(host), ids);
    if Separates(ByKey(host), ids) {
      forall others | multiset(others) == multiset(ids) ensures Listed(host, others) == Listed(host, ids) {
        assert Sort(ByKey(host), others) == Sort(ByKey(host), ids);
      }
    }
    if forall others | multiset(others) == multiset(ids) :: Listed(host, others) == Listed(host, ids) {
      forall others | multiset(others) == multiset(ids) ensures Sort(ByKey(host), others) == Sort(ByKey(host), ids) {
        assert Listed(host, others) == Listed(host, ids);
        ListedSort(host, ids, others);
      }
    }
  }

  lemma ListedSort(host: Host, ids: seq<Identity>, others: seq<Identity>)
    requires DistinctIdentities(ids) && multiset(others) == multiset(ids)
    requires Listed(host, others) == Listed(host, ids)
    ensures Sort(ByKey(host), others) == Sort(ByKey(host), ids)
  {
    SortKeeps(host, ids);
    SortKeeps(host, others);
    forall i ensures i in ids <==> i in others { assert i in multiset(ids) <==> i in multiset(others); }
    DevicesDetermine(host, ids, Sort(ByKey(host), others), Sort(ByKey(host), ids));
  }

  /** The devices in the order the code lists them. */
  function Listed(host: Host, ids: seq<Identity>): seq<Device> {
    Devices(host, Sort(ByKey(host), ids))
  }

  /** Two devices keep their places under a swap of the directory exactly when they do not tie. */
  lemma TwoDevices(host: Host, x: Identity, y: Identity, cs: seq<Credential>)
    requires Comparator(host.collate) && Agree(host, [x, y], cs)
    ensures Agree(host, [y, x], cs)
    ensures CodeFor(host, [x, y], cs).identities == CodeFor(host, [y, x], cs).identities <==> host.collate(SortKey(x), SortKey(y)) != 0
  {
    assert [x, y] == [x] + [y] && [y, x] == [y] + [x];
    assert [x, y][0].deviceId != [x, y][1].deviceId;
    ByKeyIsComparator(host);
    ListedAlikeExactly(host, [x, y], [y, x], cs, cs);
    SortTwo(ByKey(host), x, y);
    SortTwo(ByKey(host), y, x);
    SortsAlikeExactly(ByKey(host), [x, y], [y, x]);
    assert host.collate(SortKey(x), SortKey(y)) < 0 <==> host.collate(SortKey(y), SortKey(x)) > 0;
    assert [x, y][0] != [y, x][0];
  }

  /** The last separator splits a text in one way. */
  lemma SplitLast(separator: char, a: string, x: string, b: string, y: string)
    requires separator !in x && separator !in y && a + [separator] + x == b + [separator] + y
    ensures a == b && x == y
  {
    AfterLastIs(separator, a, x);
    AfterLastIs(separator, b, y);
    var s := a + [separator] + x;
    assert s[..|a|] == a && s[..|b|] == b;
  }

  /** Device ids without a colon keep the sort keys of different devices apart, whatever the logins are. */
  lemma DeviceIdsSeparate(host: Host, ids: seq<Identity>)
    requires DistinctIdentities(ids) && forall i :: i in ids ==> ':' !in i.deviceId
    requires forall i, j :: i in ids && j in ids && host.collate(SortKey(i), SortKey(j)) == 0 ==> SortKey(i) == SortKey(j)
    ensures Separates(ByKey(host), ids)
  {
    forall i, j | i in ids && j in ids && ByKey(host)(i, j) == 0 ensures i == j {
      assert SortKey(i) == i.login + [':'] + i.deviceId && SortKey(j) == j.login + [':'] + j.deviceId;
      SplitLast(':', i.login, i.deviceId, j.login, j.deviceId);
      var k :| 0 <= k < |ids| && ids[k] == i;
      var l :| 0 <= l < |ids| && ids[l] == j;
    }
  }

  // ---------------------------------------------------------------------------
  // What equal codes mean
  // ---------------------------------------------------------------------------

  /** The longest login registration accepts. */
  const MAX_LOGIN := 64

  /** Lower-casing leaves hexadecimal digits alone, and SHA-256 gives 32 bytes. */
  ghost predicate HexAndHash(host: Host) {
    && (forall bytes :: host.lower(Hex(bytes)) == Hex(bytes))
    && (forall bytes :: |host.sha256(bytes)| == 32)
  }

  predicate Derived(ds: seq<Device>, keys: seq<Base64.Bytes>, host: Host) {
    |ds| == |keys| && forall k :: 0 <= k < |ds| ==> ds[k].fingerprint == Hex(host.sha256(keys[k]))
  }

  /** A device id as the server issues it, without the separators of the text. */
  predicate Clean(id: string) {
    ':' !in id && '\n' !in id
  }

  /** A device of a directory the server built: issued id, accepted login. */
  predicate Issued(login: string, id: string) {
    Clean(id) && |login| <= MAX_LOGIN
  }

  predicate AllIssued(ds: seq<Device>) {
    forall k :: 0 <= k < |ds| ==> Issued(ds[k].login, ds[k].deviceId)
  }

  /** A line is read from its end: the login may hold anything. */
  lemma LineInjective(host: Host, d: Device, e: Device)
    requires Clean(d.deviceId) && Clean(e.deviceId) && ':' !in d.fingerprint && ':' !in e.fingerprint
    requires host.lower(d.fingerprint) == d.fingerprint && host.lower(e.fingerprint) == e.fingerprint
    requires Line(host, d) == Line(host, e)
    ensures d == e
  {
    var x, y := d.login + ":" + d.deviceId, e.login + ":" + e.deviceId;
    assert Line(host, d) == x + [':'] + d.fingerprint && Line(host, e) == y + [':'] + e.fingerprint;
    SplitLast(':', x, d.fingerprint, y, e.fingerprint);
    assert x == d.login + [':'] + d.deviceId && y == e.login + [':'] + e.deviceId;
    SplitLast(':', d.login, d.deviceId, e.login, e.deviceId);
  }

  /** A line with room for any login in front and no line break behind. */
  predicate EndsClean(line: string) {
    |line| > MAX_LOGIN && forall k :: MAX_LOGIN <= k < |line| ==> line[k] != '\n'
  }

  lemma LinesEndClean(host: Host, ds: seq<Device>, keys: seq<Base64.Bytes>)
    requires HexAndHash(host) && Derived(ds, keys, host) && AllIssued(ds)
    ensures forall k :: 0 <= k < |ds| ==> EndsClean(Lines(host, ds)[k])
    ensures forall k :: 0 <= k < |ds| ==> ':' !in ds[k].fingerprint && host.lower(ds[k].fingerprint) == ds[k].fingerprint
  {
    forall k | 0 <= k < |ds|
      ensures EndsClean(Lines(host, ds)[k])
      ensures ':' !in ds[k].fingerprint && host.lower(ds[k].fingerprint) == ds[k].fingerprint
    {
      HexLength(host.sha256(keys[k]));
      assert |host.sha256(keys[k])| == 32;
      var d := ds[k];
      var tail := ":" + d.deviceId + ":" + d.fingerprint;
      assert Line(host, d) == d.login + tail;
      assert '\n' !in tail;
      assert forall i :: |d.login| <= i < |Line(host, d)| ==> Line(host, d)[i] == tail[i - |d.login|];
    }
  }

  /** A line break after such a line cannot lie inside a longer one. */
  lemma NotLonger(a: string, x: string, b: string, y: string)
    requires EndsClean(a) && EndsClean(b) && a + ['\n'] + x == b + y
    ensures |b| <= |a|
  {
    var text := b + y;
    assert text[|a|] == '\n';
  }

  /** Joined lines are determined by the text. */
  lemma {:induction false} JoinInjective(s: seq<string>, t: seq<string>)
    requires (forall k :: 0 <= k < |s| ==> EndsClean(s[k])) && forall k :: 0 <= k < |t| ==> EndsClean(t[k])
    requires JoinWith('\n', s) == JoinWith('\n', t)
    ensures s == t
  {
    if |s| > 0 && |t| > 0 {
      var x, y := JoinWith('\n', s[1..]), JoinWith('\n', t[1..]);
      if |s| > 1 { NotLonger(s[0], x, t[0], if |t| > 1 then ['\n'] + y else ""); }
      if |t| > 1 { NotLonger(t[0], y, s[0], if |s| > 1 then ['\n'] + x else ""); }
      var text := JoinWith('\n', s);
      assert text[..|s[0]|] == s[0] && text[..|t[0]|] == t[0];
      assert |s| > 1 ==> text == s[0] + ['\n'] + x;
      assert |t| > 1 ==> text == t[0] + ['\n'] + y;
      if |s| > 1 && |t| > 1 {
        assert text[|s[0]| + 1..] == x && text[|t[0]| + 1..] == y;
        JoinInjective(s[1..], t[1..]);
      }
      assert s == [s[0]] + s[1..] && t == [t[0]] + t[1..];
    }
  }

  /** The hashed text determines the devices: no login is long enough to imitate a line. */
  lemma TextInjective(host: Host, ds: seq<Device>, es: seq<Device>, keys: seq<Base64.Bytes>, others: seq<Base64.Bytes>)
    requires HexAndHash(host) && AllIssued(ds) && AllIssued(es)
    requires Derived(ds, keys, host) && Derived(es, others, host)
    requires Text(host, ds) == Text(host, es)
    ensures ds == es
  {
    assert Text(host, ds)[|PREFIX|..] == JoinWith('\n', Lines(host, ds)) && Text(host, es)[|PREFIX|..] == JoinWith('\n', Lines(host, es));
    LinesEndClean(host, ds, keys);
    LinesEndClean(host, es, others);
    JoinInjective(Lines(host, ds), Lines(host, es));
    assert |ds| == |Lines(host, ds)| == |es|;
    forall k | 0 <= k < |ds| ensures ds[k] == es[k] {
      assert Lines(host, ds)[k] == Lines(host, es)[k];
      LineInjective(host, ds[k], es[k]);
    }
  }

  /** Two different inputs with one hash. */
  predicate Collision(host: Host, a: Base64.Bytes, b: Base64.Bytes) {
    a != b && host.sha256(a) == host.sha256(b)
  }

  /** The decoded keys of a directory. */
  function Keys(ids: seq<Identity>): (keys: seq<Base64.Bytes>)
    ensures |keys| == |ids|
  {
    seq(|ids|, k requires 0 <= k < |ids| => var bytes := Base64.Decode(ids[k].identityKey); if bytes.Some? then bytes.value else [])
  }

  /** The sorted directory of an agreeing pair. */
  function SortedIds(host: Host, ids: seq<Identity>): seq<Identity> {
    Sort(ByKey(host), ids)
  }

  lemma SortedDerived(host: Host, ids: seq<Identity>, cs: seq<Credential>)
    requires Agree(host, ids, cs)
    ensures Derived(Devices(host, SortedIds(host, ids)), Keys(SortedIds(host, ids)), host)
    ensures |SortedIds(host, ids)| >= 2 && forall i :: i in SortedIds(host, ids) <==> i in ids
  {
    SortKeeps(host, ids);
    forall i | i in SortedIds(host, ids) ensures Fingerprint(host, i.identityKey).Some? {
      assert Known(host, cs, i);
    }
  }

  /** Keys behind equal fingerprints are equal, or two of them collide. */
  lemma SameKeys(host: Host, s: seq<Identity>, t: seq<Identity>)
    requires Derived(Devices(host, s), Keys(s), host) && Derived(Devices(host, t), Keys(t), host)
    requires Devices(host, s) == Devices(host, t)
    ensures Keys(s) == Keys(t) || KeysCollide(host, Keys(s), Keys(t))
  {
    assert |s| == |Devices(host, s)| == |t|;
    if !KeysCollide(host, Keys(s), Keys(t)) {
      forall k | 0 <= k < |s| ensures Keys(s)[k] == Keys(t)[k] {
        assert Devices(host, s)[k].fingerprint == Devices(host, t)[k].fingerprint;
        HexInjective(host.sha256(Keys(s)[k]), host.sha256(Keys(t)[k]));
        assert !Collision(host, Keys(s)[k], Keys(t)[k]);
      }
    }
  }

  predicate KeysCollide(host: Host, keys: seq<Base64.Bytes>, others: seq<Base64.Bytes>) {
    exists k :: 0 <= k < |keys| && k < |others| && Collision(host, keys[k], others[k])
  }

  predicate IssuedIds(ids: seq<Identity>) {
    forall i :: i in ids ==> Issued(i.login, i.deviceId)
  }

  lemma IssuedDevices(host: Host, ids: seq<Identity>)
    requires IssuedIds(ids)
    ensures AllIssued(Devices(host, ids))
  {
    forall k | 0 <= k < |ids| ensures Issued(Devices(host, ids)[k].login, Devices(host, ids)[k].deviceId) { assert ids[k] in ids; }
  }

  /** The bytes the code of a directory is the hash of. */
  function Hashed(host: Host, ids: seq<Identity>): Base64.Bytes {
    host.utf8(Text(host, Devices(host, SortedIds(host, ids))))
  }

  /**
    Two parties whose codes carry the same digest list the same devices in the
    same order with the same public keys, or they hold a SHA-256 collision.
   */
  lemma EqualCodesMeanEqualDevices(host: Host, ids: seq<Identity>, others: seq<Identity>, cs: seq<Credential>, ds: seq<Credential>)
    requires HexAndHash(host) && (forall a, b :: host.utf8(a) == host.utf8(b) ==> a == b)
    requires Agree(host, ids, cs) && Agree(host, others, ds) && IssuedIds(ids) && IssuedIds(others)
    ensures CodeFor(host, ids, cs).digest == CodeFor(host, others, ds).digest ==>
            || Collision(host, Hashed(host, ids), Hashed(host, others))
            || KeysCollide(host, Keys(SortedIds(host, ids)), Keys(SortedIds(host, others)))
            || (CodeFor(host, ids, cs) == CodeFor(host, others, ds) && Keys(SortedIds(host, ids)) == Keys(SortedIds(host, others)))
  {
    var s, t := SortedIds(host, ids), SortedIds(host, others);
    if CodeFor(host, ids, cs).digest == CodeFor(host, others, ds).digest {
      HexInjective(host.sha256(Hashed(host, ids)), host.sha256(Hashed(host, others)));
    }
    if Hashed(host, ids) == Hashed(host, others) {
      SortedDerived(host, ids, cs);
      SortedDerived(host, others, ds);
      IssuedDevices(host, s);
      IssuedDevices(host, t);
      TextInjective(host, Devices(host, s), Devices(host, t), Keys(s), Keys(t));
      SameKeys(host, s, t);
    }
  }
}
