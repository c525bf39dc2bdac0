/** When a safety code is made, from the records alone, and what it shows. */
module SafetyView {
  import opened Common
  import opened Sorting
  import opened SafetyCode
  import SafetyLaws
  import Base64

  // ---------------------------------------------------------------------------
  // When a code is made
  // ---------------------------------------------------------------------------

  /** The fingerprint is, in any case of letters, the hexadecimal SHA-256 of the decoded key. */
  predicate IsFingerprint(host: Host, fingerprint: string, key: string) {
    && key != "" && Base64.Decode(key).Some?
    && host.lower(fingerprint) == Hex(host.sha256(Base64.Decode(key).value))
  }

  /** The record and the credential name one device and one key, and both carry that key's fingerprint. */
  predicate Matches(host: Host, i: Identity, c: Credential) {
    && c.deviceId == i.deviceId && c.identityKey == i.identityKey
    && IsFingerprint(host, i.claimed, i.identityKey) && IsFingerprint(host, c.fingerprint, c.identityKey)
  }

  lemma ProvesIs(host: Host, c: Credential, i: Identity)
    ensures Proves(host, c, i) <==> Matches(host, i, c)
  {
  }

  /**
    A code is made exactly for two or more named records with distinct
    devices, as many credentials with distinct devices, and for every record a
    credential of the same device and key whose fingerprint, like the claimed
    one, is that of the key.
   */
  lemma AgreeExactly(host: Host, ids: seq<Identity>, cs: seq<Credential>)
    ensures Agree(host, ids, cs) <==>
            && |ids| >= 2 && |cs| == |ids|
            && (forall i, j :: 0 <= i < j < |ids| ==> ids[i].deviceId != ids[j].deviceId)
            && (forall i, j :: 0 <= i < j < |cs| ==> cs[i].deviceId != cs[j].deviceId)
            && (forall i :: i in ids ==> i.login != "" && i.deviceId != "" && exists c :: c in cs && Matches(host, i, c))
  {
    forall c, i ensures Proves(host, c, i) <==> Matches(host, i, c) { ProvesIs(host, c, i); }
    if Agree(host, ids, cs) {
      AgreeSizes(host, ids, cs);
      forall i | i in ids ensures exists c :: c in cs && Matches(host, i, c) { assert Known(host, cs, i); }
    } else if |ids| >= 2 && |cs| == |ids| && DistinctIdentities(ids) && DistinctCredentials(cs)
              && forall i :: i in ids ==> Named(i) && exists c :: c in cs && Matches(host, i, c) {
      forall i | i in ids ensures Known(host, cs, i) {
        var c :| c in cs && Matches(host, i, c);
        assert Proves(host, c, i);
      }
      NoCredentialLeftOver(host, ids, cs);
    }
  }

  lemma AgreeingMatch(host: Host, ids: seq<Identity>, cs: seq<Credential>, i: Identity, c: Credential)
    requires Agree(host, ids, cs) && i in ids && c in cs && c.deviceId == i.deviceId
    ensures Matches(host, i, c)
  {
    var d :| d in cs && Proves(host, d, i);
    SameCredential(cs, c, d);
    ProvesIs(host, c, i);
  }

  /** A key that differs from the one in the tree, or a fingerprint on either side that is not the key's, is refused. */
  lemma MismatchIsRefused(host: Host, ids: seq<Identity>, cs: seq<Credential>, i: Identity, c: Credential)
    requires i in ids && c in cs && c.deviceId == i.deviceId
    requires c.identityKey != i.identityKey
          || !IsFingerprint(host, i.claimed, i.identityKey) || !IsFingerprint(host, c.fingerprint, i.identityKey)
    ensures !Agree(host, ids, cs)
  {
    if Agree(host, ids, cs) { AgreeingMatch(host, ids, cs, i, c); }
  }

  /** A device in only one of directory and tree is refused. */
  lemma StrangerIsRefused(host: Host, ids: seq<Identity>, cs: seq<Credential>, id: string)
    requires (exists i :: i in ids && i.deviceId == id) != (exists c :: c in cs && c.deviceId == id)
    ensures !Agree(host, ids, cs)
  {
    if Agree(host, ids, cs) {
      AgreeAt(host, ids, cs, id);
      IdIn(ids, id);
      MapHas(cs, id);
    }
  }

  // ---------------------------------------------------------------------------
  // What the code shows
  // ---------------------------------------------------------------------------

  /** The text of one device and of one more. */
  lemma TextIs(host: Host, ds: seq<Device>, d: Device)
    ensures Text(host, [d]) == "secure-messenger-safety-v1\n" + d.login + ":" + d.deviceId + ":" + host.lower(d.fingerprint)
    ensures ds != [] ==>
              Text(host, ds + [d]) == Text(host, ds) + "\n" + d.login + ":" + d.deviceId + ":" + host.lower(d.fingerprint)
  {
    assert Lines(host, [d]) == [Line(host, d)];
    if ds != [] {
      var lines, line := Lines(host, ds), Line(host, d);
      assert Lines(host, ds + [d]) == lines + [line];
      JoinOneMore(lines, line);
      assert PREFIX + (JoinWith('\n', lines) + ['\n'] + line) == PREFIX + JoinWith('\n', lines) + ['\n'] + line;
    }
  }

  lemma {:induction false} JoinOneMore(lines: seq<string>, line: string)
    requires lines != []
    ensures JoinWith('\n', lines + [line]) == JoinWith('\n', lines) + ['\n'] + line
  {
    if |lines| > 1 {
      JoinOneMore(lines[1..], line);
      assert (lines + [line])[1..] == lines[1..] + [line];
    } else {
      assert lines + [line] == [lines[0], line] && [lines[0], line][1..] == [line];
    }
  }

  /** The decimal digit of a number at the place of the given weight. */
  function Place(b: nat, weight: nat): char
    requires weight > 0
  {
    "0123456789"[b / weight % 10]
  }

  lemma DecimalIs(n: nat)
    requires n < 10
    ensures Decimal(n) == "0123456789"[n]
  {
  }

  lemma PaddedIs(b: Base64.Byte)
    ensures Padded(b) == [Place(b, 100), Place(b, 10), Place(b, 1)]
  {
    assert b / 100 % 10 == b / 100 && b / 1 == b;
    DecimalIs(b / 100);
    DecimalIs(b / 10 % 10);
    DecimalIs(b % 10);
  }

  lemma {:induction false} DigitsAt(bytes: Bytes, k: nat)
    requires k < |bytes|
    ensures Digits(bytes)[3 * k..3 * k + 3] == [Place(bytes[k], 100), Place(bytes[k], 10), Place(bytes[k], 1)]
  {
    PaddedIs(bytes[0]);
    if k > 0 {
      DigitsAt(bytes[1..], k - 1);
      var rest := Digits(bytes[1..]);
      assert Digits(bytes) == Padded(bytes[0]) + rest;
      assert Digits(bytes)[3 * k..3 * k + 3] == rest[3 * (k - 1)..3 * (k - 1) + 3];
    }
  }

  lemma {:induction false} JoinedAt(s: string, n: nat, k: nat)
    requires n >= 1 && |s| == 5 * n && k < |s|
    ensures |JoinWith(' ', Chunks(s))| == 6 * n - 1 && JoinWith(' ', Chunks(s))[k + k / 5] == s[k]
  {
    if n == 1 {
      assert Chunks(s) == [s] && k / 5 == 0;
    } else {
      JoinedChunks(s);
      JoinedAt(s[5..], n - 1, if k >= 5 then k - 5 else 0);
      if k >= 5 { assert k / 5 == (k - 5) / 5 + 1; }
    }
  }

  /**
    The display shows the first twenty bytes, each by its three decimal digits,
    with a space behind every fifth digit but the last.
   */
  lemma DisplayShows(digest: Bytes, k: nat)
    requires |digest| >= 20 && k < 60
    ensures |Display(digest)| == 71
    ensures Display(digest)[k + k / 5] == Place(digest[k / 3], if k % 3 == 0 then 100 else if k % 3 == 1 then 10 else 1)
  {
    var bytes := digest[..20];
    FirstSixty(digest);
    JoinedAt(Digits(bytes), 12, k);
    DigitsAt(bytes, k / 3);
    var b := bytes[k / 3];
    assert Digits(bytes)[k] == Digits(bytes)[3 * (k / 3)..3 * (k / 3) + 3][k % 3];
    assert k % 3 == 0 || k % 3 == 1 || k % 3 == 2;
  }

  /** The hexadecimal text shows each byte by its two digits, the higher first. */
  lemma {:induction false} HexAt(bytes: Bytes, k: nat)
    requires k < |bytes|
    ensures |Hex(bytes)| == 2 * |bytes|
    ensures Hex(bytes)[2 * k] == "0123456789abcdef"[bytes[k] / 16] && Hex(bytes)[2 * k + 1] == "0123456789abcdef"[bytes[k] % 16]
  {
    HexLength(bytes);
    HexDigitIs(bytes[0] / 16);
    HexDigitIs(bytes[0] % 16);
    if k > 0 { HexAt(bytes[1..], k - 1); }
  }

  lemma HexDigitIs(n: nat)
    requires n < 16
    ensures HexDigit(n) == "0123456789abcdef"[n]
  {
  }

  /** The device is that of the record, with the fingerprint of its key. */
  predicate IsDevice(host: Host, d: Device, i: Identity) {
    && d.login == i.login && d.deviceId == i.deviceId
    && Base64.Decode(i.identityKey).Some? && d.fingerprint == Hex(host.sha256(Base64.Decode(i.identityKey).value))
  }

  lemma DeviceIs(host: Host, ids: seq<Identity>, cs: seq<Credential>, i: Identity)
    requires Agree(host, ids, cs) && i in ids
    ensures IsDevice(host, DeviceOf(host, i), i)
  {
    var c :| c in cs && Proves(host, c, i);
  }

  predicate KeysInOrder(host: Host, ds: seq<Device>) {
    forall k, l :: 0 <= k < l < |ds| ==>
      host.collate(ds[k].login + ":" + ds[k].deviceId, ds[l].login + ":" + ds[l].deviceId) <= 0
  }

  /**
    The code of agreeing records lists one device a record, with its key's
    fingerprint, sorted by login and device id; digest and display show the
    hash of their text.
   */
  lemma CodeShows(host: Host, ids: seq<Identity>, cs: seq<Credential>)
    requires Agree(host, ids, cs) && Comparator(host.collate)
    ensures |CodeFor(host, ids, cs).identities| == |ids|
    ensures forall i :: i in ids ==> exists d :: d in CodeFor(host, ids, cs).identities && IsDevice(host, d, i)
    ensures forall d :: d in CodeFor(host, ids, cs).identities ==> exists i :: i in ids && IsDevice(host, d, i)
    ensures KeysInOrder(host, CodeFor(host, ids, cs).identities)
    ensures var code := CodeFor(host, ids, cs);
            var hash := host.sha256(host.utf8(Text(host, code.identities)));
            code.digest == Hex(hash) && code.display == Display(hash)
  {
    var sorted := Sort(ByKey(host), ids);
    var ds := Devices(host, sorted);
    SortKeeps(host, ids);
    forall i | i in ids ensures exists d :: d in ds && IsDevice(host, d, i) {
      DeviceIs(host, ids, cs, i);
      var k :| 0 <= k < |sorted| && sorted[k] == i;
      assert ds[k] in ds && IsDevice(host, ds[k], i);
    }
    forall d | d in ds ensures exists i :: i in ids && IsDevice(host, d, i) {
      var k :| 0 <= k < |ds| && ds[k] == d;
      DeviceIs(host, ids, cs, sorted[k]);
      assert sorted[k] in ids;
    }
    SafetyLaws.ByKeyIsComparator(host);
    SortIsStable(ByKey(host), ids);
    forall k, l | 0 <= k < l < |ds|
      ensures host.collate(ds[k].login + ":" + ds[k].deviceId, ds[l].login + ":" + ds[l].deviceId) <= 0
    {
      SortedPairs(ByKey(host), sorted, k, l);
      assert ByKey(host)(sorted[k], sorted[l]) == host.collate(SortKey(sorted[k]), SortKey(sorted[l]));
    }
  }
}
