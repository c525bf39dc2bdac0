/**
  The length-prefixed format of the MLS provider's key-value storage.  The
  target is wasm32: lengths on the wire are 64 bits wide, indices 32.
 */
module ProviderState {
  import opened Common

  type Byte = b: int | 0 <= b < 256
  type Bytes = seq<Byte>

  /** One more than the largest `usize` of the target. */
  const USIZE: nat := 0x1_0000_0000

  const MAGIC: Bytes := [83, 77, 77, 83, 49]

  // ---------------------------------------------------------------------------
  // Big-endian integers
  // ---------------------------------------------------------------------------

  function Pow256(k: nat): (p: nat)
    ensures p > 0
  {
    if k == 0 then 1 else 256 * Pow256(k - 1)
  }

  function ToBe(n: nat, k: nat): (r: Bytes)
    ensures |r| == k
  {
    if k == 0 then [] else ToBe(n / 256, k - 1) + [n % 256]
  }

  function FromBe(s: Bytes): nat {
    if s == [] then 0 else FromBe(s[..|s| - 1]) * 256 + s[|s| - 1]
  }

  lemma {:induction false} FromToBe(n: nat, k: nat)
    requires n < Pow256(k)
    ensures FromBe(ToBe(n, k)) == n
  {
    if k > 0 {
      FromToBe(n / 256, k - 1);
      assert ToBe(n, k)[..k - 1] == ToBe(n / 256, k - 1);
    }
  }

  lemma {:induction false} ToFromBe(s: Bytes)
    ensures ToBe(FromBe(s), |s|) == s
  {
    if s != [] {
      var n := |s| - 1;
      ToFromBe(s[..n]);
      var high := FromBe(s[..n]);
      assert (high * 256 + s[n]) / 256 == high && (high * 256 + s[n]) % 256 == s[n];
      assert s == s[..n] + [s[n]];
    }
  }

  function U64(n: nat): (r: Bytes)
    ensures |r| == 8
  {
    ToBe(n, 8)
  }

  lemma U64RoundTrip(n: nat)
    requires n < USIZE
    ensures FromBe(U64(n)) == n
  {
    assert Pow256(4) == 0x1_0000_0000;
    assert Pow256(8) == 256 * 256 * 256 * 256 * Pow256(4);
    FromToBe(n, 8);
  }

  // ---------------------------------------------------------------------------
  // The format
  // ---------------------------------------------------------------------------

  datatype Entry = Entry(key: Bytes, value: Bytes)

  predicate Fits(e: Entry) {
    |e.key| < USIZE && |e.value| < USIZE
  }

  ghost predicate AllFit(es: seq<Entry>) {
    |es| < USIZE && forall i :: 0 <= i < |es| ==> Fits(es[i])
  }

  function EncodeEntry(e: Entry): Bytes {
    U64(|e.key|) + U64(|e.value|) + e.key + e.value
  }

  function EncodeEntries(es: seq<Entry>): Bytes {
    if es == [] then [] else EncodeEntry(es[0]) + EncodeEntries(es[1..])
  }

  function Encode(es: seq<Entry>): Bytes {
    MAGIC + U64(|es|) + EncodeEntries(es)
  }

  /** The storage a list of entries stands for: a repeated key keeps its last value. */
  function ToMap(es: seq<Entry>): map<Bytes, Bytes> {
    if es == [] then map[]
    else
      var n := |es| - 1;
      ToMap(es[..n])[es[n].key := es[n].value]
  }

  function EntriesOf(values: map<Bytes, Bytes>, order: seq<Bytes>): (r: seq<Entry>)
    requires forall k :: k in order ==> k in values
    ensures |r| == |order|
    ensures forall i :: 0 <= i < |r| ==> r[i] == Entry(order[i], values[order[i]])
  {
    seq(|order|, i requires 0 <= i < |order| => assert order[i] in order; Entry(order[i], values[order[i]]))
  }

  /** An iteration order of a hash map: each key once. */
  ghost predicate IterationOrder(values: map<Bytes, Bytes>, order: seq<Bytes>) {
    && (forall k :: k in order <==> k in values)
    && (forall i, j :: 0 <= i < j < |order| ==> order[i] != order[j])
  }

  // ---------------------------------------------------------------------------
  // Reading entries off the front of the input
  // ---------------------------------------------------------------------------

  datatype Parse = Parse(entries: seq<Entry>, rest: Bytes)

  function ParseEntry(s: Bytes): Option<(Entry, Bytes)> {
    if |s| < 16 then None
    else
      var keyLen := FromBe(s[..8]);
      var valueLen := FromBe(s[8..16]);
      if keyLen >= USIZE || valueLen >= USIZE || 16 + keyLen + valueLen > |s| then None
      else Some((Entry(s[16..16 + keyLen], s[16 + keyLen..16 + keyLen + valueLen]), s[16 + keyLen + valueLen..]))
  }

  function ParseEntries(s: Bytes, n: nat): Option<Parse> {
    if n == 0 then Some(Parse([], s))
    else
      var first := ParseEntry(s);
      if first.None? then None
      else
        var others := ParseEntries(first.value.1, n - 1);
        if others.None? then None else Some(Parse([first.value.0] + others.value.entries, others.value.rest))
  }

  /** The entries a magic-prefixed input holds, if it is well formed. */
  function Decode(input: Bytes): Option<seq<Entry>>
    requires MAGIC <= input
  {
    var body := input[|MAGIC|..];
    if |body| < 8 then None
    else
      var count := FromBe(body[..8]);
      if count >= USIZE then None
      else
        var parse := ParseEntries(body[8..], count);
        if parse.None? || parse.value.rest != [] then None else Some(parse.value.entries)
  }

  // ---------------------------------------------------------------------------
  // The two Rust functions
  // ---------------------------------------------------------------------------

  method AppendEntry(output: Bytes, key: Bytes, value: Bytes) returns (longer: Bytes)
    ensures longer == output + EncodeEntry(Entry(key, value))
  {
    longer := output + U64(|key|);
    longer := longer + U64(|value|);
    longer := longer + key;
    longer := longer + value;
  }

  method SerializeProvider(values: map<Bytes, Bytes>, order: seq<Bytes>) returns (output: Bytes)
    requires IterationOrder(values, order)
    ensures output == Encode(EntriesOf(values, order))
  {
    output := MAGIC + U64(|order|);
    output := AppendEntries(output, EntriesOf(values, order));
  }

  method AppendEntries(header: Bytes, es: seq<Entry>) returns (output: Bytes)
    ensures output == header + EncodeEntries(es)
  {
    output := header;
    var i := 0;
    while i < |es|
      invariant i <= |es|
      invariant output == header + EncodeEntries(es[..i])
    {
      output := AppendEntry(output, es[i].key, es[i].value);
      EncodeAppend(es[..i], es[i]);
      assert es[..i + 1] == es[..i] + [es[i]];
      i := i + 1;
    }
    assert es[..i] == es;
  }

  datatype Decoded = Parsed(values: map<Bytes, Bytes>) | Rejected | LegacyJson

  method ReadU64(input: Bytes, cursor: nat) returns (value: Option<nat>, next: nat)
    requires cursor <= |input| < USIZE
    ensures value == if cursor + 8 <= |input| then Some(FromBe(input[cursor..cursor + 8])) else None
    ensures next == if value.Some? then cursor + 8 else cursor
  {
    next := cursor;
    if cursor + 8 >= USIZE || cursor + 8 > |input| { return None, next; }
    value := Some(FromBe(input[cursor..cursor + 8]));
    next := cursor + 8;
  }

  /** One turn of the loop: the entry at the cursor, and the cursor behind it. */
  method ReadEntry(input: Bytes, start: nat) returns (entry: Option<Entry>, cursor: nat)
    requires start <= |input| < USIZE
    ensures start <= cursor <= |input|
    ensures entry.None? <==> ParseEntry(input[start..]).None?
    ensures entry.Some? ==> ParseEntry(input[start..]).value == (entry.value, input[cursor..])
  {
    ghost var s := input[start..];
    cursor := start;
    var keyLen, valueLen: Option<nat>;
    keyLen, cursor := ReadU64(input, cursor);
    if keyLen.None? || keyLen.value >= USIZE {
      assert start + 8 <= |input| ==> s[..8] == input[start..start + 8];
      return None, start;
    }
    valueLen, cursor := ReadU64(input, cursor);
    if valueLen.None? || valueLen.value >= USIZE {
      assert start + 16 <= |input| ==> s[8..16] == input[start + 8..start + 16];
      return None, start;
    }
    assert s[..8] == input[start..start + 8] && s[8..16] == input[start + 8..start + 16];
    var keyEnd := cursor + keyLen.value;
    if keyEnd >= USIZE || keyEnd > |input| { return None, start; }
    var key := input[cursor..keyEnd];
    var valueEnd := keyEnd + valueLen.value;
    if valueEnd >= USIZE || valueEnd > |input| { return None, start; }
    var value := input[keyEnd..valueEnd];
    var k, v := keyLen.value, valueLen.value;
    assert s[16..16 + k] == key && s[16 + k..16 + k + v] == value && s[16 + k + v..] == input[valueEnd..];
    entry, cursor := Some(Entry(key, value)), valueEnd;
  }

  /** The record loop: fills the map from the cursor on, or fails. */
  method ReadEntries(input: Bytes, start: nat, count: nat) returns (values: Option<map<Bytes, Bytes>>, cursor: nat)
    requires start <= |input| < USIZE
    ensures cursor <= |input|
    ensures var all := ParseEntries(input[start..], count);
            if all.None? then values.None?
            else values == Some(ToMap(all.value.entries)) && all.value.rest == input[cursor..]
  {
    ghost var all := ParseEntries(input[start..], count);
    ghost var seen: seq<Entry> := [];
    var found: map<Bytes, Bytes> := map[];
    cursor := start;
    var i := 0;
    ContinueStart(all);
    while i < count
      invariant i <= count && cursor <= |input|
      invariant found == ToMap(seen)
      invariant all == Continued(seen, ParseEntries(input[cursor..], count - i))
    {
      ghost var s := input[cursor..];
      var entry: Option<Entry>;
      entry, cursor := ReadEntry(input, cursor);
      if entry.None? { return None, cursor; }
      ContinueStep(seen, s, count - i);
      OneMoreEntry(seen, entry.value);
      found := found[entry.value.key := entry.value.value];
      seen := seen + [entry.value];
      i := i + 1;
    }
    assert seen + [] == seen;
    values := Some(found);
  }

  lemma OneMoreEntry(es: seq<Entry>, e: Entry)
    ensures ToMap(es + [e]) == ToMap(es)[e.key := e.value]
  {
    assert (es + [e])[..|es|] == es;
  }

  method DeserializeProvider(input: Bytes) returns (result: Decoded)
    requires |input| < USIZE
    ensures result == if !(MAGIC <= input) then LegacyJson
                      else if Decode(input).None? then Rejected
                      else Parsed(ToMap(Decode(input).value))
  {
    if !(MAGIC <= input) { return LegacyJson; }
    ghost var body := input[|MAGIC|..];
    var count, cursor := ReadU64(input, |MAGIC|);
    assert |body| >= 8 ==> body[..8] == input[|MAGIC|..|MAGIC| + 8];
    if count.None? || count.value >= USIZE { return Rejected; }
    assert body[8..] == input[cursor..];
    var values;
    values, cursor := ReadEntries(input, cursor, count.value);
    if values.None? { return Rejected; }
    if cursor == |input| { return Parsed(values.value); }
    result := Rejected;
  }

  /** The parse of a longer input whose first entries were already taken off. */
  function Continued(seen: seq<Entry>, others: Option<Parse>): Option<Parse> {
    if others.None? then None else Some(Parse(seen + others.value.entries, others.value.rest))
  }

  lemma ContinueStart(all: Option<Parse>)
    ensures Continued([], all) == all
  {
    if all.Some? { assert [] + all.value.entries == all.value.entries; }
  }

  lemma ContinueStep(seen: seq<Entry>, s: Bytes, n: nat)
    requires n > 0 && ParseEntry(s).Some?
    ensures var (e, rest) := ParseEntry(s).value;
            Continued(seen, ParseEntries(s, n)) == Continued(seen + [e], ParseEntries(rest, n - 1))
  {
    var (e, rest) := ParseEntry(s).value;
    var others := ParseEntries(rest, n - 1);
    if others.Some? {
      assert seen + ([e] + others.value.entries) == (seen + [e]) + others.value.entries;
    }
  }

  lemma {:induction false} EncodeAppend(es: seq<Entry>, e: Entry)
    ensures EncodeEntries(es + [e]) == EncodeEntries(es) + EncodeEntry(e)
  {
    if es == [] {
      assert EncodeEntries([e]) == EncodeEntry(e) + EncodeEntries([e][1..]);
    } else {
      EncodeAppend(es[1..], e);
      assert (es + [e])[1..] == es[1..] + [e];
    }
  }

  // ---------------------------------------------------------------------------
  // Reading undoes writing, and nothing else is read
  // ---------------------------------------------------------------------------

  lemma ParseEntryOfEncoding(e: Entry, rest: Bytes)
    requires Fits(e)
    ensures ParseEntry(EncodeEntry(e) + rest) == Some((e, rest))
  {
    var s := EncodeEntry(e) + rest;
    var k, v := |e.key|, |e.value|;
    U64RoundTrip(k);
    U64RoundTrip(v);
    assert s[..8] == U64(k) && s[8..16] == U64(v);
    assert s[16..16 + k] == e.key && s[16 + k..16 + k + v] == e.value;
    assert s[16 + k + v..] == rest;
  }

  lemma EncodingOfParsedEntry(s: Bytes)
    requires ParseEntry(s).Some?
    ensures var (e, rest) := ParseEntry(s).value; Fits(e) && s == EncodeEntry(e) + rest
  {
    var (e, rest) := ParseEntry(s).value;
    ToFromBe(s[..8]);
    ToFromBe(s[8..16]);
    assert s == s[..8] + s[8..16] + e.key + e.value + rest;
  }

  lemma {:induction false} ParseOfEncoding(es: seq<Entry>, rest: Bytes)
    requires forall i :: 0 <= i < |es| ==> Fits(es[i])
    ensures ParseEntries(EncodeEntries(es) + rest, |es|) == Some(Parse(es, rest))
  {
    if es == [] {
      assert [] + rest == rest;
    } else {
      var tail := EncodeEntries(es[1..]) + rest;
      assert EncodeEntries(es) + rest == EncodeEntry(es[0]) + tail;
      ParseEntryOfEncoding(es[0], tail);
      ParseOfEncoding(es[1..], rest);
      assert es == [es[0]] + es[1..];
    }
  }

  lemma {:induction false} EncodingOfParse(s: Bytes, n: nat)
    requires ParseEntries(s, n).Some?
    ensures var p := ParseEntries(s, n).value;
            && |p.entries| == n
            && (forall i :: 0 <= i < n ==> Fits(p.entries[i]))
            && s == EncodeEntries(p.entries) + p.rest
  {
    if n == 0 {
      assert [] + s == s;
    } else {
      EncodingOfParsedEntry(s);
      var (e, rest) := ParseEntry(s).value;
      EncodingOfParse(rest, n - 1);
      var q := ParseEntries(rest, n - 1).value;
      EncodingOfCons(e, q.entries, q.rest);
    }
  }

  lemma EncodingOfCons(e: Entry, es: seq<Entry>, rest: Bytes)
    ensures EncodeEntries([e] + es) + rest == EncodeEntry(e) + (EncodeEntries(es) + rest)
  {
    assert ([e] + es)[1..] == es;
  }

  /** An input is accepted with some entries exactly when it is their encoding: the split into records is unique and fills the input. */
  lemma DecodeExact(input: Bytes, es: seq<Entry>)
    requires MAGIC <= input
    ensures Decode(input) == Some(es) <==> AllFit(es) && input == Encode(es)
  {
    var body := input[|MAGIC|..];
    if Decode(input) == Some(es) {
      var count := FromBe(body[..8]);
      EncodingOfParse(body[8..], count);
      ToFromBe(body[..8]);
      assert EncodeEntries(es) + [] == EncodeEntries(es);
      assert input == MAGIC + body[..8] + body[8..];
    }
    if AllFit(es) && input == Encode(es) {
      assert body == U64(|es|) + EncodeEntries(es);
      assert body[..8] == U64(|es|) && body[8..] == EncodeEntries(es) + [];
      U64RoundTrip(|es|);
      ParseOfEncoding(es, []);
    }
  }

  /** No proper extension of a valid encoding is accepted. */
  lemma ExtensionRejected(es: seq<Entry>, extra: Bytes)
    requires AllFit(es) && extra != []
    ensures Decode(Encode(es) + extra) == None
  {
    var input := Encode(es) + extra;
    var body := input[|MAGIC|..];
    assert body[..8] == U64(|es|) && body[8..] == EncodeEntries(es) + extra;
    U64RoundTrip(|es|);
    ParseOfEncoding(es, extra);
  }

  /** No proper prefix of a valid encoding that still holds the magic is accepted. */
  lemma PrefixRejected(es: seq<Entry>, k: nat)
    requires AllFit(es) && |MAGIC| <= k < |Encode(es)|
    ensures Decode(Encode(es)[..k]) == None
  {
    var whole := Encode(es);
    var input := whole[..k];
    if Decode(input).Some? {
      var shorter := Decode(input).value;
      DecodeExact(input, shorter);
      assert whole == Encode(shorter) + whole[k..];
      ExtensionRejected(shorter, whole[k..]);
      DecodeExact(whole, es);
    }
  }

  // ---------------------------------------------------------------------------
  // Maps
  // ---------------------------------------------------------------------------

  /** A key maps to the value of its last entry. */
  lemma {:induction false} LastEntryWins(es: seq<Entry>, i: nat)
    requires i < |es|
    requires forall j :: i < j < |es| ==> es[j].key != es[i].key
    ensures es[i].key in ToMap(es) && ToMap(es)[es[i].key] == es[i].value
  {
    var n := |es| - 1;
    if i < n { LastEntryWins(es[..n], i); }
  }

  lemma {:induction false} KeysOfEntries(es: seq<Entry>, k: Bytes)
    ensures k in ToMap(es) <==> exists i :: 0 <= i < |es| && es[i].key == k
  {
    if es != [] {
      var n := |es| - 1;
      KeysOfEntries(es[..n], k);
      if k in ToMap(es) {
        if k == es[n].key {
          assert es[n].key == k;
        } else {
          var i :| 0 <= i < n && es[..n][i].key == k;
          assert es[i].key == k;
        }
      } else {
        forall i | 0 <= i < |es| ensures es[i].key != k {
          if i < n { assert es[..n][i].key == es[i].key; }
        }
      }
    }
  }

  lemma EntriesRestoreMap(values: map<Bytes, Bytes>, order: seq<Bytes>)
    requires IterationOrder(values, order)
    ensures ToMap(EntriesOf(values, order)) == values
  {
    var es := EntriesOf(values, order);
    var m := ToMap(es);
    forall k ensures k in m <==> k in values {
      KeysOfEntries(es, k);
      if k in m {
        var i :| 0 <= i < |es| && es[i].key == k;
        assert order[i] in order;
      }
      if k in values {
        assert k in order;
        var i :| 0 <= i < |order| && order[i] == k;
        assert es[i].key == k;
      }
    }
    forall k | k in values ensures m[k] == values[k] {
      assert k in order;
      var i :| 0 <= i < |order| && order[i] == k;
      LastEntryWins(es, i);
    }
  }

  /** Every storage map comes back, whatever order it was written in. */
  lemma ProviderRoundTrip(values: map<Bytes, Bytes>, order: seq<Bytes>)
    requires IterationOrder(values, order)
    requires |values| < USIZE && forall k :: k in values ==> |k| < USIZE && |values[k]| < USIZE
    ensures var input := Encode(EntriesOf(values, order));
            MAGIC <= input && Decode(input).Some? && ToMap(Decode(input).value) == values
  {
    var es := EntriesOf(values, order);
    OrderLength(values, order);
    forall i | 0 <= i < |es| ensures Fits(es[i]) { assert order[i] in order; }
    DecodeExact(Encode(es), es);
    EntriesRestoreMap(values, order);
  }

  /** Without its last key, an order iterates over the map without that key. */
  lemma FewerOrder(values: map<Bytes, Bytes>, order: seq<Bytes>)
    requires IterationOrder(values, order) && order != []
    ensures IterationOrder(values - {order[|order| - 1]}, order[..|order| - 1])
  {
    var n := |order| - 1;
    forall k ensures k in order[..n] <==> k in values && k != order[n] {
      assert k in order[..n] ==> k in order;
      if k in values && k != order[n] {
        var i :| 0 <= i < |order| && order[i] == k;
        assert order[..n][i] == k;
      }
    }
  }

  lemma {:induction false} OrderLength(values: map<Bytes, Bytes>, order: seq<Bytes>)
    requires IterationOrder(values, order)
    ensures |order| == |values|
    decreases |order|
  {
    if order == [] {
      assert values == map[];
    } else {
      var last := order[|order| - 1];
      FewerOrder(values, order);
      OrderLength(values - {last}, order[..|order| - 1]);
      assert values == (values - {last})[last := values[last]];
    }
  }

  // ---------------------------------------------------------------------------
  // The bytes on the wire
  // ---------------------------------------------------------------------------

  lemma {:induction false} DivideTwice(n: nat, k: nat)
    ensures n / 256 / Pow256(k) == n / Pow256(k + 1)
  {
    var p := Pow256(k);
    var q := n / 256 / p;
    assert n == 256 * (p * q + n / 256 % p) + n % 256;
    assert 256 * (n / 256 % p) + n % 256 < 256 * p;
    assert n == (256 * p) * q + (256 * (n / 256 % p) + n % 256);
    QuotientIs(n, 256 * p, q, 256 * (n / 256 % p) + n % 256);
  }

  lemma Multiple(d: int, x: int)
    requires d >= 0
    ensures x >= 1 ==> d * x >= d
    ensures x <= -1 ==> d * x <= -d
  {
    assert d * x - d == d * (x - 1) && d * x + d == d * (x + 1);
  }

  lemma QuotientIs(n: nat, d: nat, q: nat, r: nat)
    requires r < d && n == d * q + r
    ensures n / d == q
  {
    var m, s := n / d, n % d;
    assert n == d * m + s && 0 <= s < d;
    assert d * (m - q) == r - s;
    Multiple(d, m - q);
  }

  /** Integers are written with their highest byte first. */
  lemma {:induction false} ToBeAt(n: nat, k: nat, i: nat)
    requires i < k
    ensures ToBe(n, k)[i] == n / Pow256(k - 1 - i) % 256
  {
    if i < k - 1 {
      ToBeAt(n / 256, k - 1, i);
      DivideTwice(n, k - 2 - i);
    }
  }

  /**
    The header is the five letters SMMS1 and the number of records; a record is
    its two lengths, key and value; and the records stand in their order.
   */
  lemma EncodedBytes(es: seq<Entry>, e: Entry)
    ensures Encode(es)[..13] == [83, 77, 77, 83, 49] + U64(|es|)
    ensures Encode([])[13..] == []
    ensures Encode(es + [e])[13..] == Encode(es)[13..] + U64(|e.key|) + U64(|e.value|) + e.key + e.value
  {
    EncodeAppend(es, e);
    assert Encode(es + [e])[13..] == EncodeEntries(es + [e]) && Encode(es)[13..] == EncodeEntries(es);
  }
}
