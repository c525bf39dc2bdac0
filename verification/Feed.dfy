/** Merging the decrypted history with the pending messages into the shown list. */
module Feed {
  import opened Common
  import opened Sorting

  const MAX_SAFE_INTEGER := 9007199254740991

  /** A message; an absent field is the empty string, and a missing message has no client id. */
  datatype Message = Message(clientId: string, id: string, serverSeq: Option<int>, timestamp: string, content: string)

  /** `Date.parse` and `localeCompare`. */
  datatype Locale = Locale(parseDate: string -> Option<int>, collate: Compare<string>)

  // ---------------------------------------------------------------------------
  // The comparator
  // ---------------------------------------------------------------------------

  predicate AllDigits(s: string) {
    forall i :: 0 <= i < |s| ==> '0' <= s[i] <= '9'
  }

  function Number(digits: string): nat
    requires AllDigits(digits)
  {
    if digits == "" then 0
    else 10 * Number(digits[..|digits| - 1]) + (digits[|digits| - 1] - '0') as nat
  }

  function Sequence(m: Message): int {
    if "mls:" < m.id && AllDigits(m.id[4..]) then Number(m.id[4..])
    else if m.serverSeq.Some? && -MAX_SAFE_INTEGER <= m.serverSeq.value <= MAX_SAFE_INTEGER then m.serverSeq.value
    else MAX_SAFE_INTEGER
  }

  function Timestamp(loc: Locale, m: Message): int {
    var parsed := loc.parseDate(m.timestamp);
    if parsed.Some? then parsed.value else 0
  }

  function Comparing(loc: Locale, l: Message, r: Message): int {
    if Timestamp(loc, l) != Timestamp(loc, r) then Timestamp(loc, l) - Timestamp(loc, r)
    else if Sequence(l) != Sequence(r) then Sequence(l) - Sequence(r)
    else loc.collate(l.clientId, r.clientId)
  }

  function ByTime(loc: Locale): Compare<Message> {
    (l, r) => Comparing(loc, l, r)
  }

  /** A consistent collation makes the whole comparator consistent. */
  lemma ByTimeIsComparator(loc: Locale)
    requires Comparator(loc.collate)
    ensures Comparator(ByTime(loc))
  {
    forall a: Message, b: Message, c: Message
      ensures ByTime(loc)(a, b) <= 0 || ByTime(loc)(b, a) <= 0
      ensures ByTime(loc)(a, b) < 0 <==> ByTime(loc)(b, a) > 0
      ensures ByTime(loc)(a, b) <= 0 && ByTime(loc)(b, c) <= 0 ==> ByTime(loc)(a, c) <= 0
    {
      assert loc.collate(a.clientId, b.clientId) < 0 <==> loc.collate(b.clientId, a.clientId) > 0;
    }
  }

  // ---------------------------------------------------------------------------
  // Which messages are shown
  // ---------------------------------------------------------------------------

  /** The last message with the id. */
  function LastWith(ms: seq<Message>, id: string): Option<Message> {
    if ms == [] then None
    else if ms[|ms| - 1].clientId == id then Some(ms[|ms| - 1])
    else LastWith(ms[..|ms| - 1], id)
  }

  /** The first message with the id. */
  function FirstWith(ms: seq<Message>, id: string): Option<Message> {
    if ms == [] then None
    else
      var early := FirstWith(ms[..|ms| - 1], id);
      if early.Some? then early
      else if ms[|ms| - 1].clientId == id then Some(ms[|ms| - 1]) else None
  }

  /** The message shown for an id: the last decrypted one, else the first pending one. */
  function Shown(decrypted: seq<Message>, pending: seq<Message>, id: string): Option<Message> {
    if id == "" then None
    else
      var confirmed := LastWith(decrypted, id);
      if confirmed.Some? then confirmed else FirstWith(pending, id)
  }

  /** The ids in the order of their first arrival. */
  function Ids(ms: seq<Message>): seq<string> {
    if ms == [] then []
    else
      var ids, last := Ids(ms[..|ms| - 1]), ms[|ms| - 1].clientId;
      if last == "" || last in ids then ids else ids + [last]
  }

  predicate Unique(ids: seq<string>) {
    forall i, j :: 0 <= i < j < |ids| ==> ids[i] != ids[j]
  }

  lemma {:induction false} IdsMeans(ms: seq<Message>)
    ensures Unique(Ids(ms))
    ensures forall id :: id in Ids(ms) <==> id != "" && exists m :: m in ms && m.clientId == id
  {
    if ms != [] {
      var n := |ms| - 1;
      IdsMeans(ms[..n]);
      assert ms == ms[..n] + [ms[n]];
      forall id ensures id in Ids(ms) <==> id != "" && exists m :: m in ms && m.clientId == id {
        if id in Ids(ms[..n]) {
          var m :| m in ms[..n] && m.clientId == id;
          assert m in ms;
        } else if id == ms[n].clientId {
          assert ms[n] in ms;
        }
      }
    }
  }

  lemma {:induction false} LastMeans(ms: seq<Message>, id: string)
    ensures LastWith(ms, id).Some? ==> LastWith(ms, id).value in ms && LastWith(ms, id).value.clientId == id
    ensures LastWith(ms, id).None? ==> forall m :: m in ms ==> m.clientId != id
  {
    if ms != [] {
      LastMeans(ms[..|ms| - 1], id);
      assert ms == ms[..|ms| - 1] + [ms[|ms| - 1]];
    }
  }

  lemma {:induction false} FirstMeans(ms: seq<Message>, id: string)
    ensures FirstWith(ms, id).Some? ==> FirstWith(ms, id).value in ms && FirstWith(ms, id).value.clientId == id
    ensures FirstWith(ms, id).None? ==> forall m :: m in ms ==> m.clientId != id
  {
    if ms != [] {
      FirstMeans(ms[..|ms| - 1], id);
      assert ms == ms[..|ms| - 1] + [ms[|ms| - 1]];
    }
  }

  /** Exactly the ids that arrived are shown, each by a message of that id. */
  lemma ShownMeans(decrypted: seq<Message>, pending: seq<Message>, id: string)
    ensures Shown(decrypted, pending, id).Some? <==> id in Ids(decrypted + pending)
    ensures Shown(decrypted, pending, id).Some? ==>
              Shown(decrypted, pending, id).value.clientId == id && Shown(decrypted, pending, id).value in decrypted + pending
  {
    LastMeans(decrypted, id);
    FirstMeans(pending, id);
    IdsMeans(decrypted + pending);
    var shown := Shown(decrypted, pending, id);
    if shown.Some? {
      assert shown.value in decrypted + pending;
    }
  }

  function ShownAll(decrypted: seq<Message>, pending: seq<Message>, ids: seq<string>): seq<Message> {
    if ids == [] then []
    else
      var m := Shown(decrypted, pending, ids[|ids| - 1]);
      ShownAll(decrypted, pending, ids[..|ids| - 1]) + if m.Some? then [m.value] else []
  }

  /** The shown messages in the order their ids arrived. */
  function Arrivals(decrypted: seq<Message>, pending: seq<Message>): seq<Message> {
    ShownAll(decrypted, pending, Ids(decrypted + pending))
  }

  function Merged(loc: Locale, decrypted: seq<Message>, pending: seq<Message>): seq<Message> {
    Sort(ByTime(loc), Arrivals(decrypted, pending))
  }

  lemma {:induction false} ShownAllAt(decrypted: seq<Message>, pending: seq<Message>, ids: seq<string>)
    requires forall id :: id in ids ==> Shown(decrypted, pending, id).Some?
    ensures var all := ShownAll(decrypted, pending, ids);
            |all| == |ids| && forall i :: 0 <= i < |ids| ==> Some(all[i]) == Shown(decrypted, pending, ids[i])
  {
    if ids != [] {
      var n := |ids| - 1;
      assert forall id :: id in ids[..n] ==> id in ids;
      ShownAllAt(decrypted, pending, ids[..n]);
      assert ids[n] in ids;
    }
  }

  predicate UniqueIds(ms: seq<Message>) {
    forall i, j :: 0 <= i < j < |ms| ==> ms[i].clientId != ms[j].clientId
  }

  /** The messages that arrive are the shown ones, one for each id. */
  lemma ArrivalsMeans(decrypted: seq<Message>, pending: seq<Message>)
    ensures UniqueIds(Arrivals(decrypted, pending))
    ensures forall m :: m in Arrivals(decrypted, pending) <==> Shown(decrypted, pending, m.clientId) == Some(m)
  {
    var ids := Ids(decrypted + pending);
    IdsMeans(decrypted + pending);
    forall id ensures Shown(decrypted, pending, id).Some? <==> id in ids { ShownMeans(decrypted, pending, id); }
    ShownAllAt(decrypted, pending, ids);
    var all := Arrivals(decrypted, pending);
    forall i | 0 <= i < |ids| ensures all[i].clientId == ids[i] { ShownMeans(decrypted, pending, ids[i]); }
    forall m ensures m in all <==> Shown(decrypted, pending, m.clientId) == Some(m) {
      if Shown(decrypted, pending, m.clientId) == Some(m) {
        var i :| 0 <= i < |ids| && ids[i] == m.clientId;
        assert all[i] == m;
      }
    }
  }

  /** What one more message changes. */
  lemma Arrives(ms: seq<Message>, m: Message)
    ensures Ids(ms + [m]) == if m.clientId == "" || m.clientId in Ids(ms) then Ids(ms) else Ids(ms) + [m.clientId]
    ensures forall id :: LastWith(ms + [m], id) == if m.clientId == id then Some(m) else LastWith(ms, id)
    ensures forall id :: FirstWith(ms + [m], id)
                == if FirstWith(ms, id).Some? then FirstWith(ms, id) else if m.clientId == id then Some(m) else None
  {
    assert (ms + [m])[..|ms|] == ms;
  }

  function Look(messages: map<string, Message>, id: string): Option<Message> {
    if id in messages then Some(messages[id]) else None
  }

  /** The map and its insertion order after the given inputs. */
  ghost predicate Filled(keys: seq<string>, messages: map<string, Message>, decrypted: seq<Message>, pending: seq<Message>) {
    && keys == Ids(decrypted + pending)
    && forall id :: Look(messages, id) == Shown(decrypted, pending, id)
  }

  lemma FilledKeys(keys: seq<string>, messages: map<string, Message>, decrypted: seq<Message>, pending: seq<Message>, id: string)
    requires Filled(keys, messages, decrypted, pending)
    ensures id in messages <==> id in keys
  {
    assert Look(messages, id) == Shown(decrypted, pending, id);
    ShownMeans(decrypted, pending, id);
  }

  lemma ConfirmedShown(decrypted: seq<Message>, m: Message, id: string)
    ensures Shown(decrypted + [m], [], id) == if id != "" && m.clientId == id then Some(m) else Shown(decrypted, [], id)
  {
    Arrives(decrypted, m);
  }

  lemma PendingShown(decrypted: seq<Message>, pending: seq<Message>, m: Message, id: string)
    ensures var before := Shown(decrypted, pending, id);
            Shown(decrypted, pending + [m], id) == if id != "" && m.clientId == id && before.None? then Some(m) else before
  {
    Arrives(pending, m);
  }

  lemma AfterConfirmed(keys: seq<string>, messages: map<string, Message>, decrypted: seq<Message>, m: Message)
    requires Filled(keys, messages, decrypted, [])
    ensures m.clientId == "" ==> Filled(keys, messages, decrypted + [m], [])
    ensures m.clientId != "" ==>
              Filled(if m.clientId in messages then keys else keys + [m.clientId], messages[m.clientId := m], decrypted + [m], [])
  {
    Arrives(decrypted, m);
    assert decrypted + [] == decrypted && decrypted + [m] + [] == decrypted + [m];
    FilledKeys(keys, messages, decrypted, [], m.clientId);
    forall id ensures Shown(decrypted + [m], [], id) == if id != "" && m.clientId == id then Some(m) else Look(messages, id) {
      ConfirmedShown(decrypted, m, id);
      assert Look(messages, id) == Shown(decrypted, [], id);
    }
  }

  lemma AfterPending(keys: seq<string>, messages: map<string, Message>, decrypted: seq<Message>, pending: seq<Message>, m: Message)
    requires Filled(keys, messages, decrypted, pending)
    ensures m.clientId == "" || m.clientId in messages ==> Filled(keys, messages, decrypted, pending + [m])
    ensures m.clientId != "" && m.clientId !in messages ==>
              Filled(keys + [m.clientId], messages[m.clientId := m], decrypted, pending + [m])
  {
    Arrives(decrypted + pending, m);
    assert decrypted + (pending + [m]) == decrypted + pending + [m];
    FilledKeys(keys, messages, decrypted, pending, m.clientId);
    forall id ensures Shown(decrypted, pending + [m], id)
        == if id != "" && m.clientId == id && id !in messages then Some(m) else Look(messages, id) {
      PendingShown(decrypted, pending, m, id);
      assert Look(messages, id) == Shown(decrypted, pending, id);
    }
  }

  /** `mergeMessageFeed`: a map filled in arrival order, its values sorted. */
  method MergeMessageFeed(loc: Locale, decrypted: seq<Message>, pending: seq<Message>) returns (feed: seq<Message>)
    requires Comparator(loc.collate)
    ensures feed == Merged(loc, decrypted, pending)
    ensures forall i, j :: 0 <= i < j < |feed| ==> Comparing(loc, feed[i], feed[j]) <= 0
    ensures UniqueIds(feed)
    ensures forall m :: m in feed <==> Shown(decrypted, pending, m.clientId) == Some(m)
  {
    var keys: seq<string>, messages: map<string, Message> := [], map[];
    for i := 0 to |decrypted|
      invariant Filled(keys, messages, decrypted[..i], [])
    {
      var m := decrypted[i];
      AfterConfirmed(keys, messages, decrypted[..i], m);
      assert decrypted[..i + 1] == decrypted[..i] + [m];
      if m.clientId != "" {
        if m.clientId !in messages { keys := keys + [m.clientId]; }
        messages := messages[m.clientId := m];
      }
    }
    assert decrypted[..|decrypted|] == decrypted;
    for i := 0 to |pending|
      invariant Filled(keys, messages, decrypted, pending[..i])
    {
      var m := pending[i];
      AfterPending(keys, messages, decrypted, pending[..i], m);
      assert pending[..i + 1] == pending[..i] + [m];
      if m.clientId == "" || m.clientId in messages { continue; }
      keys := keys + [m.clientId];
      messages := messages[m.clientId := m];
    }
    assert pending[..|pending|] == pending;
    var values: seq<Message> := [];
    for i := 0 to |keys|
      invariant values == ShownAll(decrypted, pending, keys[..i])
    {
      assert keys[..i + 1][..i] == keys[..i];
      FilledKeys(keys, messages, decrypted, pending, keys[i]);
      assert Look(messages, keys[i]) == Shown(decrypted, pending, keys[i]);
      values := values + [messages[keys[i]]];
    }
    assert keys[..|keys|] == keys;
    feed := Sort(ByTime(loc), values);
    MergedMeans(loc, decrypted, pending);
  }

  /** The shown list: sorted, one message for each id, and exactly the shown ones. */
  lemma MergedMeans(loc: Locale, decrypted: seq<Message>, pending: seq<Message>)
    requires Comparator(loc.collate)
    ensures var feed := Merged(loc, decrypted, pending);
            && (forall i, j :: 0 <= i < j < |feed| ==> Comparing(loc, feed[i], feed[j]) <= 0)
            && UniqueIds(feed)
            && (forall m :: m in feed <==> Shown(decrypted, pending, m.clientId) == Some(m))
  {
    var arrivals, feed := Arrivals(decrypted, pending), Merged(loc, decrypted, pending);
    ByTimeIsComparator(loc);
    SortIsStable(ByTime(loc), arrivals);
    SortHas(ByTime(loc), arrivals);
    ArrivalsMeans(decrypted, pending);
    forall i, j | 0 <= i < j < |feed| ensures Comparing(loc, feed[i], feed[j]) <= 0 {
      SortedPairs(ByTime(loc), feed, i, j);
    }
    SortMembers(ByTime(loc), arrivals);
    UniqueIdsOfMultiset(arrivals, feed);
  }

  lemma UniqueIdsOfMultiset(s: seq<Message>, t: seq<Message>)
    requires UniqueIds(s) && multiset(s) == multiset(t)
    ensures UniqueIds(t)
  {
    RepeatsRearranged(s, t);
    forall i, j | 0 <= i < j < |t| ensures t[i].clientId != t[j].clientId {
      assert t[i] in s && t[j] in s;
    }
  }

  // ---------------------------------------------------------------------------
  // The list does not depend on the order of its inputs
  // ---------------------------------------------------------------------------

  /** No two messages with the same id, those without an id aside. */
  predicate OneEach(ms: seq<Message>) {
    forall i, j :: 0 <= i < j < |ms| && ms[i].clientId != "" ==> ms[i].clientId != ms[j].clientId
  }

  lemma TheOne(ms: seq<Message>, id: string, m: Message)
    requires OneEach(ms) && id != "" && m in ms && m.clientId == id
    ensures LastWith(ms, id) == Some(m) && FirstWith(ms, id) == Some(m)
  {
    LastMeans(ms, id);
    FirstMeans(ms, id);
  }

  /** Among rearranged messages with distinct ids each id is found alike. */
  lemma FoundAlike(ms: seq<Message>, ns: seq<Message>, id: string)
    requires OneEach(ms) && OneEach(ns) && multiset(ms) == multiset(ns) && id != ""
    ensures LastWith(ms, id) == LastWith(ns, id) && FirstWith(ms, id) == FirstWith(ns, id)
  {
    forall m ensures m in ms <==> m in ns { assert m in multiset(ms) <==> m in multiset(ns); }
    LastMeans(ms, id);
    LastMeans(ns, id);
    FirstMeans(ms, id);
    FirstMeans(ns, id);
    if LastWith(ms, id).Some? {
      TheOne(ms, id, LastWith(ms, id).value);
      TheOne(ns, id, LastWith(ms, id).value);
    }
  }

  /** Lists without repeated ids and with the same elements are rearrangements of each other. */
  lemma SameElements(s: seq<Message>, t: seq<Message>)
    requires UniqueIds(s) && UniqueIds(t) && forall m :: m in s <==> m in t
    ensures multiset(s) == multiset(t)
  {
    RepeatsCount(s);
    RepeatsCount(t);
    forall m ensures multiset(s)[m] == multiset(t)[m] {
      assert m in multiset(s) <==> m in s;
      assert m in multiset(t) <==> m in t;
    }
  }

  /** Any two inputs are shown alike exactly when messages that tie arrive in the same order. */
  lemma ShownAlikeExactly(loc: Locale, decrypted: seq<Message>, pending: seq<Message>, others: seq<Message>, waiting: seq<Message>)
    requires Comparator(loc.collate)
    ensures Merged(loc, decrypted, pending) == Merged(loc, others, waiting)
       <==> SameTies(ByTime(loc), Arrivals(decrypted, pending), Arrivals(others, waiting))
  {
    ByTimeIsComparator(loc);
    SortsAlikeExactly(ByTime(loc), Arrivals(decrypted, pending), Arrivals(others, waiting));
  }

  /** With distinct ids that never collate as equal, rearranging either input changes nothing. */
  lemma OrderDoesNotMatter(loc: Locale, decrypted: seq<Message>, pending: seq<Message>, others: seq<Message>, waiting: seq<Message>)
    requires Comparator(loc.collate)
    requires forall x, y :: x in decrypted + pending && y in decrypted + pending && loc.collate(x.clientId, y.clientId) == 0
               ==> x.clientId == y.clientId
    requires OneEach(decrypted) && OneEach(pending) && OneEach(others) && OneEach(waiting)
    requires multiset(decrypted) == multiset(others) && multiset(pending) == multiset(waiting)
    ensures Merged(loc, decrypted, pending) == Merged(loc, others, waiting)
  {
    var s, t := Arrivals(decrypted, pending), Arrivals(others, waiting);
    ArrivalsMeans(decrypted, pending);
    ArrivalsMeans(others, waiting);
    forall m ensures m in s <==> m in t {
      if m.clientId != "" {
        FoundAlike(decrypted, others, m.clientId);
        FoundAlike(pending, waiting, m.clientId);
      }
    }
    SameElements(s, t);
    forall m | m in s ensures m in decrypted + pending { ShownMeans(decrypted, pending, m.clientId); }
    ByTimeIsComparator(loc);
    RearrangedSortsAlike(ByTime(loc), s, t);
  }

  /** Two messages keep their places under a swap exactly when they do not tie. */
  lemma TwoMessages(loc: Locale, a: Message, b: Message)
    requires Comparator(loc.collate) && a.clientId != "" && b.clientId != "" && a.clientId != b.clientId
    ensures Merged(loc, [a, b], []) == Merged(loc, [b, a], []) <==> Comparing(loc, a, b) != 0
  {
    ByTimeIsComparator(loc);
    Two(a, b);
    Two(b, a);
    assert ByTime(loc)(a, b) < 0 <==> ByTime(loc)(b, a) > 0;
    SortTwo(ByTime(loc), a, b);
    SortTwo(ByTime(loc), b, a);
    assert [a, b][0] != [b, a][0];
  }

  lemma Two(a: Message, b: Message)
    requires a.clientId != "" && b.clientId != "" && a.clientId != b.clientId
    ensures Arrivals([a, b], []) == [a, b]
  {
    TwoIds(a, b);
    ConfirmedShown([a], b, a.clientId);
    ConfirmedShown([a], b, b.clientId);
    ConfirmedShown([], a, a.clientId);
    assert [] + [a] == [a] && [a] + [b] == [a, b] && [a, b] + [] == [a, b];
    var ids := [a.clientId, b.clientId];
    ShownAllAt([a, b], [], ids);
    assert ids[0] == a.clientId && ids[1] == b.clientId;
  }

  lemma TwoIds(a: Message, b: Message)
    requires a.clientId != "" && b.clientId != "" && a.clientId != b.clientId
    ensures Ids([a, b]) == [a.clientId, b.clientId]
  {
    Arrives([], a);
    assert [] + [a] == [a];
    Arrives([a], b);
    assert [a] + [b] == [a, b];
  }

  // ---------------------------------------------------------------------------
  // Merging again
  // ---------------------------------------------------------------------------

  function IdList(ms: seq<Message>): (ids: seq<string>)
    ensures |ids| == |ms|
  {
    seq(|ms|, i requires 0 <= i < |ms| => ms[i].clientId)
  }

  lemma {:induction false} IdsOfUnique(feed: seq<Message>, pending: seq<Message>)
    requires Unique(IdList(feed)) && "" !in IdList(feed)
    requires forall p :: p in pending && p.clientId != "" ==> p.clientId in IdList(feed)
    ensures Ids(feed + pending) == IdList(feed)
    decreases |feed| + |pending|
  {
    if pending != [] {
      var k := |pending| - 1;
      assert pending[k] in pending;
      IdsOfUnique(feed, pending[..k]);
      Arrives(feed + pending[..k], pending[k]);
      assert feed + pending == feed + pending[..k] + [pending[k]];
    } else if feed != [] {
      var n := |feed| - 1;
      var ids := IdList(feed);
      assert IdList(feed[..n]) == ids[..n] && ids == ids[..n] + [feed[n].clientId];
      assert ids[n] == feed[n].clientId;
      IdsOfUnique(feed[..n], []);
      Arrives(feed[..n], feed[n]);
      assert feed[..n] + [] == feed[..n] && feed + [] == feed[..n] + [feed[n]];
    }
  }

  /** A shown list merged again, with pending messages it already covers, stays as it is. */
  lemma MergingAgain(loc: Locale, decrypted: seq<Message>, pending: seq<Message>, late: seq<Message>)
    requires Comparator(loc.collate)
    requires forall p :: p in late && p.clientId != "" ==> Shown(decrypted, pending, p.clientId).Some?
    ensures Merged(loc, Merged(loc, decrypted, pending), late) == Merged(loc, decrypted, pending)
  {
    var feed := Merged(loc, decrypted, pending);
    MergedMeans(loc, decrypted, pending);
    forall p | p in late && p.clientId != "" ensures p.clientId in IdList(feed) {
      ShownMeans(decrypted, pending, p.clientId);
      var m := Shown(decrypted, pending, p.clientId).value;
      var i :| 0 <= i < |feed| && feed[i] == m;
      assert IdList(feed)[i] == p.clientId;
    }
    forall m | m in feed ensures m.clientId != "" {
    }
    IdsOfUnique(feed, late);
    var ids := Ids(feed + late);
    forall i | 0 <= i < |feed| ensures Shown(feed, late, ids[i]) == Some(feed[i]) {
      TheOne(feed, feed[i].clientId, feed[i]);
    }
    ShownAllAt(feed, late, ids);
    assert Arrivals(feed, late) == feed;
    ByTimeIsComparator(loc);
    SortIsStable(ByTime(loc), Arrivals(decrypted, pending));
    SortIsStable(ByTime(loc), feed);
    SortedIsUnique(ByTime(loc), Sort(ByTime(loc), feed), feed);
  }
}
