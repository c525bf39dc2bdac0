/** What the message list does not depend on, and what each message ends up showing. */
module LifecycleLaws {
  import opened Common
  import opened Lifecycle

  // ---------------------------------------------------------------------------
  // Replays
  // ---------------------------------------------------------------------------

  lemma Snoc(events: seq<Event>, e: Event)
    ensures Firsts(events + [e]) ==
              if e.item.None? || e.item.value.clientId in Seen(events) then Firsts(events) else Firsts(events) + [e]
    ensures Seen(events + [e]) == Seen(events) + (if e.item.Some? then {e.item.value.clientId} else {})
  {
    assert (events + [e])[..|events|] == events;
  }

  lemma {:induction false} FirstsReplay(a: seq<Event>, event: Event, b: seq<Event>)
    requires event.item.Some? ==> event.item.value.clientId in Seen(a)
    ensures Firsts(a + [event] + b) == Firsts(a + b)
    ensures Seen(a + [event] + b) == Seen(a + b)
  {
    if b == [] {
      assert a + [] == a && a + [event] + [] == a + [event];
      Snoc(a, event);
    } else {
      var n := |b| - 1;
      FirstsReplay(a, event, b[..n]);
      SameAfter(a + [event] + b[..n], a + b[..n], b[n], a + [event] + b, a + b);
    }
  }

  lemma SameAfter(x: seq<Event>, y: seq<Event>, e: Event, x': seq<Event>, y': seq<Event>)
    requires Firsts(x) == Firsts(y) && Seen(x) == Seen(y)
    requires x' == x + [e] && y' == y + [e]
    ensures Firsts(x') == Firsts(y') && Seen(x') == Seen(y')
  {
    Snoc(x, e);
    Snoc(y, e);
  }

  /** An event whose client id was met before, or that did not decrypt, never changes the list, wherever it stands. */
  lemma ReplayChangesNothing(a: seq<Event>, event: Event, b: seq<Event>)
    requires event.item.Some? ==> event.item.value.clientId in Seen(a)
    ensures View(a + [event] + b) == View(a + b)
  {
    FirstsReplay(a, event, b);
  }

  // ---------------------------------------------------------------------------
  // Interleavings
  // ---------------------------------------------------------------------------

  ghost predicate DistinctEvents(events: seq<Event>) {
    forall i, j :: 0 <= i < j < |events| && events[i].item.Some? && events[j].item.Some? ==>
      events[i].item.value.clientId != events[j].item.value.clientId
  }

  lemma {:induction false} DistinctAreFirsts(events: seq<Event>)
    requires DistinctEvents(events)
    ensures Bases(Firsts(events)) == Bases(events) && Mutations(Firsts(events)) == Mutations(events)
  {
    if events != [] {
      var n := |events| - 1;
      DistinctAreFirsts(events[..n]);
      assert events == events[..n] + [events[n]];
      Snoc(events[..n], events[n]);
      if events[n].item.Some? {
        OneMoreFirst(Firsts(events[..n]), events[n]);
      }
    }
  }

  /**
    With distinct client ids the list depends only on the order of the messages
    among themselves and of the mutations among themselves: however the two
    streams interleave, the view is the same.
   */
  lemma InterleavingDoesNotMatter(events: seq<Event>, shuffled: seq<Event>)
    requires DistinctEvents(events) && DistinctEvents(shuffled)
    requires Bases(events) == Bases(shuffled) && Mutations(events) == Mutations(shuffled)
    ensures View(events) == View(shuffled)
  {
    DistinctAreFirsts(events);
    DistinctAreFirsts(shuffled);
  }

  // ---------------------------------------------------------------------------
  // Each client id once
  // ---------------------------------------------------------------------------

  lemma {:induction false} SeenGrows(events: seq<Event>)
    ensures forall e :: e in Firsts(events) ==> e.item.value.clientId in Seen(events)
  {
    if events != [] {
      var n := |events| - 1;
      SeenGrows(events[..n]);
      forall x | x in Seen(events[..n]) ensures x in Seen(events) {
        var e :| e in events[..n] && e.item.Some? && e.item.value.clientId == x;
        assert e in events;
      }
      assert events[n] in events;
    }
  }

  lemma {:induction false} FirstsDistinct(events: seq<Event>)
    ensures DistinctEvents(Firsts(events))
  {
    if events != [] {
      var n := |events| - 1;
      FirstsDistinct(events[..n]);
      SeenGrows(events[..n]);
    }
  }

  lemma {:induction false} BasesDistinct(events: seq<Event>)
    requires DistinctEvents(events)
    ensures DistinctEvents(Bases(events))
    ensures forall i :: 0 <= i < |Bases(events)| ==> Bases(events)[i] in events
  {
    if events != [] {
      var n := |events| - 1;
      BasesDistinct(events[..n]);
      forall i | 0 <= i < |Bases(events)| ensures Bases(events)[i] in events {
        if i < |Bases(events[..n])| { assert Bases(events[..n])[i] in events[..n]; }
      }
      forall i | 0 <= i < |Bases(events[..n])| && events[n].item.Some?
        ensures Bases(events[..n])[i].item.value.clientId != events[n].item.value.clientId
      {
        assert Bases(events[..n])[i] in events[..n];
      }
    }
  }

  /** No client id is ever shown twice, however often its envelopes were stored or delivered. */
  lemma ShownOnce(events: seq<Event>, i: nat, j: nat)
    requires i < j < |View(events)|
    ensures View(events)[i].clientId != View(events)[j].clientId
  {
    var firsts := Firsts(events);
    FirstsDistinct(events);
    BasesDistinct(firsts);
    var bases := Bases(firsts);
    FinalKeepsIdentity(NewMessage(bases[i]), Mutations(firsts));
    FinalKeepsIdentity(NewMessage(bases[j]), Mutations(firsts));
  }

  // ---------------------------------------------------------------------------
  // Edits and deletions
  // ---------------------------------------------------------------------------

  /** Who wrote a message: the same non-empty login, or the same device where either login is missing. */
  predicate Wrote(m: Message, item: Item) {
    if item.sender.Some? && item.sender.value != "" && m.sender.Some? && m.sender.value != ""
    then item.sender.value == m.sender.value
    else item.device == m.device
  }

  predicate OwnEdit(m: Message, item: Item) {
    item.body.Edit? && item.body.target == m.clientId && Wrote(m, item)
  }

  predicate OwnDelete(m: Message, item: Item) {
    item.body.Delete? && item.body.target == m.clientId && Wrote(m, item)
  }

  function LastOwnEdit(m: Message, mutations: seq<Item>): (r: Option<Item>)
    ensures r.None? <==> forall i :: 0 <= i < |mutations| ==> !OwnEdit(m, mutations[i])
    ensures r.Some? ==> r.value.body.Edit?
  {
    if mutations == [] then None
    else
      var n := |mutations| - 1;
      if OwnEdit(m, mutations[n]) then Some(mutations[n]) else LastOwnEdit(m, mutations[..n])
  }

  function LastOwnDelete(m: Message, mutations: seq<Item>): (r: Option<Item>)
    ensures r.None? <==> forall i :: 0 <= i < |mutations| ==> !OwnDelete(m, mutations[i])
  {
    if mutations == [] then None
    else
      var n := |mutations| - 1;
      if OwnDelete(m, mutations[n]) then Some(mutations[n]) else LastOwnDelete(m, mutations[..n])
  }

  /** The mutations before the first deletion by the author. */
  function BeforeDelete(m: Message, mutations: seq<Item>): seq<Item> {
    if mutations == [] then []
    else
      var n := |mutations| - 1;
      if LastOwnDelete(m, mutations[..n]).Some? || OwnDelete(m, mutations[n]) then BeforeDelete(m, mutations[..n]) else mutations
  }

  /** Without a deletion by the author, the author's last edit shows. */
  lemma {:induction false} EditsOnly(m: Message, mutations: seq<Item>)
    requires m.editedAt.None? && m.deletedAt.None?
    requires LastOwnDelete(m, mutations).None?
    ensures var f := Final(m, mutations);
            var edit := LastOwnEdit(m, mutations);
            && f.content == (if edit.Some? then Some(edit.value.body.replacement) else m.content)
            && f.editedAt == (if edit.Some? then Some(edit.value.sentAt) else None)
            && f.deletedAt == None
    ensures BeforeDelete(m, mutations) == mutations
  {
    if mutations != [] {
      var n := |mutations| - 1;
      assert !OwnDelete(m, mutations[n]);
      EditsOnly(m, mutations[..n]);
      FinalKeepsIdentity(m, mutations[..n]);
    }
  }

  /**
    A message ends deleted and empty exactly when its author deleted it at some
    point, whatever edits surround the deletion; otherwise it shows its author's
    last edit, or what it was sent with.
   */
  lemma {:induction false} FinalContent(m: Message, mutations: seq<Item>)
    requires m.editedAt.None? && m.deletedAt.None?
    ensures var f := Final(m, mutations);
            var deletion := LastOwnDelete(m, mutations);
            var edit := LastOwnEdit(m, BeforeDelete(m, mutations));
            && f.content == (if deletion.Some? then Some("") else if edit.Some? then Some(edit.value.body.replacement) else m.content)
            && f.deletedAt == (if deletion.Some? then Some(deletion.value.sentAt) else None)
            && f.editedAt == (if edit.Some? then Some(edit.value.sentAt) else None)
  {
    if LastOwnDelete(m, mutations).None? {
      EditsOnly(m, mutations);
    } else {
      var n := |mutations| - 1;
      FinalContent(m, mutations[..n]);
      FinalKeepsIdentity(m, mutations[..n]);
      var f := Final(m, mutations[..n]);
      assert OwnDelete(m, mutations[n]) == OwnDelete(f, mutations[n]);
    }
  }

  predicate Foreign(m: Message, item: Item) {
    (item.body.Edit? || item.body.Delete?) && item.body.target == m.clientId && !Wrote(m, item)
  }

  /** Edits and deletions by others leave the message as if they had never been sent. */
  lemma {:induction false} ForeignIgnored(m: Message, mutations: seq<Item>, kept: seq<Item>, keep: Item -> bool)
    requires kept == Filter(mutations, keep)
    requires forall i :: 0 <= i < |mutations| && !keep(mutations[i]) && Targets(mutations[i], m.clientId) ==> Foreign(m, mutations[i])
    ensures Final(m, kept) == Final(m, mutations)
  {
    if mutations != [] {
      var n := |mutations| - 1;
      ForeignIgnored(m, mutations[..n], Filter(mutations[..n], keep), keep);
      FinalKeepsIdentity(m, mutations[..n]);
      if keep(mutations[n]) {
        assert kept[..|kept| - 1] == Filter(mutations[..n], keep);
      } else {
        assert kept == Filter(mutations[..n], keep);
      }
    }
  }

  function Filter(items: seq<Item>, keep: Item -> bool): seq<Item> {
    if items == [] then []
    else
      var n := |items| - 1;
      Filter(items[..n], keep) + (if keep(items[n]) then [items[n]] else [])
  }

  /** True of every event but the edits and deletions whose target was written by somebody else. */
  predicate Authored(item: Item, bases: seq<Event>)
    requires forall i :: 0 <= i < |bases| ==> bases[i].item.Some? && IsBase(bases[i].item.value.body)
  {
    forall i :: 0 <= i < |bases| ==> !Foreign(NewMessage(bases[i]), item)
  }

  function AuthoredOnly(events: seq<Event>, bases: seq<Event>): seq<Event>
    requires forall i :: 0 <= i < |bases| ==> bases[i].item.Some? && IsBase(bases[i].item.value.body)
  {
    if events == [] then []
    else
      var n := |events| - 1;
      AuthoredOnly(events[..n], bases) + (if events[n].item.Some? && !Authored(events[n].item.value, bases) then [] else [events[n]])
  }

  lemma {:induction false} AuthoredStreams(events: seq<Event>, bases: seq<Event>)
    requires forall i :: 0 <= i < |bases| ==> bases[i].item.Some? && IsBase(bases[i].item.value.body)
    ensures Bases(AuthoredOnly(events, bases)) == Bases(events)
    ensures Mutations(AuthoredOnly(events, bases)) == Filter(Mutations(events), item => Authored(item, bases))
  {
    if events != [] {
      var n := |events| - 1;
      AuthoredStreams(events[..n], bases);
      assert events == events[..n] + [events[n]];
      AuthoredSnoc(events[..n], events[n], bases);
      StreamsSnoc(events[..n], events[n]);
      StreamsSnoc(AuthoredOnly(events[..n], bases), events[n]);
      MutationsSnoc(Mutations(events[..n]), events[n], bases);
    }
  }

  /** The filtered mutations of one more event. */
  lemma MutationsSnoc(items: seq<Item>, e: Event, bases: seq<Event>)
    requires forall i :: 0 <= i < |bases| ==> bases[i].item.Some? && IsBase(bases[i].item.value.body)
    ensures var more := if e.item.Some? && IsMutation(e.item.value.body) then [e.item.value] else [];
            Filter(items + more, item => Authored(item, bases)) ==
              Filter(items, item => Authored(item, bases)) + (if more != [] && Authored(more[0], bases) then more else [])
  {
    if e.item.None? || !IsMutation(e.item.value.body) { assert items + [] == items; }
  }

  lemma AuthoredSnoc(events: seq<Event>, e: Event, bases: seq<Event>)
    requires forall i :: 0 <= i < |bases| ==> bases[i].item.Some? && IsBase(bases[i].item.value.body)
    ensures AuthoredOnly(events + [e], bases)
         == if e.item.Some? && !Authored(e.item.value, bases) then AuthoredOnly(events, bases) else AuthoredOnly(events, bases) + [e]
  {
    assert (events + [e])[..|events|] == events;
    assert AuthoredOnly(events, bases) + [] == AuthoredOnly(events, bases);
  }

  lemma StreamsSnoc(events: seq<Event>, e: Event)
    ensures Bases(events + [e]) == Bases(events) + (if e.item.Some? && IsBase(e.item.value.body) then [e] else [])
    ensures Mutations(events + [e]) == Mutations(events) + (if e.item.Some? && IsMutation(e.item.value.body) then [e.item.value] else [])
  {
    assert (events + [e])[..|events|] == events;
  }

  lemma {:induction false} AuthoredSubset(events: seq<Event>, bases: seq<Event>)
    requires forall i :: 0 <= i < |bases| ==> bases[i].item.Some? && IsBase(bases[i].item.value.body)
    ensures forall e :: e in AuthoredOnly(events, bases) ==> e in events
  {
    if events != [] { AuthoredSubset(events[..|events| - 1], bases); }
  }

  lemma {:induction false} AuthoredDistinct(events: seq<Event>, bases: seq<Event>)
    requires DistinctEvents(events)
    requires forall i :: 0 <= i < |bases| ==> bases[i].item.Some? && IsBase(bases[i].item.value.body)
    ensures DistinctEvents(AuthoredOnly(events, bases))
  {
    if events != [] {
      var n := |events| - 1;
      AuthoredDistinct(events[..n], bases);
      AuthoredSubset(events[..n], bases);
      var kept := AuthoredOnly(events[..n], bases);
      forall i | 0 <= i < |kept| && kept[i].item.Some? && events[n].item.Some?
        ensures kept[i].item.value.clientId != events[n].item.value.clientId
      {
        assert kept[i] in events[..n];
      }
    }
  }

  /**
    Among the first occurrences of each client id, dropping every edit and
    deletion by somebody other than the author leaves the whole list as it is.
   */
  lemma OnlyAuthorsCount(events: seq<Event>)
    ensures View(AuthoredOnly(Firsts(events), Bases(Firsts(events)))) == View(events)
  {
    var firsts := Firsts(events);
    var bases := Bases(firsts);
    var kept := AuthoredOnly(firsts, bases);
    FirstsDistinct(events);
    AuthoredStreams(firsts, bases);
    AuthoredDistinct(firsts, bases);
    DistinctAreFirsts(kept);
    BasesDistinct(firsts);
    forall i | 0 <= i < |bases| ensures Final(NewMessage(bases[i]), Mutations(kept)) == Final(NewMessage(bases[i]), Mutations(firsts)) {
      AuthorsOfOne(bases, Mutations(firsts), i);
    }
    assert Finals(bases, Mutations(kept)) == Finals(bases, Mutations(firsts));
  }

  // ---------------------------------------------------------------------------
  // Dropping foreign edits before replays
  // ---------------------------------------------------------------------------

  ghost predicate AllBases(bases: seq<Event>) {
    forall i :: 0 <= i < |bases| ==> bases[i].item.Some? && IsBase(bases[i].item.value.body)
  }

  predicate Dropped(e: Event, bases: seq<Event>)
    requires forall i :: 0 <= i < |bases| ==> bases[i].item.Some? && IsBase(bases[i].item.value.body)
  {
    e.item.Some? && !Authored(e.item.value, bases)
  }

  predicate SameId(d: Event, e: Event) {
    d.item.Some? && e.item.Some? && d.item.value.clientId == e.item.value.clientId
  }

  /** A foreign edit or deletion that is the first with its client id, and a later event with that id that is kept. */
  ghost predicate HoldsBack(events: seq<Event>, bases: seq<Event>, i: nat, j: nat)
    requires AllBases(bases)
  {
    && i < j < |events| && Dropped(events[i], bases) && events[i].item.value.clientId !in Seen(events[..i])
    && !Dropped(events[j], bases) && SameId(events[i], events[j])
  }

  ghost predicate NoneHeldBack(events: seq<Event>, bases: seq<Event>)
    requires AllBases(bases)
  {
    forall i: nat, j: nat :: !HoldsBack(events, bases, i, j)
  }

  /** The kept events that count only once the foreign ones are gone. */
  function Revealed(events: seq<Event>, bases: seq<Event>): seq<Event>
    requires forall i :: 0 <= i < |bases| ==> bases[i].item.Some? && IsBase(bases[i].item.value.body)
  {
    if events == [] then []
    else
      var n := |events| - 1;
      var e := events[n];
      Revealed(events[..n], bases)
      + (if e.item.Some? && !Dropped(e, bases) && e.item.value.clientId in Seen(events[..n])
            && e.item.value.clientId !in Seen(AuthoredOnly(events[..n], bases)) then [e] else [])
  }

  lemma {:induction false} KeptExactly(events: seq<Event>, bases: seq<Event>)
    requires AllBases(bases)
    ensures forall e :: e in AuthoredOnly(events, bases) <==> e in events && !Dropped(e, bases)
  {
    if events != [] {
      var n := |events| - 1;
      KeptExactly(events[..n], bases);
      assert events == events[..n] + [events[n]];
    }
  }

  lemma KeptSeen(events: seq<Event>, bases: seq<Event>, id: ClientId)
    requires AllBases(bases)
    ensures id in Seen(AuthoredOnly(events, bases)) <==>
              exists k :: 0 <= k < |events| && !Dropped(events[k], bases) && events[k].item.Some? && events[k].item.value.clientId == id
  {
    KeptExactly(events, bases);
    if k :| 0 <= k < |events| && !Dropped(events[k], bases) && events[k].item.Some? && events[k].item.value.clientId == id {
      assert events[k] in AuthoredOnly(events, bases);
    }
  }

  lemma AuthoredOnlySnoc(events: seq<Event>, e: Event, bases: seq<Event>)
    requires AllBases(bases)
    ensures AuthoredOnly(events + [e], bases) == if Dropped(e, bases) then AuthoredOnly(events, bases) else AuthoredOnly(events, bases) + [e]
  {
    assert (events + [e])[..|events|] == events;
  }

  lemma RevealedSnoc(events: seq<Event>, e: Event, bases: seq<Event>)
    requires AllBases(bases)
    ensures Revealed(events + [e], bases) ==
              if e.item.Some? && !Dropped(e, bases) && e.item.value.clientId in Seen(events)
                 && e.item.value.clientId !in Seen(AuthoredOnly(events, bases))
              then Revealed(events, bases) + [e] else Revealed(events, bases)
  {
    assert (events + [e])[..|events|] == events;
  }

  /** The two orders of dropping, and the revealed events. */
  datatype Sides = Sides(early: seq<Event>, late: seq<Event>, revealed: seq<Event>)

  /** They differ by the revealed events, one for one. */
  predicate Differ(s: Sides) {
    && |s.early| == |s.late| + |s.revealed| && |Bases(s.early)| == |Bases(s.late)| + |Bases(s.revealed)|
    && (s.revealed == [] ==> s.early == s.late)
  }

  function SidesOf(events: seq<Event>, bases: seq<Event>): Sides
    requires forall i :: 0 <= i < |bases| ==> bases[i].item.Some? && IsBase(bases[i].item.value.body)
  {
    Sides(Firsts(AuthoredOnly(events, bases)), AuthoredOnly(Firsts(events), bases), Revealed(events, bases))
  }

  /** One more event goes to both sides, to neither, or is revealed. */
  lemma OneMoreOnSides(events: seq<Event>, e: Event, bases: seq<Event>)
    requires AllBases(bases)
    ensures var s, t := SidesOf(events, bases), SidesOf(events + [e], bases);
            || t == s
            || t == Sides(s.early + [e], s.late + [e], s.revealed)
            || t == Sides(s.early + [e], s.late, s.revealed + [e])
  {
    var kept := AuthoredOnly(events, bases);
    Snoc(events, e);
    AuthoredOnlySnoc(events, e, bases);
    RevealedSnoc(events, e, bases);
    if Dropped(e, bases) {
      AuthoredOnlySnoc(Firsts(events), e, bases);
    } else {
      Snoc(kept, e);
      if e.item.Some? {
        KeptSeen(events, bases, e.item.value.clientId);
        if e.item.value.clientId !in Seen(events) { AuthoredOnlySnoc(Firsts(events), e, bases); }
      }
    }
  }

  lemma OneMoreDiffers(events: seq<Event>, e: Event, bases: seq<Event>, s: Sides) returns (t: Sides)
    requires AllBases(bases) && s == SidesOf(events, bases) && Differ(s)
    ensures t == SidesOf(events + [e], bases) && Differ(t)
  {
    t := SidesOf(events + [e], bases);
    OneMoreOnSides(events, e, bases);
  }

  lemma {:induction false} DroppingFirst(events: seq<Event>, bases: seq<Event>) returns (s: Sides)
    requires AllBases(bases)
    ensures s == SidesOf(events, bases) && Differ(s)
  {
    if events == [] {
      s := SidesOf([], bases);
    } else {
      var before, e := events[..|events| - 1], events[|events| - 1];
      assert before + [e] == events;
      s := DroppingFirst(before, bases);
      s := OneMoreDiffers(before, e, bases, s);
    }
  }

  lemma {:induction false} FirstOccurrence(events: seq<Event>, id: ClientId) returns (i: nat)
    requires id in Seen(events)
    ensures i < |events| && events[i].item.Some? && events[i].item.value.clientId == id && id !in Seen(events[..i])
  {
    var n := |events| - 1;
    assert events == events[..n] + [events[n]];
    if id in Seen(events[..n]) {
      i := FirstOccurrence(events[..n], id);
      assert events[..n][..i] == events[..i];
    } else {
      i := n;
    }
  }

  lemma HoldsBackEarlier(events: seq<Event>, e: Event, bases: seq<Event>, i: nat, j: nat)
    requires AllBases(bases) && j < |events|
    ensures HoldsBack(events + [e], bases, i, j) <==> HoldsBack(events, bases, i, j)
  {
    if i < j { assert (events + [e])[..i] == events[..i]; }
  }

  /** The last event is revealed: the first event with its client id holds it back. */
  lemma RevealedIsHeld(events: seq<Event>, e: Event, bases: seq<Event>) returns (i: nat)
    requires AllBases(bases) && e.item.Some? && !Dropped(e, bases)
    requires e.item.value.clientId in Seen(events) && e.item.value.clientId !in Seen(AuthoredOnly(events, bases))
    ensures HoldsBack(events + [e], bases, i, |events|)
  {
    var id := e.item.value.clientId;
    i := FirstOccurrence(events, id);
    KeptSeen(events, bases, id);
    assert (events + [e])[..i] == events[..i];
  }

  /** The last event is held back, but nothing before it was: then it is revealed. */
  lemma HeldIsRevealed(events: seq<Event>, e: Event, bases: seq<Event>, i: nat)
    requires AllBases(bases) && NoneHeldBack(events, bases) && HoldsBack(events + [e], bases, i, |events|)
    ensures e.item.Some? && !Dropped(e, bases) && e.item.value.clientId in Seen(events)
    ensures e.item.value.clientId !in Seen(AuthoredOnly(events, bases))
  {
    var id := e.item.value.clientId;
    assert (events + [e])[..i] == events[..i] && (events + [e])[i] == events[i];
    assert events[i] in events;
    KeptSeen(events, bases, id);
    assert forall k :: 0 <= k < i ==> events[k] in events[..i];
    forall k | 0 <= k < |events| && events[k].item.Some? && events[k].item.value.clientId == id ensures Dropped(events[k], bases) {
      assert !HoldsBack(events, bases, i, k);
    }
  }

  /** Events are revealed exactly when a kept one shares its client id with an earlier foreign one that came first. */
  lemma {:induction false} RevealedExactly(events: seq<Event>, bases: seq<Event>)
    requires AllBases(bases)
    ensures Revealed(events, bases) == [] <==> NoneHeldBack(events, bases)
  {
    if events != [] {
      var n := |events| - 1;
      var before, e := events[..n], events[n];
      assert events == before + [e];
      RevealedExactly(before, bases);
      RevealedSnoc(before, e, bases);
      forall i: nat, j: nat | j < n ensures HoldsBack(events, bases, i, j) <==> HoldsBack(before, bases, i, j) {
        HoldsBackEarlier(before, e, bases, i, j);
      }
      if Revealed(before, bases) == [] {
        if Revealed(events, bases) == [] {
          forall i: nat, j: nat ensures !HoldsBack(events, bases, i, j) {
            if HoldsBack(events, bases, i, j) && j == n { HeldIsRevealed(before, e, bases, i); }
          }
        } else {
          var i := RevealedIsHeld(before, e, bases);
        }
      } else {
        var i: nat, j: nat :| HoldsBack(before, bases, i, j);
        assert HoldsBack(events, bases, i, j);
      }
    }
  }

  /**
    Dropping foreign edits and deletions before replays gives the same first
    occurrences as dropping them afterwards if and only if no foreign one holds
    back a later event.
   */
  lemma DroppingCommutesExactly(events: seq<Event>, bases: seq<Event>)
    requires AllBases(bases)
    ensures Firsts(AuthoredOnly(events, bases)) == AuthoredOnly(Firsts(events), bases) <==> NoneHeldBack(events, bases)
  {
    var s := DroppingFirst(events, bases);
    RevealedExactly(events, bases);
  }

  lemma {:induction false} FirstsOfDistinct(events: seq<Event>)
    requires DistinctEvents(events) && forall e :: e in events ==> e.item.Some?
    ensures Firsts(events) == events
  {
    if events != [] {
      var n := |events| - 1;
      FirstsOfDistinct(events[..n]);
      forall k | 0 <= k < n ensures events[k].item.value.clientId != events[n].item.value.clientId { assert events[k] in events; }
      assert events == events[..n] + [events[n]];
    }
  }

  /** Without the foreign edits exactly the messages they held back are shown in addition. */
  lemma HeldBackMessages(events: seq<Event>)
    ensures var bases := Bases(Firsts(events));
            |View(AuthoredOnly(events, bases))| == |View(events)| + |Bases(Revealed(events, bases))|
  {
    var bases := Bases(Firsts(events));
    var s := DroppingFirst(events, bases);
    AuthoredStreams(Firsts(events), bases);
  }

  lemma {:induction false} RevealedAreHeld(events: seq<Event>, bases: seq<Event>, e: Event) returns (i: nat, j: nat)
    requires AllBases(bases) && e in Revealed(events, bases)
    ensures HoldsBack(events, bases, i, j) && events[j] == e
  {
    var n := |events| - 1;
    var before, last := events[..n], events[n];
    assert events == before + [last];
    RevealedSnoc(before, last, bases);
    if e in Revealed(before, bases) {
      i, j := RevealedAreHeld(before, bases, e);
      HoldsBackEarlier(before, last, bases, i, j);
    } else {
      i := RevealedIsHeld(before, last, bases);
      j := n;
    }
  }

  lemma {:induction false} OnlyBases(events: seq<Event>)
    requires forall e :: e in events ==> e.item.Some? && IsBase(e.item.value.body)
    ensures Bases(events) == events
  {
    if events != [] {
      var n := |events| - 1;
      OnlyBases(events[..n]);
      assert events == events[..n] + [events[n]] && events[n] in events;
    }
  }

  /** Every event that a foreign edit or deletion holds back is a message. */
  ghost predicate MessagesHeldBack(events: seq<Event>, bases: seq<Event>)
    requires AllBases(bases)
  {
    forall i: nat, j: nat :: HoldsBack(events, bases, i, j) ==> IsBase(events[j].item.value.body)
  }

  /**
    Nothing shown changes when no foreign edit or deletion holds back a later
    event; and where those held back are messages, that is the only case.
   */
  lemma DroppingForeignIsNeutral(events: seq<Event>)
    ensures var bases := Bases(Firsts(events));
            && (NoneHeldBack(events, bases) ==> View(AuthoredOnly(events, bases)) == View(events))
            && (MessagesHeldBack(events, bases) ==> (View(AuthoredOnly(events, bases)) == View(events) <==> NoneHeldBack(events, bases)))
  {
    var bases := Bases(Firsts(events));
    RevealedExactly(events, bases);
    if NoneHeldBack(events, bases) {
      NoneHeldBackIsNeutral(events);
    } else if MessagesHeldBack(events, bases) {
      forall e | e in Revealed(events, bases) ensures e.item.Some? && IsBase(e.item.value.body) {
        var i, j := RevealedAreHeld(events, bases, e);
      }
      OnlyBases(Revealed(events, bases));
      HeldBackMessages(events);
    }
  }

  lemma NoneHeldBackIsNeutral(events: seq<Event>)
    requires NoneHeldBack(events, Bases(Firsts(events)))
    ensures View(AuthoredOnly(events, Bases(Firsts(events)))) == View(events)
  {
    var bases := Bases(Firsts(events));
    var kept := AuthoredOnly(Firsts(events), bases);
    DroppingCommutesExactly(events, bases);
    OnlyAuthorsCount(events);
    FirstsDistinct(events);
    AuthoredDistinct(Firsts(events), bases);
    AuthoredSubset(Firsts(events), bases);
    FirstsOfDistinct(kept);
  }

  lemma PairFirsts(x: Event, y: Event)
    requires x.item.Some? && y.item.Some? && x.item.value.clientId != y.item.value.clientId
    ensures Firsts([x, y]) == [x, y] && Seen([x, y]) == {x.item.value.clientId, y.item.value.clientId}
    ensures Bases([x, y]) == (if IsBase(x.item.value.body) then [x] else []) + (if IsBase(y.item.value.body) then [y] else [])
  {
    assert [] + [x] == [x] && [x] + [y] == [x, y];
    Snoc([], x);
    Snoc([x], y);
    StreamsSnoc([], x);
    StreamsSnoc([x], y);
  }

  /** An edit or deletion by somebody else with a client id of its own keeps out the later message with that id. */
  lemma ForeignEditHoldsItsClientId(post: Event, intrusion: Event, answer: Event)
    requires post.item.Some? && IsBase(post.item.value.body) && answer.item.Some? && IsBase(answer.item.value.body)
    requires intrusion.item.Some? && Foreign(NewMessage(post), intrusion.item.value)
    requires SameId(intrusion, answer) && !SameId(post, intrusion)
    ensures View([post, intrusion, answer]) == View([post, intrusion])
    ensures |View([post, intrusion])| == 1 && |View([post, answer])| == 2
  {
    PairFirsts(post, intrusion);
    PairFirsts(post, answer);
    assert [post, intrusion] + [answer] + [] == [post, intrusion, answer];
    assert [post, intrusion] + [] == [post, intrusion];
    ReplayChangesNothing([post, intrusion], answer, []);
  }

  lemma AuthorsOfOne(bases: seq<Event>, mutations: seq<Item>, i: nat)
    requires forall k :: 0 <= k < |bases| ==> bases[k].item.Some? && IsBase(bases[k].item.value.body)
    requires DistinctEvents(bases) && i < |bases|
    ensures Final(NewMessage(bases[i]), Filter(mutations, item => Authored(item, bases))) == Final(NewMessage(bases[i]), mutations)
  {
    var keep := item => Authored(item, bases);
    forall j | 0 <= j < |mutations| && !keep(mutations[j]) && Targets(mutations[j], NewMessage(bases[i]).clientId)
      ensures Foreign(NewMessage(bases[i]), mutations[j])
    {
      var k :| 0 <= k < |bases| && Foreign(NewMessage(bases[k]), mutations[j]);
      assert bases[k].item.value.clientId == bases[i].item.value.clientId;
      assert k == i;
    }
    ForeignIgnored(NewMessage(bases[i]), mutations, Filter(mutations, keep), keep);
  }

  // ---------------------------------------------------------------------------
  // Reactions
  // ---------------------------------------------------------------------------

  ghost predicate UniqueMarks(marks: seq<Mark>) {
    forall i, j :: 0 <= i < j < |marks| ==> marks[i].device != marks[j].device || marks[i].emoji != marks[j].emoji
  }

  ghost predicate UniqueKeys(marks: seq<Mark>) {
    forall i, j :: 0 <= i < j < |marks| ==> MarkKey(marks[i]) != MarkKey(marks[j])
  }

  lemma {:induction false} PutMarkKeys(marks: seq<Mark>, mark: Mark)
    requires UniqueKeys(marks)
    ensures UniqueKeys(PutMark(marks, mark))
    ensures forall i :: 0 <= i < |PutMark(marks, mark)| ==>
              PutMark(marks, mark)[i] == mark || (exists j :: 0 <= j < |marks| && PutMark(marks, mark)[i] == marks[j])
  {
    if marks != [] && MarkKey(marks[0]) != MarkKey(mark) {
      PutMarkKeys(marks[1..], mark);
      var rest := PutMark(marks[1..], mark);
      forall i | 0 <= i < |rest| ensures MarkKey(rest[i]) != MarkKey(marks[0])
        ensures rest[i] == mark || exists j :: 0 <= j < |marks| && rest[i] == marks[j]
      {
        if rest[i] != mark {
          var j :| 0 <= j < |marks[1..]| && rest[i] == marks[1..][j];
          assert marks[j + 1] == rest[i];
        }
      }
    }
  }

  /** One device can have only one reaction per emoji on a message. */
  lemma {:induction false} ReactionsUnique(m: Message, mutations: seq<Item>)
    requires m.reactions == []
    ensures UniqueKeys(Final(m, mutations).reactions) && UniqueMarks(Final(m, mutations).reactions)
  {
    if mutations != [] {
      var n := |mutations| - 1;
      ReactionsUnique(m, mutations[..n]);
      if mutations[n].body.Reaction? {
        PutMarkKeys(Final(m, mutations[..n]).reactions, Mark(mutations[n].sender, mutations[n].device, mutations[n].body.emoji));
      }
    }
  }

  predicate Has(marks: seq<Mark>, device: DeviceId, emoji: string) {
    exists i :: 0 <= i < |marks| && marks[i].device == device && marks[i].emoji == emoji
  }

  lemma FirstColon(d: DeviceId, e: string)
    requires ':' !in d
    ensures (d + ":" + e)[|d|] == ':' && forall i :: 0 <= i < |d| ==> (d + ":" + e)[i] != ':'
  {
    forall i | 0 <= i < |d| ensures (d + ":" + e)[i] != ':' {
      assert (d + ":" + e)[i] == d[i] && d[i] in d;
    }
  }

  lemma KeyDetermines(d: DeviceId, e: string, d': DeviceId, e': string)
    requires ':' !in d && ':' !in d' && d + ":" + e == d' + ":" + e'
    ensures d == d' && e == e'
  {
    FirstColon(d, e);
    FirstColon(d', e');
    var k := d + ":" + e;
    assert d == k[..|d|] && d' == k[..|d|];
    assert e == k[|d| + 1..] && e' == k[|d| + 1..];
  }

  lemma {:induction false} PutMarkHas(marks: seq<Mark>, mark: Mark, device: DeviceId, emoji: string)
    requires ':' !in mark.device && ':' !in device && forall i :: 0 <= i < |marks| ==> ':' !in marks[i].device
    ensures Has(PutMark(marks, mark), device, emoji) <==> Has(marks, device, emoji) || (mark.device == device && mark.emoji == emoji)
    ensures forall i :: 0 <= i < |PutMark(marks, mark)| ==> ':' !in PutMark(marks, mark)[i].device
  {
    if marks == [] {
      assert [mark][0] == mark;
    } else {
      if MarkKey(marks[0]) == MarkKey(mark) {
        KeyDetermines(marks[0].device, marks[0].emoji, mark.device, mark.emoji);
        HasCons(marks[0], marks[1..], device, emoji);
        HasCons(mark, marks[1..], device, emoji);
      } else {
        PutMarkHas(marks[1..], mark, device, emoji);
        HasCons(marks[0], marks[1..], device, emoji);
        HasCons(marks[0], PutMark(marks[1..], mark), device, emoji);
      }
      assert marks == [marks[0]] + marks[1..];
    }
  }

  lemma HasCons(mark: Mark, marks: seq<Mark>, device: DeviceId, emoji: string)
    ensures Has([mark] + marks, device, emoji) <==> (mark.device == device && mark.emoji == emoji) || Has(marks, device, emoji)
  {
    var all := [mark] + marks;
    if Has(marks, device, emoji) {
      var i :| 0 <= i < |marks| && marks[i].device == device && marks[i].emoji == emoji;
      assert all[i + 1] == marks[i];
    }
    if mark.device == device && mark.emoji == emoji { assert all[0] == mark; }
  }

  predicate Reacts(item: Item, id: ClientId, device: DeviceId, emoji: string) {
    item.body.Reaction? && Targets(item, id) && item.device == device && item.body.emoji == emoji
  }

  /** No reaction is lost: with colon-free device ids a reaction shows exactly when that device sent it. */
  lemma {:induction false} ReactionsComplete(m: Message, mutations: seq<Item>, device: DeviceId, emoji: string)
    requires m.reactions == [] && ':' !in device
    requires forall i :: 0 <= i < |mutations| ==> ':' !in mutations[i].device
    ensures Has(Final(m, mutations).reactions, device, emoji) <==>
              exists i :: 0 <= i < |mutations| && Reacts(mutations[i], m.clientId, device, emoji)
    ensures forall i :: 0 <= i < |Final(m, mutations).reactions| ==> ':' !in Final(m, mutations).reactions[i].device
  {
    if mutations != [] {
      var n := |mutations| - 1;
      ReactionsComplete(m, mutations[..n], device, emoji);
      var item := mutations[n];
      if item.body.Reaction? {
        PutMarkHas(Final(m, mutations[..n]).reactions, Mark(item.sender, item.device, item.body.emoji), device, emoji);
      }
      if i :| 0 <= i < |mutations| && Reacts(mutations[i], m.clientId, device, emoji) {
        if i < n { assert Reacts(mutations[..n][i], m.clientId, device, emoji); }
      }
      if Has(Final(m, mutations[..n]).reactions, device, emoji) {
        var i :| 0 <= i < n && Reacts(mutations[..n][i], m.clientId, device, emoji);
        assert Reacts(mutations[i], m.clientId, device, emoji);
      }
    }
  }
}
