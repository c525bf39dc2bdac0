/**
  Folding decrypted application events into the message list: duplicates are
  dropped, edits, deletions, reactions and receipts are applied after all
  messages are collected, and replies are resolved last.
 */
module Lifecycle {
  import opened Common

  type ClientId = string
  type DeviceId = string

  /** The payload decoder accepts only ISO timestamps, so none is empty. */
  type Stamp = s: string | s != "" witness "1970-01-01T00:00:00Z"

  datatype Body =
    | Text(content: Option<string>, reply: Option<ClientId>)
    | Attachment(objectId: string)
    | DeviceEvent(event: string)
    | GroupMetadata(name: string)
    | Edit(target: ClientId, replacement: string)
    | Delete(target: ClientId)
    | Reaction(target: ClientId, emoji: string)
    | Receipt(target: ClientId, state: string)

  datatype Item = Item(clientId: ClientId, sender: Option<string>, device: DeviceId, sentAt: Stamp, body: Body)

  datatype Event = Event(item: Option<Item>, envelopeId: Option<nat>, epoch: Option<nat>)

  datatype Mark = Mark(sender: Option<string>, device: DeviceId, emoji: string)

  datatype Kind = TextKind | SystemKind | FileKind(contentUrl: string)

  datatype Quote = NoQuote | Quote(target: ClientId, sender: Option<string>, content: Option<string>)

  datatype Message = Message(
    clientId: ClientId, sender: Option<string>, device: DeviceId, timestamp: Stamp, id: Option<nat>, epoch: Option<nat>,
    kind: Kind, content: Option<string>, reply: Option<ClientId>,
    editedAt: Option<Stamp>, deletedAt: Option<Stamp>,
    reactions: seq<Mark>, receipts: map<DeviceId, string>, quote: Quote)

  predicate IsBase(body: Body) {
    body.Text? || body.Attachment? || body.DeviceEvent?
  }

  predicate IsMutation(body: Body) {
    !IsBase(body) && !body.GroupMetadata?
  }

  function NewMessage(event: Event): Message
    requires event.item.Some? && IsBase(event.item.value.body)
  {
    var item := event.item.value;
    var blank := Message(item.clientId, item.sender, item.device, item.sentAt, event.envelopeId, event.epoch,
                         TextKind, None, None, None, None, [], map[], NoQuote);
    match item.body
    case Text(content, reply) => blank.(content := content, reply := reply)
    case DeviceEvent(event) => blank.(kind := SystemKind, content := Some(event))
    case Attachment(objectId) => blank.(kind := FileKind("/api/v1/media/" + objectId + "/content"))
  }

  /** Logins decide when both are known, device ids otherwise. */
  predicate SameAuthor(m: Message, item: Item) {
    if Truthy(item.sender) && Truthy(m.sender) then m.sender == item.sender else m.device == item.device
  }

  function MarkKey(mark: Mark): string {
    mark.device + ":" + mark.emoji
  }

  /** Insertion into an ordered map: an existing key keeps its place. */
  function PutMark(marks: seq<Mark>, mark: Mark): seq<Mark> {
    if marks == [] then [mark]
    else if MarkKey(marks[0]) == MarkKey(mark) then [mark] + marks[1..]
    else [marks[0]] + PutMark(marks[1..], mark)
  }

  /** What one mutation does to the message it names. */
  function Update(m: Message, item: Item): Message {
    match item.body
    case Edit(_, content) =>
      if SameAuthor(m, item) && m.deletedAt.None? then m.(content := Some(content), editedAt := Some(item.sentAt)) else m
    case Delete(_) =>
      if SameAuthor(m, item) then m.(content := Some(""), deletedAt := Some(item.sentAt)) else m
    case Reaction(_, emoji) => m.(reactions := PutMark(m.reactions, Mark(item.sender, item.device, emoji)))
    case Receipt(_, state) => m.(receipts := m.receipts[item.device := state])
    case _ => m
  }

  predicate Targets(item: Item, id: ClientId) {
    IsMutation(item.body) && item.body.target == id
  }

  // ---------------------------------------------------------------------------
  // The view, message by message
  // ---------------------------------------------------------------------------

  function Firsts(events: seq<Event>): (r: seq<Event>)
    ensures forall e :: e in r ==> e.item.Some?
  {
    if events == [] then []
    else
      var n := |events| - 1;
      Firsts(events[..n]) + (if events[n].item.None? || events[n].item.value.clientId in Seen(events[..n]) then [] else [events[n]])
  }

  /** Client ids met so far. */
  function Seen(events: seq<Event>): set<ClientId> {
    set e | e in events && e.item.Some? :: e.item.value.clientId
  }

  function Bases(events: seq<Event>): (r: seq<Event>)
    ensures forall i :: 0 <= i < |r| ==> r[i].item.Some? && IsBase(r[i].item.value.body)
  {
    if events == [] then []
    else
      var n := |events| - 1;
      Bases(events[..n]) + (if events[n].item.Some? && IsBase(events[n].item.value.body) then [events[n]] else [])
  }

  function Mutations(events: seq<Event>): (r: seq<Item>)
    ensures forall i :: 0 <= i < |r| ==> IsMutation(r[i].body)
  {
    if events == [] then []
    else
      var n := |events| - 1;
      Mutations(events[..n]) + (if events[n].item.Some? && IsMutation(events[n].item.value.body) then [events[n].item.value] else [])
  }

  /** One message after the mutations that name it, in order. */
  function Final(m: Message, mutations: seq<Item>): Message {
    if mutations == [] then m
    else
      var n := |mutations| - 1;
      var before := Final(m, mutations[..n]);
      if Targets(mutations[n], m.clientId) then Update(before, mutations[n]) else before
  }

  function Finals(bases: seq<Event>, mutations: seq<Item>): (r: seq<Message>)
    requires forall i :: 0 <= i < |bases| ==> bases[i].item.Some? && IsBase(bases[i].item.value.body)
    ensures |r| == |bases| && forall i :: 0 <= i < |r| ==> r[i] == Final(NewMessage(bases[i]), mutations)
  {
    seq(|bases|, i requires 0 <= i < |bases| => Final(NewMessage(bases[i]), mutations))
  }

  function Lookup(messages: seq<Message>, id: ClientId): Option<Message> {
    if messages == [] then None else if messages[0].clientId == id then Some(messages[0]) else Lookup(messages[1..], id)
  }

  function QuoteOf(target: Option<Message>, id: ClientId): Quote {
    if target.None? then Quote(id, None, None)
    else
      var t := target.value;
      Quote(id, if Truthy(t.sender) then t.sender else None,
            if t.deletedAt.Some? then Some("") else if Truthy(t.content) then t.content else None)
  }

  function Resolved(m: Message, messages: seq<Message>): Message {
    if Truthy(m.reply) then m.(quote := QuoteOf(Lookup(messages, m.reply.value), m.reply.value)) else m
  }

  function ResolveAll(messages: seq<Message>): (r: seq<Message>)
    ensures |r| == |messages| && forall i :: 0 <= i < |r| ==> r[i] == Resolved(messages[i], messages)
  {
    seq(|messages|, i requires 0 <= i < |messages| => Resolved(messages[i], messages))
  }

  function View(events: seq<Event>): seq<Message> {
    var firsts := Firsts(events);
    ResolveAll(Finals(Bases(firsts), Mutations(firsts)))
  }

  // ---------------------------------------------------------------------------
  // The fold itself
  // ---------------------------------------------------------------------------

  /** `byClientId` points at the message with each id, and ids are distinct. */
  ghost predicate Indexed(messages: seq<Message>, byClientId: map<ClientId, nat>) {
    && (forall i :: 0 <= i < |messages| ==> messages[i].clientId in byClientId && byClientId[messages[i].clientId] == i)
    && (forall id :: id in byClientId ==> byClientId[id] < |messages| && messages[byClientId[id]].clientId == id)
  }

  lemma OneMoreIndexed(messages: seq<Message>, byClientId: map<ClientId, nat>, m: Message)
    requires Indexed(messages, byClientId) && m.clientId !in byClientId
    ensures Indexed(messages + [m], byClientId[m.clientId := |messages|])
  {
  }

  /** What the collecting loop has built from the events so far. */
  ghost predicate Collected(events: seq<Event>, messages: seq<Message>, byClientId: map<ClientId, nat>, pending: seq<Item>, seen: set<ClientId>) {
    && messages == Finals(Bases(Firsts(events)), []) && pending == Mutations(Firsts(events))
    && Indexed(messages, byClientId) && seen == Seen(events) && byClientId.Keys <= seen
  }

  /** An event that is skipped changes nothing. */
  lemma SkipKeeps(events: seq<Event>, event: Event, messages: seq<Message>, byClientId: map<ClientId, nat>, pending: seq<Item>, seen: set<ClientId>)
    requires Collected(events, messages, byClientId, pending, seen)
    requires event.item.None? || event.item.value.clientId in seen
    ensures Collected(events + [event], messages, byClientId, pending, seen)
  {
    OneMore(events, event);
  }

  lemma BaseCollected(events: seq<Event>, event: Event, messages: seq<Message>, byClientId: map<ClientId, nat>, pending: seq<Item>, seen: set<ClientId>)
    requires Collected(events, messages, byClientId, pending, seen)
    requires event.item.Some? && event.item.value.clientId !in seen && IsBase(event.item.value.body)
    ensures var id := event.item.value.clientId;
            Collected(events + [event], messages + [NewMessage(event)], byClientId[id := |messages|], pending, seen + {id})
  {
    OneMore(events, event);
    OneMoreFirst(Firsts(events), event);
    assert Finals(Bases(Firsts(events)) + [event], []) == Finals(Bases(Firsts(events)), []) + [NewMessage(event)];
    OneMoreIndexed(messages, byClientId, NewMessage(event));
  }

  lemma OtherCollected(events: seq<Event>, event: Event, messages: seq<Message>, byClientId: map<ClientId, nat>, pending: seq<Item>, seen: set<ClientId>)
    requires Collected(events, messages, byClientId, pending, seen)
    requires event.item.Some? && event.item.value.clientId !in seen && !IsBase(event.item.value.body)
    ensures Collected(events + [event], messages, byClientId,
                      pending + (if IsMutation(event.item.value.body) then [event.item.value] else []), seen + {event.item.value.clientId})
  {
    OneMore(events, event);
    OneMoreFirst(Firsts(events), event);
  }

  method Collect(events: seq<Event>) returns (messages: seq<Message>, byClientId: map<ClientId, nat>, pending: seq<Item>)
    ensures messages == Finals(Bases(Firsts(events)), [])
    ensures pending == Mutations(Firsts(events))
    ensures Indexed(messages, byClientId)
  {
    messages, byClientId, pending := [], map[], [];
    var seenEvents: set<ClientId> := {};
    for i := 0 to |events|
      invariant Collected(events[..i], messages, byClientId, pending, seenEvents)
    {
      var event := events[i];
      assert events[..i + 1] == events[..i] + [event];
      if event.item.None? || event.item.value.clientId in seenEvents {
        SkipKeeps(events[..i], event, messages, byClientId, pending, seenEvents);
        continue;
      }
      var item := event.item.value;
      if IsBase(item.body) {
        BaseCollected(events[..i], event, messages, byClientId, pending, seenEvents);
        byClientId := byClientId[item.clientId := |messages|];
        messages := messages + [NewMessage(event)];
      } else {
        OtherCollected(events[..i], event, messages, byClientId, pending, seenEvents);
        if !item.body.GroupMetadata? { pending := pending + [item]; }
      }
      seenEvents := seenEvents + {item.clientId};
    }
    assert events[..|events|] == events;
  }

  lemma OneMore(events: seq<Event>, event: Event)
    ensures if event.item.None? || event.item.value.clientId in Seen(events) then
              Firsts(events + [event]) == Firsts(events) && Seen(events + [event]) == Seen(events)
            else
              && Firsts(events + [event]) == Firsts(events) + [event]
              && Seen(events + [event]) == Seen(events) + {event.item.value.clientId}
  {
    assert (events + [event])[..|events|] == events;
  }

  lemma OneMoreFirst(firsts: seq<Event>, event: Event)
    requires event.item.Some?
    ensures var body := event.item.value.body;
            && Bases(firsts + [event]) == Bases(firsts) + (if IsBase(body) then [event] else [])
            && Mutations(firsts + [event]) == Mutations(firsts) + (if IsMutation(body) then [event.item.value] else [])
  {
    assert (firsts + [event])[..|firsts|] == firsts;
  }

  lemma {:induction false} FinalKeepsIdentity(m: Message, mutations: seq<Item>)
    ensures var f := Final(m, mutations);
            f.clientId == m.clientId && f.sender == m.sender && f.device == m.device && f.reply == m.reply && f.quote == m.quote
  {
    if mutations != [] { FinalKeepsIdentity(m, mutations[..|mutations| - 1]); }
  }

  method Mutate(start: seq<Message>, byClientId: map<ClientId, nat>, pending: seq<Item>) returns (messages: seq<Message>)
    requires Indexed(start, byClientId)
    requires forall i :: 0 <= i < |pending| ==> IsMutation(pending[i].body)
    ensures |messages| == |start|
    ensures forall j :: 0 <= j < |start| ==> messages[j] == Final(start[j], pending)
  {
    messages := start;
    var i := 0;
    while i < |pending|
      invariant i <= |pending| && |messages| == |start|
      invariant forall j :: 0 <= j < |start| ==> messages[j] == Final(start[j], pending[..i])
    {
      var item := pending[i];
      assert pending[..i + 1][..i] == pending[..i];
      i := i + 1;
      if item.body.target !in byClientId { continue; }
      var at := byClientId[item.body.target];
      messages := messages[at := Update(messages[at], item)];
    }
    assert pending[..i] == pending;
  }

  lemma {:induction false} LookupIndexed(messages: seq<Message>, k: nat)
    requires k < |messages|
    requires forall i :: 0 <= i < k ==> messages[i].clientId != messages[k].clientId
    ensures Lookup(messages, messages[k].clientId) == Some(messages[k])
  {
    if k > 0 {
      assert messages[1..][k - 1] == messages[k];
      LookupIndexed(messages[1..], k - 1);
    }
  }

  lemma {:induction false} LookupAbsent(messages: seq<Message>, id: ClientId)
    requires forall i :: 0 <= i < |messages| ==> messages[i].clientId != id
    ensures Lookup(messages, id) == None
  {
    if messages != [] { LookupAbsent(messages[1..], id); }
  }

  method ResolveReplies(start: seq<Message>, byClientId: map<ClientId, nat>) returns (messages: seq<Message>)
    requires Indexed(start, byClientId)
    ensures messages == ResolveAll(start)
  {
    messages := start;
    var i := 0;
    while i < |messages|
      invariant i <= |messages| == |start|
      invariant forall j :: 0 <= j < i ==> messages[j] == Resolved(start[j], start)
      invariant forall j :: i <= j < |start| ==> messages[j] == start[j]
    {
      var m := messages[i];
      i := i + 1;
      if !Truthy(m.reply) { continue; }
      var id := m.reply.value;
      var target: Option<Message> := None;
      if id in byClientId {
        target := Some(messages[byClientId[id]]);
        LookupIndexed(start, byClientId[id]);
      } else {
        LookupAbsent(start, id);
      }
      messages := messages[i - 1 := m.(quote := QuoteOf(target, id))];
    }
  }

  method ApplyMessageLifecycle(events: seq<Event>) returns (messages: seq<Message>)
    ensures messages == View(events)
  {
    var byClientId, pending;
    messages, byClientId, pending := Collect(events);
    ghost var start := messages;
    messages := Mutate(messages, byClientId, pending);
    forall j | 0 <= j < |start| ensures messages[j].clientId == start[j].clientId {
      FinalKeepsIdentity(start[j], pending);
    }
    assert messages == Finals(Bases(Firsts(events)), Mutations(Firsts(events)));
    messages := ResolveReplies(messages, byClientId);
  }
}
