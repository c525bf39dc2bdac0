/**
  The message list, event by event: what each kind of event adds to it or
  changes in it, said in the fields of the event and of the messages shown.
 */
module LifecycleView {
  import opened Common
  import opened Lifecycle
  import opened LifecycleLaws

  /** The message without its resolved quote, which depends on the whole list. */
  function Bare(m: Message): Message {
    m.(quote := NoQuote)
  }

  /** No earlier event has the client id. */
  predicate Fresh(events: seq<Event>, id: ClientId) {
    forall i :: 0 <= i < |events| && events[i].item.Some? ==> events[i].item.value.clientId != id
  }

  /** Everything shown but the quotes. */
  function Unquoted(events: seq<Event>): seq<Message> {
    Finals(Bases(Firsts(events)), Mutations(Firsts(events)))
  }

  lemma Unquotes(events: seq<Event>, k: nat)
    ensures |View(events)| == |Unquoted(events)|
    ensures k < |View(events)| ==> Bare(View(events)[k]) == Unquoted(events)[k]
  {
    var firsts := Firsts(events);
    if k < |View(events)| { FinalKeepsIdentity(NewMessage(Bases(firsts)[k]), Mutations(firsts)); }
  }

  lemma FreshIsNew(events: seq<Event>, e: Event)
    requires e.item.Some? && Fresh(events, e.item.value.clientId)
    ensures Firsts(events + [e]) == Firsts(events) + [e]
  {
    Snoc(events, e);
  }

  // ---------------------------------------------------------------------------
  // Messages
  // ---------------------------------------------------------------------------

  /** The event changes a message with the given client id. */
  predicate Changes(e: Event, id: ClientId) {
    e.item.Some? && (e.item.value.body.Edit? || e.item.value.body.Delete? || e.item.value.body.Reaction? || e.item.value.body.Receipt?)
    && e.item.value.body.target == id
  }

  lemma {:induction false} Untouched(m: Message, events: seq<Event>)
    requires forall i :: 0 <= i < |events| ==> !Changes(events[i], m.clientId)
    ensures Final(m, Mutations(Firsts(events))) == m
  {
    if events != [] {
      var n := |events| - 1;
      Untouched(m, events[..n]);
      assert events == events[..n] + [events[n]];
      Snoc(events[..n], events[n]);
      StreamsSnoc(Firsts(events[..n]), events[n]);
      var before := Mutations(Firsts(events[..n]));
      if Mutations(Firsts(events)) != before {
        assert (before + [events[n].item.value])[..|before|] == before;
      }
    }
  }

  /** A message says when and by whom it was sent, and is blank otherwise. */
  predicate IsNew(m: Message, e: Event)
    requires e.item.Some?
  {
    var item := e.item.value;
    && m.clientId == item.clientId && m.sender == item.sender && m.device == item.device && m.timestamp == item.sentAt
    && m.id == e.envelopeId && m.epoch == e.epoch
    && match item.body
       case Text(content, reply) => m.kind == TextKind && m.reply == reply
       case DeviceEvent(_) => m.kind == SystemKind && m.reply.None?
       case Attachment(objectId) => m.kind == FileKind("/api/v1/media/" + objectId + "/content") && m.reply.None?
       case _ => false
  }

  predicate IsBlank(m: Message, e: Event)
    requires e.item.Some?
  {
    && m.editedAt.None? && m.deletedAt.None? && m.reactions == [] && m.receipts == map[]
    && match e.item.value.body
       case Text(content, _) => m.content == content
       case DeviceEvent(event) => m.content == Some(event)
       case _ => m.content.None?
  }

  /**
    A text, an attachment or a device event with a new client id is shown last,
    as it was sent unless an earlier event already changes it; the messages
    before it stay as they were.
   */
  lemma MessageIsShown(events: seq<Event>, e: Event)
    requires e.item.Some? && Fresh(events, e.item.value.clientId)
    requires e.item.value.body.Text? || e.item.value.body.Attachment? || e.item.value.body.DeviceEvent?
    ensures var v, w := View(events), View(events + [e]);
            && |w| == |v| + 1
            && (forall k :: 0 <= k < |v| ==> Bare(w[k]) == Bare(v[k]))
            && IsNew(w[|v|], e)
            && ((forall i :: 0 <= i < |events| ==> !Changes(events[i], e.item.value.clientId)) ==> IsBlank(w[|v|], e))
  {
    var v, w := View(events), View(events + [e]);
    OneMoreShown(events, e);
    Unquotes(events, |v|);
    Unquotes(events + [e], |v|);
    FinalKeepsIdentity(NewMessage(e), Mutations(Firsts(events)));
    FinalKeepsKind(NewMessage(e), Mutations(Firsts(events)));
    forall k | 0 <= k < |v| ensures Bare(w[k]) == Bare(v[k]) {
      Unquotes(events, k);
      Unquotes(events + [e], k);
    }
    if forall i :: 0 <= i < |events| ==> !Changes(events[i], e.item.value.clientId) { Untouched(NewMessage(e), events); }
  }

  lemma OneMoreShown(events: seq<Event>, e: Event)
    requires e.item.Some? && Fresh(events, e.item.value.clientId) && IsBase(e.item.value.body)
    ensures Unquoted(events + [e]) == Unquoted(events) + [Final(NewMessage(e), Mutations(Firsts(events)))]
  {
    var firsts := Firsts(events);
    FreshIsNew(events, e);
    StreamsSnoc(firsts, e);
    assert Mutations(firsts) + [] == Mutations(firsts);
    assert Finals(Bases(firsts) + [e], Mutations(firsts)) == Finals(Bases(firsts), Mutations(firsts)) + [Final(NewMessage(e), Mutations(firsts))];
  }

  lemma {:induction false} FinalKeepsKind(m: Message, mutations: seq<Item>)
    ensures var f := Final(m, mutations); f.timestamp == m.timestamp && f.id == m.id && f.epoch == m.epoch && f.kind == m.kind
  {
    if mutations != [] { FinalKeepsKind(m, mutations[..|mutations| - 1]); }
  }

  /** Group metadata is not shown and changes nothing shown. */
  lemma MetadataIsInvisible(events: seq<Event>, e: Event)
    requires e.item.Some? && e.item.value.body.GroupMetadata?
    ensures View(events + [e]) == View(events)
  {
    Snoc(events, e);
    StreamsSnoc(Firsts(events), e);
    assert Bases(Firsts(events)) + [] == Bases(Firsts(events)) && Mutations(Firsts(events)) + [] == Mutations(Firsts(events));
  }

  // ---------------------------------------------------------------------------
  // Changes
  // ---------------------------------------------------------------------------

  /** What an edit, a deletion, a reaction or a receipt leaves of a message m. */
  predicate IsChanged(n: Message, m: Message, item: Item) {
    match item.body
    case Edit(target, replacement) =>
      n == if target == m.clientId && Wrote(m, item) && m.deletedAt.None? then m.(content := Some(replacement), editedAt := Some(item.sentAt)) else m
    case Delete(target) =>
      n == if target == m.clientId && Wrote(m, item) then m.(content := Some(""), deletedAt := Some(item.sentAt)) else m
    case Reaction(target, emoji) =>
      if target == m.clientId then n == m.(reactions := n.reactions) && Reacted(n.reactions, m.reactions, Mark(item.sender, item.device, emoji))
      else n == m
    case Receipt(target, state) =>
      n == if target == m.clientId then m.(receipts := m.receipts[item.device := state]) else m
    case _ => false
  }

  /** The new mark is there, the marks under another device and emoji are still there, and there are no others. */
  predicate Reacted(after: seq<Mark>, before: seq<Mark>, mark: Mark) {
    && mark in after
    && (forall x :: x in after ==> x == mark || x in before)
    && (forall x :: x in before && x.device + ":" + x.emoji != mark.device + ":" + mark.emoji ==> x in after)
  }

  lemma {:induction false} PutMarkReacts(marks: seq<Mark>, mark: Mark)
    ensures Reacted(PutMark(marks, mark), marks, mark)
  {
    if marks == [] {
      assert [mark][0] == mark;
    } else {
      PutMarkReacts(marks[1..], mark);
      assert marks == [marks[0]] + marks[1..];
      if MarkKey(marks[0]) == MarkKey(mark) { assert ([mark] + marks[1..])[0] == mark; }
    }
  }

  /** Each message after a change with a new client id: the one it names as the change says, every other as it was. */
  lemma ChangeIsShown(events: seq<Event>, e: Event, k: nat)
    requires e.item.Some? && Fresh(events, e.item.value.clientId)
    requires e.item.value.body.Edit? || e.item.value.body.Delete? || e.item.value.body.Reaction? || e.item.value.body.Receipt?
    ensures |View(events + [e])| == |View(events)|
    ensures k < |View(events)| ==> IsChanged(Bare(View(events + [e])[k]), Bare(View(events)[k]), e.item.value)
  {
    var v, w, item := View(events), View(events + [e]), e.item.value;
    FreshIsNew(events, e);
    StreamsSnoc(Firsts(events), e);
    Unquotes(events, k);
    Unquotes(events + [e], k);
    if k < |v| {
      var before := Mutations(Firsts(events));
      assert (before + [item])[..|before|] == before;
      var base := NewMessage(Bases(Firsts(events))[k]);
      FinalKeepsIdentity(base, before);
      if item.body.Reaction? { PutMarkReacts(Final(base, before).reactions, Mark(item.sender, item.device, item.body.emoji)); }
    }
  }

  /**
    A text and an edit of it: with two logins the edit shows if and only if they
    are equal, whatever the devices; with a login missing, if and only if the
    devices are.
   */
  lemma OnlyTheAuthorEdits(post: Event, edit: Event)
    requires post.item.Some? && post.item.value.body.Text? && edit.item.Some? && edit.item.value.body.Edit?
    requires edit.item.value.body.target == post.item.value.clientId && edit.item.value.clientId != post.item.value.clientId
    requires Some(edit.item.value.body.replacement) != post.item.value.body.content
    ensures var a, b, v := post.item.value, edit.item.value, View([post, edit]);
            && |v| == 1
            && (v[0].content == Some(b.body.replacement) || v[0].content == a.body.content)
            && (v[0].content == Some(b.body.replacement) <==>
                  if a.sender.Some? && a.sender.value != "" && b.sender.Some? && b.sender.value != "" then a.sender == b.sender
                  else a.device == b.device)
  {
    OneMessage(post);
    assert [post] + [edit] == [post, edit];
    ChangeIsShown([post], edit, 0);
  }

  /** The same for a deletion. */
  lemma OnlyTheAuthorDeletes(post: Event, deletion: Event)
    requires post.item.Some? && post.item.value.body.Text? && deletion.item.Some? && deletion.item.value.body.Delete?
    requires deletion.item.value.body.target == post.item.value.clientId && deletion.item.value.clientId != post.item.value.clientId
    ensures var a, b, v := post.item.value, deletion.item.value, View([post, deletion]);
            && |v| == 1
            && (if a.sender.Some? && a.sender.value != "" && b.sender.Some? && b.sender.value != "" then a.sender == b.sender
                else a.device == b.device)
               == v[0].deletedAt.Some?
            && v[0].content == (if v[0].deletedAt.Some? then Some("") else a.body.content)
  {
    OneMessage(post);
    assert [post] + [deletion] == [post, deletion];
    ChangeIsShown([post], deletion, 0);
  }

  lemma OneMessage(post: Event)
    requires post.item.Some? && post.item.value.body.Text?
    ensures |View([post])| == 1 && IsNew(View([post])[0], post) && IsBlank(View([post])[0], post)
  {
    MessageIsShown([], post);
    assert [] + [post] == [post];
    assert View([]) == [];
  }

  // ---------------------------------------------------------------------------
  // Quotes
  // ---------------------------------------------------------------------------

  lemma {:induction false} LookupFinds(messages: seq<Message>, id: ClientId)
    ensures var m := Lookup(messages, id);
            if m.Some? then m.value in messages && m.value.clientId == id else forall k :: 0 <= k < |messages| ==> messages[k].clientId != id
  {
    if messages != [] { LookupFinds(messages[1..], id); }
  }

  /**
    A reply quotes its target as the list shows it: the sender and the content,
    nothing of a deleted message, and only the id of one that is not shown.
   */
  lemma QuotesWhatIsShown(events: seq<Event>, k: nat)
    requires k < |View(events)|
    ensures var v := View(events);
            var m := v[k];
            if m.reply.None? || m.reply.value == "" then m.quote == NoQuote
            else
              && m.quote.Quote? && m.quote.target == m.reply.value
              && ((forall j :: 0 <= j < |v| ==> v[j].clientId != m.reply.value) ==> m.quote.sender.None? && m.quote.content.None?)
              && (forall j :: 0 <= j < |v| && v[j].clientId == m.reply.value ==>
                    && m.quote.sender == (if v[j].sender == Some("") then None else v[j].sender)
                    && m.quote.content == (if v[j].deletedAt.Some? then Some("") else if v[j].content == Some("") then None else v[j].content))
  {
    var v, shown := View(events), Unquoted(events);
    Unquotes(events, k);
    forall j | 0 <= j < |v| ensures Bare(v[j]) == shown[j] { Unquotes(events, j); }
    if Truthy(v[k].reply) {
      var id := v[k].reply.value;
      LookupFinds(shown, id);
      var found := Lookup(shown, id);
      if found.Some? {
        var l :| 0 <= l < |shown| && shown[l] == found.value;
        forall j | 0 <= j < |v| && v[j].clientId == id ensures j == l {
          if j < l { ShownOnce(events, j, l); }
          if l < j { ShownOnce(events, l, j); }
        }
      }
    }
  }
}
