/**
  Sending one message until it is acknowledged: the sender's ciphertext cache,
  the server's deduplicating envelope table, and the lossy network between.
 */
module Delivery {
  import opened Common

  // ---------------------------------------------------------------------------
  // The server's envelope table
  // ---------------------------------------------------------------------------

  /** Byte strings, one character per byte. */
  type Bytes = string
  type DeviceId = string

  const RETENTION: nat := 30 * 24 * 60 * 60

  datatype Row = Row(id: nat, chat: nat, sender: DeviceId, recipient: Option<DeviceId>, epoch: nat, payload: Bytes, hash: Bytes, createdAt: nat)

  datatype Request = Request(chat: nat, welcome: bool, recipient: Option<DeviceId>, epoch: nat, payload: Bytes)

  /** Status of a request: the row that was stored or found, or the error code. */
  datatype Outcome = Stored(row: Row) | Error(status: nat)

  /** The hash function is injective, so a digest stands for the bytes it was computed from. */
  function Digest(recipient: Option<DeviceId>, payload: Bytes): Bytes {
    (if recipient.Some? then recipient.value else "") + "\0" + payload
  }

  /** With device ids free of the separator, a digest determines the payload and the route. */
  lemma DigestDetermines(r: Option<DeviceId>, p: Bytes, r': Option<DeviceId>, p': Bytes)
    requires r.Some? ==> '\0' !in r.value && r.value != ""
    requires r'.Some? ==> '\0' !in r'.value && r'.value != ""
    requires Digest(r, p) == Digest(r', p')
    ensures r == r' && p == p'
  {
    var a, b := if r.Some? then r.value else "", if r'.Some? then r'.value else "";
    FirstSeparator(a, p);
    FirstSeparator(b, p');
    var d := Digest(r, p);
    assert a == d[..|a|] && b == d[..|a|];
    assert p == d[|a| + 1..] && p' == d[|a| + 1..];
  }

  lemma FirstSeparator(a: Bytes, p: Bytes)
    requires '\0' !in a
    ensures (a + "\0" + p)[|a|] == '\0' && forall i :: 0 <= i < |a| ==> (a + "\0" + p)[i] != '\0'
  {
    forall i | 0 <= i < |a| ensures (a + "\0" + p)[i] != '\0' {
      assert (a + "\0" + p)[i] == a[i] && a[i] in a;
    }
  }

  function Purged(rows: seq<Row>, chat: nat, now: nat): (r: seq<Row>)
    ensures forall x :: x in r <==> x in rows && !(x.chat == chat && x.createdAt + RETENTION < now)
  {
    if rows == [] then []
    else
      var rest := Purged(rows[1..], chat, now);
      assert rows == [rows[0]] + rows[1..];
      if rows[0].chat == chat && rows[0].createdAt + RETENTION < now then rest else [rows[0]] + rest
  }

  function Find(rows: seq<Row>, sender: DeviceId, hash: Bytes): (r: Option<Row>)
    ensures r.Some? ==> r.value in rows && r.value.sender == sender && r.value.hash == hash
    ensures r.None? ==> forall x :: x in rows ==> x.sender != sender || x.hash != hash
  {
    if rows == [] then None
    else if rows[0].sender == sender && rows[0].hash == hash then Some(rows[0])
    else Find(rows[1..], sender, hash)
  }

  /** No two rows share sender and hash, and ids are fresh. */
  ghost predicate Unique(rows: seq<Row>, nextId: nat) {
    && (forall x :: x in rows ==> x.id < nextId)
    && (forall x, y :: x in rows && y in rows && x.sender == y.sender && x.hash == y.hash ==> x == y)
    && (forall x, y :: x in rows && y in rows && x.id == y.id ==> x == y)
  }

  /** A row that was not found among the kept ones can be added under the next id. */
  lemma NewRowIsUnique(rows: seq<Row>, nextId: nat, chat: nat, now: nat, sender: DeviceId, hash: Bytes)
    requires Unique(rows, nextId) && Find(Purged(rows, chat, now), sender, hash).None?
    ensures forall row: Row :: row.id == nextId && row.sender == sender && row.hash == hash
              ==> Unique(Purged(rows, chat, now) + [row], nextId + 1)
  {
  }

  class EnvelopeTable {
    var rows: seq<Row>
    var nextId: nat

    ghost predicate Valid()
      reads this
    {
      Unique(rows, nextId)
    }

    constructor ()
      ensures Valid() && rows == []
    {
      rows, nextId := [], 1;
    }

    /**
      One publish request.  `member` and `recipientOk` are the answers of the
      membership and device tables.  Expired rows are hidden from the lookup,
      but only an insertion commits: on every other way out they stay stored.
     */
    method Publish(sender: DeviceId, request: Request, member: bool, recipientOk: bool, now: nat) returns (outcome: Outcome)
      requires Valid()
      modifies this
      ensures Valid()
      ensures var digest := Digest(request.recipient, request.payload);
              var kept := Purged(old(rows), request.chat, now);
              var found := Find(kept, sender, digest);
              if !member then outcome == Error(404) && rows == old(rows)
              else if request.welcome && (request.recipient.None? || !recipientOk) then outcome == Error(422) && rows == old(rows)
              else if !request.welcome && request.recipient.Some? then outcome == Error(422) && rows == old(rows)
              else if found.Some? then
                && rows == old(rows)
                && outcome == if found.value.chat != request.chat || found.value.recipient != request.recipient then Error(409) else Stored(found.value)
              else
                && outcome.Stored? && rows == kept + [outcome.row]
                && outcome.row == Row(old(nextId), request.chat, sender, request.recipient, request.epoch, request.payload, digest, now)
      ensures nextId >= old(nextId)
    {
      if !member { return Error(404); }
      var kept := Purged(rows, request.chat, now);
      if request.welcome {
        if request.recipient.None? { return Error(422); }
        if !recipientOk { return Error(422); }
      } else if request.recipient.Some? {
        return Error(422);
      }
      var digest := Digest(request.recipient, request.payload);
      var existing := Find(kept, sender, digest);
      if existing.Some? {
        if existing.value.chat != request.chat || existing.value.recipient != request.recipient { return Error(409); }
        return Stored(existing.value);
      }
      NewRowIsUnique(rows, nextId, request.chat, now, sender, digest);
      var row := Row(nextId, request.chat, sender, request.recipient, request.epoch, request.payload, digest, now);
      rows, nextId := kept + [row], nextId + 1;
      outcome := Stored(row);
    }
  }

  /** What happens to one attempt on the network. */
  datatype Loss = RequestLost | ReplyLost | Acknowledged

  predicate Monotone(times: seq<nat>) {
    forall i, j :: 0 <= i < j < |times| ==> times[i] <= times[j]
  }

  /** How many requests reached the server. */
  function Arrived(losses: seq<Loss>): nat {
    if losses == [] then 0
    else Arrived(losses[..|losses| - 1]) + if losses[|losses| - 1] == RequestLost then 0 else 1
  }

  /** The row the table holds is the one of every reply. */
  ghost predicate Answered(found: Option<Row>, request: Request, replies: seq<Outcome>, since: nat) {
    if replies == [] then found.None?
    else
      && found.Some? && since <= found.value.createdAt
      && found.value.chat == request.chat && found.value.recipient == request.recipient && found.value.payload == request.payload
      && forall k :: 0 <= k < |replies| ==> replies[k] == Stored(found.value)
  }

  /**
    Re-sending one cached ciphertext at the given times, with any losses: the
    server stores it at most once, and every attempt that reached the server
    got the same row, as long as the retries fall within the retention period.
   */
  method Resend(table: EnvelopeTable, sender: DeviceId, request: Request, losses: seq<Loss>, times: seq<nat>) returns (replies: seq<Outcome>)
    requires table.Valid()
    requires |losses| == |times| && Monotone(times)
    requires !request.welcome && request.recipient.None?
    requires times != [] ==> times[|times| - 1] - times[0] <= RETENTION
    requires forall x :: x in table.rows ==> x.sender != sender || x.hash != Digest(request.recipient, request.payload)
    modifies table
    ensures table.Valid()
    ensures |replies| == Arrived(losses)
    ensures forall i :: 0 <= i < |replies| ==> replies[i].Stored? && replies[i] == replies[0]
    ensures forall x :: x in table.rows && x.sender == sender && x.hash == Digest(request.recipient, request.payload)
              ==> replies != [] && Stored(x) == replies[0]
    ensures replies != [] ==> replies[0].row in table.rows && replies[0].row.payload == request.payload && replies[0].row.chat == request.chat
    ensures replies == [] <==> forall i :: 0 <= i < |losses| ==> losses[i] == RequestLost
  {
    replies := [];
    ghost var digest := Digest(request.recipient, request.payload);
    var i := 0;
    while i < |losses|
      invariant i <= |losses| && |replies| == Arrived(losses[..i]) && table.Valid()
      invariant Answered(Find(table.rows, sender, digest), request, replies, if times == [] then 0 else times[0])
    {
      assert losses[..i + 1] == losses[..i] + [losses[i]];
      if losses[i] != RequestLost {
        var outcome := PublishAgain(table, sender, request, times[i]);
        replies := replies + [outcome];
      }
      i := i + 1;
    }
    assert losses[..i] == losses;
    NoneArrived(losses);
  }

  /** One more request with the same ciphertext while its row is kept: the reply is that row, or the new one. */
  method PublishAgain(table: EnvelopeTable, sender: DeviceId, request: Request, now: nat) returns (outcome: Outcome)
    requires table.Valid() && !request.welcome && request.recipient.None?
    requires var found := Find(table.rows, sender, Digest(request.recipient, request.payload));
             found.Some? ==> found.value.chat == request.chat && found.value.recipient == None && now <= found.value.createdAt + RETENTION
    modifies table
    ensures table.Valid()
    ensures var found := old(Find(table.rows, sender, Digest(request.recipient, request.payload)));
            && outcome.Stored? && Find(table.rows, sender, Digest(request.recipient, request.payload)) == Some(outcome.row)
            && outcome == Stored(if found.Some? then found.value
                                 else Row(old(table.nextId), request.chat, sender, None, request.epoch, request.payload,
                                          Digest(request.recipient, request.payload), now))
  {
    ghost var digest := Digest(request.recipient, request.payload);
    KeptIsFound(table.rows, table.nextId, request.chat, now, sender, digest);
    outcome := table.Publish(sender, request, true, true, now);
    NewIsFound(table.rows, table.nextId, sender, digest, outcome);
  }

  lemma {:induction false} NoneArrived(losses: seq<Loss>)
    ensures Arrived(losses) == 0 <==> forall i :: 0 <= i < |losses| ==> losses[i] == RequestLost
  {
    if losses != [] { NoneArrived(losses[..|losses| - 1]); }
  }

  lemma KeptIsFound(rows: seq<Row>, nextId: nat, chat: nat, now: nat, sender: DeviceId, hash: Bytes)
    requires Unique(rows, nextId)
    requires var f := Find(rows, sender, hash); f.Some? ==> now <= f.value.createdAt + RETENTION
    ensures Find(Purged(rows, chat, now), sender, hash) == Find(rows, sender, hash)
  {
  }

  lemma NewIsFound(rows: seq<Row>, nextId: nat, sender: DeviceId, hash: Bytes, outcome: Outcome)
    requires Unique(rows, nextId)
    requires outcome.Stored? ==> outcome.row in rows && outcome.row.sender == sender && outcome.row.hash == hash
    ensures outcome.Stored? ==> Find(rows, sender, hash) == Some(outcome.row)
  {
  }

  // ---------------------------------------------------------------------------
  // The sender
  // ---------------------------------------------------------------------------

  /** Chat ids are decimal numbers, so the cache key `chat:client` is this pair. */
  datatype WireKey = WireKey(chat: nat, clientId: string)

  datatype Encrypted = Encrypted(epoch: nat, ciphertext: Bytes)

  datatype SendResult = Sent(row: Row) | Threw

  /** One attempt: what the worker would return if asked to encrypt, the network's luck, and the server's clock. */
  datatype Attempt = Attempt(encrypted: Option<Encrypted>, loss: Loss, now: nat)

  function RequestFor(chat: nat, e: Encrypted): Request {
    Request(chat, false, None, e.epoch, e.ciphertext)
  }

  class Sender {
    var pending: map<WireKey, Encrypted>
    var blockedChats: set<nat>
    var localDevicesByChat: map<nat, DeviceId>

    constructor (devices: map<nat, DeviceId>)
      ensures pending == map[] && blockedChats == {} && localDevicesByChat == devices
    {
      pending, blockedChats, localDevicesByChat := map[], {}, devices;
    }

    method GetRetryableEnvelope(key: WireKey, encrypted: Option<Encrypted>) returns (e: Option<Encrypted>)
      modifies this`pending
      ensures e == if key in old(pending) then Some(old(pending)[key]) else encrypted
      ensures pending == if e.Some? then old(pending)[key := e.value] else old(pending)
    {
      if key in pending { return Some(pending[key]); }
      e := encrypted;
      if e.Some? { pending := pending[key := e.value]; }
    }

    /** A blocked chat, or one never synchronised, sends nothing and encrypts nothing. */
    method EncryptAndPublish(table: EnvelopeTable, chat: nat, clientId: string, attempt: Attempt) returns (result: SendResult)
      requires table.Valid()
      modifies this`pending, table
      ensures table.Valid()
      ensures var key := WireKey(chat, clientId);
              var usable := chat !in blockedChats && chat in localDevicesByChat && localDevicesByChat[chat] != "" && clientId != "";
              var e := if key in old(pending) then Some(old(pending)[key]) else attempt.encrypted;
              if !usable || e.None? then result == Threw && pending == old(pending) && table.rows == old(table.rows)
              else
                var sender := localDevicesByChat[chat];
                var digest := Digest(None, e.value.ciphertext);
                var kept := Purged(old(table.rows), chat, attempt.now);
                var found := Find(kept, sender, digest);
                if attempt.loss == RequestLost then
                  result == Threw && pending == old(pending)[key := e.value] && table.rows == old(table.rows)
                else if found.Some? && (found.value.chat != chat || found.value.recipient != None) then
                  result == Threw && pending == old(pending)[key := e.value] && table.rows == old(table.rows)
                else
                  && Find(table.rows, sender, digest).Some?
                  && Find(table.rows, sender, digest).value.chat == chat
                  && Find(table.rows, sender, digest).value.recipient == None
                  && (if found.Some? then table.rows == old(table.rows) && Find(table.rows, sender, digest) == found
                      else
                        && table.rows == kept + [Find(table.rows, sender, digest).value]
                        && Find(table.rows, sender, digest).value
                           == Row(old(table.nextId), chat, sender, None, e.value.epoch, e.value.ciphertext, digest, attempt.now))
                  && if attempt.loss == Acknowledged
                     then result == Sent(Find(table.rows, sender, digest).value) && pending == old(pending) - {key}
                     else result == Threw && pending == old(pending)[key := e.value]
    {
      if chat in blockedChats { return Threw; }
      if chat !in localDevicesByChat || localDevicesByChat[chat] == "" { return Threw; }
      if clientId == "" { return Threw; }
      var sender := localDevicesByChat[chat];
      var key := WireKey(chat, clientId);
      var e := GetRetryableEnvelope(key, attempt.encrypted);
      if e.None? { return Threw; }
      if attempt.loss == RequestLost { return Threw; }
      var outcome := table.Publish(sender, RequestFor(chat, e.value), true, true, attempt.now);
      NewIsFound(table.rows, table.nextId, sender, Digest(None, e.value.ciphertext), outcome);
      if outcome.Error? || attempt.loss == ReplyLost { return Threw; }
      pending := pending - {key};
      result := Sent(outcome.row);
    }

    /**
      The user's retries of one message, one after the other, until the first
      acknowledgement.  Every attempt could encrypt anew, yet only the first
      ciphertext is ever sent: it reaches the server if and only if some
      request does, in one row, and the sending ends with that row as soon as
      an attempt is acknowledged.
     */
    method SendUntilAcknowledged(table: EnvelopeTable, chat: nat, clientId: string, attempts: seq<Attempt>) returns (result: SendResult)
      requires table.Valid()
      requires chat !in blockedChats && chat in localDevicesByChat && localDevicesByChat[chat] != "" && clientId != ""
      requires WireKey(chat, clientId) !in pending
      requires forall i, j :: 0 <= i <= j < |attempts| ==> attempts[i].now <= attempts[j].now <= attempts[i].now + RETENTION
      requires forall i, x :: 0 <= i < |attempts| && attempts[i].encrypted.Some? && x in table.rows ==>
                 x.sender != localDevicesByChat[chat] || x.hash != Digest(None, attempts[i].encrypted.value.ciphertext)
      modifies this`pending, table
      ensures table.Valid()
      ensures forall x, y :: x in table.rows && y in table.rows && x !in old(table.rows) && y !in old(table.rows) ==> x == y
      ensures forall x :: x in table.rows && x !in old(table.rows) ==>
                Carries(x, localDevicesByChat[chat], chat, FirstEncrypted(attempts, |attempts|))
      ensures HasNew(table.rows, old(table.rows)) <==> Reaches(attempts, |attempts|)
      ensures result.Sent? <==> Succeeds(attempts, |attempts|)
      ensures result.Sent? ==> result.row in table.rows && result.row !in old(table.rows) && WireKey(chat, clientId) !in pending
    {
      ghost var key, sender, start := WireKey(chat, clientId), localDevicesByChat[chat], table.rows;
      result := Threw;
      var i := 0;
      while i < |attempts| && result == Threw
        invariant i <= |attempts| && table.Valid() && unchanged(`blockedChats, `localDevicesByChat)
        invariant result.Sent? <==> Succeeds(attempts, i)
        invariant result.Sent? ==> result.row in table.rows && result.row !in start && key !in pending
        invariant result == Threw ==> FirstEncrypted(attempts, i) == if key in pending then Some(pending[key]) else None
        invariant HasNew(table.rows, start) <==> Reaches(attempts, i)
        invariant AllNewCarry(table.rows, start, sender, chat, FirstEncrypted(attempts, i), if attempts == [] then 0 else attempts[0].now)
      {
        OneMoreAttempt(attempts, i);
        assert attempts[0].now <= attempts[i].now <= attempts[0].now + RETENTION;
        result := Try(table, chat, clientId, attempts[i], start, attempts[0].now);
        i := i + 1;
      }
      if FirstEncrypted(attempts, i).Some? { FirstStays(attempts, i, |attempts|); }
      OneCarries(table.rows, table.nextId, start, sender, chat, FirstEncrypted(attempts, |attempts|), if attempts == [] then 0 else attempts[0].now);
    }

    /** One of those attempts, sending the cached ciphertext or else the new one. */
    method Try(table: EnvelopeTable, chat: nat, clientId: string, attempt: Attempt, ghost start: seq<Row>, ghost since: nat)
        returns (result: SendResult)
      requires table.Valid()
      requires chat !in blockedChats && chat in localDevicesByChat && localDevicesByChat[chat] != "" && clientId != ""
      requires since <= attempt.now <= since + RETENTION
      requires var key := WireKey(chat, clientId);
               var sent := if key in pending then Some(pending[key]) else None;
               var e := if key in pending then Some(pending[key]) else attempt.encrypted;
               && AllNewCarry(table.rows, start, localDevicesByChat[chat], chat, sent, since)
               && (e.Some? ==> forall x :: x in start ==>
                     x.sender != localDevicesByChat[chat] || x.hash != Digest(None, e.value.ciphertext))
      modifies this`pending, table
      ensures table.Valid()
      ensures var key := WireKey(chat, clientId);
              var e := if key in old(pending) then Some(old(pending)[key]) else attempt.encrypted;
              && (result.Sent? <==> attempt.loss == Acknowledged && e.Some?)
              && (result == Threw ==> e == if key in pending then Some(pending[key]) else None)
              && AllNewCarry(table.rows, start, localDevicesByChat[chat], chat, e, since)
              && (HasNew(table.rows, start) <==> HasNew(old(table.rows), start) || (attempt.loss != RequestLost && e.Some?))
      ensures result.Sent? ==> result.row in table.rows && result.row !in start && WireKey(chat, clientId) !in pending
    {
      result := EncryptAndPublish(table, chat, clientId, attempt);
    }
  }

  ghost predicate HasNew(rows: seq<Row>, start: seq<Row>) {
    exists x :: x in rows && x !in start
  }

  /** Every row beyond the given ones carries the ciphertext, since the given time. */
  ghost predicate AllNewCarry(rows: seq<Row>, start: seq<Row>, sender: DeviceId, chat: nat, e: Option<Encrypted>, since: nat) {
    forall x :: x in rows && x !in start ==> Carries(x, sender, chat, e) && since <= x.createdAt
  }

  /** The first ciphertext of the first n attempts. */
  function FirstEncrypted(attempts: seq<Attempt>, n: nat): (e: Option<Encrypted>)
    requires n <= |attempts|
    ensures e.None? ==> forall i :: 0 <= i < n ==> attempts[i].encrypted.None?
    ensures e.Some? ==> exists i :: 0 <= i < n && attempts[i].encrypted == e && forall k :: 0 <= k < i ==> attempts[k].encrypted.None?
  {
    if n == 0 then None
    else
      var early := FirstEncrypted(attempts, n - 1);
      if early.Some? then early else attempts[n - 1].encrypted
  }

  lemma {:induction false} FirstStays(attempts: seq<Attempt>, m: nat, n: nat)
    requires m <= n <= |attempts| && FirstEncrypted(attempts, m).Some?
    ensures FirstEncrypted(attempts, n) == FirstEncrypted(attempts, m)
  {
    if m < n { FirstStays(attempts, m, n - 1); }
  }

  lemma OneCarries(rows: seq<Row>, nextId: nat, start: seq<Row>, sender: DeviceId, chat: nat, e: Option<Encrypted>, since: nat)
    requires Unique(rows, nextId) && AllNewCarry(rows, start, sender, chat, e, since)
    ensures forall x, y :: x in rows && y in rows && x !in start && y !in start ==> x == y
  {
  }

  /** One of the first n requests reaches the server. */
  predicate Reaches(attempts: seq<Attempt>, n: nat)
    requires n <= |attempts|
  {
    exists i :: 0 <= i < n && attempts[i].loss != RequestLost && FirstEncrypted(attempts, i + 1).Some?
  }

  /** One of the first n requests is acknowledged. */
  predicate Succeeds(attempts: seq<Attempt>, n: nat)
    requires n <= |attempts|
  {
    exists i :: 0 <= i < n && attempts[i].loss == Acknowledged && FirstEncrypted(attempts, i + 1).Some?
  }

  lemma OneMoreAttempt(attempts: seq<Attempt>, i: nat)
    requires i < |attempts|
    ensures Reaches(attempts, i + 1) <==>
              Reaches(attempts, i) || (attempts[i].loss != RequestLost && FirstEncrypted(attempts, i + 1).Some?)
    ensures Succeeds(attempts, i + 1) <==>
              Succeeds(attempts, i) || (attempts[i].loss == Acknowledged && FirstEncrypted(attempts, i + 1).Some?)
  {
  }

  /** The row is that ciphertext's, from this sender, for this chat. */
  predicate Carries(x: Row, sender: DeviceId, chat: nat, e: Option<Encrypted>) {
    && e.Some? && x.sender == sender && x.chat == chat && x.recipient == None
    && x.epoch == e.value.epoch && x.payload == e.value.ciphertext && x.hash == Digest(None, e.value.ciphertext)
  }
}
