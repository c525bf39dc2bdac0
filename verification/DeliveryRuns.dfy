/**
  Interleaved senders: `encryptAndPublish` broken at its awaits, for any
  number of concurrent calls over a lossy network.
 */
module DeliveryRuns {
  import opened Lifecycle
  import opened LifecycleLaws

  datatype Key = Key(chat: nat, clientId: string)

  /** Every encryption draws the next serial number, so no two ciphertexts are equal. */
  datatype Cipher = Cipher(serial: nat, key: Key)

  /** Where one call stands between two awaits. */
  datatype Call =
    | Idle
    | Encrypting(key: Key)
    | Holding(key: Key, cipher: Cipher)
    | Awaiting(key: Key, cipher: Cipher, id: nat)
    | Acknowledged(key: Key, id: nat)

  /** `made` lists the message of each encryption, `rows` the stored ciphertexts by id. */
  datatype System = System(cache: map<Key, Cipher>, made: seq<Key>, rows: seq<Cipher>, calls: map<nat, Call>)

  datatype Step =
    | Begin(call: nat, key: Key)
    | Encrypt(call: nat)
    | Fail(call: nat)       // the encryption throws: nothing is cached
    | Deliver(call: nat)
    | Lose(call: nat)
    | Reply(call: nat)

  const START := System(map[], [], [], map[])

  function CallOf(s: System, call: nat): Call {
    if call in s.calls then s.calls[call] else Idle
  }

  /** The row id of a ciphertext, or the next free id. */
  function RowOf(rows: seq<Cipher>, c: Cipher): (id: nat)
    ensures id <= |rows|
    ensures id < |rows| ==> rows[id] == c
    ensures id == |rows| ==> c !in rows
  {
    if rows == [] then 0 else if rows[0] == c then 0 else 1 + RowOf(rows[1..], c)
  }

  function Next(s: System, step: Step): System {
    var at := CallOf(s, step.call);
    match step
    case Begin(call, key) =>
      if !(at.Idle? || at.Acknowledged?) then s
      else s.(calls := s.calls[call := if key in s.cache then Holding(key, s.cache[key]) else Encrypting(key)])
    case Encrypt(call) =>
      if !at.Encrypting? then s
      else
        var c := Cipher(|s.made|, at.key);
        s.(made := s.made + [at.key], cache := s.cache[at.key := c], calls := s.calls[call := Holding(at.key, c)])
    case Fail(call) => if at.Encrypting? then s.(calls := s.calls[call := Idle]) else s
    case Deliver(call) =>
      if !at.Holding? then s
      else
        var id := RowOf(s.rows, at.cipher);
        s.(rows := if id < |s.rows| then s.rows else s.rows + [at.cipher], calls := s.calls[call := Awaiting(at.key, at.cipher, id)])
    case Lose(call) => if at.Holding? || at.Awaiting? then s.(calls := s.calls[call := Idle]) else s
    case Reply(call) =>
      if !at.Awaiting? then s
      else s.(cache := s.cache - {at.key}, calls := s.calls[call := Acknowledged(at.key, at.id)])
  }

  function Run(steps: seq<Step>): System {
    if steps == [] then START else Next(Run(steps[..|steps| - 1]), steps[|steps| - 1])
  }

  // ---------------------------------------------------------------------------
  // Every run
  // ---------------------------------------------------------------------------

  predicate Made(s: System, c: Cipher) {
    c.serial < |s.made| && s.made[c.serial] == c.key
  }

  predicate CallMade(s: System, call: Call) {
    match call
    case Holding(key, c) => c.key == key && Made(s, c)
    case Awaiting(key, c, id) => c.key == key && Made(s, c) && id < |s.rows| && s.rows[id] == c
    case Acknowledged(key, id) => id < |s.rows| && s.rows[id].key == key
    case _ => true
  }

  ghost predicate Sound(s: System) {
    && (forall i :: 0 <= i < |s.rows| ==> Made(s, s.rows[i]))
    && (forall i, j :: 0 <= i < j < |s.rows| ==> s.rows[i] != s.rows[j])
    && (forall k :: k in s.cache ==> s.cache[k].key == k && Made(s, s.cache[k]))
    && (forall p :: p in s.calls ==> CallMade(s, s.calls[p]))
  }

  lemma StepCall(s: System, step: Step, p: nat)
    requires Sound(s) && p in Next(s, step).calls
    ensures CallMade(Next(s, step), Next(s, step).calls[p])
  {
    var t := Next(s, step);
    assert s.made <= t.made && s.rows <= t.rows;
    assert CallMade(s, CallOf(s, step.call));
    if p != step.call { assert CallMade(s, s.calls[p]); }
  }

  lemma StepSound(s: System, step: Step)
    requires Sound(s)
    ensures Sound(Next(s, step))
  {
    var t := Next(s, step);
    assert s.made <= t.made && s.rows <= t.rows;
    assert CallMade(s, CallOf(s, step.call));
    forall p | p in t.calls ensures CallMade(t, t.calls[p]) { StepCall(s, step, p); }
  }

  /** Under any interleaving each ciphertext is stored once, and an acknowledgement names a row of its own message. */
  lemma {:induction false} RunSound(steps: seq<Step>)
    ensures Sound(Run(steps))
  {
    if steps != [] {
      RunSound(steps[..|steps| - 1]);
      StepSound(Run(steps[..|steps| - 1]), steps[|steps| - 1]);
    }
  }

  /** Serial numbers of the stored rows of one message. */
  function StoredOf(s: System, key: Key): set<nat> {
    set c | c in s.rows && c.key == key :: c.serial
  }

  function EncryptedOf(s: System, key: Key): set<nat> {
    set i | 0 <= i < |s.made| && s.made[i] == key
  }

  /** A message is stored at most as often as it was encrypted. */
  lemma StoredAtMostEncrypted(steps: seq<Step>, key: Key)
    ensures StoredOf(Run(steps), key) <= EncryptedOf(Run(steps), key)
    ensures |StoredOf(Run(steps), key)| <= |EncryptedOf(Run(steps), key)|
  {
    RunSound(steps);
    Subset(StoredOf(Run(steps), key), EncryptedOf(Run(steps), key));
  }

  lemma Subset(a: set<nat>, b: set<nat>)
    requires a <= b
    ensures |a| <= |b|
  {
    assert |b| == |a| + |b - a| by { assert a + (b - a) == b; }
  }

  // ---------------------------------------------------------------------------
  // Retrying one message in sequence
  // ---------------------------------------------------------------------------

  /** Only one caller works on the message, and it has not been acknowledged yet. */
  ghost predicate Solo(steps: seq<Step>, key: Key, caller: nat) {
    && (forall i :: 0 <= i < |steps| && steps[i].Begin? && steps[i].key == key ==> steps[i].call == caller)
    && (forall i :: 0 <= i <= |steps| ==> !AcknowledgedTo(Run(steps[..i]), key, caller))
  }

  predicate AcknowledgedTo(s: System, key: Key, caller: nat) {
    var at := CallOf(s, caller);
    at.Acknowledged? && at.key == key
  }

  predicate Concerns(call: Call, key: Key) {
    !call.Idle? && call.key == key
  }

  /** One ciphertext at most was ever made for the message, and the cache still holds it. */
  ghost predicate Single(s: System, key: Key, caller: nat) {
    && (forall p :: p in s.calls && p != caller ==> !Concerns(s.calls[p], key))
    && (forall i, j :: 0 <= i < |s.made| && 0 <= j < |s.made| && s.made[i] == key && s.made[j] == key ==> i == j)
    && (key in s.cache <==> key in s.made)
    && (CallOf(s, caller) == Encrypting(key) ==> key !in s.made)
  }

  lemma {:induction false} SoloRun(steps: seq<Step>, key: Key, caller: nat)
    requires Solo(steps, key, caller)
    ensures Single(Run(steps), key, caller)
  {
    if steps != [] {
      var n := |steps| - 1;
      var before := Run(steps[..n]);
      assert forall i :: 0 <= i <= n ==> steps[..n][..i] == steps[..i];
      SoloRun(steps[..n], key, caller);
      RunSound(steps[..n]);
      assert steps[..n + 1] == steps;
      SoloStep(before, steps[n], key, caller);
    }
  }

  lemma SoloStep(s: System, step: Step, key: Key, caller: nat)
    requires Sound(s) && Single(s, key, caller)
    requires step.Begin? && step.key == key ==> step.call == caller
    requires !AcknowledgedTo(Next(s, step), key, caller)
    ensures Single(Next(s, step), key, caller)
  {
    var at := CallOf(s, step.call);
    if step.Encrypt? && at.Encrypting? && at.key == key {
      assert Next(s, step).made[|s.made|] == key;
    }
    if step.Reply? && at.Awaiting? { assert CallMade(s, at); }
  }

  /**
    Retrying one message in sequence, with any losses, up to and including the
    first acknowledgement: at most one row of it is stored, and every reply the
    server gave along the way named that row.
   */
  lemma SequentialRetriesStoreOnce(steps: seq<Step>, key: Key, caller: nat, last: Step, i: nat, j: nat)
    requires Solo(steps, key, caller)
    requires last.Reply?
    requires i < |Run(steps + [last]).rows| && Run(steps + [last]).rows[i].key == key
    requires j < |Run(steps + [last]).rows| && Run(steps + [last]).rows[j].key == key
    ensures i == j
    ensures var at := CallOf(Run(steps), caller); at.Awaiting? && at.key == key ==> at.id == i
  {
    assert (steps + [last])[..|steps|] == steps;
    var s := Run(steps);
    SoloRun(steps, key, caller);
    RunSound(steps);
    assert Made(s, s.rows[i]) && Made(s, s.rows[j]);
    assert CallMade(s, CallOf(s, caller));
  }

  /** Two concurrent calls can both miss the cache: then two ciphertexts of one message are stored. */
  lemma ConcurrentCallsCanStoreTwice(key: Key) returns (steps: seq<Step>)
    ensures |StoredOf(Run(steps), key)| == 2
  {
    steps := BothEncrypt(key);
    var s4 := Run(steps);
    var s5 := Next(s4, Deliver(1));
    var s6 := Next(s5, Deliver(2));
    steps := Extend(steps, Deliver(1), s5);
    steps := Extend(steps, Deliver(2), s6);
    assert s6.rows == [Cipher(0, key), Cipher(1, key)];
    assert StoredOf(s6, key) == {0, 1};
  }

  /** Both calls find the cache empty before either has encrypted. */
  lemma BothEncrypt(key: Key) returns (steps: seq<Step>)
    ensures var s := Run(steps);
            s.rows == [] && CallOf(s, 1) == Holding(key, Cipher(0, key)) && CallOf(s, 2) == Holding(key, Cipher(1, key))
  {
    var s1 := Next(START, Begin(1, key));
    var s2 := Next(s1, Begin(2, key));
    var s3 := Next(s2, Encrypt(1));
    var s4 := Next(s3, Encrypt(2));
    steps := [];
    steps := Extend(steps, Begin(1, key), s1);
    steps := Extend(steps, Begin(2, key), s2);
    steps := Extend(steps, Encrypt(1), s3);
    steps := Extend(steps, Encrypt(2), s4);
  }

  lemma Extend(steps: seq<Step>, step: Step, s: System) returns (longer: seq<Step>)
    requires s == Next(Run(steps), step)
    ensures Run(longer) == s
  {
    longer := steps + [step];
    assert longer[..|longer| - 1] == steps;
  }

  // ---------------------------------------------------------------------------
  // The receiver
  // ---------------------------------------------------------------------------

  /** What the receiver decrypts the stored rows to: any content, but each row carries its own client id. */
  ghost predicate Decrypts(rows: seq<Cipher>, events: seq<Event>) {
    |events| == |rows| && forall i :: 0 <= i < |rows| && events[i].item.Some? ==> events[i].item.value.clientId == rows[i].key.clientId
  }

  /** However the calls interleaved, the receiver shows every client id at most once, and only client ids that were sent. */
  lemma ReceiverShowsOnce(steps: seq<Step>, events: seq<Event>, i: nat, j: nat)
    requires Decrypts(Run(steps).rows, events)
    requires i < |View(events)| && j < |View(events)|
    ensures View(events)[i].clientId == View(events)[j].clientId ==> i == j
    ensures exists k :: 0 <= k < |Run(steps).made| && Run(steps).made[k].clientId == View(events)[i].clientId
  {
    if i < j { ShownOnce(events, i, j); }
    if j < i { ShownOnce(events, j, i); }
    RunSound(steps);
    var firsts := Firsts(events);
    FirstsDistinct(events);
    BasesDistinct(firsts);
    FinalKeepsIdentity(NewMessage(Bases(firsts)[i]), Mutations(firsts));
    FirstsComeFrom(events, Bases(firsts)[i]);
    var r :| 0 <= r < |events| && events[r] == Bases(firsts)[i];
    assert Made(Run(steps), Run(steps).rows[r]);
  }

  lemma {:induction false} FirstsComeFrom(events: seq<Event>, e: Event)
    requires e in Firsts(events)
    ensures e in events
  {
    var n := |events| - 1;
    if e in Firsts(events[..n]) {
      FirstsComeFrom(events[..n], e);
      assert forall x :: x in events[..n] ==> x in events;
    } else {
      assert e == events[n];
    }
  }
}
