/** How often one message can be stored: exactly as often as its cache misses allow. */
module DeliveryMisses {
  import opened DeliveryRuns

  /** Continuing a run. */
  function From(s: System, steps: seq<Step>): System
    decreases |steps|
  {
    if steps == [] then s else From(Next(s, steps[0]), steps[1..])
  }

  /** The step starts a call for the message and finds the cache empty. */
  predicate Miss(s: System, step: Step, key: Key) {
    step.Begin? && step.key == key && key !in s.cache && (CallOf(s, step.call).Idle? || CallOf(s, step.call).Acknowledged?)
  }

  function Misses(s: System, steps: seq<Step>, key: Key): nat
    decreases |steps|
  {
    if steps == [] then 0 else (if Miss(s, steps[0], key) then 1 else 0) + Misses(Next(s, steps[0]), steps[1..], key)
  }

  /** Ciphertexts a call holds on to before it was delivered. */
  function HeldOf(s: System, key: Key): set<nat> {
    set p | p in s.calls && s.calls[p].Holding? && s.calls[p].key == key :: s.calls[p].cipher.serial
  }

  function CachedOf(s: System, key: Key): set<nat> {
    if key in s.cache then {s.cache[key].serial} else {}
  }

  /** Ciphertexts that are stored or can still be. */
  function LiveOf(s: System, key: Key): set<nat> {
    StoredOf(s, key) + HeldOf(s, key) + CachedOf(s, key)
  }

  /** Calls whose encryption is under way. */
  function StartedOf(s: System, key: Key): set<nat> {
    set p | p in s.calls && s.calls[p] == Encrypting(key)
  }

  /** How many rows of the message there can be without another cache miss. */
  function Potential(s: System, key: Key): nat {
    |LiveOf(s, key)| + |StartedOf(s, key)|
  }

  // ---------------------------------------------------------------------------
  // No step but a miss adds to the potential
  // ---------------------------------------------------------------------------

  lemma StartedStep(s: System, step: Step, key: Key)
    ensures var t := Next(s, step);
            StartedOf(t, key) ==
              if Miss(s, step, key) then StartedOf(s, key) + {step.call}
              else if step.Encrypt? || step.Fail? then StartedOf(s, key) - {step.call}
              else StartedOf(s, key)
  {
  }

  /** Encrypting makes one new live ciphertext; no other step makes any. */
  lemma LiveStep(s: System, step: Step, key: Key)
    requires Sound(s)
    ensures LiveOf(Next(s, step), key) <=
              LiveOf(s, key) + (if step.Encrypt? && CallOf(s, step.call) == Encrypting(key) then {|s.made|} else {})
  {
    var t := Next(s, step);
    var at := CallOf(s, step.call);
    assert CallMade(s, at);
    forall c | c in LiveOf(t, key) && !(step.Encrypt? && at == Encrypting(key) && c == |s.made|) ensures c in LiveOf(s, key) {
      if c in StoredOf(t, key) {
        StoredStep(s, step, key, c);
      } else if c in HeldOf(t, key) {
        HeldStep(s, step, key, c);
      }
    }
  }

  lemma StoredStep(s: System, step: Step, key: Key, c: nat)
    requires Sound(s) && c in StoredOf(Next(s, step), key)
    ensures c in StoredOf(s, key) || c in HeldOf(s, key)
  {
    var at := CallOf(s, step.call);
    assert CallMade(s, at);
    var row :| row in Next(s, step).rows && row.key == key && row.serial == c;
    if row !in s.rows { assert step.Deliver? && at.Holding? && row == at.cipher; }
  }

  lemma HeldStep(s: System, step: Step, key: Key, c: nat)
    requires Sound(s) && c in HeldOf(Next(s, step), key)
    ensures c in HeldOf(s, key) || c in CachedOf(s, key) || (step.Encrypt? && CallOf(s, step.call) == Encrypting(key) && c == |s.made|)
  {
    var t := Next(s, step);
    var p :| p in t.calls && t.calls[p].Holding? && t.calls[p].key == key && t.calls[p].cipher.serial == c;
    if !(p in s.calls && s.calls[p] == t.calls[p]) { assert p == step.call; }
  }

  lemma PotentialStep(s: System, step: Step, key: Key)
    requires Sound(s)
    ensures Potential(Next(s, step), key) <= Potential(s, key) + if Miss(s, step, key) then 1 else 0
  {
    var t := Next(s, step);
    LiveStep(s, step, key);
    StartedStep(s, step, key);
    if step.Encrypt? && CallOf(s, step.call) == Encrypting(key) {
      assert step.call in StartedOf(s, key);
      Subset(LiveOf(t, key), LiveOf(s, key) + {|s.made|});
      AddOne(LiveOf(s, key), |s.made|);
    } else {
      Subset(LiveOf(t, key), LiveOf(s, key));
      Subset(StartedOf(t, key), StartedOf(s, key) + {step.call});
      AddOne(StartedOf(s, key), step.call);
    }
  }

  lemma AddOne(a: set<nat>, x: nat)
    ensures |a + {x}| == |a| + if x in a then 0 else 1
  {
    if x in a { assert a + {x} == a; }
  }

  /** Whatever happens next, no more rows of the message are ever stored than the potential and the new misses allow. */
  lemma {:induction false} StoredAtMostPotential(s: System, steps: seq<Step>, key: Key)
    requires Sound(s)
    ensures Sound(From(s, steps))
    ensures |StoredOf(From(s, steps), key)| <= Potential(From(s, steps), key) <= Potential(s, key) + Misses(s, steps, key)
    decreases |steps|
  {
    if steps == [] {
      Subset(StoredOf(s, key), LiveOf(s, key));
    } else {
      StepSound(s, steps[0]);
      PotentialStep(s, steps[0], key);
      StoredAtMostPotential(Next(s, steps[0]), steps[1..], key);
    }
  }

  // ---------------------------------------------------------------------------
  // The potential is reached
  // ---------------------------------------------------------------------------

  lemma DeliverHeld(s: System, p: nat, key: Key)
    requires Sound(s) && p in s.calls && s.calls[p].Holding? && s.calls[p].key == key
    requires s.calls[p].cipher.serial !in StoredOf(s, key)
    ensures var t := Next(s, Deliver(p));
            && StoredOf(t, key) == StoredOf(s, key) + {s.calls[p].cipher.serial}
            && LiveOf(t, key) == LiveOf(s, key) && StartedOf(t, key) == StartedOf(s, key)
  {
    var c, t := s.calls[p].cipher, Next(s, Deliver(p));
    assert CallMade(s, s.calls[p]);
    assert c !in s.rows;
    assert t.rows == s.rows + [c];
    forall n ensures n in StoredOf(t, key) <==> n in StoredOf(s, key) || n == c.serial {
      if n == c.serial { assert c in t.rows; }
    }
    forall n | n in HeldOf(s, key) ensures n in LiveOf(t, key) {
      var q :| q in s.calls && s.calls[q].Holding? && s.calls[q].key == key && s.calls[q].cipher.serial == n;
      if q != p { assert t.calls[q] == s.calls[q]; }
    }
    assert c.serial in HeldOf(s, key);
    forall n | n in HeldOf(t, key) ensures n in HeldOf(s, key) {
      var q :| q in t.calls && t.calls[q].Holding? && t.calls[q].key == key && t.calls[q].cipher.serial == n;
      assert s.calls[q] == t.calls[q];
    }
  }

  lemma DeliverShrinks(s: System, p: nat, key: Key)
    requires Sound(s) && p in s.calls && s.calls[p].Holding? && s.calls[p].key == key
    requires s.calls[p].cipher.serial !in StoredOf(s, key)
    ensures var t := Next(s, Deliver(p));
            && LiveOf(t, key) == LiveOf(s, key) && StartedOf(t, key) == StartedOf(s, key)
            && |LiveOf(t, key) - StoredOf(t, key)| < |LiveOf(s, key) - StoredOf(s, key)|
  {
    var t, c := Next(s, Deliver(p)), s.calls[p].cipher.serial;
    DeliverHeld(s, p, key);
    assert c in HeldOf(s, key);
    Fewer(LiveOf(s, key) - StoredOf(s, key), c);
    assert LiveOf(t, key) - StoredOf(t, key) == LiveOf(s, key) - StoredOf(s, key) - {c};
  }

  /** One step in front of a continuation. */
  lemma Then(s: System, step: Step, rest: seq<Step>, key: Key) returns (steps: seq<Step>)
    requires !Miss(s, step, key)
    ensures From(s, steps) == From(Next(s, step), rest) && Misses(s, steps, key) == Misses(Next(s, step), rest, key)
  {
    steps := [step] + rest;
    assert steps[1..] == rest;
  }

  /** A call that starts now takes the cached ciphertext. */
  lemma BeginCached(s: System, p: nat, key: Key)
    requires Sound(s) && p !in s.calls && key in s.cache
    ensures var t := Next(s, Begin(p, key));
            && t.calls == s.calls[p := Holding(key, s.cache[key])] && t.rows == s.rows && t.cache == s.cache
            && LiveOf(t, key) == LiveOf(s, key) && StartedOf(t, key) == StartedOf(s, key)
  {
    var t := Next(s, Begin(p, key));
    forall n ensures n in HeldOf(t, key) <==> n in HeldOf(s, key) || n == s.cache[key].serial {
      if n in HeldOf(s, key) {
        var q :| q in s.calls && s.calls[q].Holding? && s.calls[q].key == key && s.calls[q].cipher.serial == n;
        assert t.calls[q] == s.calls[q];
      }
      assert t.calls[p].cipher.serial in HeldOf(t, key);
    }
  }

  /** When everything live is stored, a started encryption adds one live ciphertext. */
  lemma EncryptStarted(s: System, p: nat, key: Key)
    requires Sound(s) && p in StartedOf(s, key) && LiveOf(s, key) == StoredOf(s, key)
    ensures var t := Next(s, Encrypt(p));
            && StoredOf(t, key) == StoredOf(s, key) && |s.made| !in LiveOf(s, key)
            && LiveOf(t, key) == LiveOf(s, key) + {|s.made|} && StartedOf(t, key) == StartedOf(s, key) - {p}
  {
    var t := Next(s, Encrypt(p));
    StepSound(s, Encrypt(p));
    LiveStep(s, Encrypt(p), key);
    StartedStep(s, Encrypt(p), key);
    forall n | n in StoredOf(s, key) ensures n < |s.made| {
      var c :| c in s.rows && c.key == key && c.serial == n;
      assert Made(s, c);
    }
    assert CallOf(s, p) == Encrypting(key) && t.rows == s.rows;
    assert StoredOf(t, key) == StoredOf(s, key);
    assert |s.made| in CachedOf(t, key);
    assert LiveOf(s, key) + {|s.made|} <= LiveOf(t, key);
  }

  lemma {:induction false} Bound(a: set<nat>) returns (q: nat)
    ensures forall x :: x in a ==> x < q
  {
    if a == {} {
      q := 0;
    } else {
      var x :| x in a;
      var r := Bound(a - {x});
      q := if r <= x then x + 1 else r;
      forall y | y in a ensures y < q { assert y == x || y in a - {x}; }
    }
  }

  /** Something live but not stored is held by a call or cached. */
  lemma NotYetStored(s: System, key: Key) returns (c: nat)
    requires Sound(s) && LiveOf(s, key) != StoredOf(s, key)
    ensures c !in StoredOf(s, key) && (c in HeldOf(s, key) || c in CachedOf(s, key))
  {
    c :| c in LiveOf(s, key) && c !in StoredOf(s, key);
  }

  /** Some continuation without another miss stores exactly as many rows as the potential. */
  lemma {:induction false} PotentialIsReached(s: System, key: Key) returns (steps: seq<Step>)
    requires Sound(s)
    ensures Misses(s, steps, key) == 0 && |StoredOf(From(s, steps), key)| == Potential(s, key)
    decreases |StartedOf(s, key)|, |LiveOf(s, key) - StoredOf(s, key)|
  {
    if LiveOf(s, key) != StoredOf(s, key) {
      var c := NotYetStored(s, key);
      if c in HeldOf(s, key) {
        var p :| p in s.calls && s.calls[p].Holding? && s.calls[p].key == key && s.calls[p].cipher.serial == c;
        steps := AfterDelivery(s, p, key);
      } else {
        var p := Bound(s.calls.Keys);
        BeginCached(s, p, key);
        var t := Next(s, Begin(p, key));
        StepSound(s, Begin(p, key));
        var rest := AfterDelivery(t, p, key);
        steps := Then(s, Begin(p, key), rest, key);
      }
    } else if StartedOf(s, key) != {} {
      var p :| p in StartedOf(s, key);
      EncryptStarted(s, p, key);
      StepSound(s, Encrypt(p));
      Fewer(StartedOf(s, key), p);
      AddOne(LiveOf(s, key), |s.made|);
      var rest := PotentialIsReached(Next(s, Encrypt(p)), key);
      steps := Then(s, Encrypt(p), rest, key);
    } else {
      steps := [];
    }
  }

  lemma {:induction false} AfterDelivery(s: System, p: nat, key: Key) returns (steps: seq<Step>)
    requires Sound(s) && p in s.calls && s.calls[p].Holding? && s.calls[p].key == key
    requires s.calls[p].cipher.serial !in StoredOf(s, key)
    ensures Misses(s, steps, key) == 0 && |StoredOf(From(s, steps), key)| == Potential(s, key)
    decreases |StartedOf(s, key)|, |LiveOf(s, key) - StoredOf(s, key)|, 0
  {
    DeliverShrinks(s, p, key);
    StepSound(s, Deliver(p));
    var rest := PotentialIsReached(Next(s, Deliver(p)), key);
    steps := Then(s, Deliver(p), rest, key);
  }

  lemma Fewer(a: set<nat>, x: nat)
    requires x in a
    ensures |a - {x}| == |a| - 1
  {
    AddOne(a - {x}, x);
    assert (a - {x}) + {x} == a;
  }

  /**
    From any reachable state: every continuation without another cache miss
    stores at most one row of the message if and only if at most one ciphertext
    of it is live or under way.
   */
  lemma StoredOnceExactly(s: System, key: Key)
    requires Sound(s)
    ensures (forall steps :: Misses(s, steps, key) == 0 ==> |StoredOf(From(s, steps), key)| <= 1) <==> Potential(s, key) <= 1
  {
    forall steps | Misses(s, steps, key) == 0 ensures |StoredOf(From(s, steps), key)| <= Potential(s, key) {
      StoredAtMostPotential(s, steps, key);
    }
    var steps := PotentialIsReached(s, key);
  }

  lemma {:induction false} FromRun(before: seq<Step>, steps: seq<Step>)
    ensures From(Run(before), steps) == Run(before + steps)
    decreases |steps|
  {
    if steps == [] {
      assert before + steps == before;
    } else {
      var longer := before + [steps[0]];
      assert longer[..|longer| - 1] == before && longer + steps[1..] == before + steps;
      FromRun(longer, steps[1..]);
    }
  }

  /** So over every run a message is stored at most as often as its calls found the cache empty. */
  lemma StoredAtMostMisses(steps: seq<Step>, key: Key)
    ensures |StoredOf(Run(steps), key)| <= Misses(START, steps, key)
  {
    StoredAtMostPotential(START, steps, key);
    FromRun([], steps);
    assert [] + steps == steps;
    assert LiveOf(START, key) == {} && StartedOf(START, key) == {};
  }
}
