/** Round trip, independence of field order, and uniqueness of the payload encoding. */
module PayloadLaws {
  import opened Common
  import opened Json
  import opened Payload

  // ---------------------------------------------------------------------------
  // Validation does not look at field order
  // ---------------------------------------------------------------------------

  lemma {:induction false} KeysWithinMeans(fs: seq<Field>, names: seq<string>)
    ensures KeysWithin(fs, names) <==> forall key :: HasKey(fs, key) ==> key in names
  {
    if fs != [] {
      KeysWithinMeans(fs[1..], names);
      assert HasKey(fs, fs[0].key);
      forall key ensures HasKey(fs, key) <==> key == fs[0].key || HasKey(fs[1..], key) {
      }
    }
  }

  /** Field by field equal after canonicalising. */
  ghost predicate Alike(before: Order, fs: seq<Field>, gs: seq<Field>) {
    forall key :: AlikeAt(before, fs, gs, key)
  }

  predicate AlikeAt(before: Order, fs: seq<Field>, gs: seq<Field>, key: string) {
    var v, w := Get(fs, key), Get(gs, key);
    if v.None? then w.None? else w.Some? && Canonicalize(before, v.value) == Canonicalize(before, w.value)
  }

  lemma KeysWithinAlike(before: Order, fs: seq<Field>, gs: seq<Field>, names: seq<string>)
    requires Alike(before, fs, gs)
    ensures KeysWithin(fs, names) <==> KeysWithin(gs, names)
  {
    KeysWithinMeans(fs, names);
    KeysWithinMeans(gs, names);
    forall key ensures HasKey(fs, key) <==> HasKey(gs, key) { assert AlikeAt(before, fs, gs, key); }
  }

  lemma HasAllAlike(before: Order, fs: seq<Field>, gs: seq<Field>, names: seq<string>)
    requires Alike(before, fs, gs)
    ensures HasAll(fs, names) <==> HasAll(gs, names)
  {
    forall i | 0 <= i < |names| ensures HasKey(fs, names[i]) <==> HasKey(gs, names[i]) {
      assert AlikeAt(before, fs, gs, names[i]);
    }
  }

  /** A value that is no array and no object is its own canonical form. */
  lemma Scalars(before: Order, v: Value, w: Value)
    requires Canonicalize(before, v) == Canonicalize(before, w)
    ensures v.Obj? == w.Obj? && v.Arr? == w.Arr?
    ensures !v.Obj? && !v.Arr? ==> v == w
  {
  }

  /** Objects with one canonical form are alike field by field. */
  lemma FieldsAlike(before: Order, v: Value, w: Value)
    requires TotalOrder(before) && v.Obj? && w.Obj? && DistinctKeys(v.fields) && DistinctKeys(w.fields)
    requires Canonicalize(before, v) == Canonicalize(before, w)
    ensures Alike(before, v.fields, w.fields)
  {
    forall key ensures AlikeAt(before, v.fields, w.fields, key) {
      CanonicalGet(before, v.fields, key);
      CanonicalGet(before, w.fields, key);
    }
  }

  /** Conversely, alike objects have one canonical form. */
  lemma AlikeIsSame(before: Order, fs: seq<Field>, gs: seq<Field>)
    requires TotalOrder(before) && DistinctKeys(fs) && DistinctKeys(gs) && Alike(before, fs, gs)
    ensures Canonicalize(before, Obj(fs)) == Canonicalize(before, Obj(gs))
  {
    CanonicalSorted(before, fs);
    CanonicalSorted(before, gs);
    forall key ensures Get(CanonicalFields(before, fs), key) == Get(CanonicalFields(before, gs), key) {
      CanonicalGet(before, fs, key);
      CanonicalGet(before, gs, key);
      assert AlikeAt(before, fs, gs, key);
    }
    SortedUnique(before, CanonicalFields(before, fs), CanonicalFields(before, gs));
  }

  lemma ScalarAlike(before: Order, fs: seq<Field>, gs: seq<Field>, key: string)
    requires Alike(before, fs, gs)
    ensures Get(fs, key).None? <==> Get(gs, key).None?
    ensures Get(fs, key).Some? ==>
              && Get(fs, key).value.Obj? == Get(gs, key).value.Obj?
              && Get(fs, key).value.Arr? == Get(gs, key).value.Arr?
              && (!Get(fs, key).value.Obj? && !Get(fs, key).value.Arr? ==> Get(fs, key) == Get(gs, key))
  {
    assert AlikeAt(before, fs, gs, key);
    if Get(fs, key).Some? { Scalars(before, Get(fs, key).value, Get(gs, key).value); }
  }

  /** Two plain objects under one key, alike field by field. */
  lemma InnerAlike(before: Order, fs: seq<Field>, gs: seq<Field>, key: string)
    requires TotalOrder(before) && Alike(before, fs, gs) && PlainFields(fs) && PlainFields(gs)
    requires Get(fs, key).Some? && Get(fs, key).value.Obj?
    ensures Get(gs, key).Some? && Get(gs, key).value.Obj?
    ensures Alike(before, Get(fs, key).value.fields, Get(gs, key).value.fields)
    ensures PlainFields(Get(fs, key).value.fields) && PlainFields(Get(gs, key).value.fields)
    ensures DistinctKeys(Get(fs, key).value.fields) && DistinctKeys(Get(gs, key).value.fields)
  {
    ScalarAlike(before, fs, gs, key);
    assert AlikeAt(before, fs, gs, key);
    GetPlain(fs, key);
    GetPlain(gs, key);
    FieldsAlike(before, Get(fs, key).value, Get(gs, key).value);
  }

  lemma DescriptorAlike(before: Order, fs: seq<Field>, gs: seq<Field>, key: string)
    requires TotalOrder(before) && Alike(before, fs, gs) && PlainFields(fs) && PlainFields(gs)
    ensures ValidDescriptor(Get(fs, key)) ==> ValidDescriptor(Get(gs, key))
  {
    if ValidDescriptor(Get(fs, key)) {
      InnerAlike(before, fs, gs, key);
      var f, g := Get(fs, key).value.fields, Get(gs, key).value.fields;
      KeysWithinAlike(before, f, g, DESCRIPTOR_FIELDS);
      HasAllAlike(before, f, g, DESCRIPTOR_FIELDS);
      ScalarAlike(before, f, g, "version");
      ScalarAlike(before, f, g, "algorithm");
      ScalarAlike(before, f, g, "object_id");
      ScalarAlike(before, f, g, "key");
      ScalarAlike(before, f, g, "nonce");
      ScalarAlike(before, f, g, "sha256");
      ScalarAlike(before, f, g, "plaintext_size");
      ScalarAlike(before, f, g, "ciphertext_size");
    }
  }

  lemma ReplyAlike(before: Order, fs: seq<Field>, gs: seq<Field>, key: string)
    requires TotalOrder(before) && Alike(before, fs, gs) && PlainFields(fs) && PlainFields(gs)
    ensures ValidReply(Get(fs, key)) ==> ValidReply(Get(gs, key))
  {
    ScalarAlike(before, fs, gs, key);
    if Get(fs, key).Some? && ValidReply(Get(fs, key)) {
      InnerAlike(before, fs, gs, key);
      var f, g := Get(fs, key).value.fields, Get(gs, key).value.fields;
      KeysWithinAlike(before, f, g, ["target_client_id"]);
      ScalarAlike(before, f, g, "target_client_id");
    }
  }

  lemma ContentAlike(p: Platform, kind: string, fs: seq<Field>, gs: seq<Field>)
    requires TotalOrder(p.before) && Alike(p.before, fs, gs) && PlainFields(fs) && PlainFields(gs)
    requires ValidContent(p, kind, fs)
    ensures ValidContent(p, kind, gs)
  {
    ScalarAlike(p.before, fs, gs, "target_client_id");
    ScalarAlike(p.before, fs, gs, "content");
    ScalarAlike(p.before, fs, gs, "name");
    ScalarAlike(p.before, fs, gs, "emoji");
    ScalarAlike(p.before, fs, gs, "state");
    ScalarAlike(p.before, fs, gs, "event");
    ScalarAlike(p.before, fs, gs, "kind");
    ScalarAlike(p.before, fs, gs, "sticker");
    DescriptorAlike(p.before, fs, gs, "attachment_descriptor");
    ReplyAlike(p.before, fs, gs, "reply");
  }

  /** Plain values with one canonical form are valid together. */
  lemma ValidAlike(p: Platform, v: Value, w: Value)
    requires TotalOrder(p.before) && Plain(v) && Plain(w) && Canonicalize(p.before, v) == Canonicalize(p.before, w)
    requires ValidPayload(p, v)
    ensures ValidPayload(p, w)
  {
    Scalars(p.before, v, w);
    FieldsAlike(p.before, v, w);
    var fs, gs := v.fields, w.fields;
    KeysWithinAlike(p.before, fs, gs, TOP_LEVEL_FIELDS);
    ScalarAlike(p.before, fs, gs, "version");
    ScalarAlike(p.before, fs, gs, "type");
    ScalarAlike(p.before, fs, gs, "client_id");
    ScalarAlike(p.before, fs, gs, "sender_device_id");
    ScalarAlike(p.before, fs, gs, "sent_at");
    InnerAlike(p.before, fs, gs, "body");
    var kind := Get(fs, "type").value.s;
    var f, g := Get(fs, "body").value.fields, Get(gs, "body").value.fields;
    KeysWithinAlike(p.before, f, g, Allowed(kind));
    HasAllAlike(p.before, f, g, Required(kind));
    ContentAlike(p, kind, f, g);
  }

  // ---------------------------------------------------------------------------
  // The wire value
  // ---------------------------------------------------------------------------

  ghost predicate DistinctNames(names: seq<string>) {
    forall i, j :: 0 <= i < j < |names| ==> names[i] != names[j]
  }

  lemma Cons(f: Field, fs: seq<Field>, key: string)
    ensures Get([f] + fs, key) == if key == f.key then Some(f.value) else Get(fs, key)
    ensures DistinctKeys([f] + fs) <==> DistinctKeys(fs) && Get(fs, f.key).None?
    ensures PlainFields([f] + fs) <==> PlainFields(fs) && Plain(f.value)
  {
    assert ([f] + fs)[1..] == fs;
  }

  lemma {:induction false} PickGet(names: seq<string>, fs: seq<Field>, key: string)
    ensures Get(Pick(names, fs), key) == if key in names then Get(fs, key) else None
  {
    if names != [] {
      var rest := Pick(names[1..], fs);
      PickGet(names[1..], fs, key);
      assert names == [names[0]] + names[1..];
      if HasKey(fs, names[0]) {
        Cons(Field(names[0], Get(fs, names[0]).value), rest, key);
      } else {
        assert Pick(names, fs) == rest;
      }
    }
  }

  lemma {:induction false} PickPlain(names: seq<string>, fs: seq<Field>)
    requires DistinctNames(names) && PlainFields(fs)
    ensures DistinctKeys(Pick(names, fs)) && PlainFields(Pick(names, fs))
  {
    if names != [] {
      var rest := Pick(names[1..], fs);
      PickPlain(names[1..], fs);
      if HasKey(fs, names[0]) {
        GetPlain(fs, names[0]);
        PickGet(names[1..], fs, names[0]);
        Cons(Field(names[0], Get(fs, names[0]).value), rest, names[0]);
      } else {
        assert Pick(names, fs) == rest;
      }
    }
  }

  lemma AllowedDistinct(kind: string)
    ensures DistinctNames(Allowed(kind))
  {
  }

  function AssembledAt(kind: string, clientId: Value, sender: Value, sentAt: Value, body: seq<Field>, key: string): Option<Value> {
    if key == "version" then Some(Number(1))
    else if key == "type" then Some(Str(kind))
    else if key == "client_id" then Some(clientId)
    else if key == "sender_device_id" then Some(sender)
    else if key == "sent_at" then Some(sentAt)
    else if key == "body" then Some(Obj(body))
    else None
  }

  /** The assembled object as a list built from the back. */
  lemma Unfolded(kind: string, clientId: Value, sender: Value, sentAt: Value, body: seq<Field>)
    ensures Assemble(kind, clientId, sender, sentAt, body).fields ==
      [Field("version", Number(1))] + ([Field("type", Str(kind))] + ([Field("client_id", clientId)]
        + ([Field("sender_device_id", sender)] + ([Field("sent_at", sentAt)] + ([Field("body", Obj(body))] + [])))))
  {
  }

  /** The assembled object: what stands under each key, and that nothing else does. */
  lemma AssembleGet(kind: string, clientId: Value, sender: Value, sentAt: Value, body: seq<Field>, key: string)
    ensures Get(Assemble(kind, clientId, sender, sentAt, body).fields, key) == AssembledAt(kind, clientId, sender, sentAt, body, key)
  {
    var t5 := [Field("body", Obj(body))] + [];
    var t4 := [Field("sent_at", sentAt)] + t5;
    var t3 := [Field("sender_device_id", sender)] + t4;
    var t2 := [Field("client_id", clientId)] + t3;
    Unfolded(kind, clientId, sender, sentAt, body);
    Cons(Field("body", Obj(body)), [], key);
    Cons(Field("sent_at", sentAt), t5, key);
    Cons(Field("sender_device_id", sender), t4, key);
    Cons(Field("client_id", clientId), t3, key);
    Cons(Field("type", Str(kind)), t2, key);
    Cons(Field("version", Number(1)), [Field("type", Str(kind))] + t2, key);
  }

  lemma Extend(f: Field, fs: seq<Field>, keys: seq<string>)
    requires DistinctKeys(fs) && PlainFields(fs) && Plain(f.value) && KeysWithin(fs, keys) && f.key !in keys
    ensures DistinctKeys([f] + fs) && PlainFields([f] + fs) && KeysWithin([f] + fs, [f.key] + keys)
  {
    KeysWithinMeans(fs, keys);
    KeysWithinMeans(fs, [f.key] + keys);
    Cons(f, fs, f.key);
    assert ([f] + fs)[1..] == fs;
  }

  lemma AssemblePlain(kind: string, clientId: Value, sender: Value, sentAt: Value, body: seq<Field>)
    requires Plain(clientId) && Plain(sender) && Plain(sentAt) && Plain(Obj(body))
    ensures Plain(Assemble(kind, clientId, sender, sentAt, body))
  {
    var t5 := [Field("body", Obj(body))] + [];
    var t4 := [Field("sent_at", sentAt)] + t5;
    var t3 := [Field("sender_device_id", sender)] + t4;
    var t2 := [Field("client_id", clientId)] + t3;
    var t1 := [Field("type", Str(kind))] + t2;
    Unfolded(kind, clientId, sender, sentAt, body);
    Extend(Field("body", Obj(body)), [], []);
    Extend(Field("sent_at", sentAt), t5, ["body"] + []);
    Extend(Field("sender_device_id", sender), t4, ["sent_at"] + (["body"] + []));
    Extend(Field("client_id", clientId), t3, ["sender_device_id"] + (["sent_at"] + (["body"] + [])));
    Extend(Field("type", Str(kind)), t2, ["client_id"] + (["sender_device_id"] + (["sent_at"] + (["body"] + []))));
    Extend(Field("version", Number(1)), t1, ["type"] + (["client_id"] + (["sender_device_id"] + (["sent_at"] + (["body"] + [])))));
  }

  lemma SentAtPlain(fs: seq<Field>)
    requires PlainFields(fs) && SentAt(fs).Some?
    ensures Plain(SentAt(fs).value)
  {
    if HasKey(fs, "sent_at") { GetPlain(fs, "sent_at"); }
    if HasKey(fs, "timestamp") { GetPlain(fs, "timestamp"); }
  }

  lemma WirePlain(p: Platform, message: Value)
    requires Plain(message) && WireValue(p, message).Some?
    ensures Plain(WireValue(p, message).value)
  {
    var fs := message.fields;
    var kind := InferType(fs);
    AllowedDistinct(kind);
    PickPlain(Allowed(kind), fs);
    GetPlain(fs, "client_id");
    GetPlain(fs, "sender_device_id");
    SentAtPlain(fs);
    AssemblePlain(kind, Get(fs, "client_id").value, Get(fs, "sender_device_id").value, SentAt(fs).value, Pick(Allowed(kind), fs));
  }

  // ---------------------------------------------------------------------------
  // Round trip
  // ---------------------------------------------------------------------------

  /** A plain valid value, canonically encoded, is decoded to its canonical form. */
  lemma ValueRoundTrip(p: Platform, v: Value)
    requires Lawful(p) && Plain(v) && ValidPayload(p, v)
    ensures var c := Canonicalize(p.before, v);
            ValidPayload(p, c) && Decode(p, p.utf8(CanonicalJson(p, v))) == Some(Flatten(p, c))
  {
    var c := Canonicalize(p.before, v);
    CanonicalizeIsCanonical(p.before, v);
    CanonicalIsFixed(p.before, c);
    ValidAlike(p, v, c);
    var text := p.stringify(c);
    assert JsonLaw(p, c);
    assert text == ['{'] + text[1..];
    assert TextLaw(p, text) && TextLaw(p, text[1..]);
  }

  /** What a message contributes to the decoded body under a key. */
  function BodyAt(before: Order, fs: seq<Field>, key: string): Option<Value> {
    if key in Allowed(InferType(fs)) && HasKey(fs, key) then Some(Canonicalize(before, Get(fs, key).value)) else None
  }

  lemma BodyCanonical(before: Order, fs: seq<Field>, key: string)
    requires PlainFields(fs)
    ensures Get(CanonicalFields(before, Pick(Allowed(InferType(fs)), fs)), key) == BodyAt(before, fs, key)
  {
    var names := Allowed(InferType(fs));
    AllowedDistinct(InferType(fs));
    PickPlain(names, fs);
    PickGet(names, fs, key);
    CanonicalGet(before, Pick(names, fs), key);
  }

  lemma WireCanonical(before: Order, kind: string, cid: Value, sid: Value, sent: Value, body: seq<Field>, key: string)
    requires Plain(Assemble(kind, cid, sid, sent, body))
    ensures var at := AssembledAt(kind, cid, sid, sent, body, key);
            Get(CanonicalFields(before, Assemble(kind, cid, sid, sent, body).fields), key)
            == if at.None? then None else Some(Canonicalize(before, at.value))
  {
    AssembleGet(kind, cid, sid, sent, body, key);
    CanonicalGet(before, Assemble(kind, cid, sid, sent, body).fields, key);
  }

  /** The flat form of a canonical wire value. */
  lemma Flattened(p: Platform, kind: string, cid: string, sid: string, sent: string, body: seq<Field>)
    requires Plain(Assemble(kind, Str(cid), Str(sid), Str(sent), body))
    requires ValidPayload(p, Canonicalize(p.before, Assemble(kind, Str(cid), Str(sid), Str(sent), body)))
    ensures Flatten(p, Canonicalize(p.before, Assemble(kind, Str(cid), Str(sid), Str(sent), body)))
         == Decoded(kind, cid, sid, sent, CanonicalFields(p.before, body))
  {
    WireCanonical(p.before, kind, Str(cid), Str(sid), Str(sent), body, "type");
    WireCanonical(p.before, kind, Str(cid), Str(sid), Str(sent), body, "client_id");
    WireCanonical(p.before, kind, Str(cid), Str(sid), Str(sent), body, "sender_device_id");
    WireCanonical(p.before, kind, Str(cid), Str(sid), Str(sent), body, "sent_at");
    WireCanonical(p.before, kind, Str(cid), Str(sid), Str(sent), body, "body");
  }

  /** The decoded payload carries what the message held and nothing else. */
  ghost predicate Carries(before: Order, fs: seq<Field>, d: Decoded) {
    && d.kind == InferType(fs)
    && Get(fs, "client_id") == Some(Str(d.clientId))
    && Get(fs, "sender_device_id") == Some(Str(d.sender))
    && SentAt(fs) == Some(Str(d.sentAt))
    && forall key :: Get(d.body, key) == BodyAt(before, fs, key)
  }

  /**
    Decoding an encoded message gives back its type, its identifiers, its time
    and exactly its allow-listed fields, each in canonical form.
   */
  lemma EncodeDecodes(p: Platform, message: Value)
    requires Lawful(p) && Plain(message)
    ensures Encode(p, message).Some? ==>
              && message.Obj? && Decode(p, Encode(p, message).value).Some?
              && Carries(p.before, message.fields, Decode(p, Encode(p, message).value).value)
  {
    if Encode(p, message).Some? {
      var fs, v := message.fields, WireValue(p, message).value;
      WirePlain(p, message);
      ValueRoundTrip(p, v);
      Flattened(p, InferType(fs), Get(fs, "client_id").value.s, Get(fs, "sender_device_id").value.s, SentAt(fs).value.s,
                Pick(Allowed(InferType(fs)), fs));
      forall key ensures Get(CanonicalFields(p.before, Pick(Allowed(InferType(fs)), fs)), key) == BodyAt(p.before, fs, key) {
        BodyCanonical(p.before, fs, key);
      }
    }
  }

  // ---------------------------------------------------------------------------
  // Field order does not matter
  // ---------------------------------------------------------------------------

  lemma InferAlike(before: Order, fs: seq<Field>, gs: seq<Field>)
    requires Alike(before, fs, gs)
    ensures InferType(fs) == InferType(gs)
  {
    ScalarAlike(before, fs, gs, "operation");
    ScalarAlike(before, fs, gs, "attachment_descriptor");
  }

  lemma SentAlike(p: Platform, fs: seq<Field>, gs: seq<Field>)
    requires Alike(p.before, fs, gs)
    ensures IsIso(p, SentAt(fs)) <==> IsIso(p, SentAt(gs))
    ensures IsIso(p, SentAt(fs)) ==> SentAt(fs) == SentAt(gs)
  {
    ScalarAlike(p.before, fs, gs, "sent_at");
    ScalarAlike(p.before, fs, gs, "timestamp");
  }

  lemma PickAlike(before: Order, fs: seq<Field>, gs: seq<Field>, names: seq<string>)
    requires Alike(before, fs, gs)
    ensures Alike(before, Pick(names, fs), Pick(names, gs))
  {
    forall key ensures AlikeAt(before, Pick(names, fs), Pick(names, gs), key) {
      PickGet(names, fs, key);
      PickGet(names, gs, key);
      assert AlikeAt(before, fs, gs, key);
    }
  }

  lemma AssembleAlike(before: Order, kind: string, cid: Value, sid: Value, sent: Value, body: seq<Field>, other: seq<Field>)
    requires Canonicalize(before, Obj(body)) == Canonicalize(before, Obj(other))
    ensures Alike(before, Assemble(kind, cid, sid, sent, body).fields, Assemble(kind, cid, sid, sent, other).fields)
  {
    forall key ensures AlikeAt(before, Assemble(kind, cid, sid, sent, body).fields, Assemble(kind, cid, sid, sent, other).fields, key) {
      AssembleGet(kind, cid, sid, sent, body, key);
      AssembleGet(kind, cid, sid, sent, other, key);
    }
  }

  lemma WireAlike(p: Platform, a: Value, b: Value)
    requires TotalOrder(p.before) && Plain(a) && Plain(b) && Same(a, b)
    ensures WireValue(p, a).None? <==> WireValue(p, b).None?
    ensures WireValue(p, a).Some? ==>
              Canonicalize(p.before, WireValue(p, a).value) == Canonicalize(p.before, WireValue(p, b).value)
  {
    CanonicalExact(p.before, a, b);
    Scalars(p.before, a, b);
    if a.Obj? {
      var fs, gs := a.fields, b.fields;
      FieldsAlike(p.before, a, b);
      InferAlike(p.before, fs, gs);
      SentAlike(p, fs, gs);
      ScalarAlike(p.before, fs, gs, "client_id");
      ScalarAlike(p.before, fs, gs, "sender_device_id");
      var kind := InferType(fs);
      KeysWithinAlike(p.before, fs, gs, OutboundAllowed(kind));
      if WireValue(p, a).Some? {
        var body, other := Pick(Allowed(kind), fs), Pick(Allowed(kind), gs);
        AllowedDistinct(kind);
        PickPlain(Allowed(kind), fs);
        PickPlain(Allowed(kind), gs);
        PickAlike(p.before, fs, gs, Allowed(kind));
        AlikeIsSame(p.before, body, other);
        WirePlain(p, a);
        WirePlain(p, b);
        AssembleAlike(p.before, kind, Get(fs, "client_id").value, Get(fs, "sender_device_id").value, SentAt(fs).value, body, other);
        AlikeIsSame(p.before, WireValue(p, a).value.fields, WireValue(p, b).value.fields);
      }
    }
  }

  /** Messages equal up to field order, at any depth, are both refused or have the same bytes. */
  lemma EncodeIgnoresFieldOrder(p: Platform, a: Value, b: Value)
    requires TotalOrder(p.before) && Plain(a) && Plain(b) && Same(a, b)
    ensures Encode(p, a) == Encode(p, b)
  {
    WireAlike(p, a, b);
    if WireValue(p, a).Some? {
      var v, w := WireValue(p, a).value, WireValue(p, b).value;
      WirePlain(p, a);
      WirePlain(p, b);
      if ValidPayload(p, v) { ValidAlike(p, v, w); }
      if ValidPayload(p, w) { ValidAlike(p, w, v); }
    }
  }

  // ---------------------------------------------------------------------------
  // Which byte strings decode to one payload
  // ---------------------------------------------------------------------------

  predicate Marked(bytes: Bytes) {
    MARK <= bytes
  }

  function Unmarked(bytes: Bytes): Bytes {
    if Marked(bytes) then bytes[|MARK|..] else bytes
  }

  /** The same payload, the body compared as a map. */
  predicate SamePayload(d: Decoded, e: Decoded) {
    && d.kind == e.kind && d.clientId == e.clientId && d.sender == e.sender && d.sentAt == e.sentAt
    && Same(Obj(d.body), Obj(e.body))
  }

  /** An accepted byte string: its text and its parsed value. */
  lemma Accepted(p: Platform, bytes: Bytes) returns (text: string, v: Value)
    requires Lawful(p) && Decode(p, bytes).Some?
    ensures p.fromUtf8(bytes) == Some(text) && p.parse(text) == Some(v)
    ensures Plain(v) && ValidPayload(p, v) && text == CanonicalJson(p, v) && Decode(p, bytes) == Some(Flatten(p, v))
    ensures !HasBom(text) && Unmarked(bytes) == p.utf8(text)
    ensures !Marked(p.utf8(text)) && 0 < |p.utf8(text)|
  {
    text := p.fromUtf8(bytes).value;
    v := p.parse(text).value;
    assert JsonLaw(p, Canonicalize(p.before, v)) && BytesLaw(p, bytes);
    assert text == ['{'] + text[1..];
    assert TextLaw(p, text) && TextLaw(p, text[1..]);
    var plain := p.utf8(text);
    assert plain[0] == 0x7B && MARK[0] == 0xEF;
    assert (MARK + plain)[|MARK|..] == plain;
  }

  /** Payloads that agree come from one text. */
  lemma OneText(p: Platform, v: Value, w: Value)
    requires TotalOrder(p.before) && Plain(v) && Plain(w) && ValidPayload(p, v) && ValidPayload(p, w)
    requires SamePayload(Flatten(p, v), Flatten(p, w))
    ensures CanonicalJson(p, v) == CanonicalJson(p, w)
  {
    var fs, gs := v.fields, w.fields;
    KeysWithinMeans(fs, TOP_LEVEL_FIELDS);
    KeysWithinMeans(gs, TOP_LEVEL_FIELDS);
    GetPlain(fs, "body");
    GetPlain(gs, "body");
    CanonicalExact(p.before, Get(fs, "body").value, Get(gs, "body").value);
    forall key ensures AlikeAt(p.before, fs, gs, key) {
      if key in TOP_LEVEL_FIELDS {
        TopLevel(key);
      }
    }
    AlikeIsSame(p.before, fs, gs);
  }

  lemma TopLevel(key: string)
    requires key in TOP_LEVEL_FIELDS
    ensures key == "version" || key == "type" || key == "client_id" || key == "sender_device_id" || key == "sent_at" || key == "body"
  {
  }

  /**
    Two accepted byte strings decode to the same payload exactly when they are
    equal once a leading byte order mark is dropped.
   */
  lemma DecodedAlikeExactly(p: Platform, first: Bytes, second: Bytes)
    requires Lawful(p)
    ensures Decode(p, first).Some? && Decode(p, second).Some? ==>
              (SamePayload(Decode(p, first).value, Decode(p, second).value) <==> Unmarked(first) == Unmarked(second))
  {
    if Decode(p, first).Some? && Decode(p, second).Some? {
      var t, v := Accepted(p, first);
      var u, w := Accepted(p, second);
      if SamePayload(Decode(p, first).value, Decode(p, second).value) {
        OneText(p, v, w);
      }
      if p.utf8(t) == p.utf8(u) {
        assert TextLaw(p, t) && TextLaw(p, u);
        GetPlain(v.fields, "body");
        CanonicalExact(p.before, Get(v.fields, "body").value, Get(v.fields, "body").value);
      }
    }
  }

  /** So an encoding is unique exactly up to the mark, which the decoder does tolerate. */
  lemma MarkIsTolerated(p: Platform, bytes: Bytes)
    requires Lawful(p) && Decode(p, bytes).Some?
    ensures Decode(p, Unmarked(bytes)) == Decode(p, bytes)
    ensures Decode(p, MARK + Unmarked(bytes)).Some? <==> |MARK| + |Unmarked(bytes)| <= MAX_ENCODED_BYTES
    ensures Decode(p, MARK + Unmarked(bytes)).Some? ==> Decode(p, MARK + Unmarked(bytes)) == Decode(p, bytes)
  {
    var t, v := Accepted(p, bytes);
    assert TextLaw(p, t) && TextLaw(p, [BOM] + t);
    assert ([BOM] + t)[1..] == t;
  }
}
