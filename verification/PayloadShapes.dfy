/**
  Which messages are encoded and which byte strings are decoded, said field by
  field for each kind of message.
 */
module PayloadShapes {
  import opened Common
  import opened Json
  import opened Payload
  import opened PayloadLaws
  import Base64

  // ---------------------------------------------------------------------------
  // The shapes
  // ---------------------------------------------------------------------------

  /** The kind a message announces: its operation, else an attachment when it carries a descriptor, else a plain message. */
  function KindOf(fs: seq<Field>): string {
    var operation, descriptor := Get(fs, "operation"), Get(fs, "attachment_descriptor");
    if operation.Some? && operation.value.Str?
       && operation.value.s in {"edit", "delete", "reaction", "receipt", "group_metadata", "device_event"} then operation.value.s
    else if descriptor.None? || descriptor.value in {Null, Bool(false), Number(0), Str("")} then "message"
    else "attachment"
  }

  /** The fields a kind of message is sent with. */
  function Sent(kind: string): seq<string> {
    match kind
    case "message" => ["kind", "content", "sticker", "reply"]
    case "edit" => ["target_client_id", "content"]
    case "delete" => ["target_client_id"]
    case "reaction" => ["target_client_id", "emoji"]
    case "receipt" => ["target_client_id", "state"]
    case "attachment" => ["attachment_descriptor"]
    case "group_metadata" => ["name"]
    case _ => ["event"]
  }

  /** The fields a message may have locally although they are never sent. */
  const UNSENT: seq<string> :=
    ["sender", "sender_login", "sender_device_id", "username", "display_name",
     "reply_to", "reply_preview", "reply_to_server_seq", "reply_to_client_id",
     "reply_to_sender", "reply_to_content", "thread_id", "parent_client_id",
     "attachment", "file_name", "mime_type", "media_type", "media_url", "object_url",
     "group_name", "chat_name", "topic",
     "edited_at", "deleted_at", "read_at", "timestamp",
     "id", "chat_id", "server_seq", "status", "mls_epoch", "reaction_emoji"]

  predicate AllHex(s: string) {
    forall i :: 0 <= i < |s| ==> '0' <= s[i] <= '9' || 'a' <= s[i] <= 'f' || 'A' <= s[i] <= 'F'
  }

  /** Groups of 8, 4, 4, 4 and 12 hexadecimal digits, with a version from 1 to 8 and the RFC variant. */
  predicate Uuid(v: Option<Value>) {
    v.Some? && v.value.Str? && |v.value.s| == 36 &&
    var s := v.value.s;
    && s[8] == '-' && s[13] == '-' && s[18] == '-' && s[23] == '-'
    && AllHex(s[..8]) && AllHex(s[9..13]) && AllHex(s[14..18]) && AllHex(s[19..23]) && AllHex(s[24..])
    && '1' <= s[14] <= '8' && s[19] in {'8', '9', 'a', 'b', 'A', 'B'}
  }

  /** A non-empty string of at most so many bytes. */
  predicate Sized(p: Platform, v: Option<Value>, most: nat) {
    v.Some? && v.value.Str? && 0 < |p.utf8(v.value.s)| <= most
  }

  ghost predicate Only(fs: seq<Field>, names: seq<string>) {
    forall key :: HasKey(fs, key) ==> key in names
  }

  /** A canonical base64 text of so many bytes. */
  predicate Coded(v: Option<Value>, bytes: nat) {
    v.Some? && v.value.Str? && v.value.s != "" && Base64.Canonical(v.value.s, bytes)
  }

  ghost predicate Descriptor(v: Option<Value>) {
    v.Some? && v.value.Obj? &&
    var fs := v.value.fields;
    && Only(fs, ["version", "object_id", "algorithm", "key", "nonce", "plaintext_size", "ciphertext_size", "sha256"])
    && Get(fs, "version") == Some(Number(1)) && Get(fs, "algorithm") == Some(Str("AES-256-GCM"))
    && Uuid(Get(fs, "object_id")) && Coded(Get(fs, "key"), 32) && Coded(Get(fs, "nonce"), 12) && Coded(Get(fs, "sha256"), 32)
    && var plain, cipher := Get(fs, "plaintext_size"), Get(fs, "ciphertext_size");
       && plain.Some? && plain.value.Number? && 0 < plain.value.n <= 52424688
       && cipher.Some? && cipher.value.Number? && cipher.value.n == plain.value.n + 16
  }

  /** What the body of each kind has to hold. */
  ghost predicate Content(p: Platform, kind: string, fs: seq<Field>) {
    match kind
    case "edit" => Uuid(Get(fs, "target_client_id")) && Sized(p, Get(fs, "content"), 16384)
    case "delete" => Uuid(Get(fs, "target_client_id"))
    case "reaction" => Uuid(Get(fs, "target_client_id")) && Sized(p, Get(fs, "emoji"), 64)
    case "receipt" => Uuid(Get(fs, "target_client_id")) && Get(fs, "state") in {Some(Str("delivered")), Some(Str("read"))}
    case "attachment" => Descriptor(Get(fs, "attachment_descriptor"))
    case "group_metadata" => Sized(p, Get(fs, "name"), 255)
    case "device_event" =>
      && Sized(p, Get(fs, "event"), 128)
      && Get(fs, "event").value.s in {"member_added", "member_removed", "member_left", "device_added", "device_removed", "credential_changed"}
    case "message" =>
      && (if Get(fs, "kind") == Some(Str("text")) then !HasKey(fs, "sticker") && Sized(p, Get(fs, "content"), 16384)
          else Get(fs, "kind") == Some(Str("sticker")) && !HasKey(fs, "content") && HasKey(fs, "sticker") && Get(fs, "sticker").value.Obj?)
      && (HasKey(fs, "reply") ==>
            && Get(fs, "reply").value.Obj? && Only(Get(fs, "reply").value.fields, ["target_client_id"])
            && Uuid(Get(Get(fs, "reply").value.fields, "target_client_id")))
    case _ => false
  }

  // ---------------------------------------------------------------------------
  // They are what the validators check
  // ---------------------------------------------------------------------------

  lemma HexPart(s: string, i: nat, j: nat)
    requires i <= j <= |s|
    ensures AllHex(s[i..j]) <==> forall k :: i <= k < j ==> IsHex(s[k])
  {
    if AllHex(s[i..j]) {
      forall k | i <= k < j ensures IsHex(s[k]) { assert s[i..j][k - i] == s[k]; }
    }
  }

  lemma UuidIs(v: Option<Value>)
    ensures IsUuid(v) <==> Uuid(v)
  {
    if v.Some? && v.value.Str? && |v.value.s| == 36 {
      var s := v.value.s;
      HexPart(s, 0, 8);
      HexPart(s, 9, 13);
      HexPart(s, 14, 18);
      HexPart(s, 19, 23);
      HexPart(s, 24, 36);
      assert s[..8] == s[0..8] && s[24..] == s[24..36];
    }
  }

  lemma OnlyIs(fs: seq<Field>, names: seq<string>)
    ensures KeysWithin(fs, names) <==> Only(fs, names)
  {
    KeysWithinMeans(fs, names);
  }

  lemma AllEight(fs: seq<Field>)
    ensures HasAll(fs, DESCRIPTOR_FIELDS) <==>
              && HasKey(fs, "version") && HasKey(fs, "object_id") && HasKey(fs, "algorithm") && HasKey(fs, "key") && HasKey(fs, "nonce")
              && HasKey(fs, "plaintext_size") && HasKey(fs, "ciphertext_size") && HasKey(fs, "sha256")
  {
    var names := DESCRIPTOR_FIELDS;
    assert names[0] == "version" && names[1] == "object_id" && names[2] == "algorithm" && names[3] == "key";
    assert names[4] == "nonce" && names[5] == "plaintext_size" && names[6] == "ciphertext_size" && names[7] == "sha256";
  }

  lemma DescriptorIs(v: Option<Value>)
    ensures ValidDescriptor(v) <==> Descriptor(v)
  {
    if v.Some? && v.value.Obj? {
      var fs := v.value.fields;
      OnlyIs(fs, DESCRIPTOR_FIELDS);
      AllEight(fs);
      UuidIs(Get(fs, "object_id"));
    }
  }

  lemma MessageIs(p: Platform, fs: seq<Field>)
    ensures HasAll(fs, Required("message")) && ValidContent(p, "message", fs) <==> Content(p, "message", fs)
  {
    if HasKey(fs, "reply") && Get(fs, "reply").value.Obj? {
      OnlyIs(Get(fs, "reply").value.fields, ["target_client_id"]);
      UuidIs(Get(Get(fs, "reply").value.fields, "target_client_id"));
    }
  }

  lemma ContentIs(p: Platform, kind: string, fs: seq<Field>)
    requires kind in TYPES
    ensures HasAll(fs, Required(kind)) && ValidContent(p, kind, fs) <==> Content(p, kind, fs)
  {
    if kind == "message" {
      MessageIs(p, fs);
    } else if kind == "attachment" {
      DescriptorIs(Get(fs, "attachment_descriptor"));
    } else {
      UuidIs(Get(fs, "target_client_id"));
    }
  }

  // ---------------------------------------------------------------------------
  // Encoding
  // ---------------------------------------------------------------------------

  /** `sent_at`, or `timestamp` where it is missing or null. */
  function Time(fs: seq<Field>): Option<Value> {
    if HasKey(fs, "sent_at") && Get(fs, "sent_at") != Some(Null) then Get(fs, "sent_at") else Get(fs, "timestamp")
  }

  predicate Identified(p: Platform, fs: seq<Field>) {
    && Uuid(Get(fs, "client_id")) && Uuid(Get(fs, "sender_device_id"))
    && Time(fs).Some? && Time(fs).value.Str? && p.isIso(Time(fs).value.s)
  }

  /** The object that is sent for a message. */
  function Wire(p: Platform, fs: seq<Field>): Value
    requires Identified(p, fs)
  {
    Obj([Field("version", Number(1)), Field("type", Str(KindOf(fs))), Field("client_id", Get(fs, "client_id").value),
         Field("sender_device_id", Get(fs, "sender_device_id").value), Field("sent_at", Time(fs).value),
         Field("body", Obj(Pick(Sent(KindOf(fs)), fs)))])
  }

  function Printed(p: Platform, v: Value): seq<int> {
    p.utf8(p.stringify(Canonicalize(p.before, v)))
  }

  /** A message that can be sent: identified, with the fields of its kind and no unknown ones, and within 64 KiB. */
  ghost predicate Sendable(p: Platform, message: Value) {
    message.Obj? &&
    var fs := message.fields;
    && Identified(p, fs)
    && Only(fs, Sent(KindOf(fs)) + UNSENT + ["client_id", "sender_device_id", "sent_at", "timestamp", "operation"]
                + (if KindOf(fs) == "attachment" then ["kind", "content"] else []))
    && Content(p, KindOf(fs), fs)
    && |Printed(p, Wire(p, fs))| <= 65536
  }

  lemma KindIs(fs: seq<Field>)
    ensures InferType(fs) == KindOf(fs) && KindOf(fs) in TYPES
  {
  }

  lemma NamesAre(kind: string)
    requires kind in TYPES
    ensures Allowed(kind) == Sent(kind)
    ensures OutboundAllowed(kind) == Sent(kind) + UNSENT + ["client_id", "sender_device_id", "sent_at", "timestamp", "operation"]
                                     + (if kind == "attachment" then ["kind", "content"] else [])
  {
    assert FORBIDDEN_BODY_FIELDS == UNSENT;
  }

  /** Fields of the kind are not lost on the way into the body, and there are no others. */
  lemma BodyKeeps(p: Platform, kind: string, fs: seq<Field>)
    requires kind in TYPES
    ensures Content(p, kind, Pick(Allowed(kind), fs)) <==> Content(p, kind, fs)
    ensures KeysWithin(Pick(Allowed(kind), fs), Allowed(kind))
  {
    var body := Pick(Allowed(kind), fs);
    forall key ensures Get(body, key) == if key in Allowed(kind) then Get(fs, key) else None { PickGet(Allowed(kind), fs, key); }
    OnlyIs(body, Allowed(kind));
    Names(kind);
  }

  lemma Names(kind: string)
    requires kind in TYPES
    ensures kind in {"edit", "delete", "reaction", "receipt"} ==> "target_client_id" in Allowed(kind)
    ensures kind == "message" ==> "kind" in Allowed(kind) && "content" in Allowed(kind) && "sticker" in Allowed(kind) && "reply" in Allowed(kind)
    ensures kind == "edit" ==> "content" in Allowed(kind)
    ensures kind == "reaction" ==> "emoji" in Allowed(kind)
    ensures kind == "receipt" ==> "state" in Allowed(kind)
    ensures kind == "attachment" ==> "attachment_descriptor" in Allowed(kind)
    ensures kind == "group_metadata" ==> "name" in Allowed(kind)
    ensures kind == "device_event" ==> "event" in Allowed(kind)
  {
  }

  /** A message is encoded if and only if it is sendable, and then as its canonically printed wire object. */
  lemma EncodesExactly(p: Platform, message: Value)
    ensures Encode(p, message).Some? <==> Sendable(p, message)
    ensures Encode(p, message).Some? ==> Encode(p, message).value == Printed(p, Wire(p, message.fields))
  {
    if message.Obj? {
      var fs := message.fields;
      var kind := KindOf(fs);
      KindIs(fs);
      NamesAre(KindOf(fs));
      UuidIs(Get(fs, "client_id"));
      UuidIs(Get(fs, "sender_device_id"));
      OnlyIs(fs, OutboundAllowed(kind));
      if Identified(p, fs) {
        assert SentAt(fs) == Time(fs);
        WireIsValid(p, fs);
      }
    }
  }

  lemma Six(key: string)
    ensures key in TOP_LEVEL_FIELDS <==>
              key == "version" || key == "type" || key == "client_id" || key == "sender_device_id" || key == "sent_at" || key == "body"
  {
    var names := TOP_LEVEL_FIELDS;
    assert names[0] == "version" && names[1] == "type" && names[2] == "client_id";
    assert names[3] == "sender_device_id" && names[4] == "sent_at" && names[5] == "body";
  }

  lemma WireFields(p: Platform, fs: seq<Field>)
    requires Identified(p, fs)
    ensures var w := Wire(p, fs).fields;
            && KeysWithin(w, TOP_LEVEL_FIELDS)
            && Get(w, "version") == Some(Number(1)) && Get(w, "type") == Some(Str(KindOf(fs)))
            && Get(w, "client_id") == Get(fs, "client_id") && Get(w, "sender_device_id") == Get(fs, "sender_device_id")
            && Get(w, "sent_at") == Time(fs) && Get(w, "body") == Some(Obj(Pick(Sent(KindOf(fs)), fs)))
  {
    var kind, body := KindOf(fs), Pick(Sent(KindOf(fs)), fs);
    var cid, sid, sent := Get(fs, "client_id").value, Get(fs, "sender_device_id").value, Time(fs).value;
    var w := Assemble(kind, cid, sid, sent, body);
    assert Wire(p, fs) == w;
    forall key ensures Get(w.fields, key) == AssembledAt(kind, cid, sid, sent, body, key) { AssembleGet(kind, cid, sid, sent, body, key); }
    forall key | HasKey(w.fields, key) ensures key in TOP_LEVEL_FIELDS {
      assert AssembledAt(kind, cid, sid, sent, body, key).Some?;
      Six(key);
    }
    OnlyIs(w.fields, TOP_LEVEL_FIELDS);
  }

  /** A valid body holds the fields of its kind and no other. */
  lemma BodyIs(p: Platform, kind: string, fs: seq<Field>)
    requires kind in TYPES
    ensures ValidBody(p, kind, Some(Obj(fs))) <==> Only(fs, Sent(kind)) && Content(p, kind, fs)
  {
    assert Allowed(kind) == Sent(kind);
    OnlyIs(fs, Sent(kind));
    ContentIs(p, kind, fs);
  }

  /** The wire object of an identified message is valid when its content and its size are. */
  lemma WireIsValid(p: Platform, fs: seq<Field>)
    requires Identified(p, fs)
    ensures ValidPayload(p, Wire(p, fs)) <==> Content(p, KindOf(fs), fs) && |Printed(p, Wire(p, fs))| <= 65536
  {
    var kind := KindOf(fs);
    KindIs(fs);
    NamesAre(KindOf(fs));
    WireFields(p, fs);
    UuidIs(Get(fs, "client_id"));
    UuidIs(Get(fs, "sender_device_id"));
    BodyKeeps(p, kind, fs);
    OnlyIs(Pick(Sent(kind), fs), Sent(kind));
    BodyIs(p, kind, Pick(Sent(kind), fs));
  }

  // ---------------------------------------------------------------------------
  // Decoding
  // ---------------------------------------------------------------------------

  /** A parsed object that is a payload of some kind and nothing else. */
  ghost predicate Payloadlike(p: Platform, v: Value) {
    v.Obj? &&
    var fs := v.fields;
    && Only(fs, ["version", "type", "client_id", "sender_device_id", "sent_at", "body"])
    && Get(fs, "version") == Some(Number(1))
    && Uuid(Get(fs, "client_id")) && Uuid(Get(fs, "sender_device_id"))
    && Get(fs, "sent_at").Some? && Get(fs, "sent_at").value.Str? && p.isIso(Get(fs, "sent_at").value.s)
    && Get(fs, "type").Some? && Get(fs, "type").value.Str?
    && Get(fs, "type").value.s in {"message", "edit", "delete", "reaction", "receipt", "attachment", "group_metadata", "device_event"}
    && Get(fs, "body").Some? && Get(fs, "body").value.Obj?
    && Only(Get(fs, "body").value.fields, Sent(Get(fs, "type").value.s))
    && Content(p, Get(fs, "type").value.s, Get(fs, "body").value.fields)
    && |Printed(p, v)| <= 65536
  }

  lemma PayloadIs(p: Platform, v: Value)
    ensures ValidPayload(p, v) <==> Payloadlike(p, v)
  {
    if v.Obj? {
      var fs := v.fields;
      OnlyIs(fs, TOP_LEVEL_FIELDS);
      UuidIs(Get(fs, "client_id"));
      UuidIs(Get(fs, "sender_device_id"));
      if Get(fs, "type").Some? && Get(fs, "type").value.Str? {
        var kind := Get(fs, "type").value.s;
        Eight(kind);
        if kind in TYPES && Get(fs, "body").Some? && Get(fs, "body").value.Obj? { BodyIs(p, kind, Get(fs, "body").value.fields); }
      }
    }
  }

  lemma Eight(kind: string)
    ensures kind in TYPES <==>
              kind in {"message", "edit", "delete", "reaction", "receipt", "attachment", "group_metadata", "device_event"}
  {
    var types := TYPES;
    assert types[0] == "message" && types[1] == "edit" && types[2] == "delete" && types[3] == "reaction";
    assert types[4] == "receipt" && types[5] == "attachment" && types[6] == "group_metadata" && types[7] == "device_event";
  }

  /**
    A byte string is decoded if and only if it is text of at most 64 KiB that
    parses to a payload and is its canonical print; the result names the fields
    of that payload.
   */
  lemma DecodesExactly(p: Platform, bytes: seq<int>)
    ensures Decode(p, bytes).Some? <==>
              0 < |bytes| <= 65536 && p.fromUtf8(bytes).Some? &&
              var text := p.fromUtf8(bytes).value;
              p.parse(text).Some? && Payloadlike(p, p.parse(text).value) && text == p.stringify(Canonicalize(p.before, p.parse(text).value))
    ensures Decode(p, bytes).Some? ==>
              var d, fs := Decode(p, bytes).value, p.parse(p.fromUtf8(bytes).value).value.fields;
              && Get(fs, "type") == Some(Str(d.kind)) && Get(fs, "client_id") == Some(Str(d.clientId))
              && Get(fs, "sender_device_id") == Some(Str(d.sender)) && Get(fs, "sent_at") == Some(Str(d.sentAt))
              && Get(fs, "body") == Some(Obj(d.body))
  {
    if p.fromUtf8(bytes).Some? && p.parse(p.fromUtf8(bytes).value).Some? {
      PayloadIs(p, p.parse(p.fromUtf8(bytes).value).value);
    }
  }
}
