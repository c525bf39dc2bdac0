/**
  The versioned application payload: validation, canonical encoding and the
  strict decoder.  The platform's JSON and UTF-8 functions are parameters,
  known only by the laws stated in `Lawful`.
 */
module Payload {
  import opened Common
  import opened Json
  import Base64

  type Bytes = seq<int>

  const BOM: char := '\U{FEFF}'
  const MARK: Bytes := [0xEF, 0xBB, 0xBF]
  const MAX_ENCODED_BYTES := 64 * 1024
  const MAX_TEXT_BYTES := 16 * 1024
  const MAX_GROUP_NAME_BYTES := 255
  const MAX_EMOJI_BYTES := 64
  const MAX_EVENT_BYTES := 128
  const MAX_ATTACHMENT_PLAINTEXT_BYTES := 50 * 1024 * 1024 - (16 + 4096)

  /** What the browser provides. */
  datatype Platform = Platform(
    before: Order,
    stringify: Value -> string,
    parse: string -> Option<Value>,
    utf8: string -> Bytes,
    fromUtf8: Bytes -> Option<string>,
    isIso: string -> bool)

  predicate HasBom(text: string) {
    text != "" && text[0] == BOM
  }

  /** The platform's functions obey the laws below on every value, text and byte string. */
  ghost predicate Lawful(p: Platform) {
    && TotalOrder(p.before)
    && (forall v :: JsonLaw(p, v))
    && (forall t :: TextLaw(p, t))
    && (forall b :: BytesLaw(p, b))
  }

  /** Objects print with a brace, and parsing undoes printing on canonical values. */
  predicate JsonLaw(p: Platform, v: Value) {
    && (v.Obj? ==> p.stringify(v) != "" && p.stringify(v)[0] == '{')
    && (Plain(v) && IsCanonical(p.before, v) ==> p.parse(p.stringify(v)) == Some(v))
  }

  /**
    Parsing never yields a key twice.  The UTF-8 encoder works character by
    character, and decoding undoes it but for one leading byte order mark.
   */
  predicate TextLaw(p: Platform, t: string) {
    && (p.parse(t).Some? ==> Plain(p.parse(t).value))
    && p.utf8(['{'] + t) == [0x7B] + p.utf8(t)
    && p.utf8([BOM] + t) == MARK + p.utf8(t)
    && p.fromUtf8(p.utf8(t)) == Some(if HasBom(t) then t[1..] else t)
  }

  /** What decodes at all is the encoding of its text, with or without a mark. */
  predicate BytesLaw(p: Platform, b: Bytes) {
    var t := p.fromUtf8(b);
    t.Some? ==> b == p.utf8([BOM] + t.value) || (b == p.utf8(t.value) && !HasBom(t.value))
  }

  // ---------------------------------------------------------------------------
  // Schemas
  // ---------------------------------------------------------------------------

  const TYPES: seq<string> := ["message", "edit", "delete", "reaction", "receipt", "attachment", "group_metadata", "device_event"]
  const TOP_LEVEL_FIELDS: seq<string> := ["version", "type", "client_id", "sender_device_id", "sent_at", "body"]
  const DESCRIPTOR_FIELDS: seq<string> :=
    ["version", "object_id", "algorithm", "key", "nonce", "plaintext_size", "ciphertext_size", "sha256"]
  const MEMBERSHIP_EVENTS: seq<string> :=
    ["member_added", "member_removed", "member_left", "device_added", "device_removed", "credential_changed"]
  const LINKAGE_FIELDS: seq<string> :=
    ["sender", "sender_login", "sender_device_id", "username", "display_name",
     "reply_to", "reply_preview", "reply_to_server_seq", "reply_to_client_id",
     "reply_to_sender", "reply_to_content", "thread_id", "parent_client_id"]
  const METADATA_FIELDS: seq<string> :=
    ["attachment", "file_name", "mime_type", "media_type", "media_url", "object_url",
     "group_name", "chat_name", "topic"]
  const LOCAL_FIELDS: seq<string> :=
    ["edited_at", "deleted_at", "read_at", "timestamp",
     "id", "chat_id", "server_seq", "status", "mls_epoch", "reaction_emoji"]
  const FORBIDDEN_BODY_FIELDS: seq<string> := LINKAGE_FIELDS + METADATA_FIELDS + LOCAL_FIELDS

  function Allowed(kind: string): seq<string> {
    if kind == "message" then ["kind", "content", "sticker", "reply"]
    else if kind == "edit" then ["target_client_id", "content"]
    else if kind == "delete" then ["target_client_id"]
    else if kind == "reaction" then ["target_client_id", "emoji"]
    else if kind == "receipt" then ["target_client_id", "state"]
    else if kind == "attachment" then ["attachment_descriptor"]
    else if kind == "group_metadata" then ["name"]
    else ["event"]
  }

  function Required(kind: string): seq<string> {
    if kind == "message" then ["kind"] else Allowed(kind)
  }

  predicate KeysWithin(fs: seq<Field>, names: seq<string>) {
    fs == [] || (fs[0].key in names && KeysWithin(fs[1..], names))
  }

  predicate HasAll(fs: seq<Field>, names: seq<string>) {
    forall i :: 0 <= i < |names| ==> HasKey(fs, names[i])
  }

  predicate Is(fs: seq<Field>, key: string, v: Value) {
    Get(fs, key) == Some(v)
  }

  // ---------------------------------------------------------------------------
  // Validation
  // ---------------------------------------------------------------------------

  predicate IsHex(c: char) {
    '0' <= c <= '9' || 'a' <= c <= 'f' || 'A' <= c <= 'F'
  }

  predicate IsUuidText(s: string) {
    && |s| == 36
    && (forall i :: 0 <= i < 36 ==> if i == 8 || i == 13 || i == 18 || i == 23 then s[i] == '-' else IsHex(s[i]))
    && '1' <= s[14] <= '8'
    && (s[19] == '8' || s[19] == '9' || s[19] == 'a' || s[19] == 'b' || s[19] == 'A' || s[19] == 'B')
  }

  predicate IsUuid(v: Option<Value>) {
    v.Some? && v.value.Str? && IsUuidText(v.value.s)
  }

  predicate IsIso(p: Platform, v: Option<Value>) {
    v.Some? && v.value.Str? && p.isIso(v.value.s)
  }

  predicate Bounded(p: Platform, v: Option<Value>, max: nat) {
    v.Some? && v.value.Str? && 1 <= |p.utf8(v.value.s)| <= max
  }

  predicate IsBase64(v: Option<Value>, bytes: nat) {
    v.Some? && v.value.Str? && v.value.s != "" && Base64.Canonical(v.value.s, bytes)
  }

  predicate ValidDescriptor(v: Option<Value>) {
    v.Some? && v.value.Obj? &&
    var fs := v.value.fields;
    && KeysWithin(fs, DESCRIPTOR_FIELDS)
    && HasAll(fs, DESCRIPTOR_FIELDS)
    && Is(fs, "version", Number(1))
    && Is(fs, "algorithm", Str("AES-256-GCM"))
    && IsUuid(Get(fs, "object_id"))
    && IsBase64(Get(fs, "key"), 32)
    && IsBase64(Get(fs, "nonce"), 12)
    && IsBase64(Get(fs, "sha256"), 32)
    && var size := Get(fs, "plaintext_size");
       && size.Some? && size.value.Number? && 0 < size.value.n <= MAX_ATTACHMENT_PLAINTEXT_BYTES
       && Is(fs, "ciphertext_size", Number(size.value.n + 16))
  }

  predicate ValidReply(v: Option<Value>) {
    v.None? || (v.value.Obj? && IsUuid(Get(v.value.fields, "target_client_id")) && KeysWithin(v.value.fields, ["target_client_id"]))
  }

  predicate ValidContent(p: Platform, kind: string, fs: seq<Field>) {
    && (kind == "edit" || kind == "delete" || kind == "reaction" || kind == "receipt" ==> IsUuid(Get(fs, "target_client_id")))
    && (kind == "edit" ==> Bounded(p, Get(fs, "content"), MAX_TEXT_BYTES))
    && (kind == "group_metadata" ==> Bounded(p, Get(fs, "name"), MAX_GROUP_NAME_BYTES))
    && (kind == "reaction" ==> Bounded(p, Get(fs, "emoji"), MAX_EMOJI_BYTES))
    && (kind == "receipt" ==> Is(fs, "state", Str("delivered")) || Is(fs, "state", Str("read")))
    && (kind == "attachment" ==> ValidDescriptor(Get(fs, "attachment_descriptor")))
    && (kind == "device_event" ==>
          Bounded(p, Get(fs, "event"), MAX_EVENT_BYTES) && Get(fs, "event").value.s in MEMBERSHIP_EVENTS)
    && (kind == "message" ==>
          && ValidReply(Get(fs, "reply"))
          && if Is(fs, "kind", Str("text")) then Get(fs, "sticker").None? && Bounded(p, Get(fs, "content"), MAX_TEXT_BYTES)
             else Is(fs, "kind", Str("sticker")) && Get(fs, "content").None? && Get(fs, "sticker").Some? && Get(fs, "sticker").value.Obj?)
  }

  predicate ValidBody(p: Platform, kind: string, body: Option<Value>) {
    body.Some? && body.value.Obj? &&
    var fs := body.value.fields;
    && kind in TYPES
    && KeysWithin(fs, Allowed(kind))
    && HasAll(fs, Required(kind))
    && ValidContent(p, kind, fs)
  }

  /** Why `validateBody` throws. */
  datatype BodyError =
    | NotAnObject | UnsupportedType | Forbidden(field: string) | NotAllowed(field: string) | Missing(field: string) | BadContent

  /** The forbidden fields are in no schema, so rejecting them separately only changes the message. */
  lemma ForbiddenIsNotAllowed(kind: string, field: string)
    requires kind in TYPES && field in FORBIDDEN_BODY_FIELDS
    ensures field !in Allowed(kind)
  {
    if field in LINKAGE_FIELDS {
      LinkageIsNotAllowed(kind, field);
    } else if field in METADATA_FIELDS {
      MetadataIsNotAllowed(kind, field);
    } else {
      LocalIsNotAllowed(kind, field);
    }
  }

  lemma LinkageIsNotAllowed(kind: string, field: string)
    requires field in LINKAGE_FIELDS
    ensures field !in Allowed(kind)
  {
  }

  lemma MetadataIsNotAllowed(kind: string, field: string)
    requires field in METADATA_FIELDS
    ensures field !in Allowed(kind)
  {
  }

  lemma LocalIsNotAllowed(kind: string, field: string)
    requires field in LOCAL_FIELDS
    ensures field !in Allowed(kind)
  {
  }

  /** `validateBody`: the two loops over field names, then the checks of the type. */
  method ValidateBody(p: Platform, kind: string, body: Option<Value>) returns (r: Result<(), BodyError>)
    ensures r.Success? <==> ValidBody(p, kind, body)
    ensures r.Failure? && !r.error.NotAnObject? ==> body.Some? && body.value.Obj?
    ensures r.Failure? && r.error.Forbidden? ==>
              HasKey(body.value.fields, r.error.field) && r.error.field in FORBIDDEN_BODY_FIELDS
    ensures r.Failure? && r.error.NotAllowed? ==>
              && HasKey(body.value.fields, r.error.field) && r.error.field !in Allowed(kind)
              && r.error.field !in FORBIDDEN_BODY_FIELDS
    ensures r.Failure? && r.error.Missing? ==>
              && !HasKey(body.value.fields, r.error.field) && r.error.field in Required(kind)
              && KeysWithin(body.value.fields, Allowed(kind))
  {
    if body.None? || !body.value.Obj? { return Failure(NotAnObject); }
    if kind !in TYPES { return Failure(UnsupportedType); }
    var fs := body.value.fields;
    for i := 0 to |fs|
      invariant KeysWithin(fs, Allowed(kind)) <==> KeysWithin(fs[i..], Allowed(kind))
      invariant forall key :: HasKey(fs[i..], key) ==> HasKey(fs, key)
    {
      assert fs[i..][1..] == fs[i + 1..];
      assert HasKey(fs[i..], fs[i].key);
      if fs[i].key in FORBIDDEN_BODY_FIELDS {
        ForbiddenIsNotAllowed(kind, fs[i].key);
        return Failure(Forbidden(fs[i].key));
      }
      if fs[i].key !in Allowed(kind) { return Failure(NotAllowed(fs[i].key)); }
    }
    var required := Required(kind);
    for i := 0 to |required|
      invariant forall k :: 0 <= k < i ==> HasKey(fs, required[k])
    {
      if !HasKey(fs, required[i]) { return Failure(Missing(required[i])); }
    }
    if ValidContent(p, kind, fs) { return Success(()); }
    return Failure(BadContent);
  }

  function CanonicalJson(p: Platform, v: Value): string {
    p.stringify(Canonicalize(p.before, v))
  }

  /** `validateApplicationPayload` accepts the value. */
  predicate ValidPayload(p: Platform, v: Value) {
    v.Obj? &&
    var fs := v.fields;
    && KeysWithin(fs, TOP_LEVEL_FIELDS)
    && Is(fs, "version", Number(1))
    && Get(fs, "type").Some? && Get(fs, "type").value.Str? && Get(fs, "type").value.s in TYPES
    && IsUuid(Get(fs, "client_id"))
    && IsUuid(Get(fs, "sender_device_id"))
    && IsIso(p, Get(fs, "sent_at"))
    && ValidBody(p, Get(fs, "type").value.s, Get(fs, "body"))
    && |p.utf8(CanonicalJson(p, v))| <= MAX_ENCODED_BYTES
  }

  // ---------------------------------------------------------------------------
  // Encoding
  // ---------------------------------------------------------------------------

  predicate IsTruthy(v: Option<Value>) {
    v.Some? &&
    match v.value
    case Null => false
    case Bool(b) => b
    case Number(n) => n != 0
    case Str(s) => s != ""
    case _ => true
  }

  function InferType(fs: seq<Field>): string {
    if Is(fs, "operation", Str("edit")) then "edit"
    else if Is(fs, "operation", Str("delete")) then "delete"
    else if Is(fs, "operation", Str("reaction")) then "reaction"
    else if Is(fs, "operation", Str("receipt")) then "receipt"
    else if Is(fs, "operation", Str("group_metadata")) then "group_metadata"
    else if Is(fs, "operation", Str("device_event")) then "device_event"
    else if IsTruthy(Get(fs, "attachment_descriptor")) then "attachment"
    else "message"
  }

  function OutboundAllowed(kind: string): seq<string> {
    Allowed(kind) + FORBIDDEN_BODY_FIELDS + ["client_id", "sender_device_id", "sent_at", "timestamp", "operation"]
    + (if kind == "attachment" then ["kind", "content"] else [])
  }

  /** The fields with the given names, in that order. */
  function Pick(names: seq<string>, fs: seq<Field>): seq<Field> {
    if names == [] then []
    else (if HasKey(fs, names[0]) then [Field(names[0], Get(fs, names[0]).value)] else []) + Pick(names[1..], fs)
  }

  /** `body.sent_at ?? body.timestamp`. */
  function SentAt(fs: seq<Field>): Option<Value> {
    var sent := Get(fs, "sent_at");
    if sent.Some? && !sent.value.Null? then sent else Get(fs, "timestamp")
  }

  function Assemble(kind: string, clientId: Value, sender: Value, sentAt: Value, body: seq<Field>): Value {
    Obj([Field("version", Number(1)), Field("type", Str(kind)), Field("client_id", clientId),
         Field("sender_device_id", sender), Field("sent_at", sentAt), Field("body", Obj(body))])
  }

  /** The wire value a message is turned into, if its own fields are acceptable. */
  function WireValue(p: Platform, message: Value): Option<Value> {
    if !message.Obj? then None
    else
      var fs := message.fields;
      var kind := InferType(fs);
      if !IsUuid(Get(fs, "client_id")) || !IsUuid(Get(fs, "sender_device_id")) || !IsIso(p, SentAt(fs))
         || !KeysWithin(fs, OutboundAllowed(kind)) then None
      else Some(Assemble(kind, Get(fs, "client_id").value, Get(fs, "sender_device_id").value, SentAt(fs).value, Pick(Allowed(kind), fs)))
  }

  /** `encodeApplicationPayload`: the bytes, or nothing where the source throws. */
  function Encode(p: Platform, message: Value): Option<Bytes> {
    var value := WireValue(p, message);
    if value.None? || !ValidPayload(p, value.value) then None
    else Some(p.utf8(CanonicalJson(p, value.value)))
  }

  // ---------------------------------------------------------------------------
  // Decoding
  // ---------------------------------------------------------------------------

  /** The flat object the decoder returns. */
  datatype Decoded = Decoded(kind: string, clientId: string, sender: string, sentAt: string, body: seq<Field>)

  function Flatten(p: Platform, v: Value): Decoded
    requires ValidPayload(p, v)
  {
    Decoded(Get(v.fields, "type").value.s, Get(v.fields, "client_id").value.s, Get(v.fields, "sender_device_id").value.s,
            Get(v.fields, "sent_at").value.s, Get(v.fields, "body").value.fields)
  }

  /** `decodeApplicationPayload`: the flat object, or nothing where the source throws. */
  function Decode(p: Platform, bytes: Bytes): Option<Decoded> {
    if |bytes| == 0 || |bytes| > MAX_ENCODED_BYTES then None
    else
      var text := p.fromUtf8(bytes);
      if text.None? then None
      else
        var parsed := p.parse(text.value);
        if parsed.None? || !ValidPayload(p, parsed.value) || text.value != CanonicalJson(p, parsed.value) then None
        else Some(Flatten(p, parsed.value))
  }
}
