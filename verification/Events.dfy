/** Events on their way out (cmd/reckon/encode/encode.go, eventsResult) and in
    (cmd/reckon/input.go).

    encoding/json, utf8.Valid and time formatting are library code: an `Env` stands for
    them, and every statement holds for every Env it allows. */
module Events {
  import opened Options
  import opened Base64
  import opened Text

  datatype Json =
    | JNull
    | JBool(b: bool)
    | JNum(n: int)
    | JStr(s: string)
    | JArr(items: seq<Json>)
    | JObj(fields: map<string, Json>)

  datatype Env = Env(
    render: Json -> string,                    // json.Encoder, without the final newline
    parse: string -> Option<Json>,             // json.Unmarshal, before typing
    jsonOf: seq<Byte> -> Option<Json>,         // json.Valid, and the value
    textOf: seq<Byte> -> Option<string>,       // utf8.Valid, and the string
    rawBytes: Json -> seq<Byte>,               // what a json.RawMessage of a value holds
    utf8: string -> seq<Byte>,                 // []byte(s)
    freshId: nat -> string)                    // genUUID for the i-th event

  /** What is assumed of the byte conversions: text and its UTF-8, and a raw value and its
      bytes, say the same. */
  ghost predicate FaithfulBytes(env: Env) {
    && (forall b :: env.textOf(b).Some? ==> env.utf8(env.textOf(b).value) == b)
    && (forall v :: env.jsonOf(env.rawBytes(v)) == Some(v))
  }

  /** What is assumed of encoding/json: values survive printing and parsing, and an
      array's text runs from '[' to ']'. */
  ghost predicate LosslessJson(env: Env) {
    && (forall v :: env.parse(env.render(v)) == Some(v))
    && (forall items :: var t := env.render(JArr(items)); t != "" && t[0] == '[' && t[|t| - 1] == ']')
  }

  datatype Mode = Auto | OnlyBase64

  /** streams.RecordedEvent; times are already rendered, None for a zero time. */
  datatype RecordedEvent = RecordedEvent(
    eventId: string,
    eventType: string,
    streamId: string,
    version: nat,
    data: seq<Byte>,
    metadata: seq<Byte>,
    tags: seq<string>,
    timestamp: Option<string>,
    epoch: Option<string>,
    dataContentType: string,
    metadataContentType: string,
    prevEventHash: seq<Byte>)

  datatype ProposedEvent = ProposedEvent(
    eventId: string,
    eventType: string,
    data: seq<Byte>,
    metadata: seq<Byte>,
    tags: seq<string>,
    dataContentType: string,
    metadataContentType: string)

  const APPLICATION_JSON: string := "application/json"

  // ------------------------------------------------------------------- encoding

  function Time(t: Option<string>): Json {
    if t.None? then JNull else JStr(t.value)
  }

  /** The decoded convenience value addBytes adds next to the base64 key, if any. */
  function Decoded(env: Env, b: seq<Byte>, contentType: string, mode: Mode): Option<Json> {
    if mode != Auto || b == [] then None
    else if contentType == APPLICATION_JSON && env.jsonOf(b).Some? then env.jsonOf(b)
    else if env.textOf(b).Some? then Some(JStr(env.textOf(b).value))
    else None
  }

  function WithBytes(env: Env, m: map<string, Json>, key: string, b: seq<Byte>, contentType: string, mode: Mode):
    map<string, Json>
  {
    var m' := m[key + "_b64" := JStr(Encode(b))];
    var d := Decoded(env, b, contentType, mode);
    if d.Some? then m'[key := d.value] else m'
  }

  function WithHash(m: map<string, Json>, key: string, b: seq<Byte>): map<string, Json> {
    if b == [] then m else m[key + "_b64" := JStr(Encode(b))]
  }

  function PlainFields(e: RecordedEvent): map<string, Json> {
    map["event_id" := JStr(e.eventId),
        "event_type" := JStr(e.eventType),
        "stream_id" := JStr(e.streamId),
        "version" := JNum(e.version),
        "tags" := JArr(Strings(e.tags)),
        "timestamp" := Time(e.timestamp),
        "epoch" := Time(e.epoch),
        "data_content_type" := JStr(e.dataContentType),
        "metadata_content_type" := JStr(e.metadataContentType)]
  }

  function EventFields(env: Env, e: RecordedEvent, mode: Mode): map<string, Json> {
    var m1 := WithBytes(env, PlainFields(e), "data", e.data, e.dataContentType, mode);
    var m2 := WithBytes(env, m1, "metadata", e.metadata, e.metadataContentType, mode);
    WithHash(m2, "prev_event_hash", e.prevEventHash)
  }

  function Strings(ss: seq<string>): (js: seq<Json>)
    ensures |js| == |ss| && forall i :: 0 <= i < |ss| ==> js[i] == JStr(ss[i])
  {
    seq(|ss|, i requires 0 <= i < |ss| => JStr(ss[i]))
  }

  /** The map[string]any that the encoders fill in place. */
  class JsonObject {
    var fields: map<string, Json>

    constructor (fields: map<string, Json>)
      ensures this.fields == fields
    {
      this.fields := fields;
    }

    /** Adds the base64 key always, from which the bytes can be read back, and the plain
        key exactly in auto mode for non-empty JSON or text; touches no other key. */
    method AddBytes(env: Env, key: string, b: seq<Byte>, contentType: string, mode: Mode)
      modifies this
      ensures fields == WithBytes(env, old(fields), key, b, contentType, mode)
      ensures key + "_b64" in fields && fields[key + "_b64"].JStr? && Decode(fields[key + "_b64"].s) == Some(b)
      ensures forall k :: k != key && k != key + "_b64" ==>
        (k in fields <==> k in old(fields)) && (k in fields ==> fields[k] == old(fields)[k])
      ensures mode == Auto && b != [] && contentType == APPLICATION_JSON && env.jsonOf(b).Some? ==>
        key in fields && Some(fields[key]) == env.jsonOf(b)
      ensures mode == Auto && b != [] && env.textOf(b).Some? &&
              !(contentType == APPLICATION_JSON && env.jsonOf(b).Some?) ==>
        key in fields && fields[key] == JStr(env.textOf(b).value)
      ensures mode == OnlyBase64 || b == [] || (env.jsonOf(b).None? && env.textOf(b).None?) ==>
        (key in fields <==> key in old(fields)) && (key in fields ==> fields[key] == old(fields)[key])
    {
      DecodeInvertsEncode(b);
      assert |key + "_b64"| == |key| + 4;
      fields := fields[key + "_b64" := JStr(Encode(b))];
      if mode != Auto || b == [] {
        return;
      }
      if contentType == APPLICATION_JSON && env.jsonOf(b).Some? {
        fields := fields[key := env.jsonOf(b).value];
        return;
      }
      if env.textOf(b).Some? {
        fields := fields[key := JStr(env.textOf(b).value)];
      }
    }

    method AddHash(key: string, b: seq<Byte>)
      modifies this
      ensures fields == WithHash(old(fields), key, b)
    {
      if b != [] {
        fields := fields[key + "_b64" := JStr(Encode(b))];
      }
    }
  }

  /** The object encodes its event: every field can be read off it, and read as an input,
      at any position, it proposes the event again. */
  method EncodeEvent(env: Env, e: RecordedEvent, mode: Mode) returns (m: JsonObject)
    ensures fresh(m) && m.fields == EventFields(env, e, mode) && Encodes(env, m.fields, e)
  {
    FieldsEncode(env, e, mode);
    m := new JsonObject(PlainFields(e));
    m.AddBytes(env, "data", e.data, e.dataContentType, mode);
    m.AddBytes(env, "metadata", e.metadata, e.metadataContentType, mode);
    m.AddHash("prev_event_hash", e.prevEventHash);
  }

  /** Every field can be read off the object, and as an input it proposes the event. */
  ghost predicate Encodes(env: Env, fields: map<string, Json>, e: RecordedEvent) {
    && EventIn(fields) == Some(e)
    && InputOf(JObj(fields)).Some?
    && forall i: nat :: Proposed(env, i, InputOf(JObj(fields)).value) == Ok(AsProposed(env, i, e))
  }

  lemma FieldsEncode(env: Env, e: RecordedEvent, mode: Mode)
    ensures Encodes(env, EventFields(env, e, mode), e)
  {
    forall i: nat
      ensures InputOf(JObj(EventFields(env, e, mode))).Some?
      ensures Proposed(env, i, InputOf(JObj(EventFields(env, e, mode))).value) == Ok(AsProposed(env, i, e))
    {
      OneEventComesBack(env, i, e, mode);
    }
    OneEventComesBack(env, 0, e, mode);
    EventReadsBack(env, e, mode);
  }

  function Encoded(env: Env, es: seq<RecordedEvent>, mode: Mode): (js: seq<Json>)
    ensures |js| == |es| && forall i :: 0 <= i < |es| ==> js[i] == JObj(EventFields(env, es[i], mode))
  {
    seq(|es|, i requires 0 <= i < |es| => JObj(EventFields(env, es[i], mode)))
  }

  lemma PrefixSnoc(all: seq<Json>, i: nat)
    requires i < |all|
    ensures all[..i + 1] == all[..i] + [all[i]]
  {
  }

  method EventsResult(env: Env, es: seq<RecordedEvent>, mode: Mode) returns (text: string)
    ensures text == env.render(JArr(Encoded(env, es, mode))) + "\n"
  {
    var arr: seq<Json> := [];
    ghost var all := Encoded(env, es, mode);
    for i := 0 to |es|
      invariant arr == all[..i]
    {
      var m := EncodeEvent(env, es[i], mode);
      PrefixSnoc(all, i);
      arr := arr + [JObj(m.fields)];
    }
    assert all[..|es|] == all;
    text := env.render(JArr(arr)) + "\n";
  }

  // -------------------------------------------------------- reading an object back

  function TextAt(m: map<string, Json>, key: string): Option<string> {
    if key in m && m[key].JStr? then Some(m[key].s) else None
  }

  /** A time; null stands for the zero time. */
  function TimeAt(m: map<string, Json>, key: string): Option<Option<string>> {
    if key in m && m[key].JNull? then Some(None)
    else if key in m && m[key].JStr? then Some(Some(m[key].s))
    else None
  }

  function BytesAt(m: map<string, Json>, key: string): Option<seq<Byte>> {
    var text := TextAt(m, key);
    if text.Some? then Decode(text.value) else None
  }

  function TextsAt(m: map<string, Json>, key: string): Option<seq<string>> {
    if key in m && m[key].JArr? && forall v <- m[key].items :: v.JStr? then
      var items := m[key].items;
      Some(seq(|items|, i requires 0 <= i < |items| => items[i].s))
    else None
  }

  /** The recorded event a reader of the printed object finds in it; an absent hash key
      stands for an empty hash. */
  function EventIn(m: map<string, Json>): Option<RecordedEvent> {
    var id, ty, stream := TextAt(m, "event_id"), TextAt(m, "event_type"), TextAt(m, "stream_id");
    var data, meta := BytesAt(m, "data_b64"), BytesAt(m, "metadata_b64");
    var at, epoch, tags := TimeAt(m, "timestamp"), TimeAt(m, "epoch"), TextsAt(m, "tags");
    var dct, mct := TextAt(m, "data_content_type"), TextAt(m, "metadata_content_type");
    var hash := if "prev_event_hash_b64" in m then BytesAt(m, "prev_event_hash_b64") else Some([]);
    var versioned := "version" in m && m["version"].JNum? && m["version"].n >= 0;
    if id.Some? && ty.Some? && stream.Some? && data.Some? && meta.Some? && at.Some? && epoch.Some? && tags.Some? &&
       dct.Some? && mct.Some? && hash.Some? && versioned
    then Some(RecordedEvent(id.value, ty.value, stream.value, m["version"].n, data.value, meta.value, tags.value,
                            at.value, epoch.value, dct.value, mct.value, hash.value))
    else None
  }

  const PLAIN_KEYS: set<string> :=
    {"event_id", "event_type", "stream_id", "version", "tags", "timestamp", "epoch", "data_content_type",
     "metadata_content_type"}

  /** The printed object determines the recorded event, in both byte modes. */
  lemma EventReadsBack(env: Env, e: RecordedEvent, mode: Mode)
    ensures EventIn(EventFields(env, e, mode)) == Some(e)
  {
    EventHasPlain(env, e, mode);
    ByteEntries(env, e, mode);
    EntriesReadOff(EventFields(env, e, mode), e);
  }

  lemma EventHasPlain(env: Env, e: RecordedEvent, mode: Mode)
    ensures HasPlain(EventFields(env, e, mode), e)
  {
    var m := EventFields(env, e, mode);
    PlainEntries(e);
    forall k | k in PLAIN_KEYS
      ensures k in m && m[k] == PlainFields(e)[k]
    {
      PlainKeysAreApart(k);
      PlainFieldsSurvive(env, e, mode, k);
    }
  }

  predicate HasPlain(m: map<string, Json>, e: RecordedEvent) {
    && Has(m, "event_id", JStr(e.eventId)) && Has(m, "event_type", JStr(e.eventType))
    && Has(m, "stream_id", JStr(e.streamId)) && Has(m, "version", JNum(e.version))
    && Has(m, "tags", JArr(Strings(e.tags)))
    && Has(m, "timestamp", Time(e.timestamp)) && Has(m, "epoch", Time(e.epoch))
    && Has(m, "data_content_type", JStr(e.dataContentType))
    && Has(m, "metadata_content_type", JStr(e.metadataContentType))
  }

  predicate Has(m: map<string, Json>, key: string, v: Json) {
    key in m && m[key] == v
  }

  predicate HasBytes(m: map<string, Json>, e: RecordedEvent) {
    && Has(m, "data_b64", JStr(Encode(e.data))) && Has(m, "metadata_b64", JStr(Encode(e.metadata)))
    && (if e.prevEventHash == [] then "prev_event_hash_b64" !in m
        else Has(m, "prev_event_hash_b64", JStr(Encode(e.prevEventHash))))
  }

  lemma EntriesReadOff(m: map<string, Json>, e: RecordedEvent)
    requires HasPlain(m, e) && HasBytes(m, e)
    ensures EventIn(m) == Some(e)
  {
    BytesReadOff(m, "data_b64", e.data);
    BytesReadOff(m, "metadata_b64", e.metadata);
    if e.prevEventHash != [] {
      BytesReadOff(m, "prev_event_hash_b64", e.prevEventHash);
    }
    TagsReadOff(m, e.tags);
    PutTogether(m, e);
  }

  lemma PutTogether(m: map<string, Json>, e: RecordedEvent)
    requires TextAt(m, "event_id") == Some(e.eventId) && TextAt(m, "event_type") == Some(e.eventType)
    requires TextAt(m, "stream_id") == Some(e.streamId) && Has(m, "version", JNum(e.version))
    requires BytesAt(m, "data_b64") == Some(e.data) && BytesAt(m, "metadata_b64") == Some(e.metadata)
    requires TextsAt(m, "tags") == Some(e.tags)
    requires TimeAt(m, "timestamp") == Some(e.timestamp) && TimeAt(m, "epoch") == Some(e.epoch)
    requires TextAt(m, "data_content_type") == Some(e.dataContentType)
    requires TextAt(m, "metadata_content_type") == Some(e.metadataContentType)
    requires if e.prevEventHash == [] then "prev_event_hash_b64" !in m
             else "prev_event_hash_b64" in m && BytesAt(m, "prev_event_hash_b64") == Some(e.prevEventHash)
    ensures EventIn(m) == Some(e)
  {
  }

  lemma BytesReadOff(m: map<string, Json>, key: string, b: seq<Byte>)
    requires Has(m, key, JStr(Encode(b)))
    ensures BytesAt(m, key) == Some(b)
  {
    DecodeInvertsEncode(b);
  }

  lemma TagsReadOff(m: map<string, Json>, tags: seq<string>)
    requires Has(m, "tags", JArr(Strings(tags)))
    ensures TextsAt(m, "tags") == Some(tags)
  {
    var items := Strings(tags);
    assert seq(|items|, i requires 0 <= i < |items| => items[i].s) == tags;
  }

  lemma PlainEntries(e: RecordedEvent)
    ensures PlainFields(e).Keys == PLAIN_KEYS && HasPlain(PlainFields(e), e)
  {
    assert |"event_id"| == 8 && |"event_type"| == 10 && |"stream_id"| == 9 && |"version"| == 7 && |"tags"| == 4;
    assert |"timestamp"| == 9 && |"epoch"| == 5 && |"data_content_type"| == 17 && |"metadata_content_type"| == 21;
    assert "stream_id"[0] == 's' && "timestamp"[0] == 't';
  }

  lemma PlainKeysAreApart(k: string)
    requires k in PLAIN_KEYS
    ensures PlainKey(k)
  {
    assert |"event_id"| == 8 && |"event_type"| == 10 && |"stream_id"| == 9 && |"version"| == 7 && |"tags"| == 4;
    assert |"timestamp"| == 9 && |"epoch"| == 5 && |"data_content_type"| == 17 && |"metadata_content_type"| == 21;
    assert |"data"| == 4 && |"metadata"| == 8 && |"data_b64"| == 8 && |"metadata_b64"| == 12;
    assert |"prev_event_hash_b64"| == 19;
    assert "event_id"[0] == 'e' && "tags"[0] == 't' && "data"[0] == 'd' && "metadata"[0] == 'm' && "data_b64"[0] == 'd';
  }

  /** When the encoder adds the decoded value of a byte field, and which. */
  ghost predicate ShownAs(env: Env, m: map<string, Json>, key: string, b: seq<Byte>, contentType: string, mode: Mode) {
    var json := contentType == "application/json" && env.jsonOf(b).Some?;
    && (key in m <==> mode == Auto && b != [] && (json || env.textOf(b).Some?))
    && (key in m && json ==> Some(m[key]) == env.jsonOf(b))
    && (key in m && !json ==> env.textOf(b).Some? && m[key] == JStr(env.textOf(b).value))
  }

  /** What adding one byte field does to an object that has neither of its keys. */
  lemma WithBytesAdds(env: Env, m: map<string, Json>, key: string, b: seq<Byte>, contentType: string, mode: Mode)
    requires key !in m
    ensures var m' := WithBytes(env, m, key, b, contentType, mode);
      && Has(m', key + "_b64", JStr(Encode(b)))
      && ShownAs(env, m', key, b, contentType, mode)
      && (forall k :: k != key && k != key + "_b64" ==> (k in m' <==> k in m) && (k in m ==> m'[k] == m[k]))
  {
    assert |key + "_b64"| == |key| + 4;
  }

  lemma WithHashAdds(m: map<string, Json>, b: seq<Byte>)
    requires "prev_event_hash_b64" !in m
    ensures var m' := WithHash(m, "prev_event_hash", b);
      && (if b == [] then "prev_event_hash_b64" !in m' else Has(m', "prev_event_hash_b64", JStr(Encode(b))))
      && (forall k :: k != "prev_event_hash_b64" ==> (k in m' <==> k in m) && (k in m ==> m'[k] == m[k]))
  {
    ByteKeys();
  }

  lemma HashKeyApart()
    ensures "prev_event_hash_b64" !in PLAIN_KEYS
    ensures "prev_event_hash_b64" != "data" && "prev_event_hash_b64" != "metadata"
    ensures "prev_event_hash_b64" != "data_b64" && "prev_event_hash_b64" != "metadata_b64"
  {
    assert |"prev_event_hash_b64"| == 19 && |"data"| == 4 && |"metadata"| == 8;
    assert |"data_b64"| == 8 && |"metadata_b64"| == 12;
    if "prev_event_hash_b64" in PLAIN_KEYS {
      PlainKeysAreApart("prev_event_hash_b64");
    }
  }

  lemma ByteEntries(env: Env, e: RecordedEvent, mode: Mode)
    ensures var m := EventFields(env, e, mode);
      && HasBytes(m, e)
      && ShownAs(env, m, "data", e.data, e.dataContentType, mode)
      && ShownAs(env, m, "metadata", e.metadata, e.metadataContentType, mode)
  {
    ByteKeys();
    PlainEntries(e);
    NoPlainByteKeys(e);
    HashKeyApart();
    var m0 := PlainFields(e);
    var m1 := WithBytes(env, m0, "data", e.data, e.dataContentType, mode);
    var m2 := WithBytes(env, m1, "metadata", e.metadata, e.metadataContentType, mode);
    WithBytesAdds(env, m0, "data", e.data, e.dataContentType, mode);
    WithBytesAdds(env, m1, "metadata", e.metadata, e.metadataContentType, mode);
    WithHashAdds(m2, e.prevEventHash);
  }

  /** The exact keys of the object, and the decoded values beside the base64 ones. */
  lemma EventKeys(env: Env, e: RecordedEvent, mode: Mode)
    ensures var m := EventFields(env, e, mode);
      && ShownAs(env, m, "data", e.data, e.dataContentType, mode)
      && ShownAs(env, m, "metadata", e.metadata, e.metadataContentType, mode)
      && forall k :: k in m && k != "data" && k != "metadata" <==>
           k in PLAIN_KEYS || k == "data_b64" || k == "metadata_b64"
           || (k == "prev_event_hash_b64" && e.prevEventHash != [])
  {
    ByteEntries(env, e, mode);
    forall k | k != "data" && k != "metadata"
      ensures k in EventFields(env, e, mode) <==>
        k in PLAIN_KEYS || k == "data_b64" || k == "metadata_b64"
        || (k == "prev_event_hash_b64" && e.prevEventHash != [])
    {
      KeyCameFrom(env, e, mode, k);
    }
    NoPlainByteKeys(e);
    PlainEntries(e);
    ByteKeys();
    HashKeyApart();
  }

  lemma KeyCameFrom(env: Env, e: RecordedEvent, mode: Mode, k: string)
    requires k != "data" && k != "metadata"
    ensures k in EventFields(env, e, mode) <==>
      k in PLAIN_KEYS || k == "data_b64" || k == "metadata_b64" || (k == "prev_event_hash_b64" && e.prevEventHash != [])
  {
    ByteKeys();
    PlainEntries(e);
    HashKeyApart();
  }

  // ----------------------------------------------------------------------- input

  datatype InputError =
    | NoInput
    | BadJson
    | LineTooLong
    | BadBase64(index: nat, field: string)

  datatype Result<+T> = Ok(value: T) | Err(error: InputError)

  /** proposedInput; a raw value is None when its key is absent. */
  datatype Input = Input(
    eventId: string,
    eventType: string,
    data: Option<Json>,
    dataB64: string,
    metadata: Option<Json>,
    metadataB64: string,
    tags: seq<string>,
    dataContentType: string,
    metadataContentType: string)

  /** A string field of the struct: an absent key or null leaves it empty. */
  function StringField(m: map<string, Json>, key: string): Option<string> {
    if key !in m || m[key].JNull? then Some("")
    else if m[key].JStr? then Some(m[key].s)
    else None
  }

  predicate StringOrNull(v: Json) {
    v.JStr? || v.JNull?
  }

  function TagsField(m: map<string, Json>): Option<seq<string>> {
    if "tags" !in m || m["tags"].JNull? then Some([])
    else if m["tags"].JArr? && forall v <- m["tags"].items :: StringOrNull(v) then
      var items := m["tags"].items;
      Some(seq(|items|, i requires 0 <= i < |items| => if items[i].JStr? then items[i].s else ""))
    else None
  }

  function RawField(m: map<string, Json>, key: string): Option<Json> {
    if key in m then Some(m[key]) else None
  }

  /** json.Unmarshal of one value into a proposedInput; None is a type error. */
  function InputOf(v: Json): Option<Input> {
    var m := if v.JObj? then v.fields else map[];
    var id, ty, d64, m64 := StringField(m, "event_id"), StringField(m, "event_type"),
                            StringField(m, "data_b64"), StringField(m, "metadata_b64");
    var tags, dct, mct := TagsField(m), StringField(m, "data_content_type"), StringField(m, "metadata_content_type");
    if (v.JObj? || v.JNull?) && id.Some? && ty.Some? && d64.Some? && m64.Some? && tags.Some? && dct.Some? && mct.Some?
    then Some(Input(id.value, ty.value, RawField(m, "data"), d64.value, RawField(m, "metadata"), m64.value,
                    tags.value, dct.value, mct.value))
    else None
  }

  function ParseObject(env: Env, text: string): Option<Input> {
    var v := env.parse(text);
    if v.None? then None else InputOf(v.value)
  }

  /** json.Unmarshal into a slice: the whole array or nothing. */
  function ParseArray(env: Env, text: string): Result<seq<Input>> {
    var v := env.parse(text);
    if v.None? || !v.value.JArr? || exists x <- v.value.items :: InputOf(x).None? then Err(BadJson)
    else
      var items := v.value.items;
      Ok(seq(|items|, i requires 0 <= i < |items| => InputOf(items[i]).value))
  }

  /** The scanner's buffer limit: a line this long or longer stops it with an error. */
  const MAX_LINE: nat := 16 * 1024 * 1024

  function LineInputs(env: Env, line: string): Result<seq<Input>> {
    if |line| >= MAX_LINE then Err(LineTooLong)
    else if Trim(line) == "" then Ok([])
    else
      var pi := ParseObject(env, Trim(line));
      if pi.None? then Err(BadJson) else Ok([pi.value])
  }

  function Then(a: Result<seq<Input>>, b: Result<seq<Input>>): Result<seq<Input>> {
    if a.Err? then a else if b.Err? then b else Ok(a.value + b.value)
  }

  function LinesInputs(env: Env, lines: seq<string>): Result<seq<Input>> {
    if lines == [] then Ok([])
    else Then(LineInputs(env, lines[0]), LinesInputs(env, lines[1..]))
  }

  lemma LinesCons(env: Env, line: string, rest: seq<string>)
    ensures LinesInputs(env, [line] + rest) == Then(LineInputs(env, line), LinesInputs(env, rest))
  {
    assert ([line] + rest)[1..] == rest;
  }

  lemma HeadFirst<T>(a: seq<T>, b: seq<T>)
    requires a != []
    ensures a + b == [a[0]] + (a[1..] + b)
  {
  }

  lemma {:induction false} LinesAppend(env: Env, a: seq<string>, b: seq<string>)
    ensures LinesInputs(env, a + b) == Then(LinesInputs(env, a), LinesInputs(env, b))
  {
    if a == [] {
      assert a + b == b;
      ThenOfNothing(LinesInputs(env, b));
    } else {
      LinesAppend(env, a[1..], b);
      LinesCons(env, a[0], a[1..] + b);
      HeadFirst(a, b);
      ThenAssociates(LineInputs(env, a[0]), LinesInputs(env, a[1..]), LinesInputs(env, b));
    }
  }

  lemma ThenOfNothing(b: Result<seq<Input>>)
    ensures Then(Ok([]), b) == b
  {
    if b.Ok? {
      assert [] + b.value == b.value;
    }
  }

  lemma ThenAssociates(a: Result<seq<Input>>, b: Result<seq<Input>>, c: Result<seq<Input>>)
    ensures Then(Then(a, b), c) == Then(a, Then(b, c))
  {
    if a.Ok? && b.Ok? && c.Ok? {
      assert (a.value + b.value) + c.value == a.value + (b.value + c.value);
    }
  }

  lemma OneLine(env: Env, line: string)
    ensures LinesInputs(env, [line]) == LineInputs(env, line)
  {
    var none: seq<string> := [];
    assert [line][1..] == none;
    assert LinesInputs(env, none) == Ok([]);
    if LineInputs(env, line).Ok? {
      assert LineInputs(env, line).value + [] == LineInputs(env, line).value;
    }
  }

  method ScanProposedInputs(env: Env, trimmed: string) returns (r: Result<seq<Input>>)
    ensures r == LinesInputs(env, Split(trimmed, '\n'))
  {
    var lines := Split(trimmed, '\n');
    var inputs: seq<Input> := [];
    for i := 0 to |lines|
      invariant LinesInputs(env, lines[..i]) == Ok(inputs)
    {
      LinesAppend(env, lines[..i], lines[i..]);
      LinesAppend(env, lines[..i], [lines[i]]);
      LinesAppend(env, [lines[i]], lines[i + 1..]);
      OneLine(env, lines[i]);
      assert lines[..i] + lines[i..] == lines && lines[..i] + [lines[i]] == lines[..i + 1];
      assert [lines[i]] + lines[i + 1..] == lines[i..];
      if |lines[i]| >= MAX_LINE {
        return Err(LineTooLong);
      }
      var line := Trim(lines[i]);
      if line != "" {
        var pi := ParseObject(env, line);
        if pi.None? {
          return Err(BadJson);
        }
        inputs := inputs + [pi.value];
      } else {
        assert inputs + [] == inputs;
      }
    }
    assert lines[..|lines|] == lines;
    return Ok(inputs);
  }

  function ParseProposedInputs(env: Env, trimmed: string): Result<seq<Input>> {
    if trimmed == "" then Err(NoInput)
    else if trimmed[0] == '[' then ParseArray(env, trimmed)
    else LinesInputs(env, Split(trimmed, '\n'))
  }

  /** A line the scanner can hold that is blank or an event object. */
  predicate LineFine(env: Env, line: string) {
    |line| < MAX_LINE && (Trim(line) == "" || ParseObject(env, Trim(line)).Some?)
  }

  lemma {:induction false} OneBadLineFailsAll(env: Env, lines: seq<string>)
    ensures LinesInputs(env, lines).Ok? <==> forall l <- lines :: LineFine(env, l)
  {
    if lines == [] {
    } else {
      OneBadLineFailsAll(env, lines[1..]);
      assert lines == [lines[0]] + lines[1..];
      assert LineInputs(env, lines[0]).Ok? <==> LineFine(env, lines[0]);
    }
  }

  /** NDJSON is all or nothing, and keeps order: the read succeeds exactly when every
      line fits the scanner and is blank or an event object, and then the result is
      those objects, one for each non-blank line. */
  lemma {:induction false} NdjsonIsAllOrNothing(env: Env, lines: seq<string>)
    ensures LinesInputs(env, lines).Ok? <==> forall l <- lines :: LineFine(env, l)
    ensures LinesInputs(env, lines).Ok? ==>
      && |LinesInputs(env, lines).value| == |NonBlank(lines)|
      && forall i :: 0 <= i < |NonBlank(lines)| ==>
           ParseObject(env, NonBlank(lines)[i]) == Some(LinesInputs(env, lines).value[i])
  {
    OneBadLineFailsAll(env, lines);
    if lines == [] || LinesInputs(env, lines).Err? {
    } else {
      NdjsonIsAllOrNothing(env, lines[1..]);
      var head, rest := LineInputs(env, lines[0]).value, LinesInputs(env, lines[1..]).value;
      assert LinesInputs(env, lines).value == head + rest;
      assert |head| == if Trim(lines[0]) == "" then 0 else 1;
    }
  }

  /** What the scan makes of a line: an error, nothing, or the text of an object. */
  datatype Scanned = TooLong | Object(text: string)

  function ScanLine(line: string): seq<Scanned> {
    if |line| >= MAX_LINE then [TooLong]
    else if Trim(line) == "" then []
    else [Object(Trim(line))]
  }

  function ScanLines(lines: seq<string>): seq<Scanned> {
    if lines == [] then [] else ScanLine(lines[0]) + ScanLines(lines[1..])
  }

  function Each(env: Env, items: seq<Scanned>): Result<seq<Input>> {
    if items == [] then Ok([])
    else if items[0].TooLong? then Err(LineTooLong)
    else
      var pi := ParseObject(env, items[0].text);
      if pi.None? then Err(BadJson) else Then(Ok([pi.value]), Each(env, items[1..]))
  }

  lemma {:induction false} LinesAreScanned(env: Env, lines: seq<string>)
    ensures LinesInputs(env, lines) == Each(env, ScanLines(lines))
  {
    if lines == [] {
    } else {
      var head, rest := ScanLine(lines[0]), ScanLines(lines[1..]);
      LinesAreScanned(env, lines[1..]);
      if head == [] {
        assert head + rest == rest;
        ThenOfNothing(LinesInputs(env, lines[1..]));
      } else {
        assert (head + rest)[0] == head[0] && (head + rest)[1..] == rest;
      }
    }
  }

  lemma {:induction false} ScanLinesAppend(a: seq<string>, b: seq<string>)
    ensures ScanLines(a + b) == ScanLines(a) + ScanLines(b)
  {
    if a == [] {
      assert a + b == b;
    } else {
      ScanLinesAppend(a[1..], b);
      assert (a + b)[0] == a[0] && (a + b)[1..] == a[1..] + b;
      Associates(ScanLine(a[0]), ScanLines(a[1..]), ScanLines(b));
    }
  }

  lemma ScanMiddle(a: seq<string>, middle: seq<string>, b: seq<string>)
    ensures ScanLines(a + middle + b) == ScanLines(a) + ScanLines(middle) + ScanLines(b)
  {
    ScanLinesAppend(a + middle, b);
    ScanLinesAppend(a, middle);
  }

  lemma ScanOne(line: string)
    ensures ScanLines([line]) == ScanLine(line)
  {
    assert [line][1..] == [];
    assert ScanLine(line) + [] == ScanLine(line);
  }

  lemma ScanOneReplaced(lines: seq<string>, i: nat, line: string)
    requires i < |lines| && ScanLine(line) == ScanLine(lines[i])
    ensures ScanLines(lines[i := line]) == ScanLines(lines)
  {
    var a, b := lines[..i], lines[i + 1..];
    ScanMiddle(a, [line], b);
    ScanMiddle(a, [lines[i]], b);
    ScanOne(line);
    ScanOne(lines[i]);
    assert a + [line] + b == lines[i := line] && a + [lines[i]] + b == lines;
  }

  lemma ScanOneInserted(lines: seq<string>, i: nat, line: string)
    requires i <= |lines| && ScanLine(line) == []
    ensures ScanLines(lines[..i] + [line] + lines[i..]) == ScanLines(lines)
  {
    ScanNothing(lines[..i], line, lines[i..]);
    assert lines[..i] + lines[i..] == lines;
  }

  lemma ScanNothing(a: seq<string>, line: string, b: seq<string>)
    requires ScanLine(line) == []
    ensures ScanLines(a + [line] + b) == ScanLines(a + b)
  {
    var scanned := ScanLines(a);
    ScanMiddle(a, [line], b);
    ScanOne(line);
    ScanLinesAppend(a, b);
    assert scanned + [] == scanned;
  }

  predicate IsNdjson(text: string) {
    text != "" && text[0] != '['
  }

  /** Only what the scan makes of the lines matters, errors included. */
  lemma SameScanSameInputs(env: Env, t: string, u: string)
    requires IsNdjson(t) && IsNdjson(u) && ScanLines(Split(t, '\n')) == ScanLines(Split(u, '\n'))
    ensures ParseProposedInputs(env, t) == ParseProposedInputs(env, u)
  {
    LinesAreScanned(env, Split(t, '\n'));
    LinesAreScanned(env, Split(u, '\n'));
  }

  /** A text given by its lines; every text is one (Text.SplitIsTheOnlyCut). */
  predicate AreLines(lines: seq<string>) {
    lines != [] && forall l <- lines :: '\n' !in l
  }

  lemma LinesStayLines(lines: seq<string>, i: nat, line: string)
    requires AreLines(lines) && i <= |lines| && '\n' !in line
    ensures AreLines(lines[..i] + [line] + lines[i..])
  {
  }

  lemma SameScanSameText(env: Env, a: seq<string>, b: seq<string>)
    requires AreLines(a) && AreLines(b) && ScanLines(a) == ScanLines(b)
    requires IsNdjson(Join(a, '\n')) && IsNdjson(Join(b, '\n'))
    ensures ParseProposedInputs(env, Join(a, '\n')) == ParseProposedInputs(env, Join(b, '\n'))
  {
    SplitInvertsJoin(a, '\n');
    SplitInvertsJoin(b, '\n');
    SameScanSameInputs(env, Join(a, '\n'), Join(b, '\n'));
  }

  lemma BlankScansToNothing(w: string)
    requires AllSpace(w) && |w| < MAX_LINE
    ensures ScanLine(w) == []
  {
    TrimIsTheCore(w, "", "");
    assert w + "" + "" == w;
  }

  /** A blank line put anywhere, before the first and after the last line included,
      never changes the outcome, errors included. */
  lemma BlankLineIsNothing(env: Env, lines: seq<string>, i: nat, w: string)
    requires AreLines(lines) && i <= |lines|
    requires AllSpace(w) && '\n' !in w && |w| < MAX_LINE
    requires IsNdjson(Join(lines, '\n')) && IsNdjson(Join(lines[..i] + [w] + lines[i..], '\n'))
    ensures ParseProposedInputs(env, Join(lines[..i] + [w] + lines[i..], '\n'))
         == ParseProposedInputs(env, Join(lines, '\n'))
  {
    var more := lines[..i] + [w] + lines[i..];
    BlankScansToNothing(w);
    ScanOneInserted(lines, i, w);
    LinesStayLines(lines, i, w);
    SameScanSameText(env, more, lines);
  }

  /** White space around any one line never changes the outcome either. */
  lemma PaddedLineIsTheLine(env: Env, lines: seq<string>, i: nat, a: string, b: string)
    requires AreLines(lines) && i < |lines|
    requires AllSpace(a) && AllSpace(b) && '\n' !in a + b && |a + lines[i] + b| < MAX_LINE
    requires IsNdjson(Join(lines, '\n')) && IsNdjson(Join(lines[i := a + lines[i] + b], '\n'))
    ensures ParseProposedInputs(env, Join(lines[i := a + lines[i] + b], '\n'))
         == ParseProposedInputs(env, Join(lines, '\n'))
  {
    var more := lines[i := a + lines[i] + b];
    TrimIgnoresPadding(a, lines[i], b);
    ScanOneReplaced(lines, i, a + lines[i] + b);
    SameScanSameText(env, more, lines);
  }

  /** The scanner can hold every line. */
  predicate Fits(text: string) {
    forall l <- Split(text, '\n') :: |l| < MAX_LINE
  }

  lemma {:induction false} ScanOfFitting(lines: seq<string>)
    requires forall l <- lines :: |l| < MAX_LINE
    ensures |ScanLines(lines)| == |NonBlank(lines)|
    ensures forall i :: 0 <= i < |NonBlank(lines)| ==> ScanLines(lines)[i] == Object(NonBlank(lines)[i])
  {
    if lines == [] {
    } else {
      ScanOfFitting(lines[1..]);
    }
  }

  /** White space is nothing: two inputs whose non-blank lines are the same once
      trimmed read the same, errors included, however they are laid out. */
  lemma LayoutIsNothing(env: Env, t: string, u: string)
    requires NonBlank(Split(t, '\n')) == NonBlank(Split(u, '\n'))
    requires NonBlank(Split(t, '\n')) != [] ==> IsNdjson(NonBlank(Split(t, '\n'))[0])
    requires Fits(Trim(t)) && Fits(Trim(u))
    ensures ParseProposedInputs(env, Trim(t)) == ParseProposedInputs(env, Trim(u))
  {
    NonBlankOfTrim(t, '\n');
    NonBlankOfTrim(u, '\n');
    TrimmedForm(t);
    TrimmedForm(u);
    if Trim(t) != "" {
      ScanOfFitting(Split(Trim(t), '\n'));
      ScanOfFitting(Split(Trim(u), '\n'));
      SameScanSameInputs(env, Trim(t), Trim(u));
    }
  }

  /** The trimmed text is empty when no line has anything on it, and otherwise begins
      with the first that has. */
  lemma TrimmedForm(t: string)
    ensures var lines := NonBlank(Split(Trim(t), '\n'));
      if Trim(t) == "" then lines == [] else lines != [] && lines[0] != "" && lines[0][0] == Trim(t)[0]
  {
    if Trim(t) == "" {
      NonBlankOfSpaces([""]);
    } else {
      var a, b := TrimCuts(t);
      FirstNonBlank(Trim(t), '\n');
    }
  }

  // ------------------------------------------------------ inputs to proposed events

  /** The base64 form wins; a JSON string yields its text, null nothing, any other
      value its raw bytes. */
  function ResolveInputBytes(env: Env, raw: Option<Json>, b64: string): Option<seq<Byte>> {
    if b64 != "" then Decode(b64)
    else if raw.None? || raw.value.JNull? then Some([])
    else if raw.value.JStr? then Some(env.utf8(raw.value.s))
    else Some(env.rawBytes(raw.value))
  }

  function DefaultStr(s: string, def: string): string {
    if s == "" then def else s
  }

  function Proposed(env: Env, i: nat, pi: Input): Result<ProposedEvent> {
    var data := ResolveInputBytes(env, pi.data, pi.dataB64);
    var meta := ResolveInputBytes(env, pi.metadata, pi.metadataB64);
    if data.None? then Err(BadBase64(i, "data"))
    else if meta.None? then Err(BadBase64(i, "metadata"))
    else
      Ok(ProposedEvent(DefaultStr(pi.eventId, env.freshId(i)), pi.eventType, data.value, meta.value, pi.tags,
                       DefaultStr(pi.dataContentType, APPLICATION_JSON),
                       DefaultStr(pi.metadataContentType, APPLICATION_JSON)))
  }

  /** Either every input is resolved, in order, or the first failure is reported. */
  ghost predicate AllProposed(env: Env, inputs: seq<Input>, r: Result<seq<ProposedEvent>>) {
    if r.Ok? then
      |r.value| == |inputs| && forall i :: 0 <= i < |inputs| ==> Proposed(env, i, inputs[i]) == Ok(r.value[i])
    else
      exists i :: && 0 <= i < |inputs| && Proposed(env, i, inputs[i]) == Err(r.error)
                  && forall j :: 0 <= j < i ==> Proposed(env, j, inputs[j]).Ok?
  }

  lemma FirstFailure(env: Env, inputs: seq<Input>, i: nat, r: Result<seq<ProposedEvent>>)
    requires i < |inputs| && r.Err? && Proposed(env, i, inputs[i]) == Err(r.error)
    requires forall k :: 0 <= k < i ==> Proposed(env, k, inputs[k]).Ok?
    ensures AllProposed(env, inputs, r)
  {
  }

  ghost predicate ProposedSoFar(env: Env, inputs: seq<Input>, out: seq<ProposedEvent>) {
    |out| <= |inputs| && forall k :: 0 <= k < |out| ==> Proposed(env, k, inputs[k]) == Ok(out[k])
  }

  lemma OneMoreProposed(env: Env, inputs: seq<Input>, out: seq<ProposedEvent>, p: ProposedEvent)
    requires ProposedSoFar(env, inputs, out) && |out| < |inputs| && Proposed(env, |out|, inputs[|out|]) == Ok(p)
    ensures ProposedSoFar(env, inputs, out + [p])
  {
    assert forall i :: 0 <= i < |out| ==> (out + [p])[i] == out[i];
  }

  method ToProposedEvents(env: Env, inputs: seq<Input>) returns (r: Result<seq<ProposedEvent>>)
    ensures AllProposed(env, inputs, r)
  {
    var out: seq<ProposedEvent> := [];
    for i := 0 to |inputs|
      invariant |out| == i && ProposedSoFar(env, inputs, out)
    {
      var p := Proposed(env, i, inputs[i]);
      if p.Err? {
        r := Err(p.error);
        FirstFailure(env, inputs, i, r);
        return;
      }
      OneMoreProposed(env, inputs, out, p.value);
      out := out + [p.value];
    }
    return Ok(out);
  }

  method ReadProposedEvents(env: Env, text: string) returns (r: Result<seq<ProposedEvent>>)
    ensures var inputs := ParseProposedInputs(env, Trim(text));
      if inputs.Err? then r == Err(inputs.error) else AllProposed(env, inputs.value, r)
  {
    var trimmed := Trim(text);
    var inputs;
    if trimmed != "" && trimmed[0] != '[' {
      inputs := ScanProposedInputs(env, trimmed);
    } else {
      inputs := ParseProposedInputs(env, trimmed);
    }
    if inputs.Err? {
      return Err(inputs.error);
    }
    r := ToProposedEvents(env, inputs.value);
  }

  // ------------------------------------------------- what an input object means

  /** s is the text at a key, empty when the key is absent or null. */
  predicate SaysText(m: map<string, Json>, key: string, s: string) {
    if key in m && m[key].JStr? then s == m[key].s else s == "" && (key in m ==> m[key].JNull?)
  }

  /** ts are the tags at "tags", none when the key is absent or null; a null tag is empty. */
  predicate SaysTags(m: map<string, Json>, ts: seq<string>) {
    if "tags" in m && m["tags"].JArr? then
      var items := m["tags"].items;
      && |ts| == |items|
      && forall i :: 0 <= i < |items| ==>
           if items[i].JStr? then ts[i] == items[i].s else items[i].JNull? && ts[i] == ""
    else ts == [] && ("tags" in m ==> m["tags"].JNull?)
  }

  /** b are the bytes of a field: those of its base64 text if there is any; otherwise a
      string stands for its text, null or nothing for no bytes, and any other value for
      bytes that are JSON of that value. */
  ghost predicate SaysBytes(env: Env, m: map<string, Json>, key: string, b: seq<Byte>) {
    var b64 := key + "_b64";
    if b64 in m && m[b64].JStr? && m[b64].s != "" then Decode(m[b64].s) == Some(b)
    else if key !in m || m[key].JNull? then b == []
    else if m[key].JStr? then b == env.utf8(m[key].s)
    else env.jsonOf(b) == Some(m[key])
  }

  predicate Undecodable(m: map<string, Json>, key: string) {
    key in m && m[key].JStr? && m[key].s != "" && Decode(m[key].s).None?
  }

  /** The i-th input object m proposes p, or says why not: bad base64 in data first. */
  ghost predicate Means(env: Env, i: nat, m: map<string, Json>, r: Result<ProposedEvent>) {
    if Undecodable(m, "data_b64") then r == Err(BadBase64(i, "data"))
    else if Undecodable(m, "metadata_b64") then r == Err(BadBase64(i, "metadata"))
    else
      && r.Ok?
      && var p := r.value;
      && (if SaysText(m, "event_id", "") then p.eventId == env.freshId(i) else SaysText(m, "event_id", p.eventId))
      && SaysText(m, "event_type", p.eventType)
      && SaysBytes(env, m, "data", p.data)
      && SaysBytes(env, m, "metadata", p.metadata)
      && SaysTags(m, p.tags)
      && SaysContentType(m, "data_content_type", p.dataContentType)
      && SaysContentType(m, "metadata_content_type", p.metadataContentType)
  }

  predicate SaysContentType(m: map<string, Json>, key: string, s: string) {
    if SaysText(m, key, "") then s == "application/json" else SaysText(m, key, s)
  }

  const TEXT_KEYS: set<string> :=
    {"event_id", "event_type", "data_b64", "metadata_b64", "data_content_type", "metadata_content_type"}

  /** What json.Unmarshal accepts as an input: null, or an object whose typed keys, where
      present and not null, hold strings, and tags an array of strings or nulls. */
  predicate Acceptable(v: Json) {
    || v.JNull?
    || (v.JObj?
        && (forall k <- TEXT_KEYS :: k in v.fields ==> v.fields[k].JStr? || v.fields[k].JNull?)
        && ("tags" in v.fields ==>
              || v.fields["tags"].JNull?
              || (v.fields["tags"].JArr? && forall t <- v.fields["tags"].items :: t.JStr? || t.JNull?)))
  }

  function FieldsOf(v: Json): map<string, Json> {
    if v.JObj? then v.fields else map[]
  }

  lemma StringFieldMeans(m: map<string, Json>, key: string)
    ensures StringField(m, key).Some? <==> (key in m ==> m[key].JStr? || m[key].JNull?)
    ensures StringField(m, key).Some? ==> forall s :: SaysText(m, key, s) <==> s == StringField(m, key).value
  {
  }

  lemma TagsFieldMeans(m: map<string, Json>)
    ensures TagsField(m).Some? <==>
      ("tags" in m ==> m["tags"].JNull? || (m["tags"].JArr? && forall t <- m["tags"].items :: t.JStr? || t.JNull?))
    ensures TagsField(m).Some? ==> SaysTags(m, TagsField(m).value)
  {
  }

  lemma BytesMean(env: Env, m: map<string, Json>, key: string, b64: string)
    requires FaithfulBytes(env) && SaysText(m, key + "_b64", b64)
    ensures var r := ResolveInputBytes(env, RawField(m, key), b64);
      if Undecodable(m, key + "_b64") then r.None? else r.Some? && SaysBytes(env, m, key, r.value)
  {
  }

  lemma TextKeysAccepted(m: map<string, Json>)
    ensures (forall k <- TEXT_KEYS :: k in m ==> m[k].JStr? || m[k].JNull?) <==>
      && StringField(m, "event_id").Some? && StringField(m, "event_type").Some?
      && StringField(m, "data_b64").Some? && StringField(m, "metadata_b64").Some?
      && StringField(m, "data_content_type").Some? && StringField(m, "metadata_content_type").Some?
  {
    forall k | k in TEXT_KEYS
      ensures StringField(m, k).Some? <==> (k in m ==> m[k].JStr? || m[k].JNull?)
    {
      StringFieldMeans(m, k);
    }
  }

  /** The fields of an input are what its object says. */
  ghost predicate InputSays(m: map<string, Json>, pi: Input) {
    && SaysText(m, "event_id", pi.eventId) && SaysText(m, "event_type", pi.eventType)
    && SaysText(m, "data_b64", pi.dataB64) && SaysText(m, "metadata_b64", pi.metadataB64)
    && SaysText(m, "data_content_type", pi.dataContentType)
    && SaysText(m, "metadata_content_type", pi.metadataContentType)
    && SaysTags(m, pi.tags)
    && pi.data == RawField(m, "data") && pi.metadata == RawField(m, "metadata")
  }

  lemma AcceptedInputSays(v: Json)
    ensures InputOf(v).Some? <==> Acceptable(v)
    ensures InputOf(v).Some? ==> InputSays(FieldsOf(v), InputOf(v).value)
  {
    var m := FieldsOf(v);
    TextKeysAccepted(m);
    TagsFieldMeans(m);
  }

  lemma ProposalMeans(env: Env, i: nat, m: map<string, Json>, pi: Input)
    requires FaithfulBytes(env) && InputSays(m, pi)
    ensures Means(env, i, m, Proposed(env, i, pi))
  {
    ByteKeys();
    BytesMean(env, m, "data", pi.dataB64);
    BytesMean(env, m, "metadata", pi.metadataB64);
  }

  /** An input is accepted exactly when its typed keys have their types, and then means
      what it says, in every form a user can type. */
  lemma InputMeans(env: Env, i: nat, v: Json)
    requires FaithfulBytes(env)
    ensures InputOf(v).Some? <==> Acceptable(v)
    ensures InputOf(v).Some? ==> Means(env, i, FieldsOf(v), Proposed(env, i, InputOf(v).value))
  {
    AcceptedInputSays(v);
    if InputOf(v).Some? {
      ProposalMeans(env, i, FieldsOf(v), InputOf(v).value);
    }
  }

  /** The values of an input text: the items of the array, or one for each non-blank line. */
  function ValuesIn(env: Env, trimmed: string): seq<Option<Json>> {
    if trimmed != "" && trimmed[0] == '[' then
      var v := env.parse(trimmed);
      if v.Some? && v.value.JArr? then
        seq(|v.value.items|, i requires 0 <= i < |v.value.items| => Some(v.value.items[i]))
      else []
    else
      var lines := NonBlank(Split(trimmed, '\n'));
      seq(|lines|, i requires 0 <= i < |lines| => env.parse(lines[i]))
  }

  lemma ParsedValues(env: Env, trimmed: string)
    requires ParseProposedInputs(env, trimmed).Ok?
    ensures var (inputs, vs) := (ParseProposedInputs(env, trimmed).value, ValuesIn(env, trimmed));
      |inputs| == |vs| && forall i :: 0 <= i < |vs| ==> vs[i].Some? && InputOf(vs[i].value) == Some(inputs[i])
  {
    if trimmed[0] != '[' {
      var lines := Split(trimmed, '\n');
      NdjsonIsAllOrNothing(env, lines);
      forall i | 0 <= i < |NonBlank(lines)|
        ensures env.parse(NonBlank(lines)[i]).Some?
        ensures InputOf(env.parse(NonBlank(lines)[i]).value) == Some(LinesInputs(env, lines).value[i])
      {
        assert ParseObject(env, NonBlank(lines)[i]) == Some(LinesInputs(env, lines).value[i]);
      }
    }
  }

  /** Exactly which inputs can be read, in both forms; an empty one has its own error, and
      an array fails as a whole. */
  lemma ReadableIff(env: Env, trimmed: string)
    ensures trimmed == "" <==> ParseProposedInputs(env, trimmed) == Err(NoInput)
    ensures var isArray := trimmed != "" && trimmed[0] == '[';
      ParseProposedInputs(env, trimmed).Ok? <==>
      && trimmed != ""
      && (isArray ==> env.parse(trimmed).Some? && env.parse(trimmed).value.JArr?)
      && (!isArray ==> forall l <- Split(trimmed, '\n') :: |l| < 16_777_216)
      && forall v <- ValuesIn(env, trimmed) :: v.Some? && Acceptable(v.value)
  {
    if trimmed == "" {
    } else if trimmed[0] == '[' {
      ArrayReadableIff(env, trimmed);
    } else {
      LinesReadableIff(env, trimmed);
    }
  }

  lemma ArrayReadableIff(env: Env, trimmed: string)
    requires trimmed != "" && trimmed[0] == '['
    ensures ParseArray(env, trimmed).Ok? <==>
      && env.parse(trimmed).Some? && env.parse(trimmed).value.JArr?
      && forall v <- ValuesIn(env, trimmed) :: v.Some? && Acceptable(v.value)
    ensures ParseArray(env, trimmed).Err? ==> ParseArray(env, trimmed).error == BadJson
  {
    var v := env.parse(trimmed);
    if v.Some? && v.value.JArr? {
      var items, vs := v.value.items, ValuesIn(env, trimmed);
      forall x: Json
        ensures InputOf(x).Some? <==> Acceptable(x)
      {
        AcceptedInputSays(x);
      }
      assert forall i :: 0 <= i < |items| ==> vs[i] == Some(items[i]) && items[i] in items && vs[i] in vs;
    }
  }

  lemma LinesReadableIff(env: Env, trimmed: string)
    requires trimmed != "" && trimmed[0] != '['
    ensures var r := LinesInputs(env, Split(trimmed, '\n'));
      && (r.Ok? <==>
            && (forall l <- Split(trimmed, '\n') :: |l| < 16_777_216)
            && forall v <- ValuesIn(env, trimmed) :: v.Some? && Acceptable(v.value))
      && r != Err(NoInput)
  {
    var lines := Split(trimmed, '\n');
    NdjsonIsAllOrNothing(env, lines);
    LinesNeverMissing(env, lines);
    NonBlankAre(lines);
    forall x: Json
      ensures InputOf(x).Some? <==> Acceptable(x)
    {
      AcceptedInputSays(x);
    }
    var vs, kept := ValuesIn(env, trimmed), NonBlank(lines);
    assert |vs| == |kept|;
    assert forall i :: 0 <= i < |kept| ==> vs[i] == env.parse(kept[i]) && vs[i] in vs && kept[i] in kept;
    assert (forall v <- vs :: v.Some? && Acceptable(v.value)) <==> forall p <- kept :: ParseObject(env, p).Some?;
  }

  lemma {:induction false} LinesNeverMissing(env: Env, lines: seq<string>)
    ensures LinesInputs(env, lines) != Err(NoInput)
  {
    if lines == [] {
    } else {
      LinesNeverMissing(env, lines[1..]);
    }
  }

  /** What readProposedEvents returns means what the input says, value by value and in
      order, in both forms; a failure to resolve is that of the first bad value. */
  lemma ReadMeans(env: Env, text: string, r: Result<seq<ProposedEvent>>)
    requires FaithfulBytes(env) && ParseProposedInputs(env, Trim(text)).Ok?
    requires AllProposed(env, ParseProposedInputs(env, Trim(text)).value, r)
    ensures var vs := ValuesIn(env, Trim(text));
      && (forall i :: 0 <= i < |vs| ==> vs[i].Some?)
      && if r.Ok? then
           |r.value| == |vs| && forall i :: 0 <= i < |vs| ==> Means(env, i, FieldsOf(vs[i].value), Ok(r.value[i]))
         else
           exists i :: && 0 <= i < |vs| && Means(env, i, FieldsOf(vs[i].value), Err(r.error))
                       && forall j :: 0 <= j < i ==> exists p :: Means(env, j, FieldsOf(vs[j].value), Ok(p))
  {
    var inputs, vs := ParseProposedInputs(env, Trim(text)).value, ValuesIn(env, Trim(text));
    ParsedValues(env, Trim(text));
    forall i | 0 <= i < |vs|
      ensures Means(env, i, FieldsOf(vs[i].value), Proposed(env, i, inputs[i]))
    {
      InputMeans(env, i, vs[i].value);
    }
    if r.Err? {
      var i :| && 0 <= i < |inputs| && Proposed(env, i, inputs[i]) == Err(r.error)
               && forall j :: 0 <= j < i ==> Proposed(env, j, inputs[j]).Ok?;
      forall j | 0 <= j < i
        ensures exists p :: Means(env, j, FieldsOf(vs[j].value), Ok(p))
      {
        assert Means(env, j, FieldsOf(vs[j].value), Ok(Proposed(env, j, inputs[j]).value));
      }
    }
  }

  // ------------------------------------------------------------------ round trip

  /** A recorded event as it comes back: an empty id gets a fresh one and an empty
      content type the default; everything else is kept. */
  function AsProposed(env: Env, i: nat, e: RecordedEvent): ProposedEvent {
    ProposedEvent(DefaultStr(e.eventId, env.freshId(i)), e.eventType, e.data, e.metadata, e.tags,
                  DefaultStr(e.dataContentType, APPLICATION_JSON),
                  DefaultStr(e.metadataContentType, APPLICATION_JSON))
  }

  /** The keys that only PlainFields sets. */
  predicate PlainKey(k: string) {
    k != "data" && k != "metadata" && k != "data_b64" && k != "metadata_b64" && k != "prev_event_hash_b64"
  }

  lemma PlainFieldsSurvive(env: Env, e: RecordedEvent, mode: Mode, k: string)
    requires PlainKey(k) && k in PlainFields(e)
    ensures k in EventFields(env, e, mode) && EventFields(env, e, mode)[k] == PlainFields(e)[k]
  {
    ByteKeys();
  }

  lemma ByteKeys()
    ensures "data" + "_b64" == "data_b64" && "metadata" + "_b64" == "metadata_b64"
    ensures "prev_event_hash" + "_b64" == "prev_event_hash_b64"
    ensures "data" != "metadata" && "data" != "data_b64" && "metadata" != "data_b64"
    ensures "data" != "metadata_b64" && "metadata" != "metadata_b64" && "data_b64" != "metadata_b64"
    ensures "prev_event_hash_b64"[0] == 'p'
  {
    assert "metadata"[0] == 'm' && "data_b64"[0] == 'd';
  }

  /** The base64 keys always carry the bytes; an empty field has no decoded value. */
  lemma ByteFields(env: Env, e: RecordedEvent, mode: Mode)
    ensures var m := EventFields(env, e, mode);
      && StringField(m, "data_b64") == Some(Encode(e.data))
      && StringField(m, "metadata_b64") == Some(Encode(e.metadata))
      && (e.data == [] ==> RawField(m, "data").None?)
      && (e.metadata == [] ==> RawField(m, "metadata").None?)
  {
    ByteKeys();
    NoPlainByteKeys(e);
  }

  lemma NoPlainByteKeys(e: RecordedEvent)
    ensures "data" !in PlainFields(e) && "metadata" !in PlainFields(e)
  {
    assert |"data"| == 4 && |"metadata"| == 8 && "data"[0] == 'd' && "metadata"[0] == 'm';
    assert |"tags"| == 4 && "tags"[0] == 't' && |"event_id"| == 8 && "event_id"[0] == 'e';
  }

  lemma PlainLookup(e: RecordedEvent)
    ensures var m := PlainFields(e);
      && StringField(m, "event_id") == Some(e.eventId)
      && StringField(m, "event_type") == Some(e.eventType)
      && StringField(m, "data_content_type") == Some(e.dataContentType)
      && StringField(m, "metadata_content_type") == Some(e.metadataContentType)
      && "tags" in m && m["tags"] == JArr(Strings(e.tags))
      && {"event_id", "event_type", "data_content_type", "metadata_content_type", "tags"} <= m.Keys
  {
    assert |"event_id"| == 8 && |"event_type"| == 10 && |"stream_id"| == 9 && |"version"| == 7 && |"tags"| == 4;
    assert |"timestamp"| == 9 && |"epoch"| == 5 && |"data_content_type"| == 17 && |"metadata_content_type"| == 21;
  }

  lemma TagsComeBack(m: map<string, Json>, tags: seq<string>)
    requires "tags" in m && m["tags"] == JArr(Strings(tags))
    ensures TagsField(m) == Some(tags)
  {
    var items := Strings(tags);
    assert seq(|items|, i requires 0 <= i < |items| => if items[i].JStr? then items[i].s else "") == tags;
  }

  lemma PlainKeys()
    ensures PlainKey("event_id") && PlainKey("event_type") && PlainKey("tags")
    ensures PlainKey("data_content_type") && PlainKey("metadata_content_type")
  {
    assert "event_id"[0] == 'e' && "event_type"[0] == 'e' && "tags"[0] == 't';
    assert |"data_content_type"| == 17 && |"metadata_content_type"| == 21 && |"prev_event_hash_b64"| == 19;
    assert |"data"| == 4 && |"metadata"| == 8 && |"data_b64"| == 8 && |"metadata_b64"| == 12;
    assert "data"[0] == 'd' && "metadata"[0] == 'm' && "data_b64"[0] == 'd' && "metadata_b64"[0] == 'm';
  }

  lemma InputOfEvent(env: Env, e: RecordedEvent, mode: Mode)
    ensures var pi := InputOf(JObj(EventFields(env, e, mode)));
      && pi.Some?
      && pi.value.eventId == e.eventId && pi.value.eventType == e.eventType && pi.value.tags == e.tags
      && pi.value.dataB64 == Encode(e.data) && pi.value.metadataB64 == Encode(e.metadata)
      && pi.value.dataContentType == e.dataContentType && pi.value.metadataContentType == e.metadataContentType
      && (e.data == [] ==> pi.value.data.None?) && (e.metadata == [] ==> pi.value.metadata.None?)
  {
    PlainLookup(e);
    PlainKeys();
    PlainFieldsSurvive(env, e, mode, "event_id");
    PlainFieldsSurvive(env, e, mode, "event_type");
    PlainFieldsSurvive(env, e, mode, "tags");
    PlainFieldsSurvive(env, e, mode, "data_content_type");
    PlainFieldsSurvive(env, e, mode, "metadata_content_type");
    TagsComeBack(EventFields(env, e, mode), e.tags);
    ByteFields(env, e, mode);
  }

  lemma BytesComeBack(env: Env, b: seq<Byte>, raw: Option<Json>)
    requires b == [] ==> raw.None?
    ensures ResolveInputBytes(env, raw, Encode(b)) == Some(b)
  {
    EncodeHasNoBreaks(b);
    DecodeInvertsEncode(b);
  }

  lemma OneEventComesBack(env: Env, i: nat, e: RecordedEvent, mode: Mode)
    ensures var pi := InputOf(JObj(EventFields(env, e, mode)));
      pi.Some? && Proposed(env, i, pi.value) == Ok(AsProposed(env, i, e))
  {
    InputOfEvent(env, e, mode);
    var pi := InputOf(JObj(EventFields(env, e, mode))).value;
    BytesComeBack(env, e.data, pi.data);
    BytesComeBack(env, e.metadata, pi.metadata);
  }

  lemma PrintedArrayIsParsed(env: Env, items: seq<Json>)
    requires LosslessJson(env) && forall v <- items :: InputOf(v).Some?
    ensures ParseProposedInputs(env, Trim(env.render(JArr(items)) + "\n"))
         == Ok(seq(|items|, i requires 0 <= i < |items| => InputOf(items[i]).value))
  {
    var text := env.render(JArr(items));
    TrimIsTheCore("", text, "\n");
    assert "" + text + "\n" == text + "\n";
    assert env.parse(text) == Some(JArr(items));
  }

  lemma ResolvedInFull(env: Env, inputs: seq<Input>, ps: seq<ProposedEvent>, r: Result<seq<ProposedEvent>>)
    requires AllProposed(env, inputs, r) && |ps| == |inputs|
    requires forall i :: 0 <= i < |inputs| ==> Proposed(env, i, inputs[i]) == Ok(ps[i])
    ensures r == Ok(ps)
  {
    assert r.Ok? ==> forall i :: 0 <= i < |ps| ==> Ok(r.value[i]) == Proposed(env, i, inputs[i]);
    assert r.Ok? ==> r.value == ps;
  }

  /** Read-to-append round trip, for every event list and both byte modes: what
      eventsResult prints, readProposedEvents accepts, and every event comes back in
      order with its type, data and metadata bytes, tags, and (when not empty) id and
      content types -- whatever decoded convenience values the encoder added. */
  lemma RoundTrip(env: Env, es: seq<RecordedEvent>, mode: Mode, r: Result<seq<ProposedEvent>>)
    requires LosslessJson(env)
    requires var inputs := ParseProposedInputs(env, Trim(env.render(JArr(Encoded(env, es, mode))) + "\n"));
      if inputs.Err? then r == Err(inputs.error) else AllProposed(env, inputs.value, r)
    ensures r == Ok(seq(|es|, i requires 0 <= i < |es| => AsProposed(env, i, es[i])))
  {
    var items := Encoded(env, es, mode);
    forall i | 0 <= i < |es|
      ensures InputOf(items[i]).Some?
      ensures Proposed(env, i, InputOf(items[i]).value) == Ok(AsProposed(env, i, es[i]))
    {
      OneEventComesBack(env, i, es[i], mode);
    }
    PrintedArrayIsParsed(env, items);
    var inputs := seq(|items|, i requires 0 <= i < |items| => InputOf(items[i]).value);
    ResolvedInFull(env, inputs, seq(|es|, i requires 0 <= i < |es| => AsProposed(env, i, es[i])), r);
  }

  /** The round trip as the two commands run it. */
  method ReadThenAppend(env: Env, es: seq<RecordedEvent>, mode: Mode) returns (r: Result<seq<ProposedEvent>>)
    requires LosslessJson(env)
    ensures r.Ok? && |r.value| == |es|
    ensures forall i :: 0 <= i < |es| ==> r.value[i] == AsProposed(env, i, es[i])
  {
    var text := EventsResult(env, es, mode);
    r := ReadProposedEvents(env, text);
    RoundTrip(env, es, mode, r);
  }

  /** The object a user would type for an event: without the base64 keys. */
  function Typed(env: Env, e: RecordedEvent): map<string, Json> {
    EventFields(env, e, Auto) - {"data_b64", "metadata_b64"}
  }

  /** What comes back of a byte field whose decoded value is all there is: text exactly, a
      JSON value as bytes of the same value, a JSON string as its text, and nothing for
      JSON null and for bytes that are neither. */
  ghost predicate ComesBackTyped(env: Env, b: seq<Byte>, contentType: string, got: seq<Byte>) {
    if b == [] then got == []
    else if contentType == "application/json" && env.jsonOf(b).Some? then
      var v := env.jsonOf(b).value;
      if v.JNull? then got == []
      else if v.JStr? then got == env.utf8(v.s)
      else env.jsonOf(got) == Some(v)
    else if env.textOf(b).Some? then got == b
    else got == []
  }

  lemma TypedHas(env: Env, e: RecordedEvent)
    ensures var m := Typed(env, e);
      && HasPlain(m, e)
      && "data_b64" !in m && "metadata_b64" !in m
      && ShownAs(env, m, "data", e.data, e.dataContentType, Auto)
      && ShownAs(env, m, "metadata", e.metadata, e.metadataContentType, Auto)
  {
    ByteEntries(env, e, Auto);
    EventHasPlain(env, e, Auto);
    WithoutBase64(env, EventFields(env, e, Auto), e);
  }

  lemma WithoutBase64(env: Env, m: map<string, Json>, e: RecordedEvent)
    requires HasPlain(m, e)
    requires ShownAs(env, m, "data", e.data, e.dataContentType, Auto)
    requires ShownAs(env, m, "metadata", e.metadata, e.metadataContentType, Auto)
    ensures var m' := m - {"data_b64", "metadata_b64"};
      && HasPlain(m', e) && "data_b64" !in m' && "metadata_b64" !in m'
      && ShownAs(env, m', "data", e.data, e.dataContentType, Auto)
      && ShownAs(env, m', "metadata", e.metadata, e.metadataContentType, Auto)
  {
    ByteKeys();
    forall k | k in PLAIN_KEYS
      ensures k != "data_b64" && k != "metadata_b64"
    {
      PlainKeysAreApart(k);
    }
  }

  lemma TypedIsAcceptable(m: map<string, Json>, e: RecordedEvent)
    requires HasPlain(m, e) && "data_b64" !in m && "metadata_b64" !in m
    ensures Acceptable(JObj(m))
  {
  }

  lemma TypedBytes(env: Env, m: map<string, Json>, key: string, b: seq<Byte>, contentType: string, got: seq<Byte>)
    requires FaithfulBytes(env) && key + "_b64" !in m
    requires ShownAs(env, m, key, b, contentType, Auto) && SaysBytes(env, m, key, got)
    ensures ComesBackTyped(env, b, contentType, got)
  {
  }

  lemma TypedTags(m: map<string, Json>, tags: seq<string>, ts: seq<string>)
    requires Has(m, "tags", JArr(Strings(tags))) && SaysTags(m, ts)
    ensures ts == tags
  {
  }

  lemma TypedComesBack(env: Env, i: nat, e: RecordedEvent)
    requires FaithfulBytes(env)
    ensures InputOf(JObj(Typed(env, e))).Some?
    ensures var r := Proposed(env, i, InputOf(JObj(Typed(env, e))).value);
      && r.Ok?
      && ComesBackTyped(env, e.data, e.dataContentType, r.value.data)
      && ComesBackTyped(env, e.metadata, e.metadataContentType, r.value.metadata)
      && r.value == AsProposed(env, i, e).(data := r.value.data, metadata := r.value.metadata)
  {
    var m := Typed(env, e);
    ByteKeys();
    TypedHas(env, e);
    TypedIsAcceptable(m, e);
    InputMeans(env, i, JObj(m));
    var p := Proposed(env, i, InputOf(JObj(m)).value).value;
    TypedBytes(env, m, "data", e.data, e.dataContentType, p.data);
    TypedBytes(env, m, "metadata", e.metadata, e.metadataContentType, p.metadata);
    TypedTags(m, e.tags, p.tags);
  }

  /** The round trip of events typed without base64: every event comes back in order, its
      bytes as far as its decoded values carry them. */
  lemma TypedRoundTrip(env: Env, es: seq<RecordedEvent>, r: Result<seq<ProposedEvent>>)
    requires LosslessJson(env) && FaithfulBytes(env)
    requires var items := seq(|es|, i requires 0 <= i < |es| => JObj(Typed(env, es[i])));
      var inputs := ParseProposedInputs(env, Trim(env.render(JArr(items)) + "\n"));
      if inputs.Err? then r == Err(inputs.error) else AllProposed(env, inputs.value, r)
    ensures r.Ok? && |r.value| == |es|
    ensures forall i :: 0 <= i < |es| ==>
      var p := r.value[i];
      && ComesBackTyped(env, es[i].data, es[i].dataContentType, p.data)
      && ComesBackTyped(env, es[i].metadata, es[i].metadataContentType, p.metadata)
      && p == AsProposed(env, i, es[i]).(data := p.data, metadata := p.metadata)
  {
    var items := seq(|es|, i requires 0 <= i < |es| => JObj(Typed(env, es[i])));
    forall i: nat | i < |es|
      ensures items[i] == JObj(Typed(env, es[i])) && InputOf(items[i]).Some?
      ensures Proposed(env, i, InputOf(items[i]).value).Ok?
    {
      TypedComesBack(env, i, es[i]);
    }
    PrintedArrayIsParsed(env, items);
    var inputs := seq(|items|, i requires 0 <= i < |items| => InputOf(items[i]).value);
    assert r.Ok?;
    forall i: nat | i < |es|
      ensures Proposed(env, i, InputOf(items[i]).value) == Ok(r.value[i])
    {
      assert Proposed(env, i, inputs[i]) == Ok(r.value[i]);
    }
    forall i: nat | i < |es|
      ensures ComesBackTyped(env, es[i].data, es[i].dataContentType, r.value[i].data)
      ensures ComesBackTyped(env, es[i].metadata, es[i].metadataContentType, r.value[i].metadata)
      ensures r.value[i] == AsProposed(env, i, es[i]).(data := r.value[i].data, metadata := r.value[i].metadata)
    {
      TypedComesBack(env, i, es[i]);
    }
  }

  /** White space around the whole input never matters, in either form. */
  lemma SurroundingSpaceIsNothing(env: Env, a: string, text: string, b: string)
    requires AllSpace(a) && AllSpace(b)
    ensures ParseProposedInputs(env, Trim(a + text + b)) == ParseProposedInputs(env, Trim(text))
  {
    TrimIgnoresPadding(a, text, b);
  }
}
