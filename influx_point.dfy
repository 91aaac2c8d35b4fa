/**
 * The point handed to the InfluxDB client: a measurement name, a tag map and a
 * field map, each value text or an integer. Text values are written as a
 * double quote, encodeURI of the input, and a double quote; numbers as
 * Math.round of the input.
 */
module InfluxPoint {
  import opened UriEncoding
  import opened JsMath

  datatype Value = Str(text: string) | Int(number: int)

  /** The tags the client's schema declares. */
  datatype TagKey =
    | User | Type | Bot | ServerName | Minor | Patrolled | LogType | Wiki | NamespaceTag
  {
    /** The key as it is written in the point. */
    function Name(): string {
      match this
      case User => "user"
      case Type => "type"
      case Bot => "bot"
      case ServerName => "server_name"
      case Minor => "minor"
      case Patrolled => "patrolled"
      case LogType => "log_type"
      case Wiki => "wiki"
      case NamespaceTag => "namespace_tag"
    }
  }

  datatype FieldType = StringField | IntegerField

  /** The fields the client's schema declares. */
  datatype FieldKey =
    | Title | EventId | Namespace | Comment | LogAction | LogId | LogActionComment
    | PostLengthOld | RevisionIdOld | PostLengthNew | RevisionIdNew
  {
    /** The key as it is written in the point. */
    function Name(): string {
      match this
      case Title => "title"
      case EventId => "event_id"
      case Namespace => "namespace"
      case Comment => "comment"
      case LogAction => "log_action"
      case LogId => "log_id"
      case LogActionComment => "log_action_comment"
      case PostLengthOld => "post_length_old"
      case RevisionIdOld => "revision_id_old"
      case PostLengthNew => "post_length_new"
      case RevisionIdNew => "revision_id_new"
    }

    /** The type the schema declares for the field. */
    function Declared(): FieldType {
      match this
      case Title | Comment | LogAction | LogActionComment => StringField
      case _ => IntegerField
    }
  }

  datatype Point = Point(measurement: string, tags: map<TagKey, Value>, fields: map<FieldKey, Value>)

  function Quote(s: string): string {
    "\"" + s + "\""
  }

  /** Text between double quotes with no double quote or space inside, so it
      cannot end early or be cut at a space. */
  predicate SafeQuoted(s: string) {
    && 2 <= |s| && s[0] == '"' && s[|s| - 1] == '"'
    && forall i | 0 < i < |s| - 1 :: s[i] != '"' && s[i] != ' '
  }

  function Interior(s: string): string
    requires 2 <= |s|
  {
    s[1..|s| - 1]
  }

  /** The template `"${encodeURI(s)}"`. */
  function TextValue(s: string): (v: Value)
    ensures v.Str?
  {
    Str(Quote(EncodeURI(s)))
  }

  /** A text value is a quoted string with no quote or space inside, and
      inside holds only unescaped characters and "%": no newline, tab or
      other control character either. */
  lemma TextValueSafe(s: string)
    ensures SafeValue(TextValue(s)) && SafeQuoted(TextValue(s).text)
    ensures AllEmitted(Interior(TextValue(s).text))
  {
    var e := EncodeURI(s);
    EncodedHasNoQuoteOrSpace(s);
    EncodeEmitsOnly(s);
    assert Interior(Quote(e)) == e;
  }

  /** The inside of a text value decodes back to the input: the quoting loses
      nothing. */
  lemma TextValueDecodes(s: string)
    ensures Decode(Interior(TextValue(s).text)) == Some(s)
  {
    var e := EncodeURI(s);
    DecodeEncode(s);
    assert Interior(Quote(e)) == e;
  }

  /** Text made only of unescaped characters is merely quoted. */
  lemma TextValueOfUnescaped(s: string)
    requires AllUnescaped(s)
    ensures TextValue(s) == Str(Quote(s))
  {
    EncodeKeepsUnescaped(s);
  }

  /** How JavaScript turns a boolean into text before encodeURI sees it. */
  function BoolText(b: bool): string {
    if b then "true" else "false"
  }

  /** A boolean reaches the point as the quoted word true or false. */
  lemma BoolTextValue(b: bool)
    ensures TextValue(BoolText(b)) == Str(Quote(BoolText(b)))
  {
    var s := BoolText(b);
    forall i | 0 <= i < |s| ensures Unescaped(s[i]) {
      assert 'a' <= s[i] <= 'z';
    }
    TextValueOfUnescaped(s);
  }

  /** `Math.round(x)`: the integer within one half of x. */
  function NumberValue(x: real): (v: Value)
    ensures v.Int? && v.number as real - 0.5 <= x < v.number as real + 0.5
  {
    Int(Round(x))
  }

  /** A number, or safely quoted text. */
  predicate SafeValue(v: Value) {
    v.Int? || SafeQuoted(v.text)
  }

  /** Every text value of the point is safely quoted. */
  predicate Escaped(p: Point) {
    && (forall k | k in p.tags :: SafeValue(p.tags[k]))
    && (forall k | k in p.fields :: SafeValue(p.fields[k]))
  }

  /** a's entries all appear, with the same values, in b. */
  predicate IsSubMap<K, V(==)>(a: map<K, V>, b: map<K, V>) {
    forall k | k in a :: k in b && b[k] == a[k]
  }

  // ---------------------------------------------------------------------------
  // The schema the client is constructed with
  // ---------------------------------------------------------------------------

  const Measurement: string := "event"

  /** The point is of the declared measurement and each field carries the
      declared kind of value (every tag key is a declared tag by its type). */
  predicate ConformsToSchema(p: Point) {
    && p.measurement == Measurement
    && forall k | k in p.fields :: (k.Declared() == IntegerField <==> p.fields[k].Int?)
  }

  /** Distinct keys are written under distinct names. */
  lemma NamesDistinct(a: TagKey, b: TagKey, f: FieldKey, g: FieldKey)
    ensures a.Name() == b.Name() ==> a == b
    ensures f.Name() == g.Name() ==> f == g
  {
    if a.Name() == b.Name() {
      assert a.Name()[0] == b.Name()[0] && |a.Name()| == |b.Name()|;
    }
    if f.Name() == g.Name() {
      assert f.Name()[0] == g.Name()[0] && |f.Name()| == |g.Name()|;
    }
  }
}
