/**
 * The three point builders of the change handler: one for edit and new
 * events, one for generic (categorize) events and one for log events. Each
 * returns measurement "event" with a fixed set of tags and fields.
 *
 * Every value a builder writes is one input converted in one of two ways:
 * text as `"${encodeURI(x)}"`, numbers as `Math.round(x)`. Convert applies
 * those conversions to a change; EditPointOf, EventPointOf and LogPointOf are
 * the three object literals over the converted values, so that what the
 * literals share can be stated once for all values.
 */
module PointMappers {
  import opened UriEncoding
  import opened JsMath
  import opened RecentChange
  import opened InfluxPoint

  const EventTagKeys: set<TagKey> := {User, Type, Bot, ServerName, Wiki, NamespaceTag}
  const EventFieldKeys: set<FieldKey> := {Title, EventId, Namespace, Comment}

  const EditTagKeys: set<TagKey> := EventTagKeys + {Minor, Patrolled}
  const EditFieldKeys: set<FieldKey> :=
    EventFieldKeys + {PostLengthOld, RevisionIdOld, PostLengthNew, RevisionIdNew}

  const LogTagKeys: set<TagKey> := EventTagKeys + {LogType}
  const LogFieldKeys: set<FieldKey> := EventFieldKeys + {LogAction, LogId, LogActionComment}

  // ---------------------------------------------------------------------------
  // Converting the inputs
  // ---------------------------------------------------------------------------

  /** The change's inputs as the builders write them. */
  datatype Converted = Converted(
    user: Value, changeType: Value, bot: Value, serverName: Value, wiki: Value,
    minor: Value, patrolled: Value, title: Value, comment: Value,
    id: Value, namespace: Value,
    lengthOld: Value, revisionOld: Value, lengthNew: Value, revisionNew: Value,
    logType: Value, logAction: Value, logId: Value, logActionComment: Value)

  /** Text inputs became safely quoted text and numeric inputs integers. */
  predicate WellConverted(w: Converted) {
    && w.user.Str? && SafeValue(w.user) && w.changeType.Str? && SafeValue(w.changeType)
    && w.bot.Str? && SafeValue(w.bot) && w.serverName.Str? && SafeValue(w.serverName)
    && w.wiki.Str? && SafeValue(w.wiki) && w.minor.Str? && SafeValue(w.minor)
    && w.patrolled.Str? && SafeValue(w.patrolled) && w.title.Str? && SafeValue(w.title)
    && w.comment.Str? && SafeValue(w.comment) && w.logType.Str? && SafeValue(w.logType)
    && w.logAction.Str? && SafeValue(w.logAction)
    && w.logActionComment.Str? && SafeValue(w.logActionComment)
    && w.id.Int? && w.namespace.Int? && w.logId.Int?
    && w.lengthOld.Int? && w.revisionOld.Int? && w.lengthNew.Int? && w.revisionNew.Int?
  }

  /** Each input converted as the builders write it: text and flags as
      `"${encodeURI(x)}"`, numbers as `Math.round(x)`. */
  function Convert(c: Change): Converted {
    Converted(
      TextValue(c.user), TextValue(c.changeType), TextValue(BoolText(c.bot)),
      TextValue(c.serverName), TextValue(c.wiki),
      TextValue(BoolText(c.minor)), TextValue(BoolText(c.patrolled)),
      TextValue(c.title), TextValue(c.comment),
      NumberValue(c.id), NumberValue(c.namespace),
      NumberValue(c.length.older), NumberValue(c.revision.older),
      NumberValue(c.length.newer), NumberValue(c.revision.newer),
      TextValue(c.logType), TextValue(c.logAction), NumberValue(c.logId),
      TextValue(c.logActionComment))
  }

  /** Every conversion yields safely quoted text or an integer. */
  lemma ConvertIsWellConverted(c: Change)
    ensures WellConverted(Convert(c))
  {
    TextValueSafe(c.user);
    TextValueSafe(c.changeType);
    TextValueSafe(BoolText(c.bot));
    TextValueSafe(c.serverName);
    TextValueSafe(c.wiki);
    TextValueSafe(BoolText(c.minor));
    TextValueSafe(BoolText(c.patrolled));
    TextValueSafe(c.title);
    TextValueSafe(c.comment);
    TextValueSafe(c.logType);
    TextValueSafe(c.logAction);
    TextValueSafe(c.logActionComment);
  }

  // ---------------------------------------------------------------------------
  // The three object literals
  // ---------------------------------------------------------------------------

  /** The object literal of editPoint. */
  function EditPointOf(w: Converted): Point
  {
    Point(
      "event",
      map[
        User := w.user,
        Type := w.changeType,
        Bot := w.bot,
        ServerName := w.serverName,
        Wiki := w.wiki,
        Minor := w.minor,
        Patrolled := w.patrolled,
        NamespaceTag := w.namespace
      ],
      map[
        PostLengthOld := w.lengthOld,
        RevisionIdOld := w.revisionOld,
        PostLengthNew := w.lengthNew,
        RevisionIdNew := w.revisionNew,
        Title := w.title,
        EventId := w.id,
        Namespace := w.namespace,
        Comment := w.comment
      ])
  }

  /** The object literal of eventPoint. */
  function EventPointOf(w: Converted): Point
  {
    Point(
      "event",
      map[
        User := w.user,
        Type := w.changeType,
        Bot := w.bot,
        ServerName := w.serverName,
        Wiki := w.wiki,
        NamespaceTag := w.namespace
      ],
      map[
        Title := w.title,
        EventId := w.id,
        Namespace := w.namespace,
        Comment := w.comment
      ])
  }

  /** The object literal of logPoint. */
  function LogPointOf(w: Converted): Point
  {
    Point(
      "event",
      map[
        User := w.user,
        Type := w.changeType,
        Bot := w.bot,
        ServerName := w.serverName,
        Wiki := w.wiki,
        LogType := w.logType,
        NamespaceTag := w.namespace
      ],
      map[
        Title := w.title,
        EventId := w.id,
        Namespace := w.namespace,
        Comment := w.comment,
        LogAction := w.logAction,
        LogId := w.logId,
        LogActionComment := w.logActionComment
      ])
  }

  /** Point for edit and new events. */
  function EditPoint(c: Change): (p: Point)
    ensures p.measurement == "event"
  {
    EditPointOf(Convert(c))
  }

  /** Point for generic (categorize) events. */
  function EventPoint(c: Change): (p: Point)
    ensures p.measurement == "event"
  {
    EventPointOf(Convert(c))
  }

  /** Point for log events. */
  function LogPoint(c: Change): (p: Point)
    ensures p.measurement == "event"
  {
    LogPointOf(Convert(c))
  }

  // ---------------------------------------------------------------------------
  // How the three literals relate, for any converted values
  // ---------------------------------------------------------------------------

  lemma PointsOfKeys(w: Converted)
    ensures EditPointOf(w).tags.Keys == EditTagKeys && EditPointOf(w).fields.Keys == EditFieldKeys
    ensures EventPointOf(w).tags.Keys == EventTagKeys && EventPointOf(w).fields.Keys == EventFieldKeys
    ensures LogPointOf(w).tags.Keys == LogTagKeys && LogPointOf(w).fields.Keys == LogFieldKeys
  {
  }

  lemma EventPointOfIsShared(w: Converted)
    ensures IsSubMap(EventPointOf(w).tags, EditPointOf(w).tags)
    ensures IsSubMap(EventPointOf(w).fields, EditPointOf(w).fields)
    ensures IsSubMap(EventPointOf(w).tags, LogPointOf(w).tags)
    ensures IsSubMap(EventPointOf(w).fields, LogPointOf(w).fields)
  {
  }

  lemma SharedTagsAgreeOf(w: Converted)
    ensures forall k | k in EditPointOf(w).tags && k in LogPointOf(w).tags ::
      EditPointOf(w).tags[k] == LogPointOf(w).tags[k] == EventPointOf(w).tags[k]
  {
  }

  lemma SharedFieldsAgreeOf(w: Converted)
    ensures forall k | k in EditPointOf(w).fields && k in LogPointOf(w).fields ::
      EditPointOf(w).fields[k] == LogPointOf(w).fields[k] == EventPointOf(w).fields[k]
  {
  }

  lemma TypeTagOf(w: Converted)
    ensures Type in EditPointOf(w).tags && EditPointOf(w).tags[Type] == w.changeType
    ensures Type in EventPointOf(w).tags && EventPointOf(w).tags[Type] == w.changeType
    ensures Type in LogPointOf(w).tags && LogPointOf(w).tags[Type] == w.changeType
  {
  }

  lemma LogPointOfExtends(w: Converted)
    ensures LogPointOf(w).tags == EventPointOf(w).tags[LogType := w.logType]
    ensures LogPointOf(w).fields ==
      EventPointOf(w).fields[LogAction := w.logAction][LogId := w.logId][LogActionComment := w.logActionComment]
  {
  }

  lemma EditPointOfExtends(w: Converted)
    ensures EditPointOf(w).tags == EventPointOf(w).tags[Minor := w.minor][Patrolled := w.patrolled]
    ensures EditPointOf(w).fields ==
      EventPointOf(w).fields[PostLengthOld := w.lengthOld][RevisionIdOld := w.revisionOld]
        [PostLengthNew := w.lengthNew][RevisionIdNew := w.revisionNew]
  {
  }

  lemma EditPointOfSafe(w: Converted)
    requires WellConverted(w)
    ensures Escaped(EditPointOf(w)) && ConformsToSchema(EditPointOf(w))
  {
  }

  lemma EventPointOfSafe(w: Converted)
    requires WellConverted(w)
    ensures Escaped(EventPointOf(w)) && ConformsToSchema(EventPointOf(w))
  {
  }

  lemma LogPointOfSafe(w: Converted)
    requires WellConverted(w)
    ensures Escaped(LogPointOf(w)) && ConformsToSchema(LogPointOf(w))
  {
  }

  lemma PointsOfNumbers(w: Converted, p: Point)
    requires p == EditPointOf(w) || p == EventPointOf(w) || p == LogPointOf(w)
    ensures p.tags[NamespaceTag] == p.fields[Namespace] == w.namespace
    ensures p.fields[EventId] == w.id
  {
  }

  lemma PointsOfTexts(w: Converted, p: Point)
    requires p == EditPointOf(w) || p == EventPointOf(w) || p == LogPointOf(w)
    ensures p.tags[User] == w.user && p.tags[Type] == w.changeType && p.tags[Bot] == w.bot
    ensures p.tags[ServerName] == w.serverName && p.tags[Wiki] == w.wiki
    ensures p.fields[Title] == w.title && p.fields[Comment] == w.comment
  {
  }

  // ---------------------------------------------------------------------------
  // Properties of the builders
  // ---------------------------------------------------------------------------

  /** The generic point is contained, key for key and value for value, in
      both the edit point and the log point of the same change. */
  lemma EventPointIsShared(c: Change)
    ensures IsSubMap(EventPoint(c).tags, EditPoint(c).tags)
    ensures IsSubMap(EventPoint(c).fields, EditPoint(c).fields)
    ensures IsSubMap(EventPoint(c).tags, LogPoint(c).tags)
    ensures IsSubMap(EventPoint(c).fields, LogPoint(c).fields)
  {
    EventPointOfIsShared(Convert(c));
  }

  /** On every key two builders both write, they write the same value. */
  lemma SharedKeysAgree(c: Change)
    ensures forall k | k in EditPoint(c).tags && k in LogPoint(c).tags ::
      EditPoint(c).tags[k] == LogPoint(c).tags[k] == EventPoint(c).tags[k]
    ensures forall k | k in EditPoint(c).fields && k in LogPoint(c).fields ::
      EditPoint(c).fields[k] == LogPoint(c).fields[k] == EventPoint(c).fields[k]
  {
    SharedTagsAgreeOf(Convert(c));
    SharedFieldsAgreeOf(Convert(c));
  }

  /** Each builder writes exactly its own set of tags and fields. */
  lemma BuilderKeys(c: Change)
    ensures EditPoint(c).tags.Keys == EditTagKeys && EditPoint(c).fields.Keys == EditFieldKeys
    ensures EventPoint(c).tags.Keys == EventTagKeys && EventPoint(c).fields.Keys == EventFieldKeys
    ensures LogPoint(c).tags.Keys == LogTagKeys && LogPoint(c).fields.Keys == LogFieldKeys
  {
    PointsOfKeys(Convert(c));
  }

  /** The log point is the generic point with exactly one more tag and three
      more fields. */
  lemma LogPointExtendsEventPoint(c: Change)
    ensures LogPoint(c).tags == EventPoint(c).tags[LogType := TextValue(c.logType)]
    ensures LogPoint(c).fields == EventPoint(c).fields
      [LogAction := TextValue(c.logAction)]
      [LogId := NumberValue(c.logId)]
      [LogActionComment := TextValue(c.logActionComment)]
  {
    LogPointOfExtends(Convert(c));
  }

  /** The edit point is the generic point with two more tags and four more
      fields. */
  lemma EditPointExtendsEventPoint(c: Change)
    ensures EditPoint(c).tags == EventPoint(c).tags
      [Minor := TextValue(BoolText(c.minor))]
      [Patrolled := TextValue(BoolText(c.patrolled))]
    ensures EditPoint(c).fields == EventPoint(c).fields
      [PostLengthOld := NumberValue(c.length.older)]
      [RevisionIdOld := NumberValue(c.revision.older)]
      [PostLengthNew := NumberValue(c.length.newer)]
      [RevisionIdNew := NumberValue(c.revision.newer)]
  {
    EditPointOfExtends(Convert(c));
  }

  /** Every point a builder returns has its text safely quoted and matches
      the schema the client declares. */
  lemma MappedPointsAreSafe(c: Change, p: Point)
    requires p == EditPoint(c) || p == EventPoint(c) || p == LogPoint(c)
    ensures Escaped(p) && ConformsToSchema(p)
  {
    ConvertIsWellConverted(c);
    EditPointOfSafe(Convert(c));
    EventPointOfSafe(Convert(c));
    LogPointOfSafe(Convert(c));
  }

  /** Whether value v is Math.round(x). */
  predicate RoundedFrom(v: Value, x: real) {
    v.Int? && v.number as real - 0.5 <= x < v.number as real + 0.5
  }

  /** The namespace tag and the namespace field are the same integer, and
      event_id is id rounded, in every builder. */
  lemma SharedNumbers(c: Change, p: Point)
    requires p == EditPoint(c) || p == EventPoint(c) || p == LogPoint(c)
    ensures p.tags[NamespaceTag] == p.fields[Namespace]
    ensures RoundedFrom(p.fields[Namespace], c.namespace)
    ensures RoundedFrom(p.fields[EventId], c.id)
  {
    PointsOfNumbers(Convert(c), p);
  }

  /** In every builder, user, type, bot, server_name, wiki, title and comment
      are `"${encodeURI(x)}"` of their own input. */
  lemma SharedTexts(c: Change, p: Point)
    requires p == EditPoint(c) || p == EventPoint(c) || p == LogPoint(c)
    ensures p.tags[User] == TextValue(c.user)
    ensures p.tags[Type] == TextValue(c.changeType)
    ensures p.tags[Bot] == TextValue(BoolText(c.bot))
    ensures p.tags[ServerName] == TextValue(c.serverName)
    ensures p.tags[Wiki] == TextValue(c.wiki)
    ensures p.fields[Title] == TextValue(c.title)
    ensures p.fields[Comment] == TextValue(c.comment)
  {
    PointsOfTexts(Convert(c), p);
  }

  /** Read back: the inside of each of those quoted values decodes to its own
      input, so no two of them are swapped and nothing is lost. */
  lemma SharedTextsDecode(c: Change, p: Point)
    requires p == EditPoint(c) || p == EventPoint(c) || p == LogPoint(c)
    ensures p.tags[User].Str? && 2 <= |p.tags[User].text|
    ensures Decode(Interior(p.tags[User].text)) == Some(c.user)
    ensures p.tags[ServerName].Str? && 2 <= |p.tags[ServerName].text|
    ensures Decode(Interior(p.tags[ServerName].text)) == Some(c.serverName)
    ensures p.tags[Wiki].Str? && 2 <= |p.tags[Wiki].text|
    ensures Decode(Interior(p.tags[Wiki].text)) == Some(c.wiki)
    ensures p.fields[Title].Str? && 2 <= |p.fields[Title].text|
    ensures Decode(Interior(p.fields[Title].text)) == Some(c.title)
    ensures p.fields[Comment].Str? && 2 <= |p.fields[Comment].text|
    ensures Decode(Interior(p.fields[Comment].text)) == Some(c.comment)
  {
    SharedTexts(c, p);
    TextValueSafe(c.user);
    TextValueSafe(c.serverName);
    TextValueSafe(c.wiki);
    TextValueSafe(c.title);
    TextValueSafe(c.comment);
    TextValueDecodes(c.user);
    TextValueDecodes(c.serverName);
    TextValueDecodes(c.wiki);
    TextValueDecodes(c.title);
    TextValueDecodes(c.comment);
  }

  /** The edit point's four length and revision fields and the log point's
      log_id are their inputs rounded. */
  lemma CategoryNumbers(c: Change)
    ensures RoundedFrom(EditPoint(c).fields[PostLengthOld], c.length.older)
    ensures RoundedFrom(EditPoint(c).fields[RevisionIdOld], c.revision.older)
    ensures RoundedFrom(EditPoint(c).fields[PostLengthNew], c.length.newer)
    ensures RoundedFrom(EditPoint(c).fields[RevisionIdNew], c.revision.newer)
    ensures RoundedFrom(LogPoint(c).fields[LogId], c.logId)
  {
  }

  /** An id of 42.6 becomes event_id 43, in every builder. */
  lemma EventIdExample(c: Change)
    requires c.id == 42.6
    ensures EditPoint(c).fields[EventId] == Int(43)
    ensures EventPoint(c).fields[EventId] == Int(43)
    ensures LogPoint(c).fields[EventId] == Int(43)
  {
    RoundExamples();
  }

  /** bot, minor and patrolled arrive as the quoted words true or false. */
  lemma FlagTags(c: Change)
    ensures EditPoint(c).tags[Bot] == Str(Quote(BoolText(c.bot)))
    ensures EditPoint(c).tags[Minor] == Str(Quote(BoolText(c.minor)))
    ensures EditPoint(c).tags[Patrolled] == Str(Quote(BoolText(c.patrolled)))
  {
    BoolTextValue(c.bot);
    BoolTextValue(c.minor);
    BoolTextValue(c.patrolled);
  }
}
