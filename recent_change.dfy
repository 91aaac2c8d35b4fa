/**
 * One event of the MediaWiki recent-changes feed (the RCFeed format), as far
 * as the point mappers read it. JavaScript numbers are exact reals here;
 * booleans are kept as booleans and turned into text where the mappers do.
 */
module RecentChange {

  /** The `{old, new}` pairs of `length` and `revision`. */
  datatype OldNew = OldNew(older: real, newer: real)

  datatype Change = Change(
    changeType: string,        // `type`: edit, new, log, categorize, ...
    user: string,
    bot: bool,
    serverName: string,        // `server_name`
    wiki: string,
    minor: bool,
    patrolled: bool,
    title: string,
    comment: string,
    id: real,
    namespace: real,
    length: OldNew,
    revision: OldNew,
    logType: string,           // `log_type`
    logAction: string,         // `log_action`
    logId: real,               // `log_id`
    logActionComment: string   // `log_action_comment`
  )
}
