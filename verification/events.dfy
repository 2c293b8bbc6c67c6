/** The parts of a Slack `app_mention` event the relay reads. */
module Events {
  import opened Wrappers

  /** One entry of the event's `files` list. Either key may be missing from
      the JSON object, which is `None` here. */
  datatype FileRecord = FileRecord(mimetype: Option<string>, urlPrivateDownload: Option<string>)

  /** The event object: `text` and `thread_ts` and `user` may be missing;
      `ts` is always present; a missing `files` key is the empty list. */
  datatype SlackEvent = SlackEvent(
    text: Option<string>,
    ts: string,
    threadTs: Option<string>,
    user: Option<string>,
    files: seq<FileRecord>)

  /** Python truthiness of an optional string: present and non-empty. */
  predicate Truthy(o: Option<string>) {
    o.Some? && o.value != []
  }
}
