/** `handle_mention`: assemble the event, run the agent on the thread's
    session, and post exactly one reply into the thread. */
module Handler {
  import opened Wrappers
  import opened Events
  import opened Assembler
  import opened Reply
  import Mention

  const UnknownUser := "unknown"

  /** The thread the reply goes to and the agent session it runs in:
      `thread_ts` when it is present and non-empty, otherwise the message's
      own `ts`, which starts a new thread. */
  function ThreadKey(ev: SlackEvent): (k: string)
    ensures Truthy(ev.threadTs) ==> k == ev.threadTs.value
    ensures !Truthy(ev.threadTs) ==> k == ev.ts
  {
    if Truthy(ev.threadTs) then ev.threadTs.value else ev.ts
  }

  /** The session's user: the `user` field, or "unknown" only when the key is
      missing (`dict.get` with a default does not replace an empty value). */
  function UserId(ev: SlackEvent): (u: string)
    ensures ev.user.Some? ==> u == ev.user.value
    ensures ev.user.None? ==> u == UnknownUser
  {
    match ev.user
    case Some(u) => u
    case None => UnknownUser
  }

  /** One block of the posted message. */
  datatype Block = Block(blockType: string, textType: string, text: string)

  /** The message posted through `say`. */
  datatype Post = Post(blocks: seq<Block>, text: string, threadTs: string)

  /** What the handler does with one mention: post a reply, or stop with the
      download error that escaped the assembly (nothing is posted then). */
  datatype Handled = Replied(post: Post) | Aborted(error: FetchError)

  /** The handler for one `app_mention` event. `fetch` answers the attachment
      downloads; `run` stands for the agent runner: given the user id, the
      session id and the message, it yields the response stream. */
  method HandleMention(ev: SlackEvent, fetch: string -> Response,
                       run: (string, string, Content) -> Stream) returns (h: Handled)
    ensures h.Replied? <==> Assemble(ev, fetch).result.Success?
    ensures h.Aborted? ==> h.error == Assemble(ev, fetch).result.error
    ensures h.Replied? ==> h.post.threadTs == ThreadKey(ev)
    ensures h.Replied? ==> h.post.blocks == [Block("section", "mrkdwn", h.post.text)]
    ensures h.Replied? ==> h.post.text != []
    ensures h.Replied? ==>
      h.post.text == ReplyText(SelectReply(run(UserId(ev), ThreadKey(ev), Assemble(ev, fetch).result.value)))
  {
    var threadTs := ThreadKey(ev);
    var userId := UserId(ev);
    var assembly := Assemble(ev, fetch);
    if assembly.result.Failure? {
      return Aborted(assembly.result.error);
    }
    // Creating the session swallows every error, so it changes nothing here.
    var stream := run(userId, threadTs, assembly.result.value);
    var replyText, _ := ConsumeStream(stream);
    ReplyTextNonEmpty(stream);
    h := Replied(Post([Block("section", "mrkdwn", replyText)], replyText, threadTs));
  }

  /** A follow-up mention inside the thread the bot answered in runs in the
      same session and is answered in the same thread. */
  lemma FollowUpStaysInThread(first: SlackEvent, next: SlackEvent)
    requires ThreadKey(first) != []
    requires next.threadTs == Some(ThreadKey(first))
    ensures ThreadKey(next) == ThreadKey(first)
  {
  }

  /** A top-level mention of the bot: its text without the mention is the
      whole message, and the reply opens a thread under the message itself. */
  lemma TopLevelMention(ev: SlackEvent, fetch: string -> Response, t: string, rest: string)
    requires t == "<@BOT> tell me a joke" && rest == "tell me a joke"
    requires ev.text == Some(t) && ev.threadTs == None && ev.files == []
    ensures ThreadKey(ev) == ev.ts
    ensures Assemble(ev, fetch) == Assembly(Success(Content(UserRole, [TextPart(rest)])), [])
  {
    Mention.LeadingMentionRemoved(t, rest);
    assert EventText(ev) == t;
    assert rest != [] && Mention.CleanText(t) == rest;
    TextOnlyMessage(ev, rest, fetch);
  }
}
