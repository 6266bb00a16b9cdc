/**
 * The in-memory message buffer of the bot (`channel_messages` in app.py):
 * one append-only list of recorded messages per chat id, fed by the
 * `collect_message` handler.
 */
module Store {
  import opened Wrappers

  /** Timestamps count seconds; an hour has this many. */
  const SecondsPerHour: int := 3600

  /** One buffered entry: `{"text", "timestamp", "user"}`; timestamps are seconds since the epoch. */
  datatype Msg = Msg(text: string, timestamp: int, user: string)

  /**
   * The part of a Telegram message the handler reads: the chat id, the
   * optional text and caption, the date and the first name of the sender
   * (absent when there is no `from_user`, as for channel posts).
   */
  datatype Post = Post(chatId: int, text: Option<string>, caption: Option<string>, date: int, fromUser: Option<string>)

  /** An incoming update carries a private/group message, a channel post, or neither. */
  datatype Update = Update(message: Option<Post>, channelPost: Option<Post>)

  /** What the handler appends, and to which chat. */
  datatype Entry = Entry(chat: int, msg: Msg)

  /** Author label used when the message has no sender user. */
  const ChannelAuthor: string := "Channel"

  /** `update.message or update.channel_post`. */
  function Source(u: Update): Option<Post>
  {
    if u.message.Some? then u.message else u.channelPost
  }

  /** A non-empty string is truthy in Python; `None` and `""` are not. */
  predicate Truthy(s: Option<string>)
  {
    s.Some? && s.value != ""
  }

  /** `msg.text and msg.text.startswith("/")`: a bot command. */
  predicate IsCommand(p: Post)
  {
    Truthy(p.text) && p.text.value[0] == '/'
  }

  /** The record `collect_message` builds for an update, if it keeps it. */
  function Recorded(u: Update): (r: Option<Entry>)
    ensures r.None? <==> Source(u).None? || IsCommand(Source(u).value)
    ensures r.Some? ==> r.value.chat == Source(u).value.chatId && r.value.msg.timestamp == Source(u).value.date
    ensures r.Some? && Truthy(Source(u).value.text) ==> r.value.msg.text == Source(u).value.text.value
    ensures r.Some? && !Truthy(Source(u).value.text) && Truthy(Source(u).value.caption) ==>
              r.value.msg.text == Source(u).value.caption.value
    ensures r.Some? ==> (r.value.msg.text == "" <==> !Truthy(Source(u).value.text) && !Truthy(Source(u).value.caption))
    ensures r.Some? && Source(u).value.fromUser.Some? ==> r.value.msg.user == Source(u).value.fromUser.value
    ensures r.Some? && Source(u).value.fromUser.None? ==> r.value.msg.user == ChannelAuthor
  {
    match Source(u)
    case None => None
    case Some(p) =>
      if IsCommand(p) then None
      else
        var text := if Truthy(p.text) then p.text.value else if Truthy(p.caption) then p.caption.value else "";
        var user := if p.fromUser.Some? then p.fromUser.value else ChannelAuthor;
        Some(Entry(p.chatId, Msg(text, p.date, user)))
  }

  class MessageStore {
    /** `channel_messages`: chat id to the messages recorded for it, oldest first. */
    var chats: map<int, seq<Msg>>

    constructor ()
      ensures chats == map[]
    {
      chats := map[];
    }

    /** `channel_messages.get(chat_id, [])`. */
    function Messages(chat: int): seq<Msg>
      reads this
    {
      if chat in chats then chats[chat] else []
    }

    /**
     * `collect_message`: ignore a missing message and a command; otherwise
     * append one record at the end of its chat's list (`setdefault(...).append`).
     */
    method CollectMessage(u: Update)
      modifies this
      ensures Recorded(u).None? ==> chats == old(chats)
      ensures Recorded(u).Some? ==>
                var e := Recorded(u).value;
                chats == old(chats)[e.chat := old(Messages(e.chat)) + [e.msg]]
      ensures forall c :: Recorded(u).None? || c != Recorded(u).value.chat ==> Messages(c) == old(Messages(c))
      ensures forall c :: old(Messages(c)) <= Messages(c)
      ensures forall c :: |Messages(c)| <= |old(Messages(c))| + 1
    {
      match Recorded(u) {
        case None =>
        case Some(e) =>
          chats := chats[e.chat := Messages(e.chat) + [e.msg]];
      }
    }
  }
}
