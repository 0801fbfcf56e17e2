/**
 * One user's conversation window (the `Conversation` class of
 * openai_handler.py): an ordered list of role-tagged messages whose first
 * element is the system prompt, capped at ten messages by keeping the first
 * message and the nine most recent ones.
 */
module Conversations {

  datatype Role = System | User | Assistant

  datatype Message = Message(role: Role, content: string)

  datatype Conversation = Conversation(userId: int, messages: seq<Message>)

  /** The system prompt every conversation starts with (config.py's default). */
  const DefaultSystemMessage: string :=
    "You are a helpful assistant in a Telegram chat. "
    + "Provide clear, concise, and accurate responses to user queries. "
    + "Be friendly and conversational. If you don't know something, say so. "
    + "If users ask who created you or who is your owner, tell them it's @ityttmom on Telegram."

  const SystemPrompt: Message := Message(System, DefaultSystemMessage)

  /** The longest a conversation gets: the system message plus nine others. */
  const Cap: nat := 10

  /** How many of the most recent messages survive an eviction. */
  const Kept: nat := 9

  /** The last `n` elements of `s`, or all of `s` when it is shorter. */
  function Recent<T>(s: seq<T>, n: nat): (r: seq<T>)
    ensures |r| <= n && |r| <= |s|
    ensures |s| <= n ==> r == s
  {
    if |s| <= n then s else s[|s| - n..]
  }

  /** A conversation as the handler keeps it: system prompt first, never over the cap. */
  predicate Valid(c: Conversation) {
    && 1 <= |c.messages| <= Cap
    && c.messages[0] == SystemPrompt
  }

  /** `Conversation(user_id)`: a new conversation holds the system prompt only. */
  function New(userId: int): (c: Conversation)
    ensures c.userId == userId
    ensures |c.messages| == 1 && c.messages[0].role == System
    ensures c.messages[0].content == DefaultSystemMessage
    ensures Valid(c)
  {
    Conversation(userId, [SystemPrompt])
  }

  /**
   * `add_message`: append, then, when the list has grown past the cap, keep
   * the first message and the nine most recent ones.
   */
  function AddMessage(c: Conversation, m: Message): (r: Conversation)
    ensures r.userId == c.userId
    ensures 1 <= |r.messages| <= Cap
    ensures r.messages[|r.messages| - 1] == m
    ensures |c.messages| > 0 ==> r.messages[0] == c.messages[0]
    ensures |c.messages| < Cap ==> r.messages == c.messages + [m]
    ensures |c.messages| >= Cap ==> |r.messages| == Cap
    ensures |c.messages| > 0 ==> r.messages[1..] == Recent(c.messages[1..] + [m], Kept)
  {
    var appended := c.messages + [m];
    if |appended| > Cap then
      assert appended[|appended| - Kept..] == (c.messages[1..] + [m])[|c.messages[1..] + [m]| - Kept..];
      Conversation(c.userId, [appended[0]] + appended[|appended| - Kept..])
    else
      Conversation(c.userId, appended)
  }

  /** `get_messages`: the window that is sent to the model. */
  function Messages(c: Conversation): seq<Message>
  {
    c.messages
  }

  /** The message that was last before an append is second to last after it. */
  lemma AddMessageKeepsPreviousLast(c: Conversation, m: Message)
    requires |c.messages| >= 2
    ensures var r := AddMessage(c, m).messages;
            |r| >= 3 && r[|r| - 2] == c.messages[|c.messages| - 1]
  {
    var appended := c.messages + [m];
    assert appended[|appended| - 2] == c.messages[|c.messages| - 1];
  }

  /** Appending keeps a conversation valid. */
  lemma AddMessagePreservesValid(c: Conversation, m: Message)
    requires Valid(c)
    ensures Valid(AddMessage(c, m))
  {
  }

  /** Several `add_message` calls in a row, oldest first. */
  function AddAll(c: Conversation, ms: seq<Message>): Conversation
    decreases |ms|
  {
    if |ms| == 0 then c else AddMessage(AddAll(c, ms[..|ms| - 1]), ms[|ms| - 1])
  }

  /** One append to a window made of a first message and at most nine others. */
  lemma AddMessageWindow(c: Conversation, first: Message, w: seq<Message>, m: Message)
    requires c.messages == [first] + w && |w| <= Kept
    ensures AddMessage(c, m).messages == [first] + Recent(w + [m], Kept)
  {
    var appended := c.messages + [m];
    assert appended == [first] + (w + [m]);
    if |appended| > Cap {
      assert appended[|appended| - Kept..] == (w + [m])[|w + [m]| - Kept..];
    }
  }

  /** Taking the nine most recent of the nine most recent plus one more. */
  lemma RecentOfRecent(s: seq<Message>, m: Message)
    ensures Recent(Recent(s, Kept) + [m], Kept) == Recent(s + [m], Kept)
  {
    if |s| > Kept {
      var r := Recent(s, Kept);
      assert (r + [m])[|r + [m]| - Kept..] == (s + [m])[|s + [m]| - Kept..];
    }
  }

  /**
   * The sliding window: however many messages are appended to a conversation
   * holding a first message and at most nine others, the result is that first
   * message followed by the nine most recent of all the others, in order.
   */
  lemma {:induction false} AddAllWindow(c: Conversation, first: Message, w: seq<Message>, ms: seq<Message>)
    requires c.messages == [first] + w && |w| <= Kept
    ensures AddAll(c, ms).messages == [first] + Recent(w + ms, Kept)
    ensures AddAll(c, ms).userId == c.userId
    decreases |ms|
  {
    if |ms| == 0 {
      assert w + ms == w;
    } else {
      var init := ms[..|ms| - 1];
      var last := ms[|ms| - 1];
      AddAllWindow(c, first, w, init);
      var prev := AddAll(c, init);
      var rw := Recent(w + init, Kept);
      assert AddAll(c, ms) == AddMessage(prev, last);
      assert AddMessage(prev, last).messages == [first] + Recent(rw + [last], Kept) by {
        AddMessageWindow(prev, first, rw, last);
      }
      assert Recent(rw + [last], Kept) == Recent(w + ms, Kept) by {
        RecentOfRecent(w + init, last);
        assert (w + init) + [last] == w + ms by { assert init + [last] == ms; }
      }
    }
  }

  /** From a fresh conversation: the system prompt and the nine most recent messages. */
  lemma FreshWindow(userId: int, ms: seq<Message>)
    ensures AddAll(New(userId), ms).messages == [SystemPrompt] + Recent(ms, Kept)
  {
    AddAllWindow(New(userId), SystemPrompt, [], ms);
    assert [] + ms == ms;
  }
}
