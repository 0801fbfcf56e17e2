/**
 * The `OpenAIHandler` of openai_handler.py: a map from user id to that
 * user's conversation window, with get-or-create, reset, and the reply
 * orchestration around one call to the language model. The model call is
 * a parameter, `complete`, from the window sent to the outcome returned.
 */
module Responder {
  import opened Conversations
  import Text

  datatype Handler = Handler(conversations: map<int, Conversation>)

  /** What the chat-completion call produced: the reply text, or the error it raised. */
  datatype Outcome = Completed(text: string) | Failed(error: string)

  const ResetConfirmation: string := "Conversation history has been reset."

  const QuotaMarker: string := "insufficient_quota"

  const QuotaFallback: string :=
    "Mi dispiace, ma al momento non posso accedere all'intelligenza artificiale "
    + "a causa di un problema con il limite di utilizzo. "
    + "Il proprietario del bot è stato avvisato del problema. "
    + "Riprova più tardi."

  const ConnectionFallback: string :=
    "Mi dispiace, ma sto avendo problemi a connettermi all'intelligenza artificiale. "
    + "Riprova tra qualche momento."

  /** `OpenAIHandler()`: no conversations yet. */
  function Empty(): (h: Handler)
    ensures Invariant(h)
    ensures forall u :: u !in h.conversations
  {
    Handler(map[])
  }

  /** Every stored conversation belongs to its key and is a valid window. */
  predicate Invariant(h: Handler) {
    forall u :: u in h.conversations ==> h.conversations[u].userId == u && Valid(h.conversations[u])
  }

  /** `h'` agrees with `h` on every user other than `u`. */
  predicate OthersUnchanged(h: Handler, h': Handler, u: int) {
    && (forall v :: v != u && v in h'.conversations ==> v in h.conversations)
    && (forall v :: v != u && v in h.conversations ==> v in h'.conversations && h'.conversations[v] == h.conversations[v])
  }

  /** The conversation `get_conversation(u)` finds or would create. */
  function Current(h: Handler, u: int): (c: Conversation)
    ensures u !in h.conversations ==> c == New(u)
  {
    if u in h.conversations then h.conversations[u] else New(u)
  }

  /**
   * `get_conversation(u)`: the existing conversation when there is one, and
   * otherwise a fresh one, which is stored.
   */
  function GetConversation(h: Handler, u: int): (r: (Handler, Conversation))
    ensures u in r.0.conversations && r.0.conversations[u] == r.1
    ensures u in h.conversations ==> r.0 == h && r.1 == h.conversations[u]
    ensures u !in h.conversations ==> r.1.messages == [SystemPrompt] && r.1.userId == u
    ensures r.0.conversations.Keys == h.conversations.Keys + {u}
    ensures OthersUnchanged(h, r.0, u)
    ensures Invariant(h) ==> Invariant(r.0)
  {
    if u in h.conversations then (h, h.conversations[u])
    else
      var c := New(u);
      (Handler(h.conversations[u := c]), c)
  }

  /** A second `get_conversation(u)` finds what the first one returned and changes nothing. */
  lemma GetConversationIdempotent(h: Handler, u: int)
    ensures GetConversation(GetConversation(h, u).0, u) == GetConversation(h, u)
  {
  }

  /** `reset_conversation(u)`: a fresh window for `u`, whatever was there, and the confirmation. */
  function ResetConversation(h: Handler, u: int): (r: (Handler, string))
    ensures u in r.0.conversations
    ensures r.0.conversations[u].messages == [SystemPrompt]
    ensures r.0.conversations[u].userId == u
    ensures r.0.conversations.Keys == h.conversations.Keys + {u}
    ensures OthersUnchanged(h, r.0, u)
    ensures Invariant(h) ==> Invariant(r.0)
    ensures r.1 == ResetConfirmation
  {
    (Handler(h.conversations[u := New(u)]), ResetConfirmation)
  }

  /**
   * The reply given when the model call failed: the quota apology exactly
   * when the error text mentions "insufficient_quota", otherwise the
   * connection apology. It is never empty.
   */
  function Fallback(error: string): (reply: string)
    ensures reply != ""
    ensures reply == QuotaFallback <==> Text.Occurs(QuotaMarker, error)
    ensures reply == ConnectionFallback <==> !Text.Occurs(QuotaMarker, error)
  {
    assert |QuotaFallback| != |ConnectionFallback|;
    if Text.Contains(error, QuotaMarker) then QuotaFallback else ConnectionFallback
  }

  /** The window `generate_response(u, text)` sends to the model. */
  function Request(h: Handler, u: int, text: string): seq<Message>
  {
    AddMessage(Current(h, u), Message(User, text)).messages
  }

  /**
   * `generate_response(u, text)`: append the user's turn, call the model
   * with the whole window, append the model's reply on success, and turn a
   * failure into a fixed apology.
   */
  function GenerateResponse(h: Handler, u: int, text: string, complete: seq<Message> -> Outcome): (r: (Handler, string))
    ensures u in r.0.conversations
    ensures r.0.conversations.Keys == h.conversations.Keys + {u}
    ensures OthersUnchanged(h, r.0, u)
    ensures complete(Request(h, u, text)).Completed? ==>
              && r.1 == complete(Request(h, u, text)).text
              && r.0.conversations[u]
                 == AddMessage(AddMessage(Current(h, u), Message(User, text)), Message(Assistant, r.1))
    ensures complete(Request(h, u, text)).Failed? ==>
              && r.1 == Fallback(complete(Request(h, u, text)).error)
              && r.1 != ""
              && r.0.conversations[u] == AddMessage(Current(h, u), Message(User, text))
  {
    var (h1, c) := GetConversation(h, u);
    var c1 := AddMessage(c, Message(User, text));
    match complete(Messages(c1))
    case Completed(reply) =>
      (Handler(h1.conversations[u := AddMessage(c1, Message(Assistant, reply))]), reply)
    case Failed(error) =>
      (Handler(h1.conversations[u := c1]), Fallback(error))
  }

  /** The window sent to the model is valid and ends with the user's new turn. */
  lemma RequestShape(h: Handler, u: int, text: string)
    requires Invariant(h)
    ensures var w := Request(h, u, text);
            1 <= |w| <= Cap && w[0] == SystemPrompt && w[|w| - 1] == Message(User, text)
  {
  }

  /** Replying keeps every stored conversation a valid window owned by its key. */
  lemma GenerateResponsePreservesInvariant(h: Handler, u: int, text: string, complete: seq<Message> -> Outcome)
    requires Invariant(h)
    ensures Invariant(GenerateResponse(h, u, text, complete).0)
  {
    var c := Current(h, u);
    assert Valid(c) && c.userId == u;
  }

  /** After a successful call the window ends with the user's turn followed by the model's reply. */
  lemma GenerateResponseTailOnSuccess(h: Handler, u: int, text: string, complete: seq<Message> -> Outcome)
    requires Invariant(h)
    requires complete(Request(h, u, text)).Completed?
    ensures var w := GenerateResponse(h, u, text, complete).0.conversations[u].messages;
            && |w| >= 3
            && w[|w| - 2] == Message(User, text)
            && w[|w| - 1] == Message(Assistant, complete(Request(h, u, text)).text)
  {
    var c1 := AddMessage(Current(h, u), Message(User, text));
    assert Valid(Current(h, u));
    AddMessageKeepsPreviousLast(c1, Message(Assistant, complete(Request(h, u, text)).text));
  }

  /** After a failed call the window ends with the user's turn. */
  lemma GenerateResponseTailOnFailure(h: Handler, u: int, text: string, complete: seq<Message> -> Outcome)
    requires Invariant(h)
    requires complete(Request(h, u, text)).Failed?
    ensures var w := GenerateResponse(h, u, text, complete).0.conversations[u].messages;
            |w| >= 2 && w[|w| - 1] == Message(User, text)
  {
    assert Valid(Current(h, u));
  }
}
