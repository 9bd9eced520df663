/**
  The chat panels (ChatInterface and ChatSidebar) over the message list of the
  application state. A send is accepted only when the input is not blank and
  no reply is outstanding; it posts the user's message, clears the input and
  raises the busy flag. The reply, which the source delivers from a timer, is
  an explicit completion event here: it posts the assistant's message and
  lowers the flag. Message ids and timestamps come from the clock and are a
  parameter (`at`) of the events that post messages.
 */
module Chat {
  import opened Wrappers
  import opened Text

  datatype Role = User | Assistant

  /** A posted message; `at` is the clock reading its id and timestamp are made from. */
  datatype Message = Message(at: int, role: Role, content: string)

  /** `addChatMessage`: one message at the end, carrying the given role and text; earlier messages untouched. */
  function AddChatMessage(msgs: seq<Message>, role: Role, content: string, at: int): (r: seq<Message>)
    ensures |r| == |msgs| + 1 && r[..|msgs|] == msgs
    ensures r[|msgs|].role == role && r[|msgs|].content == content && r[|msgs|].at == at
  {
    msgs + [Message(at, role, content)]
  }

  /** A panel: the shared messages and busy flag, the panel's own input, and the reply the timer will post. */
  datatype Panel = Panel(messages: seq<Message>, generating: bool, input: string, pending: Option<string>)

  /** Nothing posted, nothing typed, nothing outstanding. */
  const Empty: Panel := Panel([], false, "", None)

  /** `inputValue.trim() && !isGenerating`. */
  predicate Accepts(p: Panel) {
    Trim(p.input) != [] && !p.generating
  }

  /** The send button's `disabled`: `!inputValue.trim() || isGenerating`. */
  predicate SendDisabled(p: Panel) {
    Trim(p.input) == [] || p.generating
  }

  /** `handleSend`: post the raw input as the user's message, clear the input, raise the flag and
      schedule `reply`; a blank input or an outstanding reply leaves everything as it was. */
  function Send(p: Panel, reply: string, at: int): (r: Panel)
    ensures !Accepts(p) ==> r == p
    ensures Accepts(p) ==> r.messages == AddChatMessage(p.messages, User, p.input, at)
                           && r.input == [] && r.generating && r.pending == Some(reply)
  {
    if Trim(p.input) != [] && !p.generating
    then Panel(AddChatMessage(p.messages, User, p.input, at), true, "", Some(reply))
    else p
  }

  /** The timer firing: post the scheduled reply as the assistant's message and lower the flag. */
  function Complete(p: Panel, at: int): (r: Panel)
    requires p.pending.Some?
    ensures |r.messages| == |p.messages| + 1 && r.messages[..|p.messages|] == p.messages
    ensures r.messages[|p.messages|] == Message(at, Assistant, p.pending.value)
    ensures !r.generating && r.pending.None? && r.input == p.input
  {
    Panel(AddChatMessage(p.messages, Assistant, p.pending.value, at), false, p.input, None)
  }

  /** Typing; the text area is disabled while a reply is outstanding. */
  function Edit(p: Panel, text: string): (r: Panel)
    ensures p.generating ==> r == p
    ensures !p.generating ==> r == p.(input := text)
  {
    if p.generating then p else p.(input := text)
  }

  /** Sending is accepted exactly when the input is not blank and no reply is outstanding. */
  lemma AcceptsIffNotBlankAndIdle(p: Panel)
    ensures Accepts(p) <==> !Blank(p.input) && !p.generating
  {
    TrimEmptyIffBlank(p.input);
  }

  /** The send button is disabled exactly when a send would be rejected, and a rejected send changes nothing. */
  lemma DisabledIffRejected(p: Panel, reply: string, at: int)
    ensures SendDisabled(p) <==> Send(p, reply, at) == p
  {
    if Accepts(p) {
      assert |Send(p, reply, at).messages| == |p.messages| + 1;
    }
  }

  /** A key press in the text area: Enter without Shift sends, anything else does nothing. */
  function KeyPress(p: Panel, key: string, shift: bool, reply: string, at: int): (r: Panel)
    ensures key == "Enter" && !shift ==> r == Send(p, reply, at)
    ensures key != "Enter" || shift ==> r == p
  {
    if key == "Enter" && !shift then Send(p, reply, at) else p
  }

  /** The fixed reply of the sidebar panel. */
  const SidebarReply: string :=
    "I'll help you implement that feature. Let me generate the necessary code and update your project files."

  /** The interface panel's reply verb: "create" when the message mentions it, in any ASCII case. */
  function ReplyVerb(message: string): string {
    if Includes(Lower(message), "create") then "create" else "update"
  }

  /** The interface panel's reply, fixed when the message is sent. */
  function InterfaceReply(message: string): string {
    "I'll help you with that! Let me " + ReplyVerb(message)
      + " the code for you. I'm generating the necessary files and implementing the functionality you requested."
  }

  /** `word` appears in `s` at position `i`, comparing ASCII letters without regard to case. */
  predicate MatchesIgnoringCase(s: string, word: string, i: int) {
    0 <= i && i + |word| <= |s| && forall k | 0 <= k < |word| :: LowerChar(s[i + k]) == word[k]
  }

  /** The reply says "create" exactly when the message contains "create" in some mix of ASCII cases. */
  lemma ReplyVerbCreateIff(message: string)
    ensures ReplyVerb(message) == "create" <==> exists i :: MatchesIgnoringCase(message, "create", i)
    ensures ReplyVerb(message) != "create" ==> ReplyVerb(message) == "update"
  {
    var low := Lower(message);
    IncludesIffOccurs(low, "create");
    if Includes(low, "create") {
      var i :| OccursAt(low, "create", i);
      forall k | 0 <= k < 6
        ensures LowerChar(message[i + k]) == "create"[k]
      {
        assert low[i..i + 6][k] == low[i + k];
      }
      assert MatchesIgnoringCase(message, "create", i);
    }
    forall i | MatchesIgnoringCase(message, "create", i)
      ensures Includes(low, "create")
    {
      assert low[i..i + 6] == "create";
      assert OccursAt(low, "create", i);
    }
  }

  /** An event on a panel. `Reply` is the timer firing; a timer exists only while a reply is pending. */
  datatype Event =
    | Type(text: string)
    | Press(key: string, shift: bool, at: int)
    | ClickSend(at: int)
    | Reply(at: int)

  /** One event on a panel whose reply to a message is `replyOf(message)`. */
  function Step(p: Panel, e: Event, replyOf: string -> string): Panel {
    match e
    case Type(text) => Edit(p, text)
    case Press(key, shift, at) => KeyPress(p, key, shift, replyOf(p.input), at)
    case ClickSend(at) => Send(p, replyOf(p.input), at)
    case Reply(at) => if p.pending.Some? then Complete(p, at) else p
  }

  function Run(p: Panel, es: seq<Event>, replyOf: string -> string): Panel
    decreases |es|
  {
    if |es| == 0 then p else Run(Step(p, es[0], replyOf), es[1..], replyOf)
  }

  /** Messages alternate user, assistant, user, ..., and each assistant message is the reply to the one before. */
  predicate Alternates(m: seq<Message>, replyOf: string -> string) {
    && (forall k | 0 <= k < |m| :: m[k].role == (if k % 2 == 0 then User else Assistant))
    && (forall k | 0 <= k < |m| && k % 2 == 1 :: m[k].content == replyOf(m[k - 1].content))
  }

  /** The conversation is question, answer, question, answer, ...: every even position is a user
      message, every odd one the assistant's reply to the message before it, and the busy flag is up
      exactly when the last message is an unanswered question whose reply is scheduled. */
  predicate Dialogue(p: Panel, replyOf: string -> string) {
    var m := p.messages;
    && Alternates(m, replyOf)
    && (p.generating <==> |m| % 2 == 1)
    && (p.generating <==> p.pending.Some?)
    && (p.generating ==> p.pending == Some(replyOf(m[|m| - 1].content)))
  }

  lemma EmptyDialogue(replyOf: string -> string)
    ensures Dialogue(Empty, replyOf)
  {
  }

  /** Appending the message that is due next keeps the alternation. */
  lemma AlternatesAppend(m: seq<Message>, msg: Message, replyOf: string -> string)
    requires Alternates(m, replyOf)
    requires msg.role == (if |m| % 2 == 0 then User else Assistant)
    requires |m| % 2 == 1 ==> msg.content == replyOf(m[|m| - 1].content)
    ensures Alternates(m + [msg], replyOf)
  {
    var r := m + [msg];
    assert forall k | 0 <= k < |m| :: r[k] == m[k];
  }

  /** A send keeps the dialogue shape. */
  lemma SendDialogue(p: Panel, replyOf: string -> string, at: int)
    requires Dialogue(p, replyOf)
    ensures Dialogue(Send(p, replyOf(p.input), at), replyOf)
  {
    if Accepts(p) {
      AlternatesAppend(p.messages, Message(at, User, p.input), replyOf);
    }
  }

  /** The timer firing keeps the dialogue shape. */
  lemma CompleteDialogue(p: Panel, replyOf: string -> string, at: int)
    requires Dialogue(p, replyOf) && p.pending.Some?
    ensures Dialogue(Complete(p, at), replyOf)
  {
    AlternatesAppend(p.messages, Message(at, Assistant, p.pending.value), replyOf);
  }

  /** Each event keeps the dialogue shape. */
  lemma StepDialogue(p: Panel, e: Event, replyOf: string -> string)
    requires Dialogue(p, replyOf)
    ensures Dialogue(Step(p, e, replyOf), replyOf)
  {
    match e {
      case Type(text) =>
      case Press(key, shift, at) => SendDialogue(p, replyOf, at);
      case ClickSend(at) => SendDialogue(p, replyOf, at);
      case Reply(at) => if p.pending.Some? { CompleteDialogue(p, replyOf, at); }
    }
  }

  /** Every reachable panel keeps the dialogue shape: no second question is taken while one is unanswered. */
  lemma {:induction false} RunDialogue(p: Panel, es: seq<Event>, replyOf: string -> string)
    requires Dialogue(p, replyOf)
    ensures Dialogue(Run(p, es, replyOf), replyOf)
    decreases |es|
  {
    if |es| > 0 {
      StepDialogue(p, es[0], replyOf);
      RunDialogue(Step(p, es[0], replyOf), es[1..], replyOf);
    }
  }

  /** The sidebar answers every message with its fixed reply. */
  function SidebarReplyTo(message: string): string {
    SidebarReply
  }

  /** The sidebar panel: every answer is the fixed reply. */
  lemma SidebarDialogue(es: seq<Event>)
    ensures var r := Run(Empty, es, SidebarReplyTo);
            forall k | 0 <= k < |r.messages| && k % 2 == 1 ::
              r.messages[k].role == Assistant && r.messages[k].content == SidebarReply
  {
    EmptyDialogue(SidebarReplyTo);
    RunDialogue(Empty, es, SidebarReplyTo);
    var m := Run(Empty, es, SidebarReplyTo).messages;
    forall k | 0 <= k < |m| && k % 2 == 1
      ensures m[k].role == Assistant && m[k].content == SidebarReply
    {
      assert m[k].content == SidebarReplyTo(m[k - 1].content);
    }
  }

  /** The interface panel: every answer names the verb chosen from the question it answers. */
  lemma InterfaceDialogue(es: seq<Event>)
    ensures var r := Run(Empty, es, InterfaceReply);
            forall k | 0 <= k < |r.messages| && k % 2 == 1 ::
              r.messages[k - 1].role == User && r.messages[k].content == InterfaceReply(r.messages[k - 1].content)
  {
    EmptyDialogue(InterfaceReply);
    RunDialogue(Empty, es, InterfaceReply);
    var m := Run(Empty, es, InterfaceReply).messages;
    forall k | 0 <= k < |m| && k % 2 == 1
      ensures m[k - 1].role == User && m[k].content == InterfaceReply(m[k - 1].content)
    {
      assert (k - 1) % 2 == 0;
    }
  }
}
