/** The controller of the second chat screen: `handleSubmit` only ever
    appends to the message list (the user's message, then one assistant
    message with the answer or a fixed error text), the menu shortcuts
    submit a fixed question, and the export writes the conversation as
    text. Message ids (`Date.now()`) are left out. */
module EnhancedChat {
  import opened Results
  import opened Text
  import opened Json

  datatype Role = UserRole | Assistant

  datatype ChatMessage = ChatMessage(role: Role, content: string)

  /** The state `handleSubmit` reads and writes. */
  datatype Chat = Chat(messages: seq<ChatMessage>, input: string, loading: bool)

  /** The body of a `/api/chat` response: not JSON, JSON `null`, or another
      JSON value together with its `answer` field. */
  datatype Parsed = NotJson | JsonNull | JsonValue(answer: Option<Value>)

  /** The outcome of the `fetch`: it threw, or it returned. */
  datatype ChatFetch = FetchThrew | Responded(ok: bool, data: Parsed)

  const ErrorText := "메시지 전송 중 오류가 발생했습니다."
  const NoAnswerText := "응답이 없습니다."
  const MealMenus: seq<string> := ["학생식당", "기숙사식당", "교직원식당"]

  /** The content of the assistant message the `try`/`catch` appends. A
      non-ok status is thrown on purpose; a body that is not JSON throws in
      `response.json()`; `null.answer` throws a TypeError. */
  function ReplyText(reply: ChatFetch): (r: string)
    ensures r == ErrorText <==>
      reply.FetchThrew? || !reply.ok || !reply.data.JsonValue?
      || (Truthy(reply.data.answer) && Render(reply.data.answer.value) == ErrorText)
    ensures reply.Responded? && reply.ok && reply.data.JsonValue? && !Truthy(reply.data.answer) ==> r == NoAnswerText
    ensures (reply.Responded? && reply.ok && reply.data.JsonValue? && reply.data.answer.Some?
             && reply.data.answer.value.VStr? && reply.data.answer.value.s != "") ==> r == reply.data.answer.value.s
  {
    match reply
    case FetchThrew => ErrorText
    case Responded(ok, data) =>
      if !ok then ErrorText
      else match data
        case NotJson => ErrorText
        case JsonNull => ErrorText
        case JsonValue(answer) => if Truthy(answer) then Render(answer.value) else NoAnswerText
  }

  /** `messageContent || input.trim()`: the explicit content unless it is
      empty, otherwise the trimmed input. */
  function CurrentMessage(content: Option<string>, input: string): (r: string)
    ensures content.Some? && content.value != [] ==> r == content.value
    ensures (content.None? || content.value == []) ==> r == Trim(input)
  {
    if content.Some? && content.value != "" then content.value else Trim(input)
  }

  /** The synchronous half of `handleSubmit`: with nothing to send the state
      is unchanged; otherwise the user's message is appended, the field is
      cleared (even when the content came from elsewhere) and loading starts. */
  function Submit(c: Chat, content: Option<string>): (r: (Chat, Option<string>))
    ensures CurrentMessage(content, c.input) == [] ==> r == (c, None)
    ensures CurrentMessage(content, c.input) != [] ==>
      r == (Chat(c.messages + [ChatMessage(UserRole, CurrentMessage(content, c.input))], "", true),
            Some(CurrentMessage(content, c.input)))
  {
    var current := CurrentMessage(content, c.input);
    if current == "" then (c, None)
    else (Chat(c.messages + [ChatMessage(UserRole, current)], "", true), Some(current))
  }

  /** The asynchronous half: the assistant message is appended and the
      `finally` ends loading. */
  function Complete(c: Chat, reply: ChatFetch): (r: Chat)
    ensures r.messages == c.messages + [ChatMessage(Assistant, ReplyText(reply))]
    ensures r.input == c.input && !r.loading
  {
    Chat(c.messages + [ChatMessage(Assistant, ReplyText(reply))], c.input, false)
  }

  /** `handleSubmit` run to completion. */
  function HandleSubmit(c: Chat, content: Option<string>, reply: ChatFetch): Chat
  {
    match Submit(c, content)
    case (c', None) => c'
    case (c', Some(_)) => Complete(c', reply)
  }

  /** A submission only appends: nothing when there is nothing to send,
      otherwise exactly the user's message and one assistant message; the
      field ends empty and loading ends false. */
  lemma SubmitAppends(c: Chat, content: Option<string>, reply: ChatFetch)
    ensures var r := HandleSubmit(c, content, reply);
      |r.messages| >= |c.messages| && r.messages[..|c.messages|] == c.messages
    ensures CurrentMessage(content, c.input) == [] ==> HandleSubmit(c, content, reply) == c
    ensures CurrentMessage(content, c.input) != [] ==>
      HandleSubmit(c, content, reply) ==
        Chat(c.messages + [ChatMessage(UserRole, CurrentMessage(content, c.input)),
                           ChatMessage(Assistant, ReplyText(reply))], "", false)
  {
    var current := CurrentMessage(content, c.input);
    if current != [] {
      var u := ChatMessage(UserRole, current);
      var a := ChatMessage(Assistant, ReplyText(reply));
      assert c.messages + [u] + [a] == c.messages + [u, a];
    }
  }

  /** `handleQuickReply`. */
  function QuickReply(c: Chat, reply: string, answer: ChatFetch): Chat
  {
    HandleSubmit(c, Some(reply), answer)
  }

  /** `handleMenuClick`: the three canteens ask for today's menu; any
      other entry does nothing. */
  function MenuClick(c: Chat, menu: string, answer: ChatFetch): (r: Chat)
    ensures menu !in MealMenus ==> r == c
    ensures menu in MealMenus ==>
      r == Chat(c.messages + [ChatMessage(UserRole, "오늘 " + menu), ChatMessage(Assistant, ReplyText(answer))], "", false)
  {
    if menu in MealMenus then
      var question := "오늘 " + menu;
      assert question != [];
      SubmitAppends(c, Some(question), answer);
      HandleSubmit(c, Some(question), answer)
    else c
  }

  /** One exported line: the speaker, a colon, the content. */
  function ExportLine(m: ChatMessage): string
  {
    (if m.role == UserRole then "사용자" else "한경대 챗봇") + ": " + m.content
  }

  function ExportLines(messages: seq<ChatMessage>): (r: seq<string>)
    ensures |r| == |messages|
    ensures forall i :: 0 <= i < |messages| ==> r[i] == ExportLine(messages[i])
  {
    if |messages| == 0 then [] else [ExportLine(messages[0])] + ExportLines(messages[1..])
  }

  /** `exportChat`'s text: the lines joined by a blank line. */
  function ExportText(messages: seq<ChatMessage>): string
  {
    Join(ExportLines(messages), "\n\n")
  }

  /** Joining one more piece adds a separator and the piece. */
  lemma {:induction false} JoinSnoc(parts: seq<string>, p: string, sep: string)
    requires |parts| > 0
    ensures Join(parts + [p], sep) == Join(parts, sep) + sep + p
    decreases |parts|
  {
    if |parts| == 1 {
      assert (parts + [p])[1..] == [p];
    } else {
      assert (parts + [p])[1..] == parts[1..] + [p];
      JoinSnoc(parts[1..], p, sep);
    }
  }

  /** The export of a conversation grows by one separated line per
      appended message; the first message is the whole export. */
  lemma ExportAppend(messages: seq<ChatMessage>, m: ChatMessage)
    ensures ExportText([m]) == ExportLine(m)
    ensures |messages| > 0 ==> ExportText(messages + [m]) == ExportText(messages) + "\n\n" + ExportLine(m)
  {
    assert ExportLines([m]) == [ExportLine(m)];
    if |messages| > 0 {
      assert ExportLines(messages + [m]) == ExportLines(messages) + [ExportLine(m)];
      JoinSnoc(ExportLines(messages), ExportLine(m), "\n\n");
    }
  }

  /** After a submission the export ends with the question and the answer,
      each on its own line. */
  lemma ExportAfterSubmit(c: Chat, content: Option<string>, reply: ChatFetch)
    requires |c.messages| > 0 && CurrentMessage(content, c.input) != []
    ensures ExportText(HandleSubmit(c, content, reply).messages) ==
      ExportText(c.messages) + "\n\n사용자: " + CurrentMessage(content, c.input) + "\n\n한경대 챗봇: " + ReplyText(reply)
  {
    var u := ChatMessage(UserRole, CurrentMessage(content, c.input));
    var a := ChatMessage(Assistant, ReplyText(reply));
    var t := ExportText(c.messages);
    assert ExportText(HandleSubmit(c, content, reply).messages) == t + "\n\n" + ExportLine(u) + "\n\n" + ExportLine(a) by {
      assert HandleSubmit(c, content, reply).messages == (c.messages + [u]) + [a] by {
        SubmitAppends(c, content, reply);
        assert c.messages + [u, a] == (c.messages + [u]) + [a];
      }
      ExportAppend(c.messages, u);
      ExportAppend(c.messages + [u], a);
    }
    ExportLabels();
    JoinLines(t, "사용자" + ": ", u.content, "한경대 챗봇" + ": ", a.content);
  }

  /** A separator followed by a speaker label, written as one string. */
  lemma ExportLabels()
    ensures "\n\n" + ("사용자" + ": ") == "\n\n사용자: "
    ensures "\n\n" + ("한경대 챗봇" + ": ") == "\n\n한경대 챗봇: "
  {
  }

  /** Two exported lines after a text, regrouped as separator-and-label
      pieces. */
  lemma JoinLines(t: string, p: string, c: string, q: string, r: string)
    ensures t + "\n\n" + (p + c) + "\n\n" + (q + r) == t + ("\n\n" + p) + c + ("\n\n" + q) + r
  {
  }
}
