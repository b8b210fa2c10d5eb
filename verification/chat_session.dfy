/** The message list of the first chat screen: sending appends the user's
    message and a loading placeholder, and the bot's answer later replaces
    every placeholder. Timestamps are left out; the answer is the value
    `getBotResponse` produces for the sent text (`ChatRouting.BotResponse`
    with the fetch outcomes fixed), passed in as a function of the text. */
module ChatSession {
  import opened Results
  import opened Text

  datatype Sender = User | Bot

  datatype Message = Message(id: int, sender: Sender, text: string, isLoading: bool)

  const LoadingText := "답변을 생성 중입니다..."

  /** The screen state `handleSend` reads and writes. */
  datatype Session = Session(messages: seq<Message>, input: string)

  predicate NoneLoading(messages: seq<Message>) {
    forall i :: 0 <= i < |messages| ==> !messages[i].isLoading
  }

  /** Message ids count up from 1 in list order. */
  predicate IdsSequential(messages: seq<Message>) {
    forall i :: 0 <= i < |messages| ==> messages[i].id == i + 1
  }

  /** The two messages a request appends: the text as the user typed it,
      then the bot's loading placeholder, numbered after the list. */
  function Pending(messages: seq<Message>, text: string): (r: seq<Message>)
    ensures |r| == |messages| + 2 && r[..|messages|] == messages
    ensures r[|messages|] == Message(|messages| + 1, User, text, false)
    ensures r[|messages| + 1] == Message(|messages| + 2, Bot, LoadingText, true)
  {
    messages + [Message(|messages| + 1, User, text, false), Message(|messages| + 2, Bot, LoadingText, true)]
  }

  /** The `prev.map(...)` step: every loading message takes the answer and
      stops loading; every other message is kept. */
  function Resolve(messages: seq<Message>, response: string): (r: seq<Message>)
    ensures |r| == |messages| && NoneLoading(r)
    ensures forall i :: 0 <= i < |messages| && !messages[i].isLoading ==> r[i] == messages[i]
    ensures forall i :: 0 <= i < |messages| && messages[i].isLoading ==>
      r[i] == Message(messages[i].id, messages[i].sender, response, false)
  {
    if |messages| == 0 then []
    else
      var m := messages[0];
      var head := if m.isLoading then m.(text := response, isLoading := false) else m;
      var r := [head] + Resolve(messages[1..], response);
      assert forall i :: 1 <= i < |messages| ==> messages[i] == messages[1..][i - 1] && r[i] == r[1..][i - 1];
      r
  }

  /** Resolving a settled list changes nothing; in particular resolving is
      idempotent. */
  lemma {:induction false} ResolveSettled(messages: seq<Message>, response: string)
    requires NoneLoading(messages)
    ensures Resolve(messages, response) == messages
  {
    if |messages| > 0 {
      ResolveSettled(messages[1..], response);
    }
  }

  lemma ResolveIdempotent(messages: seq<Message>, a: string, b: string)
    ensures Resolve(Resolve(messages, a), b) == Resolve(messages, a)
  {
    ResolveSettled(Resolve(messages, a), b);
  }

  /** On a settled list, answering the request just made turns its
      placeholder into the answer and leaves everything else as it was. */
  lemma ResolvePending(messages: seq<Message>, text: string, response: string)
    requires NoneLoading(messages)
    ensures Resolve(Pending(messages, text), response)
      == messages + [Message(|messages| + 1, User, text, false), Message(|messages| + 2, Bot, response, false)]
    ensures NoneLoading(Resolve(Pending(messages, text), response))
    ensures IdsSequential(messages) ==> IdsSequential(Resolve(Pending(messages, text), response))
  {
    var p := Pending(messages, text);
    var r := Resolve(p, response);
    var want := messages + [Message(|messages| + 1, User, text, false), Message(|messages| + 2, Bot, response, false)];
    forall i | 0 <= i < |r|
      ensures r[i] == want[i]
    {
      if i < |messages| {
        assert p[i] == messages[i];
      }
    }
  }

  /** The synchronous half of `handleSend`: a blank-after-trim input
      changes nothing and sends nothing; otherwise the two messages are
      appended, the field is cleared, and the raw input is what is sent. */
  function Submit(s: Session): (r: (Session, Option<string>))
    ensures Trim(s.input) == [] ==> r == (s, None)
    ensures Trim(s.input) != [] ==> r == (Session(Pending(s.messages, s.input), ""), Some(s.input))
  {
    if Trim(s.input) == "" then (s, None)
    else (Session(Pending(s.messages, s.input), ""), Some(s.input))
  }

  /** `handleSend` run to completion, `respond` giving the bot's answer. */
  function HandleSend(s: Session, respond: string -> string): (r: Session)
  {
    match Submit(s)
    case (s', None) => s'
    case (s', Some(text)) => s'.(messages := Resolve(s'.messages, respond(text)))
  }

  /** `handleQuickReply` run to completion: no blank check, and the input
      field is left alone. */
  function HandleQuickReply(s: Session, reply: string, respond: string -> string): (r: Session)
  {
    s.(messages := Resolve(Pending(s.messages, reply), respond(reply)))
  }

  /** On a settled list, a send appends exactly the user's message and the
      answered bot message, keeps every earlier message, and keeps the ids
      counting up and the list settled. */
  lemma SendAppends(s: Session, respond: string -> string)
    requires NoneLoading(s.messages)
    ensures Trim(s.input) == [] ==> HandleSend(s, respond) == s
    ensures Trim(s.input) != [] ==>
      HandleSend(s, respond) == Session(s.messages + [Message(|s.messages| + 1, User, s.input, false),
                                                      Message(|s.messages| + 2, Bot, respond(s.input), false)], "")
    ensures NoneLoading(HandleSend(s, respond).messages)
    ensures IdsSequential(s.messages) ==> IdsSequential(HandleSend(s, respond).messages)
  {
    var r := HandleSend(s, respond);
    if Trim(s.input) == [] {
      assert r == s;
    } else {
      assert r == Session(Resolve(Pending(s.messages, s.input), respond(s.input)), "");
      ResolvePending(s.messages, s.input, respond(s.input));
    }
  }

  /** The same for a quick reply, which is sent even when blank. */
  lemma QuickReplyAppends(s: Session, reply: string, respond: string -> string)
    requires NoneLoading(s.messages)
    ensures HandleQuickReply(s, reply, respond) ==
      Session(s.messages + [Message(|s.messages| + 1, User, reply, false),
                            Message(|s.messages| + 2, Bot, respond(reply), false)], s.input)
    ensures IdsSequential(s.messages) ==> IdsSequential(HandleQuickReply(s, reply, respond).messages)
  {
    ResolvePending(s.messages, reply, respond(reply));
  }
}
