/** The message field of the mobile chat screen: the send button sends
    the trimmed text and clears the field, and is disabled while the
    trimmed text is empty. */
module ChatInput {
  import opened Results
  import opened Text

  /** The field after a press, and the text handed to `onSendMessage`
      (`None` when it is not called). */
  datatype Press = Press(field: string, sent: Option<string>)

  /** `handleSendMessage`. */
  function HandleSendMessage(message: string): (r: Press)
    ensures Trim(message) == [] ==> r == Press(message, None)
    ensures Trim(message) != [] ==> r == Press("", Some(Trim(message)))
  {
    if Trim(message) != "" then Press("", Some(Trim(message))) else Press(message, None)
  }

  /** `disabled={!message.trim()}`. */
  predicate Disabled(message: string) {
    Trim(message) == ""
  }

  /** The button is disabled exactly when pressing it would send nothing. */
  lemma DisabledIffSilent(message: string)
    ensures Disabled(message) <==> HandleSendMessage(message).sent.None?
  {
  }

  /** What is sent is never blank, is its own trim, and holds only
      characters of the field; afterwards the field is empty, so
      pressing again sends nothing. */
  lemma SentIsTrimmed(message: string)
    requires !Disabled(message)
    ensures var r := HandleSendMessage(message);
      && r.sent.Some? && r.sent.value != []
      && Trim(r.sent.value) == r.sent.value
      && (forall c :: c in r.sent.value ==> c in message)
      && HandleSendMessage(r.field).sent.None?
  {
    var t := Trim(message);
    assert HandleSendMessage(message) == Press("", Some(t));
    assert Trim(t) == t by {
      TrimIdempotent(message);
    }
    assert forall c :: c in t ==> c in message by {
      TrimChars(message);
    }
    assert HandleSendMessage("").sent.None? by {
      assert AllSpace("");
    }
  }
}
