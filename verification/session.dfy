/** The chat component's state (transcript, draft, in-flight flag) and the event
    handlers that change it. The one asynchronous handler awaits twice, once for the
    request and once for its body, and changes no state between the two awaits; both
    lie inside the abstracted request. It is therefore split into `Submit` (everything
    up to sending the request) and `Complete` (everything after the request and the
    parsing of its body settle). */
module Chat {
  import opened Strings
  import opened Transcript
  import opened Reply

  datatype Option<T> = None | Some(value: T)

  /** The submit guard, which also enables the send button: nothing is in flight and
      the trimmed draft is not empty, that is, the draft is not blank. */
  predicate CanSend(loading: bool, draft: string)
    ensures CanSend(loading, draft) <==> !loading && !IsBlank(draft)
  {
    TrimEmpty(draft);
    !loading && Trim(draft) != []
  }

  /** The prompts offered on the welcome panel. */
  const Suggestions: seq<string> := [
    "اكتب لي قصة قصيرة",
    "ساعدني في تعلم البرمجة",
    "اشرح لي الذكاء الاصطناعي",
    "اقترح أفكار إبداعية"
  ]

  class Session {
    /** The transcript, in display order. */
    var messages: seq<Message>
    /** The draft in the composer. */
    var input: string
    /** True while a request is outstanding. */
    var loading: bool

    /** The component only ever appends user and assistant entries. */
    predicate Valid()
      reads this
    {
      NoSystem(messages)
    }

    /** The initial state: empty transcript, empty draft, nothing in flight. */
    constructor ()
      ensures Valid()
      ensures messages == [] && input == [] && !loading
    {
      messages := [];
      input := [];
      loading := false;
    }

    /** The synchronous part of the submit handler. A blank draft or a request in flight
        makes it a no-op. Otherwise it clears the draft, appends the trimmed draft as a
        user message, marks the request as in flight and returns the `messages` of the
        request body, which is the new transcript itself. */
    method Submit() returns (request: Option<seq<Message>>)
      requires Valid()
      modifies this
      ensures Valid()
      ensures request.Some? <==> CanSend(old(loading), old(input))
      ensures request.None? ==>
                messages == old(messages) && input == old(input) && loading == old(loading)
      ensures request.Some? ==>
                input == [] && loading &&
                messages == old(messages) + [Message(User, Trim(old(input)))] &&
                request == Some(Payload(old(messages), Trim(old(input)))) &&
                request.value == messages
    {
      var userMessage := Trim(input);
      if userMessage == [] || loading {
        return None;
      }
      var prior := messages;
      var sent := prior + [Message(User, userMessage)];
      PayloadOfPlainTranscript(prior, userMessage);
      assert NoSystem(sent);
      input := [];
      messages := sent;
      loading := true;
      request := Some(Payload(prior, userMessage));
    }

    /** The part of the submit handler that runs once the request settles: exactly one
        assistant message is appended to the transcript as it is now, whatever the
        outcome, and the in-flight flag is released. The draft is not touched. */
    method Complete(outcome: Outcome)
      requires Valid()
      modifies this
      ensures Valid()
      ensures messages == old(messages) + [Message(Assistant, AssistantContent(outcome))]
      ensures !loading && input == old(input)
    {
      var content := AssistantContent(outcome);
      messages := messages + [Message(Assistant, content)];
      loading := false;
    }

    /** "New chat": the transcript becomes empty; draft and flag are left alone, so a
        request still in flight later appends its reply to the empty transcript. */
    method NewChat()
      requires Valid()
      modifies this
      ensures Valid()
      ensures messages == [] && input == old(input) && loading == old(loading)
    {
      messages := [];
    }

    /** Clicking a suggestion copies it into the draft without submitting it. */
    method ChooseSuggestion(i: nat)
      requires Valid()
      requires i < |Suggestions|
      modifies this
      ensures Valid()
      ensures input == Suggestions[i]
      ensures messages == old(messages) && loading == old(loading)
    {
      input := Suggestions[i];
    }

    /** Typing in the composer replaces the draft; while a request is in flight the
        input is disabled and the edit has no effect. */
    method EditDraft(text: string)
      requires Valid()
      modifies this
      ensures Valid()
      ensures input == if old(loading) then old(input) else text
      ensures messages == old(messages) && loading == old(loading)
    {
      if !loading {
        input := text;
      }
    }

    /** Enter without Shift submits; any other key leaves the state alone. */
    method KeyPress(key: string, shift: bool) returns (request: Option<seq<Message>>)
      requires Valid()
      modifies this
      ensures Valid()
      ensures request.Some? <==> key == "Enter" && !shift && CanSend(old(loading), old(input))
      ensures request.None? ==>
                messages == old(messages) && input == old(input) && loading == old(loading)
      ensures request.Some? ==>
                input == [] && loading &&
                messages == old(messages) + [Message(User, Trim(old(input)))] &&
                request == Some(Payload(old(messages), Trim(old(input)))) &&
                request.value == messages
    {
      if key == "Enter" && !shift {
        request := Submit();
      } else {
        request := None;
      }
    }
  }

  /** One whole run of the submit handler with no other event in between. A refused
      submission changes nothing and sends nothing. An accepted one sends the old
      transcript plus the user turn, grows the transcript by exactly two entries (the
      trimmed draft, then the reply), leaves earlier entries untouched, and ends with
      an empty draft and nothing in flight. */
  method SubmitAndComplete(s: Session, outcome: Outcome) returns (request: Option<seq<Message>>)
    requires s.Valid()
    modifies s
    ensures s.Valid()
    ensures request.Some? <==> CanSend(old(s.loading), old(s.input))
    ensures request.None? ==>
              s.messages == old(s.messages) && s.input == old(s.input) &&
              s.loading == old(s.loading)
    ensures request.Some? ==>
              request.value == old(s.messages) + [Message(User, Trim(old(s.input)))] &&
              |s.messages| == |old(s.messages)| + 2 &&
              s.messages == request.value + [Message(Assistant, AssistantContent(outcome))] &&
              s.input == [] && !s.loading
  {
    request := s.Submit();
    if request.Some? {
      s.Complete(outcome);
    }
  }

  /** The worked case of the handler: the draft "  hello  " is sent as "hello", and a
      failed request is answered with the unreachable-service text. */
  method PaddedDraftFails(s: Session) returns (request: Option<seq<Message>>)
    requires s.Valid() && !s.loading
    modifies s
    ensures request == Some(old(s.messages) + [Message(User, "hello")])
    ensures s.messages == request.value + [Message(Assistant, ServiceUnreachable)]
    ensures s.input == [] && !s.loading
  {
    s.EditDraft("  hello  ");
    TrimHello();
    request := SubmitAndComplete(s, Failure);
  }
}
