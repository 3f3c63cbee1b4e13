# Genisi chat session, modelled in Dafny

Genisi is a single-page chat interface. It forwards what the user types to a
conversational completion service and shows the exchange as a transcript. Its only
logic is the session state held by the `Genisi` component in `Server.py` (a JSX file,
despite its name). The state has three parts:

- `messages`: the transcript, a sequence of `{role, content}` entries;
- `input`: the draft in the composer;
- `loading`: true while a request is in flight.

The event handlers move this state:

- the submit handler checks the guard, trims the draft, clears it, appends the user
  turn, raises the flag and sends the request;
- when the request settles, exactly one assistant reply is appended and the flag is
  always released;
- "new chat" empties the transcript;
- clicking a suggestion or typing replaces the draft;
- Enter without Shift submits.

Files:

- `strings.dfy` (module `Strings`): the two builtins the handler relies on. `Trim` is
  `String.prototype.trim` over ECMAScript's whitespace and line terminators. `Join` is
  `Array.prototype.join`. `Split` is the partner of `Join`: a right inverse of it on
  every string, and a left inverse on non-empty lists of parts that hold no
  separator. It shows that joining such parts loses nothing.
- `transcript.dfy` (module `Transcript`): roles, messages, the `system`-entry filter
  and the request payload.
- `reply.dfy` (module `Reply`): the settled request as an `Outcome` value, text
  extraction from the reply's segments, and the assistant content with its two
  fallback texts.
- `session.dfy` (module `Chat`): the class `Session` with the three state fields and
  one method per handler. It also holds `SubmitAndComplete`, which is one full
  uninterrupted run of the submit handler.

The asynchronous submit handler awaits twice: once for the request (Server.py:28)
and once for its body (Server.py:43). It changes no state between the two awaits, and
other events can interleave at either one in the same way. Both awaits therefore lie
inside the abstracted request, and the handler is modelled as two atomic transitions.
`Submit` is everything up to sending the request, including building the payload.
`Complete(outcome)` is everything after the request and the parsing of its body
settle. `CanSend` is the submit guard; the send button's `disabled` attribute
(Server.py:226) uses the same test.

Three details of the code shape the model:

- `Role` has a `System` case because the payload filter (Server.py:37) drops `system`
  entries. The component itself never creates one; `Session.Valid` records that.
- Only a joined reply equal to `""` falls back to the connection-error text
  (Server.py:51). Two empty text segments join to `"\n"`, which is shown as the reply.
- The draft is cleared (Server.py:23) before the user turn is appended
  (Server.py:24). Both updates land in one batched render, so `Submit` does them as
  one step.

## Model

| member | source | states |
|---|---|---|
| `Strings.IsWhitespace` | Server.py:20-22 | the characters `trim` removes: ECMAScript's WhiteSpace and LineTerminator code points. It has no ensures of its own; `TrimStart`, `TrimEnd`, `TrimEmpty`, `TrimAroundIsWhitespace` and `TrimPadded` state what is removed in its terms |
| `Strings.TrimStart` | Server.py:20-22 | the result is a suffix of the draft that does not start with whitespace, and every dropped character is whitespace |
| `Strings.TrimEnd` | Server.py:20-22 | the result is a prefix that does not end with whitespace, and every dropped character is whitespace |
| `Strings.Trim` | Server.py:20-22 | the trimmed draft is no longer than the draft, and is empty or starts and ends with non-whitespace |
| `Strings.TrimEmpty` | Server.py:20 | the guard `!input.trim()` holds exactly when the draft is made only of whitespace |
| `Strings.TrimIsSlice` | Server.py:22 | the draft is the text before the trimmed part, then the trimmed part, then the text after it |
| `Strings.TrimAroundIsWhitespace` | Server.py:22 | only whitespace precedes and follows the part `trim` keeps |
| `Strings.TrimPadded` | Server.py:22 | whitespace around a text with non-whitespace ends is removed and the text is kept whole; with the two lemmas above this fixes `trim` completely |
| `Strings.TrimIdempotent` | Server.py:22 | trimming an already trimmed draft changes nothing |
| `Strings.TrimHello` | Server.py:22 | the draft `"  hello  "` is sent as `"hello"` |
| `Strings.Join` | Server.py:47 | `join('\n')` on the extracted texts, the value `ReplyText` returns. It has no ensures of its own; its properties are stated by `JoinEmpty`, `JoinLength`, `JoinSplit` and `SplitJoin` |
| `Strings.JoinEmpty` | Server.py:47 | with a non-empty separator, the join is empty only for no parts or one empty part |
| `Strings.JoinLength` | Server.py:47 | the join is as long as all parts plus one separator between each pair |
| `Strings.Split` | Server.py:47 | splitting, the partner of `join` (a right inverse of it, and a left inverse on separator-free parts), always yields at least one piece |
| `Strings.JoinSplit` | Server.py:47 | joining the pieces of a split on the same character gives the string back |
| `Strings.SplitJoin` | Server.py:47 | joining parts that hold no separator and then splitting gives the parts back |
| `Transcript.SystemCount` | Server.py:37 | the number of `system` entries is at most the transcript length, and is zero exactly when there are none |
| `Transcript.WithoutSystem` | Server.py:37 | the filter drops exactly the `system` entries (the result length is the length minus their count), keeps no `system` entry, and leaves a transcript without them unchanged |
| `Transcript.WithoutSystemConcat` | Server.py:37 | the filter works entry by entry, so it preserves order across any split of the transcript |
| `Transcript.WithoutSystemFrom` | Server.py:37 | every kept entry comes from the transcript |
| `Transcript.Payload` | Server.py:36-39 | the payload length is the number of non-`system` prior entries plus one, it holds no `system` entry, and it ends with the new user turn |
| `Transcript.PayloadOfPlainTranscript` | Server.py:36-39 | for a transcript without `system` entries, the payload is the prior transcript followed by the new user turn |
| `Transcript.PayloadConcat` | Server.py:36-39 | the payload keeps the prior entries in order |
| `Reply.TextsOf` | Server.py:44-46 | the extracted texts are at most as many as the segments, and none are extracted exactly when no segment has type `text` |
| `Reply.TextsOfConcat` | Server.py:44-46 | extraction works segment by segment and keeps their order |
| `Reply.IgnoresOtherSegments` | Server.py:45 | a segment of any other type contributes nothing, wherever it stands |
| `Reply.TextsOfAllText` | Server.py:44-46 | when every segment is a text segment, the texts are taken one for one, in order |
| `Reply.ReplyText` | Server.py:44-47 | the joined reply is empty exactly when there is no text segment or a single empty one |
| `Reply.RecoverTexts` | Server.py:44-47 | when no text holds a newline, splitting the reply on newlines gives back the segment texts in order |
| `Reply.AssistantContent` | Server.py:49-57 | the appended content is never empty. A failure gives the unreachable-service text. An empty joined reply gives the connection-error text. Any other reply is kept unchanged |
| `Reply.FallbackWhenNoText` | Server.py:49-52 | a successful reply shows the connection-error text exactly when it has no text segment, or a single empty one, or its text is that very constant |
| `Reply.FallbacksDiffer` | Server.py:51-56 | the two fallback texts differ, so an empty reply and a failed request can be told apart |
| `Reply.TwoTextsExample` | Server.py:44-52 | text segments "Hi" and "there" give "Hi\nthere" |
| `Reply.NoTextExample` | Server.py:44-52 | a reply holding only an image gives the connection-error text |
| `Reply.TwoEmptyTextsExample` | Server.py:44-52 | two empty text segments give "\n" and no fallback |
| `Chat.CanSend` | Server.py:20 | the submit guard `!input.trim() \|\| loading`, negated: a submission goes ahead exactly when nothing is in flight and the draft is not blank. The send button's `disabled` (Server.py:226) uses the same test |
| `Chat.Session.constructor` | Server.py:5-7 | a new session has an empty transcript, an empty draft and nothing in flight |
| `Chat.Session.Submit` | Server.py:19-39 | a blank draft or a request in flight changes nothing and sends nothing. Otherwise the draft is cleared, exactly one user turn with the trimmed draft is appended after the untouched earlier entries, the flag is raised, and the request carries the payload of the prior transcript, which equals the new transcript |
| `Chat.Session.Complete` | Server.py:43-59 | whatever the outcome, exactly one assistant entry with `AssistantContent(outcome)` is appended after the untouched earlier entries, the flag is released, and the draft is unchanged; no error escapes |
| `Chat.Session.NewChat` | Server.py:70-72 | the transcript becomes empty whatever it held; draft and flag are unchanged |
| `Chat.Session.ChooseSuggestion` | Server.py:154 | the draft becomes the chosen suggestion; transcript and flag are unchanged |
| `Chat.Session.EditDraft` | Server.py:217-222 | typing replaces the draft unless a request is in flight (the input is then disabled); transcript and flag are unchanged |
| `Chat.Session.KeyPress` | Server.py:63-68 | Enter without Shift behaves as `Submit`, with the same new state and the same request payload (the new transcript); any other key changes nothing |
| `Chat.SubmitAndComplete` | Server.py:19-61 | a refused submission changes nothing. An accepted one sends the old transcript plus the trimmed user turn, and grows the transcript by exactly two entries (user turn, then reply). It leaves earlier entries untouched and ends with an empty draft and the flag released |
| `Chat.PaddedDraftFails` | Server.py:19-61 | the draft `"  hello  "` followed by a failed request appends `hello` and then the unreachable-service text |

## Left out

- The network call (Server.py:28-41), its endpoint, headers, model identifier,
  `max_tokens`, and the parsing of the response body (Server.py:43). They are a
  foreign API. Their result is the parameter `outcome` of `Complete`. A missing or
  malformed `content` field, a rejected promise and a JSON error are all `Failure`.
  `Submit` returns only the `messages` array of the request body.
- A segment whose `text` field is missing is modelled as one with empty text. This
  matches how `join` renders `undefined`. Non-string `text` values are not modelled.
- The interleaving of other events between `Submit` and `Complete` is not modelled as
  a scheduler. The transitions may be called in any order, and `Complete` appends to
  the transcript as it stands. So a reply that lands after `NewChat` appends to the
  emptied transcript, as the code does. Teardown of the component mid-request is not
  modelled. A stale `loading` value seen by two submits within one render is not
  modelled either.
- The view is not modelled: rendering, auto-scroll, the sidebar toggle, the static
  list of previous conversations, the typing indicator and the welcome panel
  (Server.py:9-17, 81-238). `ChooseSuggestion` does not require an empty transcript,
  even though the view shows suggestions only then.
- The suggestion strings and the fallback texts are kept verbatim. Nothing depends on
  their wording except that the two fallback texts differ and are not empty.
