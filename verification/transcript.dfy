/** Transcript entries and the request payload built from them (the `messages`
    field of the request body). */
module Transcript {

  /** The roles a message can carry. The component itself only ever appends `User`
      and `Assistant` entries; `System` exists because the payload filters it out. */
  datatype Role = User | Assistant | System

  /** A transcript entry, `{role, content}`. */
  datatype Message = Message(role: Role, content: string)

  /** No entry of the transcript has the `System` role. */
  predicate NoSystem(ms: seq<Message>) {
    forall i :: 0 <= i < |ms| ==> ms[i].role != System
  }

  /** How many entries have the `System` role. */
  function SystemCount(ms: seq<Message>): (n: nat)
    ensures n <= |ms|
    ensures n == 0 <==> NoSystem(ms)
  {
    if ms == [] then 0
    else (if ms[0].role == System then 1 else 0) + SystemCount(ms[1..])
  }

  /** `messages.filter(m => m.role !== 'system')`: keeps every other entry, drops the
      `System` ones, and leaves a transcript without them as it is. */
  function WithoutSystem(ms: seq<Message>): (r: seq<Message>)
    ensures |r| == |ms| - SystemCount(ms)
    ensures NoSystem(r)
    ensures NoSystem(ms) ==> r == ms
  {
    if ms == [] then []
    else if ms[0].role == System then WithoutSystem(ms[1..])
    else [ms[0]] + WithoutSystem(ms[1..])
  }

  /** The filter works entry by entry, so it keeps the order of the transcript. */
  lemma {:induction false} WithoutSystemConcat(a: seq<Message>, b: seq<Message>)
    ensures WithoutSystem(a + b) == WithoutSystem(a) + WithoutSystem(b)
  {
    if a != [] {
      assert (a + b)[1..] == a[1..] + b;
      WithoutSystemConcat(a[1..], b);
    } else {
      assert a + b == b;
    }
  }

  /** Every entry the filter keeps comes from the transcript. */
  lemma {:induction false} WithoutSystemFrom(ms: seq<Message>, i: nat)
    requires i < |WithoutSystem(ms)|
    ensures WithoutSystem(ms)[i] in ms
  {
    if ms[0].role == System {
      WithoutSystemFrom(ms[1..], i);
    } else if i > 0 {
      WithoutSystemFrom(ms[1..], i - 1);
    }
  }

  /** The `messages` array of the request body (each entry reduced to `{role, content}`,
      which is all a `Message` holds): the prior transcript without its `System`
      entries, followed by the new user turn. */
  function Payload(prior: seq<Message>, userText: string): (r: seq<Message>)
    ensures |r| == |prior| - SystemCount(prior) + 1
    ensures r[|r| - 1] == Message(User, userText)
    ensures NoSystem(r)
  {
    WithoutSystem(prior) + [Message(User, userText)]
  }

  /** For a transcript the component built itself (no `System` entries), the payload
      is the whole prior transcript plus the new user turn. */
  lemma PayloadOfPlainTranscript(prior: seq<Message>, userText: string)
    requires NoSystem(prior)
    ensures Payload(prior, userText) == prior + [Message(User, userText)]
  {
  }

  /** The payload keeps the prior entries in order: the payload for `a + b` is that for
      `a` with its new turn replaced by the kept entries of `b`. */
  lemma PayloadConcat(a: seq<Message>, b: seq<Message>, userText: string)
    ensures Payload(a + b, userText) == WithoutSystem(a) + Payload(b, userText)
  {
    WithoutSystemConcat(a, b);
  }
}
