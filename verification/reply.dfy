/** The completion service's answer as the component sees it, and the assistant
    message the component derives from it. */
module Reply {
  import opened Strings

  /** One element of the reply's `content` array: its `type` tag and its `text`
      (a segment without a `text` field joins as the empty string). */
  datatype Segment = Segment(kind: string, text: string)

  /** How the awaited request ended: a parsed body whose `content` is an array of
      segments, or any thrown error (network failure, unparsable body, missing or
      malformed `content`). */
  datatype Outcome = Success(segments: seq<Segment>) | Failure

  /** Shown when the reply holds no text. */
  const ConnectionError: string := "عذراً، حدث خطأ في الاتصال."

  /** Shown when the request or its parsing threw. */
  const ServiceUnreachable: string :=
    "عذراً، لم أستطع الاتصال بالخدمة. يرجى التأكد من إعداد API بشكل صحيح."

  predicate IsText(s: Segment) {
    s.kind == "text"
  }

  /** `content.filter(item => item.type === 'text').map(item => item.text)`:
      empty exactly when no segment is a text segment. */
  function TextsOf(segs: seq<Segment>): (r: seq<string>)
    ensures |r| <= |segs|
    ensures r == [] <==> forall i :: 0 <= i < |segs| ==> !IsText(segs[i])
  {
    if segs == [] then []
    else if IsText(segs[0]) then [segs[0].text] + TextsOf(segs[1..])
    else TextsOf(segs[1..])
  }

  /** Extraction works segment by segment, keeping their order. */
  lemma {:induction false} TextsOfConcat(a: seq<Segment>, b: seq<Segment>)
    ensures TextsOf(a + b) == TextsOf(a) + TextsOf(b)
  {
    if a != [] {
      assert (a + b)[1..] == a[1..] + b;
      TextsOfConcat(a[1..], b);
    } else {
      assert a + b == b;
    }
  }

  /** A segment of any other type contributes nothing, wherever it stands. */
  lemma IgnoresOtherSegments(a: seq<Segment>, s: Segment, b: seq<Segment>)
    requires !IsText(s)
    ensures TextsOf(a + [s] + b) == TextsOf(a + b)
  {
    TextsOfConcat(a, [s] + b);
    TextsOfConcat(a, b);
    assert a + [s] + b == a + ([s] + b);
    assert ([s] + b)[1..] == b;
  }

  /** When every segment is a text segment, the texts are taken one for one, in order. */
  lemma {:induction false} TextsOfAllText(segs: seq<Segment>)
    requires forall i :: 0 <= i < |segs| ==> IsText(segs[i])
    ensures |TextsOf(segs)| == |segs|
    ensures forall i :: 0 <= i < |segs| ==> TextsOf(segs)[i] == segs[i].text
  {
    if segs != [] {
      TextsOfAllText(segs[1..]);
    }
  }

  /** The reply text: the text segments joined with newlines. It is empty exactly when
      there is no text segment or a single one with empty text; two empty text
      segments already give "\n". */
  function ReplyText(segs: seq<Segment>): (r: string)
    ensures r == [] <==> TextsOf(segs) == [] || TextsOf(segs) == [[]]
  {
    JoinEmpty(TextsOf(segs), "\n");
    Join(TextsOf(segs), "\n")
  }

  /** When no text holds a newline, the reply text determines the segment texts:
      splitting it on newlines gives them back. */
  lemma RecoverTexts(segs: seq<Segment>)
    requires TextsOf(segs) != []
    requires forall i, k :: 0 <= i < |TextsOf(segs)| && 0 <= k < |TextsOf(segs)[i]| ==>
               TextsOf(segs)[i][k] != '\n'
    ensures Split(ReplyText(segs), '\n') == TextsOf(segs)
  {
    SplitJoin(TextsOf(segs), '\n');
  }

  /** The content of the one assistant message appended when the request ends
      (`assistantMessage || fallback` in the success path, the catch's constant
      otherwise). It is never empty. */
  function AssistantContent(outcome: Outcome): (r: string)
    ensures r != []
    ensures outcome.Failure? ==> r == ServiceUnreachable
    ensures outcome.Success? && ReplyText(outcome.segments) == [] ==> r == ConnectionError
    ensures outcome.Success? && ReplyText(outcome.segments) != [] ==> r == ReplyText(outcome.segments)
  {
    match outcome
    case Failure => ServiceUnreachable
    case Success(segs) =>
      var text := ReplyText(segs);
      if text == [] then ConnectionError else text
  }

  /** A successful reply falls back to the connection-error text exactly when it holds
      no text segment or a single empty one (or its text happens to be that constant). */
  lemma FallbackWhenNoText(segs: seq<Segment>)
    ensures AssistantContent(Success(segs)) == ConnectionError <==>
              TextsOf(segs) == [] || TextsOf(segs) == [[]] || ReplyText(segs) == ConnectionError
  {
  }

  /** The two fallback texts differ, so the transcript tells an empty reply from a
      failed request. */
  lemma FallbacksDiffer()
    ensures ConnectionError != ServiceUnreachable
  {
    assert |ConnectionError| != |ServiceUnreachable|;
  }

  /** Worked case: two text segments are joined with a newline. */
  lemma TwoTextsExample()
    ensures AssistantContent(Success([Segment("text", "Hi"), Segment("text", "there")])) == "Hi\nthere"
  {
    assert TextsOf([Segment("text", "Hi"), Segment("text", "there")]) == ["Hi", "there"];
  }

  /** Worked case: a reply holding only an image gets the connection-error text. */
  lemma NoTextExample()
    ensures AssistantContent(Success([Segment("image", "")])) == ConnectionError
  {
  }

  /** Worked case: two empty text segments join to "\n", which is kept as the reply. */
  lemma TwoEmptyTextsExample()
    ensures AssistantContent(Success([Segment("text", ""), Segment("text", "")])) == "\n"
  {
    assert TextsOf([Segment("text", ""), Segment("text", "")]) == ["", ""];
  }
}
