/** The stored chat message and how `analyze_message` builds it from a verdict. */
module Messages {
  import opened Wrappers
  import opened Text
  import opened Verdicts

  /** A `ChatMessage` document. `timestamp` stands for the creation time; the
      identifier and the time are produced outside the model and passed in. */
  datatype Message = Message(
    id: string,
    content: string,
    timestamp: int,
    isFlagged: bool,
    safetyScore: Option<real>,
    harassmentType: Option<string>,
    flaggedReason: Option<string>)

  /** The detail of the HTTP 500 the message route answers with. */
  const ProcessingError: string := "Error processing message"

  /** `d.get(key, default)` on one key of the verdict dict. */
  function Get<T>(f: Field<T>, default: Option<T>): (r: Option<T>)
    ensures f.Absent? ==> r == default
    ensures f.Null? ==> r.None?
    ensures f.Present? ==> r == Some(f.value)
  {
    match f
    case Absent => default
    case Null => None
    case Present(x) => Some(x)
  }

  /** The message `analyze_message` stores for `content` and its verdict, or the
      server error raised when the `is_flagged` it passes on is `None` (the
      message's `is_flagged` must be a boolean). */
  function StoredMessage(content: string, analysis: Verdict, id: string, timestamp: int): (r: Result<Message, string>)
    ensures r.Failure? <==> analysis.isFlagged.Null?
    ensures r.Failure? ==> r.error == ProcessingError
    ensures r.Success? ==>
      && r.value.id == id && r.value.content == content && r.value.timestamp == timestamp
      && (r.value.isFlagged <==> Flagged(analysis))
      && r.value.safetyScore == Get(analysis.safetyScore, Some(1.0))
      && r.value.harassmentType == Get(analysis.harassmentType, None)
      && r.value.flaggedReason == Get(analysis.flaggedReason, None)
  {
    match Get(analysis.isFlagged, Some(false))
    case None => Failure(ProcessingError)
    case Some(flagged) =>
      Success(Message(id, content, timestamp, flagged,
                      Get(analysis.safetyScore, Some(1.0)),
                      Get(analysis.harassmentType, None),
                      Get(analysis.flaggedReason, None)))
  }

  /** What gets stored once the reply has been decoded: an unusable reply
      stores a safe message; an unflagged verdict on a message with a listed
      phrase stores the bullying verdict; otherwise the stored flag is the
      classifier's, and storing fails only when the classifier's `is_flagged`
      is `null` and no phrase overrides it. */
  lemma StoredVerdict(content: string, parsed: Parsed, id: string, timestamp: int)
    ensures var m := StoredMessage(content, Conclude(content, parsed), id, timestamp);
      && (!parsed.Object? ==>
            m == Success(Message(id, content, timestamp, false, Some(1.0), None, None)))
      && (m.Failure? <==>
            parsed.Object? && parsed.verdict.isFlagged.Null? && !MentionsKeyword(ToLower(content)))
      && (m.Success? ==>
            (m.value.isFlagged <==>
               parsed.Object? && (Flagged(parsed.verdict) || MentionsKeyword(ToLower(content)))))
      && (parsed.Object? && !Flagged(parsed.verdict) && MentionsKeyword(ToLower(content)) ==>
            m.Success? && m.value.isFlagged && m.value.safetyScore == Some(0.3)
            && m.value.harassmentType == Some("bullying"))
  {
    var lower := ToLower(content);
    if parsed.Object? && !Flagged(parsed.verdict) && MentionsKeyword(lower) {
      var f := FirstOccurring(lower, Keywords);
      assert EarliestKeyword(lower, f.value);
    }
  }
}
