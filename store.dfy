/** The `messages` collection and the three routes that use it. */
module Store {
  import opened Wrappers
  import opened Verdicts
  import opened Messages
  import opened Analytics

  /** The `messages` collection of the database. */
  class MessageStore {
    /** The stored documents, in insertion order. */
    var documents: seq<Message>

    constructor ()
      ensures documents == []
    {
      documents := [];
    }

    /** `POST /api/messages` (`analyze_message`): post-processes the
        classifier's reply for `content`, builds the message and stores it;
        on the server error nothing is stored. */
    method PostMessage(content: string, reply: Option<string>, parse: string -> Parsed, id: string, now: int)
      returns (r: Result<Message, string>)
      modifies this
      ensures r == StoredMessage(content, AnalyzeHarassment(content, reply, parse), id, now)
      ensures documents == if r.Success? then old(documents) + [r.value] else old(documents)
    {
      var analysis := SafeDefault;
      if reply.Some? {
        match parse(CleanReply(reply.value)) {
          case Object(v) =>
            analysis := ApplyKeywordRule(v, content);
          case _ =>
        }
      }
      assert analysis == AnalyzeHarassment(content, reply, parse);
      r := StoredMessage(content, analysis, id, now);
      if r.Success? {
        documents := documents + [r.value];
      }
    }

    /** `GET /api/messages` (`get_messages`). */
    method GetMessages() returns (list: seq<Message>)
      ensures list == Listing(documents)
    {
      list := Newest(documents, ListingLimit);
    }

    /** `GET /api/analytics` (`get_analytics`): the counts, the percentage,
        the breakdown filled in one category at a time, and the recent
        flagged messages. */
    method GetAnalytics() returns (a: Analytics)
      ensures a == AnalyticsOf(documents)
    {
      var total := |documents|;
      var flagged := FlaggedCount(documents);
      var percentage := SafetyPercentage(total, flagged);
      var breakdown: map<string, nat> := map[];
      for i := 0 to |Categories|
        invariant breakdown == BreakdownOver(documents, Categories[..i])
      {
        var (key, name) := Categories[i];
        assert Categories[..i + 1][..i] == Categories[..i];
        breakdown := breakdown[name := TypeCount(documents, key)];
      }
      assert Categories[..|Categories|] == Categories;
      a := Analytics(total, flagged, percentage, breakdown, RecentFlagged(documents));
    }
  }
}
