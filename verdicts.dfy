/** Post-processing of the classifier's reply in `analyze_message_harassment`:
    cleaning a Markdown code fence off the reply, reading it as a verdict
    object, the keyword override and the safe default. */
module Verdicts {
  import opened Wrappers
  import opened Text

  /** What a JSON object holds under one key: nothing, `null`, or a value.
      `dict.get(key, default)` tells the first two apart. */
  datatype Field<+T> = Absent | Null | Present(value: T)

  /** The verdict dict: the four keys the classifier is asked to answer with. */
  datatype Verdict = Verdict(
    isFlagged: Field<bool>,
    safetyScore: Field<real>,
    harassmentType: Field<string>,
    flaggedReason: Field<string>)

  /** What `json.loads` makes of the cleaned reply: not JSON at all, JSON that
      is not an object (so `.get` raises), or a verdict object. */
  datatype Parsed = Malformed | NotAnObject | Object(verdict: Verdict)

  const JsonFence: string := "```json"
  const Fence: string := "```"

  /** The phrases of the rule-based override, in the order they are tried. */
  const Keywords: seq<string> :=
    ["idiot", "stupid", "shut up", "loser", "annoying", "dumb", "hate you", "go away"]

  /** Returned when the classifier call fails or its reply is unusable. */
  const SafeDefault: Verdict := Verdict(Present(false), Present(1.0), Null, Null)

  /** The verdict the override puts in place of the classifier's: flagged as
      bullying with score 0.3, its reason quoting the phrase found. */
  function KeywordVerdict(keyword: string): (r: Verdict)
    ensures Flagged(r) && r.safetyScore == Present(0.3) && r.harassmentType == Present("bullying")
    ensures r.flaggedReason.Present? && Contains(r.flaggedReason.value, "'" + keyword + "'")
  {
    var prefix := "Contains harassment language: ";
    var reason := prefix + ("'" + keyword + "'");
    assert OccursAt(reason, "'" + keyword + "'", |prefix|);
    Verdict(Present(true), Present(0.3), Present("bullying"), Present(reason))
  }

  /** Truthiness of `result.get('is_flagged', False)`: only an explicit `true` counts. */
  predicate Flagged(v: Verdict) {
    v.isFlagged == Present(true)
  }

  // ---------------------------------------------------------------------------
  // Fence cleaning

  /** `re.sub(r'\s*```$', '', s)`: removes a closing fence and the whitespace
      before it. (`$` could also match before a final newline, but the text this
      is applied to never ends in whitespace.) */
  function DropClosingFence(s: string): (r: string)
    ensures !EndsWith(s, Fence) ==> r == s
    ensures EndsWith(s, Fence) ==>
      |r| <= |s| - |Fence| && r == s[..|r|] && AllSpace(s[|r|..|s| - |Fence|])
      && (r == [] || !IsSpace(r[|r| - 1]))
  {
    if EndsWith(s, Fence) then TrimEnd(s[..|s| - |Fence|]) else s
  }

  /** The reply with surrounding whitespace and a ```` ```json ```` or ```` ``` ````
      fence removed. The cleaned reply never has whitespace at either end. */
  function CleanReply(reply: string): (r: string)
    ensures IsTrimmed(r)
  {
    var t := Trim(reply);
    if StartsWith(t, JsonFence) then
      ClosingFenceKeepsTrimmed(t, |JsonFence|);
      DropClosingFence(TrimStart(t[|JsonFence|..]))
    else if StartsWith(t, Fence) then
      ClosingFenceKeepsTrimmed(t, |Fence|);
      DropClosingFence(TrimStart(t[|Fence|..]))
    else t
  }

  /** Skipping the first `k` characters of a stripped text and the whitespace
      after them, then dropping a closing fence, leaves a stripped text. */
  lemma ClosingFenceKeepsTrimmed(t: string, k: nat)
    requires IsTrimmed(t) && k <= |t|
    ensures IsTrimmed(DropClosingFence(TrimStart(t[k..])))
  {
    var u := TrimStart(t[k..]);
    var r := DropClosingFence(u);
    if r != [] {
      assert r[0] == u[0];
      if !EndsWith(u, Fence) {
        assert u[|u| - 1] == t[k..][|t| - k - 1] == t[|t| - 1];
      }
    }
  }

  /** A reply that does not open with a fence is only stripped; in particular a
      stripped, unfenced reply is left as it is. */
  lemma CleanReplyUnfenced(reply: string)
    ensures !StartsWith(Trim(reply), Fence) ==> CleanReply(reply) == Trim(reply)
    ensures IsTrimmed(reply) && !StartsWith(reply, Fence) ==> CleanReply(reply) == reply
  {
    JsonFenceOpensFence(Trim(reply));
  }

  /** Text that opens with the JSON fence opens with the plain fence too. */
  lemma JsonFenceOpensFence(t: string)
    ensures StartsWith(t, JsonFence) ==> StartsWith(t, Fence)
  {
    if StartsWith(t, JsonFence) {
      assert t[..|Fence|] == t[..|JsonFence|][..|Fence|];
    }
  }

  /** Cleaning what follows an opening fence: the separator, the body and the
      closing fence; the body is all that is left. */
  lemma AfterOpeningFence(body: string)
    requires IsTrimmed(body)
    ensures DropClosingFence(TrimStart("\n" + body + "\n" + Fence)) == body
  {
    var tail := body + "\n" + Fence;
    assert TrimStart("\n" + body + "\n" + Fence) == TrimStart(tail) by {
      var s := "\n" + body + "\n" + Fence;
      assert IsSpace(s[0]) && s[1..] == tail;
    }
    if body == [] {
      EmptyBetweenFences();
    } else {
      BodyThenClosingFence(body);
    }
  }

  lemma EmptyBetweenFences()
    ensures DropClosingFence(TrimStart([] + "\n" + Fence)) == []
  {
    var t := [] + "\n" + Fence;
    assert TrimStart(t) == Fence by {
      assert IsSpace(t[0]) && t[1..] == Fence;
      assert TrimStart(Fence) == Fence;
    }
    assert DropClosingFence(Fence) == [] by {
      assert EndsWith(Fence, Fence);
      assert Fence[..|Fence| - |Fence|] == [];
    }
  }

  lemma BodyThenClosingFence(body: string)
    requires IsTrimmed(body) && body != []
    ensures DropClosingFence(TrimStart(body + "\n" + Fence)) == body
  {
    var front := body + "\n";
    var tail := front + Fence;
    assert tail[0] == body[0];
    assert TrimStart(tail) == tail;
    assert tail[..|tail| - |Fence|] == front;
    assert front[..|body|] == body;
    assert TrimEnd(body) == body;
  }

  /** Wrapping a stripped body in either fence, the way a model formats JSON
      in Markdown, and cleaning the reply gives the body back. */
  lemma CleanReplyUnwrapsFence(body: string, fence: string)
    requires IsTrimmed(body)
    requires fence == JsonFence || fence == Fence
    ensures CleanReply(fence + "\n" + body + "\n" + Fence) == body
  {
    var rest := "\n" + body + "\n" + Fence;
    var reply := fence + rest;
    assert fence + "\n" + body + "\n" + Fence == reply;
    assert reply[..|fence|] == fence && reply[|fence|..] == rest;
    assert reply[|reply| - 1] == '`';
    if fence == Fence {
      assert reply[3] == '\n';
      assert reply[..|JsonFence|] != JsonFence;
    }
    CleanFencedReply(reply, fence);
    AfterOpeningFence(body);
  }

  /** A stripped reply that opens with `fence` (and, for the plain fence, not
      with the JSON one) loses the fence, the whitespace after it and a closing
      fence. */
  lemma CleanFencedReply(reply: string, fence: string)
    requires fence == JsonFence || (fence == Fence && !StartsWith(reply, JsonFence))
    requires StartsWith(reply, fence)
    requires reply[|reply| - 1] == '`'
    ensures CleanReply(reply) == DropClosingFence(TrimStart(reply[|fence|..]))
  {
    assert reply[0] == fence[0];
    assert Trim(reply) == reply;
  }

  // ---------------------------------------------------------------------------
  // Keyword override

  /** Keyword `i` is the first phrase, in list order, that occurs in `text`. */
  predicate EarliestKeyword(text: string, i: int) {
    0 <= i < |Keywords| && Contains(text, Keywords[i])
    && forall j :: 0 <= j < i ==> !Contains(text, Keywords[j])
  }

  /** Some phrase of the list occurs in `text`. */
  predicate MentionsKeyword(text: string) {
    exists i :: 0 <= i < |Keywords| && Contains(text, Keywords[i])
  }

  /** Index of the first phrase of `phrases` that occurs in `text`. */
  function FirstOccurring(text: string, phrases: seq<string>): (r: Option<nat>)
    ensures r.None? ==> forall i :: 0 <= i < |phrases| ==> !Contains(text, phrases[i])
    ensures r.Some? ==>
      r.value < |phrases| && Contains(text, phrases[r.value])
      && forall j :: 0 <= j < r.value ==> !Contains(text, phrases[j])
    decreases |phrases|
  {
    if phrases == [] then None
    else if Contains(text, phrases[0]) then Some(0)
    else match FirstOccurring(text, phrases[1..])
      case None => None
      case Some(i) => Some(i + 1)
  }

  /** The rule-based override: an unflagged verdict on a message that mentions
      a listed phrase becomes the bullying verdict naming the first such phrase. */
  function KeywordRule(v: Verdict, content: string): (r: Verdict)
    ensures Flagged(v) ==> r == v
    ensures !Flagged(v) && !MentionsKeyword(ToLower(content)) ==> r == v
    ensures forall i :: !Flagged(v) && EarliestKeyword(ToLower(content), i) ==>
      r == KeywordVerdict(Keywords[i])
    ensures Flagged(r) <==> Flagged(v) || MentionsKeyword(ToLower(content))
  {
    if Flagged(v) then v
    else match FirstOccurring(ToLower(content), Keywords)
      case None => v
      case Some(i) => KeywordVerdict(Keywords[i])
  }

  /** The override as the backend runs it: a loop over the phrases that
      replaces the verdict on the first hit and stops. */
  method ApplyKeywordRule(v: Verdict, content: string) returns (r: Verdict)
    ensures r == KeywordRule(v, content)
  {
    r := v;
    var lower := ToLower(content);
    if !Flagged(v) {
      for i := 0 to |Keywords|
        invariant r == v
        invariant forall j :: 0 <= j < i ==> !Contains(lower, Keywords[j])
      {
        if Contains(lower, Keywords[i]) {
          r := KeywordVerdict(Keywords[i]);
          assert EarliestKeyword(lower, i);
          break;
        }
      }
    }
  }

  /** The earliest phrase in LIST order wins, not the one earliest in the
      text: in "shut up idiot" the override names "idiot", which comes first
      in the list although "shut up" comes first in the message. */
  lemma ListOrderDecides()
    ensures KeywordRule(SafeDefault, "shut up idiot") == KeywordVerdict("idiot")
  {
    var a := "shut up idiot";
    ToLowerIdempotent(a);
    assert a[8..13] == Keywords[0];
    assert OccursAt(a, Keywords[0], 8);
    assert EarliestKeyword(ToLower(a), 0);
  }

  /** In "go away loser" the override names "loser": the three phrases before
      it in the list do not occur, and "go away" comes after it. */
  lemma LaterPhraseLosesToEarlierInList()
    ensures KeywordRule(SafeDefault, "go away loser") == KeywordVerdict("loser")
  {
    var b := "go away loser";
    ToLowerIdempotent(b);
    assert b[8..13] == Keywords[3];
    assert OccursAt(b, Keywords[3], 8);
    Absent(b, Keywords[0], 0);
    Absent(b, Keywords[1], 4);
    Absent(b, Keywords[2], 1);
    assert EarliestKeyword(ToLower(b), 3);
  }

  /** A phrase with a character the text lacks does not occur in it. */
  lemma Absent(text: string, pat: string, j: nat)
    requires j < |pat| && pat[j] !in text
    ensures !Contains(text, pat)
  {
    if Contains(text, pat) {
      ContainsChars(text, pat, j);
    }
  }

  // ---------------------------------------------------------------------------
  // The whole post-processing step

  /** The end of `analyze_message_harassment` once the cleaned reply has been
      decoded: the keyword override on a verdict object, the safe default when
      the reply is not JSON or not an object. */
  function Conclude(content: string, parsed: Parsed): (r: Verdict)
    ensures !parsed.Object? ==> r == SafeDefault
    ensures Flagged(r) <==>
      parsed.Object? && (Flagged(parsed.verdict) || MentionsKeyword(ToLower(content)))
    ensures parsed.Object? && !MentionsKeyword(ToLower(content)) ==> r == parsed.verdict
  {
    match parsed
    case Object(v) => KeywordRule(v, content)
    case _ => SafeDefault
  }

  /** `analyze_message_harassment` after the classifier has answered with
      `reply` (or failed, `None`); `parse` stands for `json.loads`. */
  function AnalyzeHarassment(content: string, reply: Option<string>, parse: string -> Parsed): (r: Verdict)
    ensures reply.None? ==> r == SafeDefault
    ensures reply.Some? ==> r == Conclude(content, parse(CleanReply(reply.value)))
  {
    match reply
    case None => SafeDefault
    case Some(text) => Conclude(content, parse(CleanReply(text)))
  }
}
