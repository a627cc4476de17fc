# Harassment-detection backend: verdict post-processing and analytics

This project models the deterministic core of the moderation backend
(`backend/server.py`). A user posts a message, and an external language model
classifies it. The backend then:

- cleans the reply;
- reads it as a verdict record;
- applies a rule-based keyword override, or falls back to a safe default;
- stores the resulting `ChatMessage`.

It also serves the newest messages and aggregate analytics over everything it
has stored. The Dafny model turns the classifier's reply and the JSON decoder
into inputs. The `messages` collection becomes a sequence of documents.

Modules:

- `Wrappers`: the `Option` and `Result` datatypes.
- `Text`: the string operations the backend uses. These are `strip()`, the
  regex class `\s` (both over the ASCII whitespace Python recognises), `startswith`,
  `endswith`, `lower()` over ASCII letters, and the substring test `in`.
- `Verdicts`: the verdict record with three-state fields (absent, `null`, value,
  which is what `dict.get(key, default)` distinguishes), fence cleaning, the
  keyword override (a recursive specification and the loop that runs it), and
  `AnalyzeHarassment`, the whole of `analyze_message_harassment` after the
  classifier call, with `Conclude` for what follows the decoding.
- `Messages`: the stored message and how `analyze_message` fills its fields
  from the verdict, including the server error raised when the verdict's
  `is_flagged` is `null`.
- `Analytics`: the counts, the exact safety percentage, the per-category
  breakdown, the newest-first listing with its limit and the recent flagged
  messages.
- `Store`: the `messages` collection as a class whose `PostMessage`,
  `GetMessages` and `GetAnalytics` methods are the three routes. The breakdown
  is filled by a loop over the categories, as in the source.

Where the code and the usual reading of it differ, the model follows the code:

- With no stored messages the safety percentage is `0 / max(0, 1) * 100`,
  that is 0, not 100 (`Analytics.SafetyPercentageExamples`).
- The keyword override names the first phrase in the list that occurs, not the
  phrase that occurs first in the message.
- The override is not applied when the reply could not be used.
- The safety score is stored as given; nothing keeps it within 0.0–1.0.

## Model

| member | source | states |
|---|---|---|
| `Text.Trim` | backend/server.py:116 | `strip()` leaves no whitespace at either end and leaves a string without any at its ends unchanged |
| `Text.TrimKeepsMiddle` | backend/server.py:116 | the stripped text is the slice of the input between a leading and a trailing run of whitespace |
| `Text.TrimStart` | backend/server.py:118 | the result is the suffix of the input left after removing its maximal leading whitespace run (what `^```json\s*` consumes after the fence) |
| `Text.TrimEnd` | backend/server.py:119 | the result is the prefix of the input left after removing its maximal trailing whitespace run |
| `Text.ToLower` | backend/server.py:127 | lower-casing keeps the length and maps each ASCII capital to its small letter, leaving every other character |
| `Text.ToLowerIdempotent` | backend/server.py:127 | lower-casing twice is lower-casing once, and text without capitals is unchanged |
| `Verdicts.DropClosingFence` | backend/server.py:119 | text not ending in a fence is unchanged; otherwise the closing fence and the whole whitespace run before it are removed and nothing else |
| `Verdicts.CleanReply` | backend/server.py:116-122 | the cleaned reply never starts or ends with whitespace, whichever branch is taken |
| `Verdicts.CleanReplyUnfenced` | backend/server.py:116-122 | a reply not opening with a fence is only stripped; a stripped unfenced reply is returned unchanged |
| `Verdicts.CleanReplyUnwrapsFence` | backend/server.py:116-122 | a stripped body wrapped as a ```` ```json ```` or ```` ``` ```` code block comes back exactly |
| `Verdicts.KeywordVerdict` | backend/server.py:135-140 | the override's verdict is flagged, scores 0.3, has type "bullying" and a reason quoting the phrase found |
| `Verdicts.FirstOccurring` | backend/server.py:132-133 | returns the index of the first phrase in list order that occurs in the text, with none before it occurring; `None` exactly when no phrase occurs |
| `Verdicts.KeywordRule` | backend/server.py:126-141 | a flagged verdict is kept; an unflagged one is kept when no phrase occurs in the lower-cased message, else replaced by the bullying verdict (score 0.3) naming the earliest phrase in list order; the result is flagged iff the verdict was or a phrase occurs |
| `Verdicts.ApplyKeywordRule` | backend/server.py:131-141 | the loop that replaces the verdict at the first hit and breaks computes exactly `KeywordRule` |
| `Verdicts.ListOrderDecides` | backend/server.py:128-141 | "shut up idiot" is overridden naming "idiot", though "shut up" comes first in the text |
| `Verdicts.LaterPhraseLosesToEarlierInList` | backend/server.py:128-141 | "go away loser" is overridden naming "loser", the earlier of the two in the list |
| `Verdicts.Conclude` | backend/server.py:124-164 | a reply that is not JSON or not an object yields the safe default `{false, 1.0, null, null}` whatever the message says; a verdict object yields a result flagged iff the classifier flagged it or a phrase occurs, and the classifier's own verdict when no phrase occurs |
| `Verdicts.AnalyzeHarassment` | backend/server.py:61-164 | a failed classifier call yields the safe default; otherwise the fence-cleaned reply is decoded and concluded as above |
| `Messages.Get` | backend/server.py:192-195 | `get(key, default)` gives the default for an absent key, nothing for `null`, the value otherwise |
| `Messages.StoredMessage` | backend/server.py:190-196 | the message fails validation exactly when `is_flagged` is `null`; otherwise it carries the content, id and time, is flagged iff the verdict says `true`, scores 1.0 when the score is absent, and copies type and reason (absent when missing) |
| `Messages.StoredVerdict` | backend/server.py:187-196 | an unusable reply stores a safe message with score 1.0; a flagged or phrase-bearing message is stored flagged, and an unflagged one is stored unflagged; a phrase overriding an unflagged verdict stores score 0.3 and type "bullying"; storing fails only on a `null` flag with no phrase |
| `Analytics.FlaggedCount` | backend/server.py:226 | the flagged count is at most the total, 0 iff no document is flagged, the total iff all are |
| `Analytics.TypeCount` | backend/server.py:234 | a category's count is at most the total and 0 iff no document has that type |
| `Analytics.FlaggedCountAppend` | backend/server.py:226 | storing a document raises the flagged count by one iff it is flagged |
| `Analytics.TypeCountAppend` | backend/server.py:234 | storing a document raises the count of its own type by one and no other |
| `Analytics.SafetyPercentage` | backend/server.py:229 | the percentage is the unflagged share times 100 when there are messages, and the divisor is clamped to 1 (`max(total, 1)`) for zero or one message |
| `Analytics.SafetyPercentageBounds` | backend/server.py:229 | with `flagged <= total` the percentage is in [0, 100], is 100 iff nothing is flagged (given at least one message), 0 iff everything is, and equals `(total - flagged) * 100 / total` |
| `Analytics.SafetyPercentageExamples` | backend/server.py:229 | 3 flagged of 10 gives 70; an empty collection gives 0 |
| `Analytics.BreakdownOver` | backend/server.py:232-235 | the breakdown filled over a list of categories has exactly one key per display name in it |
| `Analytics.BreakdownCounts` | backend/server.py:232-235 | each display name maps to the number of documents whose type is that category's key |
| `Analytics.BreakdownSumBounded` | backend/server.py:32-39 | with distinct category keys the breakdown's counts add up to at most the number of documents |
| `Analytics.InsertByTime` | backend/server.py:212 | inserting into a newest-first sequence keeps it newest first and adds exactly that document |
| `Analytics.SortNewestFirst` | backend/server.py:212 | the sorted sequence is newest first and a permutation of the input |
| `Analytics.Newest` | backend/server.py:212 | sort-then-limit returns `min(n, limit)` documents of the input, newest first, none older than a document left out |
| `Analytics.FlaggedOnly` | backend/server.py:238 | the filter keeps every flagged document with its multiplicity and nothing else; its length is the flagged count |
| `Analytics.Listing` | backend/server.py:212 | the listing holds `min(n, 100)` stored documents, newest first, and no document left out is newer than one listed |
| `Analytics.RecentFlagged` | backend/server.py:237-239 | at most ten, `min(flagged, 10)` exactly, all flagged, newest first, drawn from the collection, and no flagged document left out is newer than one kept |
| `Analytics.AnalyticsOf` | backend/server.py:218-247 | the total is the number of documents and the flagged count the number flagged (at most the total); the percentage is `SafetyPercentage` of the two and lies in [0, 100]; the breakdown is keyed by exactly the six display names with each category's count; the recent list holds `min(flagged, 10)` flagged documents drawn from the collection, newest first, with no flagged document left out newer than one kept |
| `Analytics.AnalyticsAfterInsert` | backend/server.py:223-226 | storing a message raises the total by one and the flagged count by one iff it is flagged |
| `Analytics.BreakdownAfterInsert` | backend/server.py:232-235 | storing a message raises its own category's entry by one and leaves the others |
| `Store.MessageStore.PostMessage` | backend/server.py:182-206 | returns the stored message of `AnalyzeHarassment`'s verdict; appends it to the collection on success and leaves the collection unchanged on the error |
| `Store.MessageStore.GetMessages` | backend/server.py:208-216 | returns the listing of the current collection: the `min(n, 100)` newest documents, newest first |
| `Store.MessageStore.GetAnalytics` | backend/server.py:218-251 | the analytics computed with the category loop are those of `AnalyticsOf` on the current collection |

## Left out

- The language-model call (`LlmChat`, `send_message`) and its system prompt. The reply is an input, `Option<string>`, where `None` means the call raised. Nothing is claimed about classification quality.
- `json.loads` is a function parameter (`string -> Parsed`). JSON whose verdict fields have other types than the model's (for example `"is_flagged": "yes"`), extra keys, and pydantic's coercion of such values are not modelled.
- Python's Unicode `lower()` and Unicode whitespace. Lower-casing and whitespace cover ASCII only.
- `$` in `\s*```$` also matches before a final newline. That case cannot arise, because the text it is applied to was already stripped.
- Floating point. The percentage is exact over `real`, `round(..., 1)` is not applied, and 0.3 and 1.0 are exact reals.
- MongoDB I/O. The collection is a sequence, and `count_documents`, `find`, `sort` and `limit` are functions over it. A failing insert or query (an HTTP 500 from the listing and analytics routes) is not modelled.
- Database order for equal timestamps. Documents with equal timestamps may be returned in either order, and the model picks one.
- `prepare_for_mongo` and `parse_from_mongo`. Timestamps are integers; the ISO-8601 strings actually stored and sorted are not modelled.
- UUID and clock. Message identifiers and creation times are parameters of `PostMessage`.
- The insertion order of the breakdown's keys. A Dafny map has no order.
- AnalyticsOf: the figures are computed from one snapshot of the collection. The route awaits separate queries (`backend/server.py:223`, `:226`, `:234`, `:238`), so a message inserted by a concurrent post (`:200`) between them can make them disagree, for example a flagged count above the total and a negative percentage. `SafetyPercentageBounds` and the bounds in `AnalyticsOf` hold only for a consistent snapshot; interleaved requests are not modelled.
- FastAPI routing, the root route, CORS, logging and environment configuration.
- The `DELETE /api/messages` route (`clear_messages`) is not part of this model.
- `backend_test.py` is not part of this model. It drives a live deployment over HTTP; its expected outcomes for "shut up idiot" and "go away loser" are the two override lemmas above.
