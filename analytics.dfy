/** The figures `get_analytics` and `get_messages` compute from the `messages`
    collection, here a sequence of documents in insertion order. */
module Analytics {
  import opened Wrappers
  import opened Messages

  /** `HARASSMENT_CATEGORIES`: stored `harassment_type` key and display name,
      in declaration order. */
  const Categories: seq<(string, string)> := [
    ("hate_speech", "Hate Speech"),
    ("bullying", "Bullying"),
    ("sexual_harassment", "Sexual Harassment"),
    ("threats", "Threats/Violence"),
    ("discrimination", "Discrimination"),
    ("toxic", "Toxic Language")
  ]

  /** How many documents `get_messages` returns at most. */
  const ListingLimit: nat := 100
  /** How many flagged documents `get_analytics` reports at most. */
  const RecentLimit: nat := 10

  function Min(a: nat, b: nat): nat {
    if a <= b then a else b
  }

  // ---------------------------------------------------------------------------
  // Counts

  /** `count_documents({"is_flagged": True})`. */
  function FlaggedCount(docs: seq<Message>): (n: nat)
    ensures n <= |docs|
    ensures n == 0 <==> forall i :: 0 <= i < |docs| ==> !docs[i].isFlagged
    ensures n == |docs| <==> forall i :: 0 <= i < |docs| ==> docs[i].isFlagged
  {
    if docs == [] then 0
    else (if docs[0].isFlagged then 1 else 0) + FlaggedCount(docs[1..])
  }

  /** `count_documents({"harassment_type": key})`. */
  function TypeCount(docs: seq<Message>, key: string): (n: nat)
    ensures n <= |docs|
    ensures n == 0 <==> forall i :: 0 <= i < |docs| ==> docs[i].harassmentType != Some(key)
  {
    if docs == [] then 0
    else (if docs[0].harassmentType == Some(key) then 1 else 0) + TypeCount(docs[1..], key)
  }

  /** Storing one more document raises the flagged count by one exactly when
      that document is flagged. */
  lemma {:induction false} FlaggedCountAppend(docs: seq<Message>, m: Message)
    ensures FlaggedCount(docs + [m]) == FlaggedCount(docs) + (if m.isFlagged then 1 else 0)
  {
    if docs != [] {
      assert (docs + [m])[1..] == docs[1..] + [m];
      FlaggedCountAppend(docs[1..], m);
    }
  }

  /** Storing one more document raises the count of its own type by one and
      leaves every other type's count as it was. */
  lemma {:induction false} TypeCountAppend(docs: seq<Message>, m: Message, key: string)
    ensures TypeCount(docs + [m], key) == TypeCount(docs, key) + (if m.harassmentType == Some(key) then 1 else 0)
  {
    if docs != [] {
      assert (docs + [m])[1..] == docs[1..] + [m];
      TypeCountAppend(docs[1..], m, key);
    }
  }

  // ---------------------------------------------------------------------------
  // Safety percentage

  /** `((total - flagged) / max(total, 1)) * 100`, exactly, before rounding. */
  function SafetyPercentage(total: nat, flagged: nat): (r: real)
    ensures total > 0 ==> r * total as real == (total - flagged) as real * 100.0
    ensures total <= 1 ==> r == (total - flagged) as real * 100.0
  {
    var divisor := if total >= 1 then total else 1;
    var q := (total - flagged) as real / divisor as real;
    assert q * divisor as real == (total - flagged) as real;
    q * 100.0
  }

  /** With the counts of one collection (at most `total` flagged) the
      percentage lies between 0 and 100, is 100 exactly when nothing is flagged
      out of at least one message, is 0 exactly when every message is flagged,
      and is the share of unflagged messages. An empty collection yields 0. */
  lemma SafetyPercentageBounds(total: nat, flagged: nat)
    requires flagged <= total
    ensures 0.0 <= SafetyPercentage(total, flagged) <= 100.0
    ensures total > 0 ==> (SafetyPercentage(total, flagged) == 100.0 <==> flagged == 0)
    ensures SafetyPercentage(total, flagged) == 0.0 <==> flagged == total
    ensures total > 0 ==>
      SafetyPercentage(total, flagged) * total as real == (total - flagged) as real * 100.0
  {
    if total > 0 {
      var q := (total - flagged) as real / total as real;
      assert q * total as real == (total - flagged) as real;
      assert q <= 1.0;
      assert q == 1.0 <==> flagged == 0;
    }
  }

  /** Ten messages of which three are flagged give 70; none give 0. */
  lemma SafetyPercentageExamples()
    ensures SafetyPercentage(10, 3) == 70.0
    ensures SafetyPercentage(0, 0) == 0.0
  {
  }

  // ---------------------------------------------------------------------------
  // Breakdown by category

  /** The breakdown after the loop has visited the categories in `cats`: one
      entry per display name, holding that category's count. */
  function BreakdownOver(docs: seq<Message>, cats: seq<(string, string)>): (r: map<string, nat>)
    ensures r.Keys == set c | c in cats :: c.1
  {
    if cats == [] then map[]
    else
      var init := cats[..|cats| - 1];
      var last := cats[|cats| - 1];
      assert cats == init + [last];
      assert (set c | c in cats :: c.1) == (set c | c in init :: c.1) + {last.1};
      BreakdownOver(docs, init)[last.1 := TypeCount(docs, last.0)]
  }

  predicate DistinctNames(cats: seq<(string, string)>) {
    forall i, j :: 0 <= i < j < |cats| ==> cats[i].1 != cats[j].1
  }

  predicate DistinctKeys(cats: seq<(string, string)>) {
    forall i, j :: 0 <= i < j < |cats| ==> cats[i].0 != cats[j].0
  }

  /** The categories have six different keys and six different display names. */
  lemma CategoriesDistinct()
    ensures DistinctKeys(Categories) && DistinctNames(Categories)
  {
    KeysDistinct();
    NamesDistinct();
  }

  /** The category keys have six different lengths. */
  lemma KeysDistinct()
    ensures DistinctKeys(Categories)
  {
  }

  lemma NamesDistinct()
    ensures DistinctNames(Categories)
  {
  }

  /** With distinct display names, each category's entry in the breakdown is
      the number of documents of that category's type. */
  lemma {:induction false} BreakdownCounts(docs: seq<Message>, cats: seq<(string, string)>, i: nat)
    requires DistinctNames(cats) && i < |cats|
    ensures cats[i].1 in BreakdownOver(docs, cats)
    ensures BreakdownOver(docs, cats)[cats[i].1] == TypeCount(docs, cats[i].0)
  {
    var init := cats[..|cats| - 1];
    if i < |cats| - 1 {
      assert DistinctNames(init);
      assert init[i] == cats[i];
      BreakdownCounts(docs, init, i);
    }
  }

  /** How many of `cats` have `m`'s type as their key. */
  function Hits(m: Message, cats: seq<(string, string)>): nat {
    if cats == [] then 0
    else (if m.harassmentType == Some(cats[0].0) then 1 else 0) + Hits(m, cats[1..])
  }

  /** The sum of the breakdown's counts over `cats`. */
  function CountSum(docs: seq<Message>, cats: seq<(string, string)>): nat {
    if cats == [] then 0 else TypeCount(docs, cats[0].0) + CountSum(docs, cats[1..])
  }

  /** A document matches at most one of a list of distinct keys. */
  lemma {:induction false} HitsAtMostOne(m: Message, cats: seq<(string, string)>)
    requires DistinctKeys(cats)
    ensures Hits(m, cats) <= 1
  {
    if cats != [] {
      assert DistinctKeys(cats[1..]);
      HitsAtMostOne(m, cats[1..]);
      if m.harassmentType == Some(cats[0].0) {
        NoHits(m, cats[1..]);
      }
    }
  }

  lemma {:induction false} NoHits(m: Message, cats: seq<(string, string)>)
    requires forall i :: 0 <= i < |cats| ==> m.harassmentType != Some(cats[i].0)
    ensures Hits(m, cats) == 0
  {
    if cats != [] {
      NoHits(m, cats[1..]);
    }
  }

  lemma {:induction false} CountSumFirst(docs: seq<Message>, cats: seq<(string, string)>)
    requires docs != []
    ensures CountSum(docs, cats) == Hits(docs[0], cats) + CountSum(docs[1..], cats)
  {
    if cats != [] {
      CountSumFirst(docs, cats[1..]);
    }
  }

  /** Every document falls in at most one category, so the breakdown never
      counts more documents than the collection holds. */
  lemma {:induction false} BreakdownSumBounded(docs: seq<Message>, cats: seq<(string, string)>)
    requires DistinctKeys(cats)
    ensures CountSum(docs, cats) <= |docs|
  {
    if docs == [] {
      ZeroCounts(cats);
    } else {
      CountSumFirst(docs, cats);
      HitsAtMostOne(docs[0], cats);
      BreakdownSumBounded(docs[1..], cats);
    }
  }

  lemma {:induction false} ZeroCounts(cats: seq<(string, string)>)
    ensures CountSum([], cats) == 0
  {
    if cats != [] {
      ZeroCounts(cats[1..]);
    }
  }

  // ---------------------------------------------------------------------------
  // Newest first

  /** Sorted by `timestamp`, newest first (`sort("timestamp", -1)`). */
  predicate NewestFirst(s: seq<Message>) {
    forall i, j :: 0 <= i < j < |s| ==> s[i].timestamp >= s[j].timestamp
  }

  /** Inserts `m` into a newest-first sequence, ahead of every document that
      is not newer. */
  function InsertByTime(m: Message, s: seq<Message>): (r: seq<Message>)
    requires NewestFirst(s)
    ensures NewestFirst(r)
    ensures multiset(r) == multiset(s) + multiset{m}
    ensures r[0] == m || (s != [] && r[0] == s[0])
    decreases |s|
  {
    if s == [] || s[0].timestamp <= m.timestamp then
      PrependNewest(m, s);
      [m] + s
    else
      assert s == [s[0]] + s[1..];
      var r := InsertByTime(m, s[1..]);
      assert r[0] == m || r[0] == s[1];
      PrependNewest(s[0], r);
      [s[0]] + r
  }

  /** A document at least as new as the head of a newest-first sequence can
      go in front of it. */
  lemma PrependNewest(m: Message, s: seq<Message>)
    requires NewestFirst(s)
    requires s == [] || s[0].timestamp <= m.timestamp
    ensures NewestFirst([m] + s)
  {
    var r := [m] + s;
    forall i, j | 0 <= i < j < |r|
      ensures r[i].timestamp >= r[j].timestamp
    {
      if i == 0 {
        assert r[j] == s[j - 1];
      } else {
        assert r[i] == s[i - 1] && r[j] == s[j - 1];
      }
    }
  }

  /** The documents of `s`, newest first. Documents with equal timestamps may
      come in either order, as in the database. */
  function SortNewestFirst(s: seq<Message>): (r: seq<Message>)
    ensures NewestFirst(r)
    ensures multiset(r) == multiset(s)
  {
    if s == [] then []
    else
      assert s == [s[0]] + s[1..];
      InsertByTime(s[0], SortNewestFirst(s[1..]))
  }

  /** The first `k` of a newest-first sequence are at least as new as the rest. */
  lemma PrefixIsNewest(s: seq<Message>, k: nat)
    requires NewestFirst(s) && k <= |s|
    ensures forall x, y :: x in multiset(s) - multiset(s[..k]) && y in s[..k] ==> x.timestamp <= y.timestamp
  {
    assert s == s[..k] + s[k..];
    assert multiset(s) - multiset(s[..k]) == multiset(s[k..]);
    forall x, y | x in multiset(s) - multiset(s[..k]) && y in s[..k]
      ensures x.timestamp <= y.timestamp
    {
      assert x in s[k..];
      var j :| 0 <= j < |s[k..]| && s[k..][j] == x;
      var i :| 0 <= i < k && s[..k][i] == y;
      assert s[k + j] == x && s[i] == y;
    }
  }

  /** `sort("timestamp", -1)` followed by a limit: the `limit` newest documents
      of `docs` (all of them if there are fewer), newest first. */
  function Newest(docs: seq<Message>, limit: nat): (r: seq<Message>)
    ensures |r| == Min(|docs|, limit)
    ensures NewestFirst(r)
    ensures multiset(r) <= multiset(docs)
    ensures forall x, y :: x in multiset(docs) - multiset(r) && y in r ==> x.timestamp <= y.timestamp
  {
    var sorted := SortNewestFirst(docs);
    var k := Min(|sorted|, limit);
    assert sorted == sorted[..k] + sorted[k..];
    PrefixIsNewest(sorted, k);
    sorted[..k]
  }

  /** `find({"is_flagged": True})`: the flagged documents, in collection order. */
  function FlaggedOnly(docs: seq<Message>): (r: seq<Message>)
    ensures forall x :: multiset(r)[x] == if x.isFlagged then multiset(docs)[x] else 0
    ensures |r| == FlaggedCount(docs)
  {
    if docs == [] then []
    else
      assert docs == [docs[0]] + docs[1..];
      (if docs[0].isFlagged then [docs[0]] else []) + FlaggedOnly(docs[1..])
  }

  /** `get_messages`: at most 100 documents, the newest, newest first. */
  function Listing(docs: seq<Message>): (r: seq<Message>)
    ensures |r| == Min(|docs|, ListingLimit)
    ensures NewestFirst(r) && multiset(r) <= multiset(docs)
    ensures forall x, y :: x in multiset(docs) - multiset(r) && y in r ==> x.timestamp <= y.timestamp
  {
    Newest(docs, ListingLimit)
  }

  /** The recent flagged messages of the analytics: at most ten, all flagged,
      newest first, and no flagged document left out is newer than one kept. */
  function RecentFlagged(docs: seq<Message>): (r: seq<Message>)
    ensures |r| == Min(FlaggedCount(docs), RecentLimit)
    ensures NewestFirst(r) && multiset(r) <= multiset(docs)
    ensures forall i :: 0 <= i < |r| ==> r[i].isFlagged
    ensures forall x, y :: x in multiset(docs) - multiset(r) && x.isFlagged && y in r ==> x.timestamp <= y.timestamp
  {
    var flagged := FlaggedOnly(docs);
    var r := Newest(flagged, RecentLimit);
    RecentFromFlagged(docs, flagged, r);
    r
  }

  /** What a newest-first selection among the flagged documents keeps. */
  lemma RecentFromFlagged(docs: seq<Message>, flagged: seq<Message>, r: seq<Message>)
    requires forall x :: multiset(flagged)[x] == if x.isFlagged then multiset(docs)[x] else 0
    requires multiset(r) <= multiset(flagged)
    requires forall x, y :: x in multiset(flagged) - multiset(r) && y in r ==> x.timestamp <= y.timestamp
    ensures multiset(r) <= multiset(docs)
    ensures forall i :: 0 <= i < |r| ==> r[i].isFlagged
    ensures forall x, y :: x in multiset(docs) - multiset(r) && x.isFlagged && y in r ==> x.timestamp <= y.timestamp
  {
    forall i | 0 <= i < |r| ensures r[i].isFlagged {
      assert r[i] in multiset(r);
      assert multiset(flagged)[r[i]] > 0;
    }
    forall x, y | x in multiset(docs) - multiset(r) && x.isFlagged && y in r
      ensures x.timestamp <= y.timestamp
    {
      assert x in multiset(flagged) - multiset(r);
    }
  }

  // ---------------------------------------------------------------------------
  // The analytics response

  datatype Analytics = Analytics(
    totalMessages: nat,
    flaggedMessages: nat,
    safetyPercentage: real,
    harassmentBreakdown: map<string, nat>,
    recentFlaggedMessages: seq<Message>)

  /** The display names of the categories: the keys of every breakdown. */
  function CategoryNames(): set<string> {
    set c | c in Categories :: c.1
  }

  /** The analytics of a collection (before the percentage is rounded). */
  function AnalyticsOf(docs: seq<Message>): (a: Analytics)
    ensures a.flaggedMessages == FlaggedCount(docs) <= a.totalMessages == |docs|
    ensures a.safetyPercentage == SafetyPercentage(a.totalMessages, a.flaggedMessages)
    ensures 0.0 <= a.safetyPercentage <= 100.0
    ensures a.harassmentBreakdown.Keys == CategoryNames()
    ensures forall i :: 0 <= i < |Categories| ==>
      a.harassmentBreakdown[Categories[i].1] == TypeCount(docs, Categories[i].0)
    ensures |a.recentFlaggedMessages| == Min(a.flaggedMessages, RecentLimit)
    ensures NewestFirst(a.recentFlaggedMessages) && multiset(a.recentFlaggedMessages) <= multiset(docs)
    ensures forall i :: 0 <= i < |a.recentFlaggedMessages| ==> a.recentFlaggedMessages[i].isFlagged
    ensures forall x, y ::
      (x in multiset(docs) - multiset(a.recentFlaggedMessages) && x.isFlagged && y in a.recentFlaggedMessages)
      ==> x.timestamp <= y.timestamp
  {
    var total := |docs|;
    var flagged := FlaggedCount(docs);
    SafetyPercentageBounds(total, flagged);
    CategoriesDistinct();
    forall i | 0 <= i < |Categories|
      ensures BreakdownOver(docs, Categories)[Categories[i].1] == TypeCount(docs, Categories[i].0)
    {
      BreakdownCounts(docs, Categories, i);
    }
    Analytics(total, flagged, SafetyPercentage(total, flagged),
              BreakdownOver(docs, Categories), RecentFlagged(docs))
  }

  /** Storing one more document adds one message to the total, and one
      flagged message exactly when it is flagged. */
  lemma AnalyticsAfterInsert(docs: seq<Message>, m: Message)
    ensures AnalyticsOf(docs + [m]).totalMessages == AnalyticsOf(docs).totalMessages + 1
    ensures AnalyticsOf(docs + [m]).flaggedMessages ==
      AnalyticsOf(docs).flaggedMessages + (if m.isFlagged then 1 else 0)
  {
    FlaggedCountAppend(docs, m);
  }

  /** Storing one more document adds one to the breakdown entry of its
      category and leaves the other entries as they were. */
  lemma BreakdownAfterInsert(docs: seq<Message>, m: Message, i: nat)
    requires i < |Categories|
    ensures AnalyticsOf(docs + [m]).harassmentBreakdown[Categories[i].1] ==
      AnalyticsOf(docs).harassmentBreakdown[Categories[i].1]
        + (if m.harassmentType == Some(Categories[i].0) then 1 else 0)
  {
    TypeCountAppend(docs, m, Categories[i].0);
  }
}
