/** The recommendation side of utils/recommendations.py: recording user
    interactions, summarising a user's last thirty days of them, the
    default and top-three paths of recommendation generation, and the
    display projection. The clock, the database failures and the language
    model's reply are parameters. */
module Recommendations {
  import opened Common

  /** A row of `user_interactions`. NULL columns are None; `createdAt` is
      in seconds. */
  datatype Interaction = Interaction(
    userId: int,
    kind: string,
    businessId: Option<int>,
    category: Option<string>,
    state: Option<string>,
    sustainabilityScore: Option<real>,
    createdAt: int)

  /** One entry of the `data` dictionary: the key is absent, present with
      None, or present with a value. */
  datatype Entry<T> = Absent | Null | Given(value: T)

  function Get<T>(e: Entry<T>): Option<T> {
    if e.Given? then Some(e.value) else None
  }

  datatype InteractionData = InteractionData(
    businessId: Entry<int>,
    category: Entry<string>,
    state: Entry<string>,
    sustainabilityScore: Entry<real>)

  /** `int(data['business_id'])` raises when the key is present with None. */
  predicate Converts(data: InteractionData) { !data.businessId.Null? }

  /** The row `track_user_interaction` adds. */
  function Recorded(userId: int, kind: string, data: InteractionData, now: int): (r: Interaction)
    ensures r.userId == userId && r.kind == kind && r.createdAt == now
    ensures r.businessId == Get(data.businessId) && r.category == Get(data.category)
    ensures r.state == Get(data.state) && r.sustainabilityScore == Get(data.sustainabilityScore)
  {
    Interaction(userId, kind, Get(data.businessId), Get(data.category), Get(data.state),
                Get(data.sustainabilityScore), now)
  }

  // ---------------------------------------------------------------------------
  // The 30-day window
  // ---------------------------------------------------------------------------

  const ThirtyDays: int := 30 * 24 * 60 * 60

  predicate NewerOrSame(a: Interaction, b: Interaction) { a.createdAt >= b.createdAt }

  lemma NewerOrSameIsTotalPreorder()
    ensures TotalPreorder(NewerOrSame)
  {
  }

  predicate InWindow(i: Interaction, userId: int, now: int) {
    i.userId == userId && i.createdAt >= now - ThirtyDays
  }

  /** The user's interactions created at or after `now - 30 days`, newest
      first. */
  function Window(log: seq<Interaction>, userId: int, now: int): (w: seq<Interaction>)
    ensures SortedBy(w, NewerOrSame)
    ensures forall i :: multiset(w)[i] == if InWindow(i, userId, now) then multiset(log)[i] else 0
    ensures forall i :: i in w <==> i in log && InWindow(i, userId, now)
  {
    var rows := Filter(log, (i: Interaction) => InWindow(i, userId, now));
    NewerOrSameIsTotalPreorder();
    var w := Sort(rows, NewerOrSame);
    assert forall i :: i in w <==> i in rows by {
      forall i ensures i in w <==> i in rows {
        assert i in w <==> i in multiset(w);
      }
    }
    w
  }

  // ---------------------------------------------------------------------------
  // track_user_interaction
  // ---------------------------------------------------------------------------

  /** The `user_interactions` table. */
  class InteractionLog {
    var rows: seq<Interaction>

    constructor ()
      ensures rows == []
    {
      rows := [];
    }

    /** Records one interaction; any failure (a None business id, or the
        commit failing) is logged and rolled back, never raised. */
    method Track(userId: int, kind: string, data: InteractionData, now: int, commitFails: bool)
      modifies this
      ensures Converts(data) && !commitFails ==> rows == old(rows) + [Recorded(userId, kind, data, now)]
      ensures !Converts(data) || commitFails ==> rows == old(rows)
    {
      if data.businessId.Null? {
        return;
      }
      if !commitFails {
        rows := rows + [Recorded(userId, kind, data, now)];
      }
    }

    /** `get_user_interaction_history` over the current rows. */
    method History(userId: int, now: int, queryFails: bool) returns (h: History)
      ensures h == HistoryOf(rows, userId, now, queryFails)
      ensures queryFails ==> h == ErrorHistory
      ensures !queryFails && Window(rows, userId, now) == [] ==> h == NoHistory
      ensures !queryFails && Window(rows, userId, now) != [] ==> Summarises(h, Window(rows, userId, now))
    {
      if queryFails {
        return ErrorHistory;
      }
      var window := Window(rows, userId, now);
      if window == [] {
        return NoHistory;
      }
      h := Aggregate(window);
    }
  }

  // ---------------------------------------------------------------------------
  // get_user_interaction_history
  // ---------------------------------------------------------------------------

  /** The history dictionary without the average score. `categoryCounts`
      is the counting dictionary in insertion order; `categoriesViewed` is
      its key list. */
  datatype History = History(
    interactionHistory: string,
    categoriesViewed: seq<string>,
    statesSearched: seq<string>,
    categoryCounts: seq<(string, nat)>)

  const NoHistory: History := History("New user, no interaction history yet", [], [], [])
  const ErrorHistory: History := History("Error retrieving interaction history", [], [], [])

  /** The bullet separator of `interaction_history`, as the bytes of the
      source file decode: U+00E2 U+20AC U+00A2 between spaces. */
  const Separator: string := " \U{E2}\U{20AC}\U{A2} "

  /** `f"{x}"` of an optional column. */
  function Show(v: Option<string>): string {
    if v.Some? then v.value else "None"
  }

  /** The description of one interaction, for the three tracked kinds. */
  function Describe(i: Interaction): Option<string> {
    if i.kind == "view_business" then Some("Viewed " + Show(i.category) + " business")
    else if i.kind == "search_location" then Some("Searched businesses in " + Show(i.state))
    else if i.kind == "filter_category" then Some("Explored " + Show(i.category) + " category")
    else None
  }

  function Descriptions(w: seq<Interaction>): (d: seq<string>)
    ensures |d| <= |w|
  {
    if w == [] then []
    else
      var prev := Descriptions(w[..|w| - 1]);
      var last := Describe(w[|w| - 1]);
      if last.Some? then prev + [last.value] else prev
  }

  predicate HasCategory(i: Interaction, c: string) { i.category == Some(c) }

  /** The number of interactions in `w` with category `c`. */
  function CategoryCount(w: seq<Interaction>, c: string): nat {
    |Filter(w, (i: Interaction) => HasCategory(i, c))|
  }

  /** The truthy states of `w`, in order. */
  function StatesOf(w: seq<Interaction>): (s: seq<string>)
    ensures forall x :: x in s <==> x != "" && exists i :: i in w && i.state == Some(x)
  {
    if w == [] then []
    else
      var prev := StatesOf(w[..|w| - 1]);
      var last := w[|w| - 1];
      assert w == w[..|w| - 1] + [last];
      if last.state.Some? && last.state.value != "" then prev + [last.state.value] else prev
  }

  /** The truthy categories of `w`, in order. */
  function CategoriesOf(w: seq<Interaction>): (s: seq<string>)
    ensures forall x :: x in s <==> x != "" && exists i :: i in w && i.category == Some(x)
  {
    if w == [] then []
    else
      var prev := CategoriesOf(w[..|w| - 1]);
      var last := w[|w| - 1];
      assert w == w[..|w| - 1] + [last];
      if last.category.Some? && last.category.value != "" then prev + [last.category.value] else prev
  }

  /** The counting dictionary after the loop has seen `w`. */
  function CountsOf(w: seq<Interaction>): seq<(string, nat)> {
    if w == [] then []
    else
      var prev := CountsOf(w[..|w| - 1]);
      var c := w[|w| - 1].category;
      if c.Some? && c.value != "" then Bump(prev, c.value) else prev
  }

  /** The history dictionary of a non-empty window. */
  function Summary(w: seq<Interaction>): History {
    History(Join(Separator, LastN(Descriptions(w), 5)), Keys(CountsOf(w)), Distinct(StatesOf(w)), CountsOf(w))
  }

  /** `get_user_interaction_history` as a function of the table. */
  function HistoryOf(rows: seq<Interaction>, userId: int, now: int, queryFails: bool): History {
    if queryFails then ErrorHistory
    else
      var w := Window(rows, userId, now);
      if w == [] then NoHistory else Summary(w)
  }

  /** What the aggregation loop promises about a non-empty window: among
      other things, the counts are keyed by the distinct truthy categories
      in the order the window first shows them. */
  ghost predicate Summarises(h: History, w: seq<Interaction>) {
    && h.interactionHistory == Join(Separator, LastN(Descriptions(w), 5))
    && h.categoriesViewed == Keys(h.categoryCounts)
    && h.categoriesViewed == Distinct(CategoriesOf(w))
    && NoDups(h.categoriesViewed)
    && (forall c :: c in h.categoriesViewed <==> c != "" && CategoryCount(w, c) > 0)
    && (forall k :: 0 <= k < |h.categoryCounts| ==> h.categoryCounts[k].1 == CategoryCount(w, h.categoryCounts[k].0))
    && NoDups(h.statesSearched)
    && (forall s :: s in h.statesSearched <==> s != "" && exists i :: i in w && i.state == Some(s))
  }

  /** `category_counts[c] = category_counts.get(c, 0) + 1` on the
      dictionary in insertion order. */
  function Bump(counts: seq<(string, nat)>, c: string): (r: seq<(string, nat)>)
    ensures Keys(r) == if c in Keys(counts) then Keys(counts) else Keys(counts) + [c]
    ensures forall k :: 0 <= k < |r| ==>
      r[k].1 == (if k < |counts| then counts[k].1 else 0) + (if r[k].0 == c then 1 else 0)
  {
    if c in Keys(counts) then
      seq(|counts|, k requires 0 <= k < |counts| => if counts[k].0 == c then (c, counts[k].1 + 1) else counts[k])
    else counts + [(c, 1)]
  }

  /** `counts` is the counting dictionary of `prefix`: one entry per
      truthy category, holding its number of occurrences. */
  ghost predicate CountsMatch(counts: seq<(string, nat)>, prefix: seq<Interaction>) {
    && NoDups(Keys(counts))
    && (forall c :: c in Keys(counts) <==> c != "" && CategoryCount(prefix, c) > 0)
    && (forall k :: 0 <= k < |counts| ==> counts[k].1 == CategoryCount(prefix, counts[k].0))
  }

  /** The loop over the window. */
  method Aggregate(w: seq<Interaction>) returns (h: History)
    ensures h == Summary(w)
    ensures Summarises(h, w)
  {
    var counts: seq<(string, nat)> := [];
    var states: seq<string> := [];
    var descriptions: seq<string> := [];
    for n := 0 to |w|
      invariant states == StatesOf(w[..n])
      invariant descriptions == Descriptions(w[..n])
      invariant counts == CountsOf(w[..n])
    {
      var i := w[n];
      assert w[..n + 1][..n] == w[..n];
      if i.category.Some? && i.category.value != "" {
        counts := Bump(counts, i.category.value);
      }
      if i.state.Some? && i.state.value != "" {
        states := states + [i.state.value];
      }
      var d := Describe(i);
      if d.Some? {
        descriptions := descriptions + [d.value];
      }
    }
    assert w[..|w|] == w;
    h := History(Join(Separator, LastN(descriptions, 5)), Keys(counts), Distinct(states), counts);
    SummaryDescribesWindow(w);
  }

  /** The dictionary built over a window counts each truthy category of
      it, keyed in first-seen order. */
  lemma {:induction false} CountsOfMatches(w: seq<Interaction>)
    ensures CountsMatch(CountsOf(w), w)
    ensures Keys(CountsOf(w)) == Distinct(CategoriesOf(w))
    decreases |w|
  {
    if w != [] {
      var n := |w| - 1;
      var init := w[..n];
      var c := w[n].category;
      assert w[..n + 1] == w;
      CountsOfMatches(init);
      CountsStep(CountsOf(init), w, n);
      if c.Some? && c.value != "" {
        DistinctSnoc(CategoriesOf(init), c.value);
      }
    }
  }

  /** The summary of a window is what the aggregation promises. */
  lemma SummaryDescribesWindow(w: seq<Interaction>)
    ensures Summarises(Summary(w), w)
  {
    CountsOfMatches(w);
  }

  /** One iteration of the counting loop keeps the dictionary equal to the
      counts of the interactions seen so far. */
  lemma CountsStep(counts: seq<(string, nat)>, w: seq<Interaction>, n: nat)
    requires n < |w| && CountsMatch(counts, w[..n])
    ensures var i := w[n];
      CountsMatch(if i.category.Some? && i.category.value != "" then Bump(counts, i.category.value) else counts, w[..n + 1])
  {
    CategoryCountStep(w, n);
    var i := w[n];
    if i.category.Some? && i.category.value != "" {
      BumpStep(counts, w[..n], i);
    }
  }

  /** Counting one more interaction. */
  lemma CategoryCountStep(w: seq<Interaction>, n: nat)
    requires n < |w|
    ensures forall c :: CategoryCount(w[..n + 1], c) == CategoryCount(w[..n], c) + (if HasCategory(w[n], c) then 1 else 0)
  {
    assert w[..n + 1] == w[..n] + [w[n]];
    forall c ensures CategoryCount(w[..n + 1], c) == CategoryCount(w[..n], c) + (if HasCategory(w[n], c) then 1 else 0) {
      FilterSnoc(w[..n], w[n], (i: Interaction) => HasCategory(i, c));
    }
  }

  /** Counting one more interaction with a truthy category keeps the
      dictionary equal to the category counts. */
  lemma BumpStep(counts: seq<(string, nat)>, prefix: seq<Interaction>, i: Interaction)
    requires i.category.Some? && i.category.value != ""
    requires NoDups(Keys(counts))
    requires forall x :: x in Keys(counts) <==> x != "" && CategoryCount(prefix, x) > 0
    requires forall k :: 0 <= k < |counts| ==> counts[k].1 == CategoryCount(prefix, counts[k].0)
    ensures var r := Bump(counts, i.category.value);
      && NoDups(Keys(r))
      && (forall x :: x in Keys(r) <==> x != "" && CategoryCount(prefix, x) + (if HasCategory(i, x) then 1 else 0) > 0)
      && (forall k :: 0 <= k < |r| ==> r[k].1 == CategoryCount(prefix, r[k].0) + (if HasCategory(i, r[k].0) then 1 else 0))
  {
    var c := i.category.value;
    var r := Bump(counts, c);
    if c !in Keys(counts) {
      assert CategoryCount(prefix, c) == 0;
      assert Keys(r) == Keys(counts) + [c];
      assert r[|counts|].0 == c;
    } else {
      forall k | 0 <= k < |r| ensures r[k].0 == counts[k].0 {
        assert Keys(r)[k] == Keys(counts)[k];
      }
    }
  }

  /** Counting is insensitive to order. */
  lemma CategoryCountPermutation(a: seq<Interaction>, b: seq<Interaction>, c: string)
    requires multiset(a) == multiset(b)
    ensures CategoryCount(a, c) == CategoryCount(b, c)
  {
    var fa := Filter(a, (i: Interaction) => HasCategory(i, c));
    var fb := Filter(b, (i: Interaction) => HasCategory(i, c));
    assert multiset(fa) == multiset(fb);
    assert |fa| == |multiset(fa)|;
  }

  /** A tracked interaction is in its user's window at the time it was
      recorded, and adds one to the count of its category. */
  lemma {:induction false} TrackedInteractionCounted(log: seq<Interaction>, r: Interaction, now: int, c: string)
    requires r.createdAt == now
    ensures r in Window(log + [r], r.userId, now)
    ensures CategoryCount(Window(log + [r], r.userId, now), c) ==
      CategoryCount(Window(log, r.userId, now), c) + (if HasCategory(r, c) then 1 else 0)
  {
    var before := Window(log, r.userId, now);
    var after := Window(log + [r], r.userId, now);
    assert multiset(after) == multiset(before + [r]) by {
      forall x ensures multiset(after)[x] == multiset(before + [r])[x] {
        assert multiset(log + [r]) == multiset(log) + multiset{r};
      }
    }
    CategoryCountPermutation(after, before + [r], c);
    FilterSnoc(before, r, (i: Interaction) => HasCategory(i, c));
  }

  // ---------------------------------------------------------------------------
  // The last five descriptions
  // ---------------------------------------------------------------------------

  /** Where the interactions contributing the last `n` descriptions of `w`
      begin. */
  function DescribedSuffixStart(w: seq<Interaction>, n: nat): (j: nat)
    ensures j <= |w|
    decreases |w|
  {
    if w == [] || n == 0 then |w|
    else if Describe(w[|w| - 1]).Some? then DescribedSuffixStart(w[..|w| - 1], n - 1)
    else DescribedSuffixStart(w[..|w| - 1], n)
  }

  lemma LastNSnoc<T>(s: seq<T>, x: T, n: nat)
    requires n > 0
    ensures LastN(s + [x], n) == LastN(s, n - 1) + [x]
  {
  }

  lemma DescriptionsSnoc(w: seq<Interaction>, j: nat)
    requires j < |w|
    ensures Descriptions(w[j..]) ==
      var d := Describe(w[|w| - 1]);
      Descriptions(w[..|w| - 1][j..]) + (if d.Some? then [d.value] else [])
  {
    assert w[j..][..|w[j..]| - 1] == w[..|w| - 1][j..];
  }

  /** Peeling a described last interaction off the window. */
  lemma DescribedLastStep(w: seq<Interaction>, n: nat)
    requires w != [] && n > 0 && Describe(w[|w| - 1]).Some?
    ensures DescribedSuffixStart(w, n) == DescribedSuffixStart(w[..|w| - 1], n - 1)
    ensures LastN(Descriptions(w), n) ==
      LastN(Descriptions(w[..|w| - 1]), n - 1) + [Describe(w[|w| - 1]).value]
    ensures Descriptions(w[DescribedSuffixStart(w, n)..]) ==
      Descriptions(w[..|w| - 1][DescribedSuffixStart(w, n)..]) + [Describe(w[|w| - 1]).value]
  {
    DescriptionsSnoc(w, DescribedSuffixStart(w, n));
    LastNSnoc(Descriptions(w[..|w| - 1]), Describe(w[|w| - 1]).value, n);
  }

  /** Peeling an undescribed last interaction off the window. */
  lemma UndescribedLastStep(w: seq<Interaction>, n: nat)
    requires w != [] && n > 0 && Describe(w[|w| - 1]).None?
    ensures DescribedSuffixStart(w, n) == DescribedSuffixStart(w[..|w| - 1], n)
    ensures Descriptions(w) == Descriptions(w[..|w| - 1])
    ensures Descriptions(w[DescribedSuffixStart(w, n)..]) ==
      Descriptions(w[..|w| - 1][DescribedSuffixStart(w, n)..])
  {
    DescriptionsSnoc(w, DescribedSuffixStart(w, n));
  }

  /** The last `n` descriptions are those of a suffix of the window. */
  lemma {:induction false} LastDescriptionsSuffix(w: seq<Interaction>, n: nat)
    ensures LastN(Descriptions(w), n) == Descriptions(w[DescribedSuffixStart(w, n)..])
    decreases |w|
  {
    var j := DescribedSuffixStart(w, n);
    if w == [] || n == 0 {
      assert j == |w|;
      assert w[j..] == [];
      assert Descriptions(w[j..]) == [];
      assert |LastN(Descriptions(w), n)| == 0;
    } else if Describe(w[|w| - 1]).Some? {
      var init := w[..|w| - 1];
      DescribedLastStep(w, n);
      LastDescriptionsSuffix(init, n - 1);
      assert LastN(Descriptions(init), n - 1) == Descriptions(init[j..]);
    } else {
      var init := w[..|w| - 1];
      UndescribedLastStep(w, n);
      LastDescriptionsSuffix(init, n);
      assert LastN(Descriptions(init), n) == Descriptions(init[j..]);
    }
  }

  /** The joined descriptions are those of a suffix of the window; since the
      window is ordered newest first, every interaction left out is at
      least as new as every one kept: the history shows the oldest five. */
  lemma LastDescriptionsAreOldest(w: seq<Interaction>, n: nat)
    ensures LastN(Descriptions(w), n) == Descriptions(w[DescribedSuffixStart(w, n)..])
    ensures SortedBy(w, NewerOrSame) ==>
      forall a, b :: 0 <= a < DescribedSuffixStart(w, n) <= b < |w| ==> w[a].createdAt >= w[b].createdAt
  {
    LastDescriptionsSuffix(w, n);
  }

  // ---------------------------------------------------------------------------
  // generate_recommendations
  // ---------------------------------------------------------------------------

  function Strings(items: seq<string>): (j: Json)
    ensures j.JList? && |j.items| == |items|
  {
    JList(seq(|items|, k requires 0 <= k < |items| => JStr(items[k])))
  }

  function Recommendations(business: seq<Json>, tips: seq<string>, categories: seq<string>): Json {
    JObject(map[
      "business_recommendations" := JList(business),
      "sustainability_tips" := Strings(tips),
      "suggested_categories" := Strings(categories)])
  }

  /** The fixed answer for a user without viewed categories. */
  const GettingStarted: Json := Recommendations(
    [JObject(map[
      "type" := JStr("getting_started"),
      "recommendation" := JStr("Start exploring sustainable businesses in your area"),
      "reason" := JStr("Welcome! Let's discover sustainable businesses together")])],
    ["Begin by exploring businesses with high sustainability scores",
     "Look for certified sustainable businesses in your region"],
    ["Retail", "Manufacturing", "Services"])

  /** The answer when the model call or the parsing of its reply fails. */
  const Fallback: Json := Recommendations([], ["Focus on businesses with high sustainability scores"], [])

  /** `sorted(category_counts.items(), key=count, reverse=True)[:3]`. */
  function MostViewed(h: History): (r: seq<(string, nat)>)
    ensures |r| == if |h.categoryCounts| < 3 then |h.categoryCounts| else 3
    ensures forall i, j :: 0 <= i < j < |r| ==> r[i].1 >= r[j].1
    ensures forall p :: p in r ==> p in h.categoryCounts
    ensures forall p :: p in h.categoryCounts && p !in r ==> forall q :: q in r ==> q.1 >= p.1
  {
    TopByCount(h.categoryCounts, 3)
  }

  /** `f"{cat} ({count} views)"` for each of the most viewed categories. */
  function MostViewedText(h: History): (r: seq<string>)
    ensures |r| == |MostViewed(h)|
  {
    var top := MostViewed(h);
    seq(|top|, k requires 0 <= k < |top| => top[k].0 + " (" + NatToString(top[k].1) + " views)")
  }

  /** The prompt variables the model is given (the counts dictionary and
      the average score are not modelled). */
  datatype Prompt = Prompt(interactionHistory: string, mostViewedCategories: string, statesSearched: string)

  function PromptOf(h: History): (p: Prompt)
    ensures p.interactionHistory == h.interactionHistory
    ensures p.mostViewedCategories == Join(", ", MostViewedText(h))
    ensures Join(", ", h.statesSearched) == "" ==> p.statesSearched == "None yet"
    ensures Join(", ", h.statesSearched) != "" ==> p.statesSearched == Join(", ", h.statesSearched)
  {
    var states := Join(", ", h.statesSearched);
    Prompt(h.interactionHistory, Join(", ", MostViewedText(h)), if states == "" then "None yet" else states)
  }

  /** `generate_recommendations` given the user's history. `llm` is the
      model call followed by JSON parsing: None when either raises. */
  function Generate(h: History, llm: Prompt -> Option<Json>): (r: Json)
    ensures h.categoriesViewed == [] ==> r == GettingStarted
    ensures h.categoriesViewed != [] && llm(PromptOf(h)).Some? ==> r == llm(PromptOf(h)).value
    ensures h.categoriesViewed != [] && llm(PromptOf(h)).None? ==> r == Fallback
  {
    if h.categoriesViewed == [] then GettingStarted
    else
      var reply := llm(PromptOf(h));
      if reply.Some? then reply.value else Fallback
  }

  /** Without viewed categories the model is not consulted: any two model
      replies give the same answer. Both the new-user and the error history
      take this path. */
  lemma NoHistoryGetsStarted(llm1: Prompt -> Option<Json>, llm2: Prompt -> Option<Json>)
    ensures Generate(NoHistory, llm1) == Generate(NoHistory, llm2) == GettingStarted
    ensures Generate(ErrorHistory, llm1) == Generate(ErrorHistory, llm2) == GettingStarted
  {
  }

  /** The listed categories are truthy and carry their true counts. */
  lemma MostViewedCounted(h: History, w: seq<Interaction>)
    requires h.categoriesViewed == Keys(h.categoryCounts)
    requires forall c :: c in h.categoriesViewed <==> c != "" && CategoryCount(w, c) > 0
    requires forall k :: 0 <= k < |h.categoryCounts| ==> h.categoryCounts[k].1 == CategoryCount(w, h.categoryCounts[k].0)
    ensures forall p :: p in MostViewed(h) ==> p.0 != "" && p.1 == CategoryCount(w, p.0) > 0
  {
    forall p | p in MostViewed(h) ensures p.0 != "" && p.1 == CategoryCount(w, p.0) > 0 {
      var k :| 0 <= k < |h.categoryCounts| && h.categoryCounts[k] == p;
      assert p.0 == h.categoriesViewed[k];
    }
  }

  /** No category left out was viewed more often than a listed one. */
  lemma MostViewedOutranksRest(h: History, w: seq<Interaction>)
    requires h.categoriesViewed == Keys(h.categoryCounts)
    requires forall c :: c in h.categoriesViewed <==> c != "" && CategoryCount(w, c) > 0
    requires forall k :: 0 <= k < |h.categoryCounts| ==> h.categoryCounts[k].1 == CategoryCount(w, h.categoryCounts[k].0)
    ensures forall c :: c != "" && CategoryCount(w, c) > 0 && c !in Keys(MostViewed(h)) ==>
      forall q :: q in MostViewed(h) ==> q.1 >= CategoryCount(w, c)
  {
    var top := MostViewed(h);
    forall c | c != "" && CategoryCount(w, c) > 0 && c !in Keys(top)
      ensures forall q :: q in top ==> q.1 >= CategoryCount(w, c)
    {
      assert c in h.categoriesViewed;
      var k :| 0 <= k < |h.categoriesViewed| && h.categoriesViewed[k] == c;
      var p := h.categoryCounts[k];
      assert p.0 == c && p.1 == CategoryCount(w, c);
      forall m | 0 <= m < |top| ensures top[m] != p {
        assert Keys(top)[m] == top[m].0;
      }
    }
  }

  /** The most viewed categories of a summarised window are three distinct
      truthy categories of that window (all of them when fewer), ranked by
      their true counts, and no category left out was viewed more often
      than one that is listed. */
  lemma MostViewedRanksWindow(h: History, w: seq<Interaction>)
    requires Summarises(h, w)
    ensures |MostViewed(h)| == if |h.categoriesViewed| < 3 then |h.categoriesViewed| else 3
    ensures NoDups(Keys(MostViewed(h)))
    ensures forall p :: p in MostViewed(h) ==> p.0 != "" && p.1 == CategoryCount(w, p.0) > 0
    ensures forall c :: c != "" && CategoryCount(w, c) > 0 && c !in Keys(MostViewed(h)) ==>
      forall q :: q in MostViewed(h) ==> q.1 >= CategoryCount(w, c)
  {
    SubItemsKeepDistinctKeys(h.categoryCounts, MostViewed(h));
    MostViewedCounted(h, w);
    MostViewedOutranksRest(h, w);
  }

  // ---------------------------------------------------------------------------
  // format_recommendations_for_display
  // ---------------------------------------------------------------------------

  /** `recommendations.get(key, [])`; a value that is not a dictionary has
      no `get`, and the handler then gives [] for every key. */
  function Lookup(j: Json, key: string): Json {
    if j.JObject? && key in j.fields then j.fields[key] else JList([])
  }

  function FormatForDisplay(j: Json): (r: Json)
    ensures r.JObject?
    ensures r.fields.Keys == {"business_recommendations", "sustainability_tips", "suggested_categories"}
    ensures forall k :: k in r.fields ==> r.fields[k] == Lookup(j, k)
  {
    JObject(map[
      "business_recommendations" := Lookup(j, "business_recommendations"),
      "sustainability_tips" := Lookup(j, "sustainability_tips"),
      "suggested_categories" := Lookup(j, "suggested_categories")])
  }

  /** A dictionary with exactly the three keys is displayed unchanged, so
      formatting is idempotent and leaves both fixed answers as they are. */
  lemma FormatKeepsThreeKeyAnswers(j: Json)
    ensures FormatForDisplay(FormatForDisplay(j)) == FormatForDisplay(j)
    ensures FormatForDisplay(GettingStarted) == GettingStarted
    ensures FormatForDisplay(Fallback) == Fallback
  {
    assert FormatForDisplay(GettingStarted).fields == GettingStarted.fields;
    assert FormatForDisplay(Fallback).fields == Fallback.fields;
  }
}
