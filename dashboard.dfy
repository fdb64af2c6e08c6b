/** The logic of the Streamlit script app.py that sits between the widgets
    and the utilities: the filter map built from the sidebar, the page
    count, the grid index loops, the city list of the location search, the
    badge sections and columns, the nearby-score restriction and the rule
    that decides when recommendations are regenerated. Widget values, the
    signed-in user and the clock are parameters. */
module Dashboard {
  import opened Common
  import opened DataProcessor
  import Recommendations
  import opened Auth
  import Achievements

  // ---------------------------------------------------------------------------
  // App start
  // ---------------------------------------------------------------------------

  /** The script's first lines: `init_session_state`, then a second default
      for `last_recommendation_time`. The first has already set that key,
      so the second never applies and the session holds the defaults. */
  method AppStart(session: SessionState)
    modifies session
    ensures session.entries == WithDefaults(old(session.entries))
    ensures LastRecommendationTime in session.entries
  {
    session.Init();
  }

  // ---------------------------------------------------------------------------
  // Sidebar filters
  // ---------------------------------------------------------------------------

  const AllStates := "All States"
  const AllCategories := "All Categories"

  /** The filter map built from the sidebar widgets: the search text, the
      state and category choices (each with its "All" sentinel) and the two
      ends of the integer score slider. */
  function WidgetFilters(search: string, state: string, category: string, minScore: int, maxScore: int): (f: Filters)
    ensures f.search.Some? <==> search != ""
    ensures f.state.Some? <==> state != AllStates
    ensures f.category.Some? <==> category != AllCategories
    ensures f.minScore.Some? <==> minScore > 0
    ensures f.maxScore.Some? <==> maxScore < 100
    ensures f.search.Some? ==> f.search.value == search
    ensures f.state.Some? ==> f.state.value == state
    ensures f.category.Some? ==> f.category.value == category
    ensures f.minScore.Some? ==> f.minScore.value == minScore as real
    ensures f.maxScore.Some? ==> f.maxScore.value == maxScore as real
  {
    Filters(
      if category != AllCategories then Some(category) else None,
      if state != AllStates then Some(state) else None,
      if minScore > 0 then Some(minScore as real) else None,
      if maxScore < 100 then Some(maxScore as real) else None,
      if search != "" then Some(search) else None)
  }

  /** What the sidebar selects, end to end: a business is listed exactly
      when its name contains the search text, it lies in the chosen state,
      it has the chosen category and its score lies in the slider range,
      where a sentinel choice constrains nothing, and a maximum of 0, being
      falsy, constrains nothing either. */
  lemma WidgetFiltersSelect(search: string, state: string, category: string, minScore: int, maxScore: int, b: Business)
    ensures Matches(WidgetFilters(search, state, category, minScore, maxScore), b) <==>
      && (search == "" || HasSubstring(Lower(b.brandName), Lower(search)))
      && (state == AllStates || state == "" || b.state == state)
      && (category == AllCategories || category == "" || b.category == category)
      && (minScore <= 0 || b.sustainabilityScore >= minScore as real)
      && (maxScore >= 100 || maxScore == 0 || b.sustainabilityScore <= maxScore as real)
  {
    var f := WidgetFilters(search, state, category, minScore, maxScore);
    assert ScoreGiven(f.minScore) <==> minScore > 0;
    assert ScoreGiven(f.maxScore) <==> maxScore < 100 && maxScore != 0;
  }

  /** The widgets at their initial values select every business. */
  lemma InitialWidgetsSelectAll(store: seq<Business>)
    ensures WidgetFilters("", AllStates, AllCategories, 0, 100) == NoFilters
    ensures MatchingRows(store, WidgetFilters("", AllStates, AllCategories, 0, 100)) == store
  {
    FalsyFiltersIgnored(store, NoFilters);
  }

  /** The sidebar: the filter map is built key by key, and choosing a
      category while signed in records a `filter_category` interaction. */
  method SidebarFilters(log: Recommendations.InteractionLog, viewer: Option<int>,
                        search: string, state: string, category: string, minScore: int, maxScore: int,
                        now: int, commitFails: bool)
    returns (f: Filters)
    modifies log
    ensures f == WidgetFilters(search, state, category, minScore, maxScore)
    ensures category != AllCategories && viewer.Some? && !commitFails ==>
      log.rows == old(log.rows) + [Recommendations.Recorded(viewer.value, "filter_category", CategoryData(category), now)]
    ensures category == AllCategories || viewer.None? || commitFails ==> log.rows == old(log.rows)
  {
    f := NoFilters;
    if search != "" {
      f := f.(search := Some(search));
    }
    if state != AllStates {
      f := f.(state := Some(state));
    }
    if category != AllCategories {
      f := f.(category := Some(category));
      if viewer.Some? {
        log.Track(viewer.value, "filter_category", CategoryData(category), now, commitFails);
      }
    }
    if minScore > 0 {
      f := f.(minScore := Some(minScore as real));
    }
    if maxScore < 100 {
      f := f.(maxScore := Some(maxScore as real));
    }
  }

  /** The `data` dictionary of a `filter_category` interaction. */
  function CategoryData(category: string): Recommendations.InteractionData {
    Recommendations.InteractionData(Recommendations.Absent, Recommendations.Given(category),
                                    Recommendations.Absent, Recommendations.Absent)
  }

  // ---------------------------------------------------------------------------
  // Page count
  // ---------------------------------------------------------------------------

  /** `-(-total_count // per_page)`: Python's floor division of a negative
      number by a positive one, negated, which is the ceiling. */
  function PageCount(total: nat, perPage: int): (pages: nat)
    requires perPage > 0
    ensures total == 0 <==> pages == 0
    ensures (pages - 1) * perPage < total <= pages * perPage || total == pages == 0
  {
    var t: int := total;
    var q := (-t) / perPage;
    assert q * perPage <= -t < q * perPage + perPage;
    assert -q * perPage >= t > (-q - 1) * perPage;
    -q
  }

  /** Where the pages around the page count start, relative to the rows. */
  lemma PageCountOffsets(n: nat, perPage: int)
    requires perPage > 0
    ensures n <= PageCount(n, perPage) * perPage
    ensures Offset(PageCount(n, perPage) + 1, perPage) == PageCount(n, perPage) * perPage
    ensures n > 0 ==> 0 <= Offset(PageCount(n, perPage), perPage) < n
  {
    var pages := PageCount(n, perPage);
    var hi := pages * perPage;
    var lo := (pages - 1) * perPage;
    assert hi == lo + perPage;
    if n == 0 {
      assert pages == 0 && hi == 0;
    } else {
      assert lo < n <= hi;
      assert Offset(pages, perPage) == lo;
    }
    assert Offset(pages + 1, perPage) == hi;
  }

  /** Reading pages 1 to the page count lists every matching row once, in
      order, and the last of those pages is not empty. */
  lemma PageCountCoversListing(s: seq<Business>, perPage: int)
    requires perPage > 0
    ensures PagesUpTo(s, perPage, PageCount(|s|, perPage)) == s
    ensures |s| > 0 ==> PageOf(s, PageCount(|s|, perPage), perPage).value != []
    ensures PageOf(s, PageCount(|s|, perPage) + 1, perPage).value == []
  {
    var pages := PageCount(|s|, perPage);
    PageCountOffsets(|s|, perPage);
    PagesAreConsecutive(s, perPage, pages);
    assert Min(|s|, pages * perPage) == |s|;
    assert s[..|s|] == s;
  }

  // ---------------------------------------------------------------------------
  // Grids
  // ---------------------------------------------------------------------------

  /** The row indices a grid of `width` columns shows, in the order it
      shows them: `for i in range(0, n, width)`, then each column `j` with
      `i + j < n`. */
  method GridOrder(n: nat, width: nat) returns (visited: seq<nat>)
    requires width > 0
    ensures |visited| == n
    ensures forall k :: 0 <= k < n ==> visited[k] == k
  {
    visited := [];
    var i := 0;
    while i < n
      invariant |visited| == Min(i, n)
      invariant forall k :: 0 <= k < |visited| ==> visited[k] == k
      decreases n - i
    {
      for j := 0 to width
        invariant |visited| == Min(i + j, n)
        invariant forall k :: 0 <= k < |visited| ==> visited[k] == k
      {
        if i + j < n {
          visited := visited + [i + j];
        }
      }
      i := i + width;
    }
  }

  /** The business explorer grid has three columns. */
  method ExplorerGrid(page: seq<Business>) returns (shown: seq<Business>)
    ensures shown == page
  {
    var order := GridOrder(|page|, 3);
    shown := seq(|order|, k requires 0 <= k < |order| => page[order[k]]);
  }

  /** The nearby grid has two columns. */
  method NearbyGrid(nearby: seq<Located>) returns (shown: seq<Located>)
    ensures shown == nearby
  {
    var order := GridOrder(|nearby|, 2);
    shown := seq(|order|, k requires 0 <= k < |order| => nearby[order[k]]);
  }

  // ---------------------------------------------------------------------------
  // City list of the location search
  // ---------------------------------------------------------------------------

  /** `city_state_map` after the loop over `rows`: each city of the rows
      maps to the state assigned last. */
  function CityStates(rows: seq<Business>): map<string, string>
    decreases |rows|
  {
    if rows == [] then map[]
    else CityStates(rows[..|rows| - 1])[rows[|rows| - 1].city := rows[|rows| - 1].state]
  }

  /** A city is in the map exactly when some row has it, and its state is
      that of the last row with that city. */
  lemma {:induction false} CityStatesLastRow(rows: seq<Business>, city: string)
    ensures city in CityStates(rows) <==> exists k :: 0 <= k < |rows| && rows[k].city == city
    ensures city in CityStates(rows) ==>
      exists k :: 0 <= k < |rows| && rows[k].city == city
        && rows[k].state == CityStates(rows)[city]
        && forall l :: k < l < |rows| ==> rows[l].city != city
    decreases |rows|
  {
    if rows != [] {
      var init := rows[..|rows| - 1];
      var last := rows[|rows| - 1];
      CityStatesLastRow(init, city);
      if last.city == city {
        assert rows[|rows| - 1].city == city;
      } else {
        if city in CityStates(rows) {
          var k :| 0 <= k < |init| && init[k].city == city
            && init[k].state == CityStates(init)[city]
            && forall l :: k < l < |init| ==> init[l].city != city;
          assert rows[k] == init[k];
        }
        forall k | 0 <= k < |rows| && rows[k].city == city ensures k < |init| && init[k].city == city {
        }
      }
    }
  }

  /** The entries "city, state" for the cities of `cities` that are in
      `states`, in the order of `cities`. */
  function Entries(cities: seq<string>, states: map<string, string>): seq<string>
    decreases |cities|
  {
    if cities == [] then []
    else
      var c := cities[|cities| - 1];
      Entries(cities[..|cities| - 1], states) + (if c in states then [c + ", " + states[c]] else [])
  }

  lemma {:induction false} EntriesMembers(cities: seq<string>, states: map<string, string>)
    ensures forall e :: e in Entries(cities, states) <==>
      exists c :: c in cities && c in states && e == c + ", " + states[c]
    decreases |cities|
  {
    if cities != [] {
      var init := cities[..|cities| - 1];
      EntriesMembers(init, states);
      forall e ensures e in Entries(cities, states) <==>
        exists c :: c in cities && c in states && e == c + ", " + states[c]
      {
        if e !in Entries(cities, states) {
          forall c | c in cities && c in states ensures e != c + ", " + states[c] {
            if c != cities[|cities| - 1] {
              assert c in init;
            }
          }
        }
      }
    }
  }

  /** The city list: the state of each city of the loaded page (the last
      row's when it recurs), for the distinct cities of the whole table,
      sorted. */
  method BuildCityStateList(store: seq<Business>, page: seq<Business>) returns (list: seq<string>)
    ensures list == SortStrings(Entries(UniqueCities(store), CityStates(page)))
  {
    var cities := UniqueCities(store);
    var states: map<string, string> := map[];
    for i := 0 to |page|
      invariant states == CityStates(page[..i])
    {
      assert page[..i + 1][..i] == page[..i];
      states := states[page[i].city := page[i].state];
    }
    assert page[..|page|] == page;
    var entries: seq<string> := [];
    for i := 0 to |cities|
      invariant entries == Entries(cities[..i], states)
    {
      assert cities[..i + 1][..i] == cities[..i];
      var c := cities[i];
      if c in states {
        entries := entries + [c + ", " + states[c]];
      }
    }
    assert cities[..|cities|] == cities;
    list := SortStrings(entries);
  }

  /** What the city list holds: it is sorted, and its entries are exactly
      "city, state" for a city of the table that occurs in the loaded page,
      with the state of the last page row of that city. */
  lemma CityStateListContents(page: seq<Business>, cities: seq<string>, e: string)
    ensures SortedBy(SortStrings(Entries(cities, CityStates(page))), LexLe)
    ensures e in SortStrings(Entries(cities, CityStates(page))) <==>
      exists c :: c in cities && c in CityStates(page) && e == c + ", " + CityStates(page)[c]
    ensures e in SortStrings(Entries(cities, CityStates(page))) ==>
      exists k :: 0 <= k < |page| && page[k].city in cities && e == page[k].city + ", " + page[k].state
        && forall l :: k < l < |page| ==> page[l].city != page[k].city
  {
    var states := CityStates(page);
    var list := SortStrings(Entries(cities, states));
    EntriesMembers(cities, states);
    assert e in list <==> e in multiset(list);
    assert e in Entries(cities, states) <==> e in multiset(Entries(cities, states));
    if e in list {
      var c :| c in cities && c in states && e == c + ", " + states[c];
      CityStatesLastRow(page, c);
    }
  }

  /** `selected_location.split(", ")` unpacked into two names; any other
      number of parts raises. */
  function SplitCityState(entry: string): (r: Option<(string, string)>)
    ensures r.Some? <==> |Split(entry, ", ")| == 2
    ensures r.Some? ==> Join(", ", [r.value.0, r.value.1]) == entry
  {
    var parts := Split(entry, ", ");
    JoinSplit(entry, ", ");
    if |parts| == 2 then Some((parts[0], parts[1])) else None
  }

  /** Splitting an entry recovers its city and state, provided neither
      name contains ", ". */
  lemma SplitCityStateRoundTrip(city: string, state: string)
    requires !HasSubstring(city, ", ") && !HasSubstring(state, ", ")
    ensures SplitCityState(city + ", " + state) == Some((city, state))
  {
    var sep := ", ";
    assert BorderFree(sep) by {
      forall k | 0 < k < |sep| ensures sep[k..] != sep[..|sep| - k] {
        assert sep[k..][0] == ' ' && sep[..|sep| - k][0] == ',';
      }
    }
    SplitPair(city, state, sep);
  }

  // ---------------------------------------------------------------------------
  // Badges
  // ---------------------------------------------------------------------------

  /** The section keys, in the order the badges tab shows them. */
  const BadgeCategories: seq<string> := ["exploration", "sustainability", "community"]

  /** The badges listed under one section, in table order. */
  function BadgeSection(views: seq<Achievements.AchievementView>, category: string): (r: seq<Achievements.AchievementView>)
    ensures forall a :: a in r <==> a in views && a.category == category
    ensures forall a :: multiset(r)[a] == if a.category == category then multiset(views)[a] else 0
  {
    Filter(views, (a: Achievements.AchievementView) => a.category == category)
  }

  /** Every badge of a section category is shown in exactly one section,
      as often as it is stored; other badges are in none. */
  lemma SectionsPartitionBadges(views: seq<Achievements.AchievementView>, a: Achievements.AchievementView)
    ensures multiset(BadgeSection(views, "exploration"))[a] + multiset(BadgeSection(views, "sustainability"))[a]
      + multiset(BadgeSection(views, "community"))[a]
      == if Achievements.IsBadgeCategory(a.category) then multiset(views)[a] else 0
  {
  }

  /** The badges that column `k` of `n` receives: those at the positions
      `idx` with `idx % n == k`, in order. */
  function BadgeColumn(badges: seq<Achievements.AchievementView>, k: nat, n: nat): seq<Achievements.AchievementView>
    requires n > 0
    decreases |badges|
  {
    if badges == [] then []
    else
      BadgeColumn(badges[..|badges| - 1], k, n)
        + (if (|badges| - 1) % n == k then [badges[|badges| - 1]] else [])
  }

  /** How many badges columns `0 .. k - 1` show between them. */
  function ShownUpTo(badges: seq<Achievements.AchievementView>, k: nat, n: nat): nat
    requires n > 0
  {
    if k == 0 then 0 else ShownUpTo(badges, k - 1, n) + |BadgeColumn(badges, k - 1, n)|
  }

  lemma ColumnSnoc(badges: seq<Achievements.AchievementView>, x: Achievements.AchievementView, k: nat, n: nat)
    requires n > 0
    ensures BadgeColumn(badges + [x], k, n) == BadgeColumn(badges, k, n) + (if |badges| % n == k then [x] else [])
  {
    assert (badges + [x])[..|badges|] == badges;
  }

  lemma {:induction false} ShownUpToEmpty(k: nat, n: nat)
    requires n > 0
    ensures ShownUpTo([], k, n) == 0
  {
    if k > 0 {
      ShownUpToEmpty(k - 1, n);
    }
  }

  lemma {:induction false} ShownUpToSnoc(badges: seq<Achievements.AchievementView>, x: Achievements.AchievementView, k: nat, n: nat)
    requires n > 0
    ensures ShownUpTo(badges + [x], k, n) == ShownUpTo(badges, k, n) + (if |badges| % n < k then 1 else 0)
  {
    if k > 0 {
      ShownUpToSnoc(badges, x, k - 1, n);
      ColumnSnoc(badges, x, k - 1, n);
    }
  }

  /** Each badge of the section is in the column of its position modulo
      the column count, every badge in a column comes from the section, and
      the columns together hold as many badges as the section: every badge
      is shown, once. */
  lemma {:induction false} ColumnsShowEachBadgeOnce(badges: seq<Achievements.AchievementView>, n: nat)
    requires n > 0
    ensures ShownUpTo(badges, n, n) == |badges|
    ensures forall idx :: 0 <= idx < |badges| ==> badges[idx] in BadgeColumn(badges, idx % n, n)
    ensures forall k, a :: 0 <= k && a in BadgeColumn(badges, k, n) ==> a in badges
    decreases |badges|
  {
    if badges == [] {
      ShownUpToEmpty(n, n);
    } else {
      var init := badges[..|badges| - 1];
      var x := badges[|badges| - 1];
      assert init + [x] == badges;
      ColumnsShowEachBadgeOnce(init, n);
      ShownUpToSnoc(init, x, n, n);
      assert |init| % n < n;
      forall idx | 0 <= idx < |badges| ensures badges[idx] in BadgeColumn(badges, idx % n, n) {
        ColumnSnoc(init, x, idx % n, n);
        if idx < |init| {
          assert badges[idx] == init[idx];
        }
      }
      forall k: nat, a | a in BadgeColumn(badges, k, n) ensures a in badges {
        ColumnSnoc(init, x, k, n);
        if a != x {
          assert a in BadgeColumn(init, k, n);
        }
      }
    }
  }

  /** One section's grid: `min(3, count)` columns, the badge at position
      `idx` going to column `idx % num_cols`. */
  method LayoutBadges(badges: seq<Achievements.AchievementView>) returns (columns: seq<seq<Achievements.AchievementView>>)
    ensures |columns| == Min(3, |badges|)
    ensures forall k :: 0 <= k < |columns| ==> columns[k] == BadgeColumn(badges, k, |columns|)
  {
    var numCols := Min(3, |badges|);
    if numCols == 0 {
      return [];
    }
    columns := seq(numCols, _ => []);
    for idx := 0 to |badges|
      invariant |columns| == numCols
      invariant forall k :: 0 <= k < numCols ==> columns[k] == BadgeColumn(badges[..idx], k, numCols)
    {
      assert badges[..idx + 1][..idx] == badges[..idx];
      var col := idx % numCols;
      columns := columns[col := columns[col] + [badges[idx]]];
    }
    assert badges[..|badges|] == badges;
  }

  // ---------------------------------------------------------------------------
  // Viewing a business
  // ---------------------------------------------------------------------------

  /** The `data` dictionary of a `view_business` interaction. */
  function ViewData(b: Business): Recommendations.InteractionData {
    Recommendations.InteractionData(Recommendations.Given(b.id), Recommendations.Given(b.category),
                                    Recommendations.Absent, Recommendations.Given(b.sustainabilityScore))
  }

  /** The body of one business's details expander while signed in: it
      records the view and clears the recommendation timestamp. Streamlit
      runs that body on every run of the script, whether or not the
      expander is open (see `ExplorerTab`). */
  method ViewBusiness(log: Recommendations.InteractionLog, session: SessionState, viewer: Option<int>,
                      b: Business, now: int, commitFails: bool)
    modifies log, session
    ensures viewer.Some? ==> session.entries == old(session.entries)[LastRecommendationTime := VNone]
    ensures viewer.Some? && !commitFails ==>
      log.rows == old(log.rows) + [Recommendations.Recorded(viewer.value, "view_business", ViewData(b), now)]
    ensures viewer.None? || commitFails ==> log.rows == old(log.rows)
    ensures viewer.None? ==> session.entries == old(session.entries)
  {
    if viewer.Some? {
      log.Track(viewer.value, "view_business", ViewData(b), now, commitFails);
      session.entries := session.entries[LastRecommendationTime := VNone];
    }
  }

  /** The views of the businesses of `page` whose commit succeeds, in
      page order. */
  function ViewsRecorded(viewerId: int, page: seq<Business>, now: int, commitFails: seq<bool>)
    : (r: seq<Recommendations.Interaction>)
    requires |commitFails| == |page|
    ensures |r| <= |page|
    ensures forall k :: 0 <= k < |page| && !commitFails[k] ==>
      Recommendations.Recorded(viewerId, "view_business", ViewData(page[k]), now) in r
    ensures forall x :: x in r ==>
      exists k :: 0 <= k < |page| && !commitFails[k] && x == Recommendations.Recorded(viewerId, "view_business", ViewData(page[k]), now)
    decreases |page|
  {
    if page == [] then []
    else
      var n := |page| - 1;
      var prev := ViewsRecorded(viewerId, page[..n], now, commitFails[..n]);
      var x := Recommendations.Recorded(viewerId, "view_business", ViewData(page[n]), now);
      assert forall k :: 0 <= k < n ==> page[..n][k] == page[k] && commitFails[..n][k] == commitFails[k];
      if commitFails[n] then prev else prev + [x]
  }

  /** One run of the explorer tab: the grid (whose visiting order is
      `GridOrder`) runs the details expander body of every business of the
      page. So while signed in, every run records a view of each business
      shown, and a non-empty page clears the recommendation timestamp
      before the recommendations tab reads it. `commitFails[k]` is the
      outcome of the k-th commit. */
  method ExplorerTab(log: Recommendations.InteractionLog, session: SessionState, viewer: Option<int>,
                     page: seq<Business>, now: int, commitFails: seq<bool>)
    requires |commitFails| == |page|
    modifies log, session
    ensures viewer.None? ==> log.rows == old(log.rows) && session.entries == old(session.entries)
    ensures viewer.Some? ==> log.rows == old(log.rows) + ViewsRecorded(viewer.value, page, now, commitFails)
    ensures viewer.Some? && page != [] ==> session.entries == old(session.entries)[LastRecommendationTime := VNone]
    ensures page == [] ==> session.entries == old(session.entries)
  {
    for k := 0 to |page|
      invariant viewer.None? ==> log.rows == old(log.rows)
      invariant viewer.Some? ==> log.rows == old(log.rows) + ViewsRecorded(viewer.value, page[..k], now, commitFails[..k])
      invariant session.entries ==
        if viewer.Some? && k > 0 then old(session.entries)[LastRecommendationTime := VNone] else old(session.entries)
    {
      assert page[..k + 1][..k] == page[..k] && commitFails[..k + 1][..k] == commitFails[..k];
      ViewBusiness(log, session, viewer, page[k], now, commitFails[k]);
    }
    assert page[..|page|] == page && commitFails[..|commitFails|] == commitFails;
  }

  // ---------------------------------------------------------------------------
  // Location search
  // ---------------------------------------------------------------------------

  /** The minimum-score slider of the location search: applied only when
      it is above 0. */
  function RestrictByMinScore(nearby: seq<Located>, minScore: int): (r: seq<Located>)
    ensures minScore <= 0 ==> r == nearby
    ensures forall x :: x in r <==> x in nearby && (minScore > 0 ==> x.business.sustainabilityScore >= minScore as real)
    ensures SortedBy(nearby, NearerOrEqual) ==> SortedBy(r, NearerOrEqual)
  {
    if minScore > 0 then
      var p := (x: Located) => x.business.sustainabilityScore >= minScore as real;
      if SortedBy(nearby, NearerOrEqual) then
        FilterKeepsSorted(nearby, p, NearerOrEqual);
        Filter(nearby, p)
      else Filter(nearby, p)
    else nearby
  }

  /** The `data` dictionary of a `search_location` interaction. */
  function SearchData(x: Located): Recommendations.InteractionData {
    Recommendations.InteractionData(Recommendations.Absent, Recommendations.Absent,
                                    Recommendations.Given(x.business.state), Recommendations.Given(x.business.sustainabilityScore))
  }

  /** The search button: the businesses of the loaded page within the
      radius, nearest first; when there are any and the user is signed in,
      the state and score of a nearest one are recorded, and then the
      minimum-score slider narrows the list. */
  method SearchNearby(log: Recommendations.InteractionLog, viewer: Option<int>, page: seq<Business>,
                      lat: real, lon: real, radius: real, miles: Geodesic, minScore: int,
                      now: int, commitFails: bool)
    returns (shown: seq<Located>)
    modifies log
    ensures SortedBy(shown, NearerOrEqual)
    ensures forall x :: x in shown <==>
      x in WithinRadius(page, lat, lon, radius, miles)
      && (minScore > 0 ==> x.business.sustainabilityScore >= minScore as real)
    ensures WithinRadius(page, lat, lon, radius, miles) == [] || viewer.None? || commitFails ==>
      log.rows == old(log.rows)
    ensures WithinRadius(page, lat, lon, radius, miles) != [] && viewer.Some? && !commitFails ==>
      exists x :: x in WithinRadius(page, lat, lon, radius, miles)
        && (forall y :: y in WithinRadius(page, lat, lon, radius, miles) ==> x.distance <= y.distance)
        && log.rows == old(log.rows) + [Recommendations.Recorded(viewer.value, "search_location", SearchData(x), now)]
  {
    var nearby := NearbyBusinesses(page, lat, lon, radius, miles);
    ghost var within := WithinRadius(page, lat, lon, radius, miles);
    assert forall x :: x in nearby <==> x in within by {
      forall x ensures x in nearby <==> x in within {
        assert x in nearby <==> x in multiset(nearby);
        assert x in within <==> x in multiset(within);
      }
    }
    if |nearby| > 0 && viewer.Some? {
      log.Track(viewer.value, "search_location", SearchData(nearby[0]), now, commitFails);
      forall y | y in within ensures nearby[0].distance <= y.distance {
        var j :| 0 <= j < |nearby| && nearby[j] == y;
        if j > 0 {
          assert NearerOrEqual(nearby[0], nearby[j]);
        }
      }
    }
    assert |nearby| == |within| by {
      assert |multiset(nearby)| == |multiset(within)|;
    }
    shown := RestrictByMinScore(nearby, minScore);
  }

  // ---------------------------------------------------------------------------
  // Recommendations tab
  // ---------------------------------------------------------------------------

  const CurrentRecommendations := "current_recommendations"

  /** Whenever the timestamp is set, formatted recommendations are stored
      beside it. */
  predicate RecommendationsCached(m: map<string, Value>) {
    LastRecommendationTime in m && m[LastRecommendationTime] != VNone ==>
      CurrentRecommendations in m && m[CurrentRecommendations].VJson?
  }

  /** The tab, for a signed-in user with an API key: when the timestamp is
      None the recommendations are generated from the user's history,
      formatted, stored and stamped with `now`; otherwise the stored ones
      are shown. Reading stored ones that are missing raises. */
  method RecommendationsTab(session: SessionState, log: Recommendations.InteractionLog, userId: int,
                            llm: Recommendations.Prompt -> Option<Json>, now: int, queryFails: bool)
    returns (shown: Result<Json, string>)
    requires LastRecommendationTime in session.entries
    modifies session
    ensures old(session.entries)[LastRecommendationTime] == VNone ==>
      shown == Ok(Recommendations.FormatForDisplay(
        Recommendations.Generate(Recommendations.HistoryOf(log.rows, userId, now, queryFails), llm)))
    ensures old(session.entries)[LastRecommendationTime] == VNone ==>
      shown.Ok? && shown.value.JObject?
      && shown.value.fields.Keys == {"business_recommendations", "sustainability_tips", "suggested_categories"}
      && session.entries == old(session.entries)[LastRecommendationTime := VTime(now)][CurrentRecommendations := VJson(shown.value)]
    ensures old(session.entries)[LastRecommendationTime] != VNone ==>
      && session.entries == old(session.entries)
      && (shown.Ok? <==> CurrentRecommendations in session.entries && session.entries[CurrentRecommendations].VJson?)
      && (shown.Ok? ==> shown.value == session.entries[CurrentRecommendations].j)
    ensures RecommendationsCached(session.entries)
      || (old(session.entries)[LastRecommendationTime] != VNone && !RecommendationsCached(old(session.entries)))
  {
    if session.entries[LastRecommendationTime] == VNone {
      var h := log.History(userId, now, queryFails);
      var raw := Recommendations.Generate(h, llm);
      var recommendations := Recommendations.FormatForDisplay(raw);
      session.entries := session.entries[LastRecommendationTime := VTime(now)];
      session.entries := session.entries[CurrentRecommendations := VJson(recommendations)];
      shown := Ok(recommendations);
    } else if CurrentRecommendations in session.entries && session.entries[CurrentRecommendations].VJson? {
      shown := Ok(session.entries[CurrentRecommendations].j);
    } else {
      shown := Err("no stored recommendations");
    }
  }

  /** The refresh button clears the timestamp. */
  method RefreshButton(session: SessionState)
    modifies session
    ensures session.entries == old(session.entries)[LastRecommendationTime := VNone]
  {
    session.entries := session.entries[LastRecommendationTime := VNone];
  }

  /** Every way the session changes keeps stored recommendations beside a
      set timestamp: initialisation, login, logout, viewing a business and
      the refresh button all leave it None or untouched. So the tab never
      takes the branch that raises. */
  lemma CacheInvariantPreserved(m: map<string, Value>, info: UserInfo)
    requires RecommendationsCached(m)
    ensures RecommendationsCached(WithDefaults(m))
    ensures RecommendationsCached(LoggedIn(m, info))
    ensures RecommendationsCached(LoggedOut(m))
    ensures RecommendationsCached(m[LastRecommendationTime := VNone])
    ensures LastRecommendationTime in m && m[LastRecommendationTime] != VNone ==>
      m[CurrentRecommendations].VJson?
  {
  }
}
