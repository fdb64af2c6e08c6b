/** The listing pipeline of utils/data_processor.py: the retry wrapper, the
    CSV ingest into the `businesses` table, the metrics summary, the distinct
    value lists, the filtered and paginated listing, and the radius search.
    The table is a sequence in storage order (the listing query has no
    ORDER BY); the geodesic distance is a function passed in. */
module DataProcessor {
  import opened Common

  /** A row of the `businesses` table. Text columns that may be NULL are
      modelled with "" standing for NULL. */
  datatype Business = Business(
    id: int,
    brandName: string,
    website: string,
    description: string,
    category: string,
    certifications: seq<string>,
    sustainabilityScore: real,
    ecoMaterialsScore: real,
    carbonFootprint: real,
    waterUsage: real,
    workerWelfare: real,
    year: int,
    latitude: real,
    longitude: real,
    city: string,
    state: string,
    zipCode: string)

  // ---------------------------------------------------------------------------
  // retry_on_db_error
  // ---------------------------------------------------------------------------

  /** What one call of the wrapped function does. */
  datatype Attempt<T> = Returned(value: T) | DbError | OtherError

  /** What the wrapper does: return the value, re-raise after the last
      database error, let another exception through, or return None. */
  datatype RetryOutcome<T> = Value(value: T) | RaisedAfterRetries | RaisedOther | NoneReturned

  /** The retry loop. `attempt(k)` is the behaviour of the (k+1)-th call;
      `calls` is how many calls were made. The sleep between attempts is
      not modelled. */
  method RetryOnDbError<T>(maxRetries: int, attempt: nat -> Attempt<T>)
    returns (outcome: RetryOutcome<T>, calls: nat)
    ensures maxRetries <= 0 ==> outcome == NoneReturned && calls == 0
    ensures maxRetries > 0 ==> 1 <= calls <= maxRetries && !outcome.NoneReturned?
    ensures forall k :: 0 <= k < calls - 1 ==> attempt(k).DbError?
    ensures outcome.Value? ==> attempt(calls - 1) == Returned(outcome.value)
    ensures outcome.RaisedOther? ==> attempt(calls - 1).OtherError?
    ensures outcome.RaisedAfterRetries? ==> calls == maxRetries && attempt(calls - 1).DbError?
  {
    var retries := 0;
    calls := 0;
    while retries < maxRetries
      invariant retries == calls
      invariant maxRetries <= 0 ==> calls == 0
      invariant maxRetries > 0 ==> retries < maxRetries
      invariant forall k :: 0 <= k < calls ==> attempt(k).DbError?
    {
      var a := attempt(calls);
      calls := calls + 1;
      match a
      case Returned(v) =>
        return Value(v), calls;
      case OtherError =>
        return RaisedOther, calls;
      case DbError =>
        retries := retries + 1;
        if retries == maxRetries {
          return RaisedAfterRetries, calls;
        }
    }
    outcome := NoneReturned;
  }

  // ---------------------------------------------------------------------------
  // init_database: CSV ingest
  // ---------------------------------------------------------------------------

  /** The numeric cells of a CSV row after `float(...)` / `int(...)`. */
  datatype Numbers = Numbers(
    sustainabilityScore: real,
    ecoMaterialsScore: real,
    carbonFootprint: real,
    waterUsage: real,
    workerWelfare: real,
    year: int,
    latitude: real,
    longitude: real)

  /** A CSV row. `certifications` is None for a missing (NaN) cell;
      `numbers` is None when one of the numeric conversions raises. */
  datatype CsvRow = CsvRow(
    brandName: string,
    website: string,
    description: string,
    category: string,
    certifications: Option<string>,
    numbers: Option<Numbers>,
    city: string,
    state: string,
    zipCode: string)

  function BrandOf(row: CsvRow): string { row.brandName }

  predicate Convertible(row: CsvRow) { row.numbers.Some? }

  /** The `certifications` column: the cell cut at every `|`, or [] when
      the cell is missing. No piece holds a `|`, and joining the pieces
      back gives the cell. */
  function Certifications(cell: Option<string>): (r: seq<string>)
    ensures cell.None? ==> r == []
    ensures cell.Some? ==> |r| >= 1 && Join("|", r) == cell.value
    ensures forall p :: p in r ==> !HasSubstring(p, "|")
  {
    match cell
    case None => []
    case Some(text) =>
      JoinSplit(text, "|");
      Split(text, "|")
  }

  function MakeBusiness(row: CsvRow, id: int): (b: Business)
    requires Convertible(row)
  {
    var n := row.numbers.value;
    Business(id, row.brandName, row.website, row.description, row.category,
             Certifications(row.certifications), n.sustainabilityScore, n.ecoMaterialsScore,
             n.carbonFootprint, n.waterUsage, n.workerWelfare, n.year, n.latitude,
             n.longitude, row.city, row.state, row.zipCode)
  }

  function BrandName(b: Business): string { b.brandName }

  /** How many of `rows` reach the INSERT: those whose conversion succeeds. */
  function Attempts(rows: seq<CsvRow>): (k: nat)
    ensures k <= |rows|
    decreases |rows|
  {
    if rows == [] then 0
    else Attempts(rows[..|rows| - 1]) + if Convertible(rows[|rows| - 1]) then 1 else 0
  }

  /** The rows that reach the INSERT are the convertible ones. */
  lemma {:induction false} AttemptsAreConvertible(rows: seq<CsvRow>)
    ensures Attempts(rows) == |Filter(rows, Convertible)|
    decreases |rows|
  {
    if rows != [] {
      var init := rows[..|rows| - 1];
      AttemptsAreConvertible(init);
      assert rows == init + [rows[|rows| - 1]];
      FilterSnoc(init, rows[|rows| - 1], Convertible);
    }
  }

  /** The id the insert of `rows[j]` draws from the `SERIAL` sequence: one
      past those drawn by the earlier rows that reached the INSERT, whether
      or not their commits went through. A row whose conversion fails never
      reaches the INSERT and draws none. */
  function DrawnId(rows: seq<CsvRow>, j: nat, firstId: int): (id: int)
    requires j <= |rows|
    ensures firstId <= id <= firstId + j
  {
    firstId + Attempts(rows[..j])
  }

  /** Every row before a convertible one draws a smaller id. */
  lemma {:induction false} DrawnIdGrows(rows: seq<CsvRow>, j: nat, n: nat, firstId: int)
    requires j < n <= |rows| && Convertible(rows[j])
    ensures DrawnId(rows, j, firstId) < DrawnId(rows, n, firstId)
    decreases n
  {
    assert rows[..n][..n - 1] == rows[..n - 1];
    if n > j + 1 {
      DrawnIdGrows(rows, j, n - 1, firstId);
    }
  }

  /** The next row draws one id more than the last when it is convertible. */
  lemma DrawnIdStep(rows: seq<CsvRow>, i: nat, firstId: int)
    requires i < |rows|
    ensures DrawnId(rows, i + 1, firstId) == DrawnId(rows, i, firstId) + if Convertible(rows[i]) then 1 else 0
  {
    assert rows[..i + 1][..i] == rows[..i];
  }

  /** Row j is committed: it converts and the database accepts its commit. */
  predicate Commits(rows: seq<CsvRow>, commitFails: seq<bool>, j: nat)
    requires j < |rows| == |commitFails|
  {
    Convertible(rows[j]) && !commitFails[j]
  }

  /** The business row j becomes, with the id it drew. */
  function RowBusiness(rows: seq<CsvRow>, j: nat, firstId: int): Business
    requires j < |rows| && Convertible(rows[j])
  {
    MakeBusiness(rows[j], DrawnId(rows, j, firstId))
  }

  /** The rows an ingest of `rows` commits, in order. `commitFails[i]` is the
      database refusing the commit of row i (a `state` longer than two
      characters, say): that row is rolled back and skipped, but keeps the id
      it drew. A row whose conversion fails is skipped without drawing one. */
  function Ingested(rows: seq<CsvRow>, commitFails: seq<bool>, firstId: int): (r: seq<Business>)
    requires |commitFails| == |rows|
    ensures |r| <= |rows|
    decreases |rows|
  {
    if rows == [] then []
    else
      var n := |rows| - 1;
      var prev := Ingested(rows[..n], commitFails[..n], firstId);
      if Commits(rows, commitFails, n) then prev + [RowBusiness(rows, n, firstId)] else prev
  }

  /** The rows before `n` commit and become the same businesses in `rows`
      as in its prefix. */
  lemma PrefixRowsAgree(rows: seq<CsvRow>, commitFails: seq<bool>, n: nat, firstId: int)
    requires |commitFails| == |rows| && n <= |rows|
    ensures forall j :: 0 <= j < n ==>
      Commits(rows[..n], commitFails[..n], j) == Commits(rows, commitFails, j)
    ensures forall j :: 0 <= j < n && Convertible(rows[j]) ==>
      RowBusiness(rows[..n], j, firstId) == RowBusiness(rows, j, firstId)
  {
    forall j | 0 <= j < n ensures DrawnId(rows[..n], j, firstId) == DrawnId(rows, j, firstId) {
      assert rows[..n][..j] == rows[..j];
    }
  }

  /** Ingesting one more row of a sequence. */
  lemma IngestedStep(rows: seq<CsvRow>, commitFails: seq<bool>, i: nat, firstId: int)
    requires |commitFails| == |rows| && i < |rows|
    ensures Ingested(rows[..i + 1], commitFails[..i + 1], firstId) ==
      var prev := Ingested(rows[..i], commitFails[..i], firstId);
      if Commits(rows, commitFails, i) then prev + [RowBusiness(rows, i, firstId)] else prev
  {
    var rs, fs := rows[..i + 1], commitFails[..i + 1];
    assert rs[..i] == rows[..i] && fs[..i] == commitFails[..i];
    PrefixRowsAgree(rows, commitFails, i + 1, firstId);
  }

  /** Every committed business is a committed row, with the id it drew. */
  lemma {:induction false} IngestedFromRows(rows: seq<CsvRow>, commitFails: seq<bool>, firstId: int)
    requires |commitFails| == |rows|
    ensures forall b :: b in Ingested(rows, commitFails, firstId) ==>
      exists j :: 0 <= j < |rows| && Commits(rows, commitFails, j) && b == RowBusiness(rows, j, firstId)
    decreases |rows|
  {
    if rows != [] {
      var n := |rows| - 1;
      var init, fs := rows[..n], commitFails[..n];
      var prev := Ingested(init, fs, firstId);
      IngestedFromRows(init, fs, firstId);
      PrefixRowsAgree(rows, commitFails, n, firstId);
      forall b | b in Ingested(rows, commitFails, firstId)
        ensures exists j :: 0 <= j < |rows| && Commits(rows, commitFails, j) && b == RowBusiness(rows, j, firstId)
      {
        if b in prev {
          var j :| 0 <= j < n && Commits(init, fs, j) && b == RowBusiness(init, j, firstId);
          assert Commits(rows, commitFails, j) && b == RowBusiness(rows, j, firstId);
        } else {
          assert b == RowBusiness(rows, n, firstId);
        }
      }
    }
  }

  /** Every committed row is among the committed businesses. */
  lemma {:induction false} IngestedKeepsRows(rows: seq<CsvRow>, commitFails: seq<bool>, firstId: int)
    requires |commitFails| == |rows|
    ensures forall j :: 0 <= j < |rows| && Commits(rows, commitFails, j) ==>
      RowBusiness(rows, j, firstId) in Ingested(rows, commitFails, firstId)
    decreases |rows|
  {
    if rows != [] {
      var n := |rows| - 1;
      var init, fs := rows[..n], commitFails[..n];
      var prev := Ingested(init, fs, firstId);
      var r := Ingested(rows, commitFails, firstId);
      IngestedKeepsRows(init, fs, firstId);
      PrefixRowsAgree(rows, commitFails, n, firstId);
      assert forall b :: b in prev ==> b in r;
      forall j | 0 <= j < |rows| && Commits(rows, commitFails, j) ensures RowBusiness(rows, j, firstId) in r {
        if j < n {
          assert Commits(init, fs, j);
          assert RowBusiness(init, j, firstId) == RowBusiness(rows, j, firstId);
          assert RowBusiness(init, j, firstId) in prev;
        } else {
          assert r == prev + [RowBusiness(rows, n, firstId)];
        }
      }
    }
  }

  /** The committed businesses are in row order: their ids increase. */
  lemma {:induction false} IngestedIdsIncrease(rows: seq<CsvRow>, commitFails: seq<bool>, firstId: int)
    requires |commitFails| == |rows|
    ensures forall k, l :: 0 <= k < l < |Ingested(rows, commitFails, firstId)| ==>
      Ingested(rows, commitFails, firstId)[k].id < Ingested(rows, commitFails, firstId)[l].id
    decreases |rows|
  {
    if rows != [] {
      var n := |rows| - 1;
      var prev := Ingested(rows[..n], commitFails[..n], firstId);
      IngestedIdsIncrease(rows[..n], commitFails[..n], firstId);
      if Commits(rows, commitFails, n) {
        IngestedFromRows(rows[..n], commitFails[..n], firstId);
        PrefixRowsAgree(rows, commitFails, n, firstId);
        forall k | 0 <= k < |prev| ensures prev[k].id < DrawnId(rows, n, firstId) {
          assert prev[k] in prev;
          var j :| 0 <= j < n && Commits(rows[..n], commitFails[..n], j) && prev[k] == RowBusiness(rows[..n], j, firstId);
          DrawnIdGrows(rows, j, n, firstId);
        }
      }
    }
  }

  /** Exactly the convertible rows whose commits go through are committed,
      each with the row's own columns and the id it drew, in row order. */
  lemma IngestedSpec(rows: seq<CsvRow>, commitFails: seq<bool>, firstId: int)
    requires |commitFails| == |rows|
    ensures forall b :: b in Ingested(rows, commitFails, firstId) ==>
      exists j :: 0 <= j < |rows| && Commits(rows, commitFails, j) && b == RowBusiness(rows, j, firstId)
    ensures forall j :: 0 <= j < |rows| && Commits(rows, commitFails, j) ==>
      RowBusiness(rows, j, firstId) in Ingested(rows, commitFails, firstId)
    ensures forall k, l :: 0 <= k < l < |Ingested(rows, commitFails, firstId)| ==>
      Ingested(rows, commitFails, firstId)[k].id < Ingested(rows, commitFails, firstId)[l].id
  {
    IngestedFromRows(rows, commitFails, firstId);
    IngestedKeepsRows(rows, commitFails, firstId);
    IngestedIdsIncrease(rows, commitFails, firstId);
  }

  /** No commit is refused. */
  predicate NoRefusals(commitFails: seq<bool>)
    decreases |commitFails|
  {
    commitFails == [] || (!commitFails[|commitFails| - 1] && NoRefusals(commitFails[..|commitFails| - 1]))
  }

  /** Businesses for convertible rows, in order, with consecutive ids from
      the first id. */
  function Numbered(rs: seq<CsvRow>, firstId: int): (r: seq<Business>)
    requires forall x :: x in rs ==> Convertible(x)
    ensures |r| == |rs|
    ensures forall i :: 0 <= i < |r| ==> r[i] == MakeBusiness(rs[i], firstId + i)
    decreases |rs|
  {
    if rs == [] then []
    else
      var n := |rs| - 1;
      assert forall x :: x in rs[..n] ==> x in rs;
      Numbered(rs[..n], firstId) + [MakeBusiness(rs[n], firstId + n)]
  }

  /** Numbering one more row gives it the next id. */
  lemma NumberedSnoc(rs: seq<CsvRow>, x: CsvRow, firstId: int)
    requires forall y :: y in rs ==> Convertible(y)
    requires Convertible(x)
    ensures Numbered(rs + [x], firstId) == Numbered(rs, firstId) + [MakeBusiness(x, firstId + |rs|)]
  {
    assert (rs + [x])[..|rs|] == rs;
  }

  /** With no commit refused, the committed businesses are the convertible
      rows, in order, with consecutive ids from the first id. */
  lemma {:induction false} IngestedWithoutRefusals(rows: seq<CsvRow>, commitFails: seq<bool>, firstId: int)
    requires |commitFails| == |rows| && NoRefusals(commitFails)
    ensures Ingested(rows, commitFails, firstId) == Numbered(Filter(rows, Convertible), firstId)
    decreases |rows|
  {
    if rows != [] {
      var n := |rows| - 1;
      var init, last := rows[..n], rows[n];
      var okPrev := Filter(init, Convertible);
      assert rows == init + [last];
      FilterSnoc(init, last, Convertible);
      IngestedWithoutRefusals(init, commitFails[..n], firstId);
      var prev := Ingested(init, commitFails[..n], firstId);
      if Convertible(last) {
        assert Filter(rows, Convertible) == okPrev + [last];
        NumberedSnoc(okPrev, last, firstId);
        AttemptsAreConvertible(init);
        assert DrawnId(rows, n, firstId) == firstId + |okPrev|;
        assert Ingested(rows, commitFails, firstId) == prev + [RowBusiness(rows, n, firstId)];
        assert RowBusiness(rows, n, firstId) == MakeBusiness(last, firstId + |okPrev|);
        calc {
          Ingested(rows, commitFails, firstId);
          prev + [MakeBusiness(last, firstId + |okPrev|)];
          Numbered(okPrev, firstId) + [MakeBusiness(last, firstId + |okPrev|)];
          Numbered(okPrev + [last], firstId);
          Numbered(Filter(rows, Convertible), firstId);
        }
      } else {
        assert Filter(rows, Convertible) == okPrev;
        assert Ingested(rows, commitFails, firstId) == prev;
      }
    }
  }

  predicate DifferentBrand(x: CsvRow, y: CsvRow) { x.brandName != y.brandName }

  /** After `drop_duplicates` no two committed businesses share a brand
      name, so the unique constraint on `brand_name` never rejects a row. */
  lemma DeduplicatedIngestUnique(csv: seq<CsvRow>, commitFails: seq<bool>, firstId: int)
    requires |commitFails| == |DistinctBy(csv, BrandOf)|
    ensures NoDupsBy(Ingested(DistinctBy(csv, BrandOf), commitFails, firstId), BrandName)
  {
    var deduped := DistinctBy(csv, BrandOf);
    var r := Ingested(deduped, commitFails, firstId);
    IngestedFromRows(deduped, commitFails, firstId);
    IngestedIdsIncrease(deduped, commitFails, firstId);
    forall k, l | 0 <= k < l < |r| ensures BrandName(r[k]) != BrandName(r[l]) {
      assert r[k] in r && r[l] in r;
      var j1 :| 0 <= j1 < |deduped| && Commits(deduped, commitFails, j1) && r[k] == RowBusiness(deduped, j1, firstId);
      var j2 :| 0 <= j2 < |deduped| && Commits(deduped, commitFails, j2) && r[l] == RowBusiness(deduped, j2, firstId);
      assert j1 != j2;
      if j1 < j2 {
        assert BrandOf(deduped[j1]) != BrandOf(deduped[j2]);
      } else {
        assert BrandOf(deduped[j2]) != BrandOf(deduped[j1]);
      }
    }
  }

  /** The insertion loop of `init_database`: one commit per row, counting
      the successful inserts. Every row that reaches the INSERT draws an id,
      so `next` is past the ids of refused rows too. */
  method InsertRows(deduped: seq<CsvRow>, commitFails: seq<bool>, firstId: int)
    returns (committed: seq<Business>, inserted: nat, next: int)
    requires |commitFails| == |deduped|
    ensures committed == Ingested(deduped, commitFails, firstId)
    ensures inserted == |committed|
    ensures next == firstId + |Filter(deduped, Convertible)|
  {
    committed := [];
    inserted := 0;
    next := firstId;
    var i := 0;
    while i < |deduped|
      invariant 0 <= i <= |deduped|
      invariant committed == Ingested(deduped[..i], commitFails[..i], firstId)
      invariant inserted == |committed| && next == DrawnId(deduped, i, firstId)
    {
      var row := deduped[i];
      IngestedStep(deduped, commitFails, i, firstId);
      DrawnIdStep(deduped, i, firstId);
      if row.numbers.Some? {
        if !commitFails[i] {
          committed := committed + [MakeBusiness(row, next)];
          inserted := inserted + 1;
        }
        next := next + 1;
      }
      i := i + 1;
    }
    assert deduped[..i] == deduped && commitFails[..i] == commitFails;
    AttemptsAreConvertible(deduped);
  }

  /** The `businesses` table. */
  class BusinessTable {
    var rows: seq<Business>
    var nextId: int

    constructor ()
      ensures rows == [] && nextId == 1
    {
      rows := [];
      nextId := 1;
    }

    /** `init_database`: clears the table, then (when the CSV could be read)
        drops duplicate brand names keeping the first row and inserts the
        rest one commit at a time, skipping rows whose conversion fails or
        whose commit the database refuses (`commitFails`, one per
        deduplicated row). `clearFails` is the DELETE being refused, as it
        is while rows of `user_interactions` or `user_favorites` reference a
        business: the function then reports False and the table keeps its
        rows. `csv` is None when reading the file fails, after the table was
        cleared: the function then reports False and the table stays empty. */
    method InitDatabase(csv: Option<seq<CsvRow>>, clearFails: bool, commitFails: seq<bool>)
      returns (ok: bool, inserted: nat)
      requires csv.Some? ==> |commitFails| == |DistinctBy(csv.value, BrandOf)|
      modifies this
      ensures ok == (!clearFails && csv.Some?)
      ensures clearFails ==> rows == old(rows) && inserted == 0 && nextId == old(nextId)
      ensures !clearFails && csv.None? ==> rows == [] && inserted == 0 && nextId == old(nextId)
      ensures ok ==> rows == Ingested(DistinctBy(csv.value, BrandOf), commitFails, old(nextId))
      ensures ok ==> inserted == |rows|
      ensures ok ==> nextId == old(nextId) + |Filter(DistinctBy(csv.value, BrandOf), Convertible)|
      ensures !clearFails ==> NoDupsBy(rows, BrandName)
    {
      inserted := 0;
      if clearFails {
        return false, 0;
      }
      rows := [];
      if csv.None? {
        return false, 0;
      }
      var deduped := DistinctBy(csv.value, BrandOf);
      var committed, next;
      committed, inserted, next := InsertRows(deduped, commitFails, nextId);
      DeduplicatedIngestUnique(csv.value, commitFails, nextId);
      rows, nextId := committed, next;
      ok := true;
    }
  }

  // ---------------------------------------------------------------------------
  // get_unique_states / get_unique_cities / get_unique_categories
  // ---------------------------------------------------------------------------

  /** `sorted([v for v in distinct(values) if v])`. */
  function UniqueValues(values: seq<string>): (r: seq<string>)
    ensures SortedBy(r, LexLe)
    ensures NoDups(r)
    ensures forall v :: v in r <==> v in values && v != ""
  {
    var present := Filter(Distinct(values), NonEmpty);
    var r := SortStrings(present);
    assert NoDups(present) by {
      assert SortedBy(Distinct(values), Differ);
      FilterKeepsSorted(Distinct(values), NonEmpty, Differ);
    }
    NoDupsMultiset(present, r);
    assert forall v :: v in r <==> v in present by {
      forall v ensures v in r <==> v in present {
        assert v in r <==> v in multiset(r);
      }
    }
    r
  }

  predicate NonEmpty(v: string) { v != "" }
  predicate Differ(x: string, y: string) { x != y }

  function StateOf(b: Business): string { b.state }
  function CityOf(b: Business): string { b.city }
  function CategoryOf(b: Business): string { b.category }

  /** One text column of the table, row by row. */
  function Column(store: seq<Business>, f: Business -> string): (r: seq<string>)
    ensures |r| == |store|
    ensures forall i :: 0 <= i < |store| ==> r[i] == f(store[i])
    ensures forall v :: v in r <==> exists b :: b in store && f(b) == v
  {
    var r := seq(|store|, i requires 0 <= i < |store| => f(store[i]));
    assert forall v :: v in r <==> exists b :: b in store && f(b) == v by {
      forall v ensures v in r <==> exists b :: b in store && f(b) == v {
        if exists b :: b in store && f(b) == v {
          var b :| b in store && f(b) == v;
          var k :| 0 <= k < |store| && store[k] == b;
          assert r[k] == v;
        }
      }
    }
    r
  }

  function UniqueStates(store: seq<Business>): (r: seq<string>)
    ensures SortedBy(r, LexLe) && NoDups(r)
    ensures forall s :: s in r <==> s != "" && exists b :: b in store && b.state == s
  {
    UniqueValues(Column(store, StateOf))
  }

  function UniqueCities(store: seq<Business>): (r: seq<string>)
    ensures SortedBy(r, LexLe) && NoDups(r)
    ensures forall c :: c in r <==> c != "" && exists b :: b in store && b.city == c
  {
    UniqueValues(Column(store, CityOf))
  }

  function UniqueCategories(store: seq<Business>): (r: seq<string>)
    ensures SortedBy(r, LexLe) && NoDups(r)
    ensures forall c :: c in r <==> c != "" && exists b :: b in store && b.category == c
  {
    UniqueValues(Column(store, CategoryOf))
  }

  // ---------------------------------------------------------------------------
  // get_metrics_summary
  // ---------------------------------------------------------------------------

  /** The number of rows in category `c`. */
  function CountCategory(store: seq<Business>, c: string): nat {
    multiset(Column(store, CategoryOf))[c]
  }

  /** `(category, count)` for each distinct category, in first-seen order. */
  function CategoryCounts(store: seq<Business>): (r: seq<(string, nat)>)
    ensures Keys(r) == Distinct(Column(store, CategoryOf))
    ensures forall p :: p in r ==> p.1 == CountCategory(store, p.0) && p.0 in Column(store, CategoryOf)
    ensures forall b :: b in store ==> (b.category, CountCategory(store, b.category)) in r
  {
    var column := Column(store, CategoryOf);
    var cats := Distinct(column);
    var r := seq(|cats|, i requires 0 <= i < |cats| => (cats[i], CountCategory(store, cats[i])));
    assert Keys(r) == cats;
    assert forall b :: b in store ==> (b.category, CountCategory(store, b.category)) in r by {
      forall b | b in store ensures (b.category, CountCategory(store, b.category)) in r {
        assert CategoryOf(b) in column;
        var j :| 0 <= j < |cats| && cats[j] == b.category;
        assert r[j] == (b.category, CountCategory(store, b.category));
      }
    }
    r
  }

  /** `top_categories`: five categories (all of them when there are fewer)
      with their row counts; no category left out has more rows than one
      that is kept. */
  function TopCategories(store: seq<Business>): (m: map<string, nat>)
    ensures |m| == Min(5, |Distinct(Column(store, CategoryOf))|)
    ensures forall c :: c in m ==> m[c] == CountCategory(store, c) && m[c] > 0
    ensures forall c :: c in m ==> exists b :: b in store && b.category == c
    ensures forall b, c :: b in store && b.category !in m && c in m ==> CountCategory(store, b.category) <= m[c]
  {
    var pairs := CategoryCounts(store);
    var top := TopByCount(pairs, 5);
    var m := ToMap(top);
    SubItemsKeepDistinctKeys(pairs, top);
    ToMapKeepsDistinctKeys(top);
    TopCategoriesOccur(store, pairs, top, m);
    TopCategoriesAreHighest(store, pairs, top, m);
    m
  }

  lemma TopCategoriesOccur(store: seq<Business>, pairs: seq<(string, nat)>, top: seq<(string, nat)>, m: map<string, nat>)
    requires pairs == CategoryCounts(store) && top == TopByCount(pairs, 5) && m == ToMap(top)
    ensures forall c :: c in m ==> m[c] == CountCategory(store, c) && m[c] > 0
    ensures forall c :: c in m ==> exists b :: b in store && b.category == c
  {
    var column := Column(store, CategoryOf);
    forall c | c in m ensures m[c] == CountCategory(store, c) && m[c] > 0 && c in column {
      var p := (c, m[c]);
      assert p in top;
      assert p in pairs;
      assert c in column;
      assert c in multiset(column);
    }
    forall c | c in m ensures exists b :: b in store && b.category == c {
      assert c in column;
      var b :| b in store && CategoryOf(b) == c;
    }
  }

  lemma TopCategoriesAreHighest(store: seq<Business>, pairs: seq<(string, nat)>, top: seq<(string, nat)>, m: map<string, nat>)
    requires pairs == CategoryCounts(store) && top == TopByCount(pairs, 5) && m == ToMap(top)
    ensures forall b, c :: b in store && b.category !in m && c in m ==> CountCategory(store, b.category) <= m[c]
  {
    forall b, c | b in store && b.category !in m && c in m
      ensures CountCategory(store, b.category) <= m[c]
    {
      var p := (b.category, CountCategory(store, b.category));
      assert p in pairs;
      assert p !in top;
      assert (c, m[c]) in top;
    }
  }

  /** The non-float part of the metrics summary. */
  datatype Metrics = Metrics(totalBusinesses: nat, topCategories: map<string, nat>, statesCoverage: nat)

  function MetricsSummary(store: seq<Business>): (r: Metrics)
    ensures r.totalBusinesses == |store|
    ensures r.statesCoverage == |UniqueStates(store)|
    ensures r.topCategories == TopCategories(store)
  {
    Metrics(|store|, TopCategories(store), |UniqueStates(store)|)
  }

  // ---------------------------------------------------------------------------
  // load_fashion_data
  // ---------------------------------------------------------------------------

  /** The filter dictionary; None is a key that is absent. */
  datatype Filters = Filters(
    category: Option<string>,
    state: Option<string>,
    minScore: Option<real>,
    maxScore: Option<real>,
    search: Option<string>)

  const NoFilters: Filters := Filters(None, None, None, None, None)

  /** Python truthiness of `filters.get(key)`. */
  predicate TextGiven(v: Option<string>) { v.Some? && v.value != "" }
  predicate ScoreGiven(v: Option<real>) { v.Some? && v.value != 0.0 }

  /** The conjunction the query builds: each filter whose value is truthy
      constrains the row, the others are skipped. The name search is an
      ASCII case-insensitive substring test. */
  predicate Matches(f: Filters, b: Business) {
    && (TextGiven(f.category) ==> b.category == f.category.value)
    && (TextGiven(f.state) ==> b.state == f.state.value)
    && (ScoreGiven(f.minScore) ==> b.sustainabilityScore >= f.minScore.value)
    && (ScoreGiven(f.maxScore) ==> b.sustainabilityScore <= f.maxScore.value)
    && (TextGiven(f.search) ==> HasSubstring(Lower(b.brandName), Lower(f.search.value)))
  }

  /** The rows the filtered query selects, in storage order. */
  function MatchingRows(store: seq<Business>, f: Filters): (r: seq<Business>)
    ensures forall b :: b in r <==> b in store && Matches(f, b)
    ensures forall b :: multiset(r)[b] == if Matches(f, b) then multiset(store)[b] else 0
  {
    Filter(store, (b: Business) => Matches(f, b))
  }

  /** An empty or falsy filter constrains nothing; in particular a maximum
      score of 0 is skipped rather than selecting scores at most 0. */
  lemma FalsyFiltersIgnored(store: seq<Business>, f: Filters)
    requires !TextGiven(f.category) && !TextGiven(f.state) && !TextGiven(f.search)
    requires !ScoreGiven(f.minScore) && !ScoreGiven(f.maxScore)
    ensures MatchingRows(store, f) == store
  {
    var p := (b: Business) => Matches(f, b);
    assert forall b :: p(b);
    FilterAll(store, p);
  }

  lemma {:induction false} FilterAll<T(!new)>(s: seq<T>, p: T -> bool)
    requires forall x :: p(x)
    ensures Filter(s, p) == s
    decreases |s|
  {
    if s != [] {
      FilterAll(s[..|s| - 1], p);
      assert s == s[..|s| - 1] + [s[|s| - 1]];
    }
  }

  /** PostgreSQL rejects a negative OFFSET or LIMIT; the error is re-raised
      as a plain exception, which the retry wrapper does not retry. */
  datatype LoadError = NegativeOffsetOrLimit

  function Offset(page: int, perPage: int): int { (page - 1) * perPage }

  /** `OFFSET (page - 1) * per_page LIMIT per_page` over `s`. */
  function PageOf<T>(s: seq<T>, page: int, perPage: int): (r: Result<seq<T>, LoadError>)
    ensures r.Ok? <==> Offset(page, perPage) >= 0 && perPage >= 0
    ensures r.Ok? ==> |r.value| <= perPage
    ensures r.Ok? && Offset(page, perPage) >= |s| ==> r.value == []
    ensures r.Ok? && Offset(page, perPage) < |s| ==>
      r.value == s[Offset(page, perPage)..if Offset(page, perPage) + perPage < |s| then Offset(page, perPage) + perPage else |s|]
  {
    var offset := Offset(page, perPage);
    if offset < 0 || perPage < 0 then Err(NegativeOffsetOrLimit)
    else if offset >= |s| then Ok([])
    else Ok(s[offset..if offset + perPage < |s| then offset + perPage else |s|])
  }

  /** The listing: one page of the matching rows and the total count. */
  datatype Listing = Listing(rows: seq<Business>, totalCount: nat)

  function LoadFashionData(store: seq<Business>, page: int, perPage: int, f: Filters): (r: Result<Listing, LoadError>)
    ensures r.Ok? <==> Offset(page, perPage) >= 0 && perPage >= 0
    ensures r.Ok? ==> r.value.totalCount == |MatchingRows(store, f)|
    ensures r.Ok? ==> r.value.rows == PageOf(MatchingRows(store, f), page, perPage).value
  {
    var matching := MatchingRows(store, f);
    match PageOf(matching, page, perPage)
    case Err(e) => Err(e)
    case Ok(rows) => Ok(Listing(rows, |matching|))
  }

  /** Every listed row satisfies every filter that is given. */
  lemma ListedRowsMatch(store: seq<Business>, page: int, perPage: int, f: Filters)
    requires LoadFashionData(store, page, perPage, f).Ok?
    ensures forall b :: b in LoadFashionData(store, page, perPage, f).value.rows ==> b in store && Matches(f, b)
  {
    var matching := MatchingRows(store, f);
    var rows := LoadFashionData(store, page, perPage, f).value.rows;
    forall b | b in rows ensures b in matching {
      var o := Offset(page, perPage);
      var k :| 0 <= k < |rows| && rows[k] == b;
      assert o < |matching|;
      var hi := if o + perPage < |matching| then o + perPage else |matching|;
      assert rows == matching[o..hi];
      assert matching[o + k] == b;
    }
  }

  /** The total count does not depend on the page requested, and a page
      past the end is empty while the total stays the same. */
  lemma TotalIndependentOfPage(store: seq<Business>, f: Filters, p1: int, n1: int, p2: int, n2: int)
    requires LoadFashionData(store, p1, n1, f).Ok? && LoadFashionData(store, p2, n2, f).Ok?
    ensures LoadFashionData(store, p1, n1, f).value.totalCount == LoadFashionData(store, p2, n2, f).value.totalCount
    ensures Offset(p2, n2) >= |MatchingRows(store, f)| ==> LoadFashionData(store, p2, n2, f).value.rows == []
  {
  }

  /** Pages 1..k of `s`, concatenated. */
  function PagesUpTo<T>(s: seq<T>, perPage: nat, k: nat): seq<T> {
    if k == 0 then [] else PagesUpTo(s, perPage, k - 1) + PageOf(s, k, perPage).value
  }

  function Min(a: int, b: int): int { if a < b then a else b }

  /** Consecutive pages do not overlap and leave no gap: pages 1..k are the
      first `k * perPage` rows. */
  lemma {:induction false} PagesAreConsecutive<T>(s: seq<T>, perPage: nat, k: nat)
    ensures PagesUpTo(s, perPage, k) == s[..Min(|s|, k * perPage)]
  {
    if k > 0 {
      PagesAreConsecutive(s, perPage, k - 1);
      var lo := (k - 1) * perPage;
      assert Offset(k, perPage) == lo;
      assert k * perPage == lo + perPage;
      if lo < |s| {
        assert s[..Min(|s|, k * perPage)] == s[..lo] + s[lo..Min(|s|, k * perPage)];
      }
    }
  }

  // ---------------------------------------------------------------------------
  // get_nearby_businesses
  // ---------------------------------------------------------------------------

  /** A row together with its added `distance` column (miles). */
  datatype Located = Located(business: Business, distance: real)

  /** geodesic((lat1, lon1), (lat2, lon2)).miles, left uninterpreted. */
  type Geodesic = (real, real, real, real) -> real

  function NearerOrEqual(a: Located, b: Located): bool { a.distance <= b.distance }

  lemma NearerOrEqualIsTotalPreorder()
    ensures TotalPreorder(NearerOrEqual)
  {
  }

  /** The frame with its distance column. */
  function WithDistances(frame: seq<Business>, lat: real, lon: real, miles: Geodesic): (r: seq<Located>)
    ensures |r| == |frame|
    ensures forall i :: 0 <= i < |frame| ==>
      r[i] == Located(frame[i], miles(lat, lon, frame[i].latitude, frame[i].longitude))
  {
    seq(|frame|, i requires 0 <= i < |frame| =>
      Located(frame[i], miles(lat, lon, frame[i].latitude, frame[i].longitude)))
  }

  /** The rows within `radius` miles, in frame order. */
  function WithinRadius(frame: seq<Business>, lat: real, lon: real, radius: real, miles: Geodesic): seq<Located> {
    Filter(WithDistances(frame, lat, lon, miles), (x: Located) => x.distance <= radius)
  }

  /** Adds the distance column row by row, keeps the rows within the
      radius and sorts them nearest first. The kilometre conversion of the
      radius is never used and is not modelled. */
  method NearbyBusinesses(frame: seq<Business>, lat: real, lon: real, radius: real, miles: Geodesic)
    returns (nearby: seq<Located>)
    ensures frame == [] ==> nearby == []
    ensures SortedBy(nearby, NearerOrEqual)
    ensures multiset(nearby) == multiset(WithinRadius(frame, lat, lon, radius, miles))
    ensures forall x :: x in nearby <==>
      x.business in frame && x.distance <= radius &&
      x.distance == miles(lat, lon, x.business.latitude, x.business.longitude)
  {
    if frame == [] {
      return [];
    }
    var withDistance: seq<Located> := [];
    var i := 0;
    while i < |frame|
      invariant 0 <= i <= |frame|
      invariant withDistance == WithDistances(frame[..i], lat, lon, miles)
    {
      withDistance := withDistance + [Located(frame[i], miles(lat, lon, frame[i].latitude, frame[i].longitude))];
      i := i + 1;
    }
    assert frame[..i] == frame;
    var inRadius := Filter(withDistance, (x: Located) => x.distance <= radius);
    NearerOrEqualIsTotalPreorder();
    nearby := Sort(inRadius, NearerOrEqual);
    forall x ensures x in nearby <==> x in inRadius {
      assert x in nearby <==> x in multiset(nearby);
    }
    forall x ensures x in inRadius <==>
      x.business in frame && x.distance <= radius &&
      x.distance == miles(lat, lon, x.business.latitude, x.business.longitude)
    {
      if x.business in frame && x.distance == miles(lat, lon, x.business.latitude, x.business.longitude) {
        var k :| 0 <= k < |frame| && frame[k] == x.business;
        assert withDistance[k] == x;
      }
    }
  }
}
