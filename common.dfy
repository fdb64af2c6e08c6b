/** Shared vocabulary of the dashboard model: optional values, results, the
    JSON shape exchanged with the recommendation service, and the list and
    string operations the Python code takes from its standard library
    (filtering, de-duplication, stable sorting, `str.split`, `str.join`,
    `str.lower`, lexicographic string comparison). */
module Common {

  datatype Option<T> = None | Some(value: T)

  datatype Result<T, E> = Ok(value: T) | Err(error: E)

  /** A JSON value as produced by `json.loads` or held in a Python dict. */
  datatype Json =
    | JNull
    | JBool(b: bool)
    | JNum(n: real)
    | JStr(s: string)
    | JList(items: seq<Json>)
    | JObject(fields: map<string, Json>)

  // ---------------------------------------------------------------------------
  // Filtering (list comprehensions with an `if`, SQL WHERE over a row sequence)
  // ---------------------------------------------------------------------------

  /** The elements of `s` satisfying `p`, in their original order. */
  function Filter<T(!new)>(s: seq<T>, p: T -> bool): (r: seq<T>)
    ensures |r| <= |s|
    ensures forall x :: x in r <==> x in s && p(x)
    ensures forall x :: multiset(r)[x] == if p(x) then multiset(s)[x] else 0
  {
    if s == [] then []
    else
      var rest := Filter(s[..|s| - 1], p);
      assert s == s[..|s| - 1] + [s[|s| - 1]];
      if p(s[|s| - 1]) then rest + [s[|s| - 1]] else rest
  }

  /** Filtering a sequence extended by one element. */
  lemma FilterSnoc<T(!new)>(s: seq<T>, x: T, p: T -> bool)
    ensures Filter(s + [x], p) == if p(x) then Filter(s, p) + [x] else Filter(s, p)
  {
    assert (s + [x])[..|s|] == s;
  }

  /** Filtering distributes over concatenation, so it keeps the source order. */
  lemma {:induction false} FilterConcat<T(!new)>(a: seq<T>, b: seq<T>, p: T -> bool)
    ensures Filter(a + b, p) == Filter(a, p) + Filter(b, p)
    decreases |b|
  {
    if b != [] {
      var b' := b[..|b| - 1];
      assert (a + b)[..|a + b| - 1] == a + b';
      FilterConcat(a, b', p);
    } else {
      assert a + b == a;
    }
  }

  /** Filtering a sorted sequence leaves it sorted. */
  lemma {:induction false} FilterKeepsSorted<T(!new)>(s: seq<T>, p: T -> bool, le: (T, T) -> bool)
    requires SortedBy(s, le)
    ensures SortedBy(Filter(s, p), le)
    decreases |s|
  {
    if s != [] {
      var init := s[..|s| - 1];
      var last := s[|s| - 1];
      assert SortedBy(init, le);
      FilterKeepsSorted(init, p, le);
      var rest := Filter(init, p);
      if p(last) {
        forall i | 0 <= i < |rest| ensures le(rest[i], last) {
          assert rest[i] in init;
          var k :| 0 <= k < |init| && init[k] == rest[i];
        }
      }
    }
  }

  // ---------------------------------------------------------------------------
  // De-duplication keeping the first occurrence
  // ---------------------------------------------------------------------------

  predicate NoDupsBy<T, K(==)>(s: seq<T>, key: T -> K) {
    forall i, j :: 0 <= i < j < |s| ==> key(s[i]) != key(s[j])
  }

  predicate NoDups<T(==)>(s: seq<T>) {
    forall i, j :: 0 <= i < j < |s| ==> s[i] != s[j]
  }

  /** `s[i]` is the first element of `s` with its key. */
  predicate IsFirstWithKey<T, K(==)>(s: seq<T>, key: T -> K, i: int)
    requires 0 <= i < |s|
  {
    forall j :: 0 <= j < i ==> key(s[j]) != key(s[i])
  }

  /** `pandas.drop_duplicates(subset=[key], keep='first')`. */
  function DistinctBy<T(==,!new), K(==)>(s: seq<T>, key: T -> K): (r: seq<T>)
    ensures |r| <= |s|
    ensures NoDupsBy(r, key)
    ensures forall x :: x in r ==> x in s
    ensures forall i :: 0 <= i < |s| && IsFirstWithKey(s, key, i) ==> s[i] in r
  {
    if s == [] then []
    else
      var init := s[..|s| - 1];
      var last := s[|s| - 1];
      var rest := DistinctBy(init, key);
      var seen := exists y :: y in rest && key(y) == key(last);
      var r := if seen then rest else rest + [last];
      assert s == init + [last];
      DistinctByStep(init, last, key, rest, seen, r);
      r
  }

  lemma DistinctByStep<T(!new), K>(init: seq<T>, last: T, key: T -> K, rest: seq<T>, seen: bool, r: seq<T>)
    requires NoDupsBy(rest, key)
    requires forall x :: x in rest ==> x in init
    requires forall i :: 0 <= i < |init| && IsFirstWithKey(init, key, i) ==> init[i] in rest
    requires seen == exists y :: y in rest && key(y) == key(last)
    requires r == if seen then rest else rest + [last]
    ensures NoDupsBy(r, key)
    ensures forall x :: x in r ==> x in init + [last]
    ensures forall i :: 0 <= i < |init| + 1 && IsFirstWithKey(init + [last], key, i) ==> (init + [last])[i] in r
  {
    var s := init + [last];
    if !seen {
      forall i | 0 <= i < |rest| ensures key(rest[i]) != key(last) {
        assert rest[i] in rest;
      }
    }
    forall i | 0 <= i < |s| && IsFirstWithKey(s, key, i) ensures s[i] in r {
      if i < |init| {
        assert s[i] == init[i];
        assert IsFirstWithKey(init, key, i) by {
          forall j | 0 <= j < i ensures key(init[j]) != key(init[i]) {
            assert s[j] == init[j];
          }
        }
      } else {
        forall y | y in rest ensures key(y) != key(last) {
          assert y in init;
          var j :| 0 <= j < |init| && init[j] == y;
          assert s[j] == y;
        }
      }
    }
  }

  /** Distinct values in first-occurrence order. */
  function Distinct<T(==,!new)>(s: seq<T>): (r: seq<T>)
    ensures NoDups(r)
    ensures forall x :: x in r <==> x in s
  {
    if s == [] then []
    else
      var rest := Distinct(s[..|s| - 1]);
      var last := s[|s| - 1];
      assert s == s[..|s| - 1] + [last];
      if last in rest then rest else rest + [last]
  }

  /** One more value: kept at the end exactly when it is new. */
  lemma DistinctSnoc<T(!new)>(s: seq<T>, x: T)
    ensures Distinct(s + [x]) == if x in s then Distinct(s) else Distinct(s) + [x]
  {
    assert (s + [x])[..|s|] == s;
  }

  // ---------------------------------------------------------------------------
  // Sorting by a total preorder (Python's stable `sorted`)
  // ---------------------------------------------------------------------------

  ghost predicate TotalPreorder<T(!new)>(le: (T, T) -> bool) {
    && (forall a, b :: le(a, b) || le(b, a))
    && (forall a, b, c :: le(a, b) && le(b, c) ==> le(a, c))
  }

  predicate SortedBy<T>(s: seq<T>, le: (T, T) -> bool) {
    forall i, j :: 0 <= i < j < |s| ==> le(s[i], s[j])
  }

  /** Inserts `x` before the first element it does not follow. */
  function Insert<T(!new)>(x: T, s: seq<T>, le: (T, T) -> bool): (r: seq<T>)
    requires TotalPreorder(le) && SortedBy(s, le)
    ensures SortedBy(r, le)
    ensures multiset(r) == multiset(s) + multiset{x}
  {
    if s == [] then [x]
    else if le(x, s[0]) then
      assert forall j :: 0 <= j < |s| ==> le(x, s[j]);
      [x] + s
    else
      var rest := Insert(x, s[1..], le);
      assert s == [s[0]] + s[1..];
      assert forall y :: y in rest ==> le(s[0], y) by {
        forall y | y in rest ensures le(s[0], y) {
          assert y in multiset(rest);
          if y != x {
            assert y in s[1..];
            var k :| 0 <= k < |s[1..]| && s[1..][k] == y;
            assert s[k + 1] == y;
          }
        }
      }
      assert forall i :: 0 < i < |rest| + 1 ==> ([s[0]] + rest)[i] == rest[i - 1];
      [s[0]] + rest
  }

  /** Stable insertion sort: a sorted permutation of `s`. */
  function Sort<T(!new)>(s: seq<T>, le: (T, T) -> bool): (r: seq<T>)
    requires TotalPreorder(le)
    ensures SortedBy(r, le)
    ensures multiset(r) == multiset(s)
    ensures |r| == |s|
  {
    if s == [] then []
    else
      assert s == [s[0]] + s[1..];
      var r := Insert(s[0], Sort(s[1..], le), le);
      assert |r| == |multiset(r)|;
      r
  }

  // ---------------------------------------------------------------------------
  // Counted keys ranked by count (SQL `ORDER BY count DESC LIMIT k`,
  // Python `sorted(items, key=count, reverse=True)[:k]`)
  // ---------------------------------------------------------------------------

  function CountDesc(a: (string, nat), b: (string, nat)): bool { a.1 >= b.1 }

  lemma CountDescIsTotalPreorder()
    ensures TotalPreorder(CountDesc)
  {
  }

  /** The `k` pairs with the highest counts, in non-increasing count order. */
  function TopByCount(pairs: seq<(string, nat)>, k: nat): (r: seq<(string, nat)>)
    ensures |r| == if k < |pairs| then k else |pairs|
    ensures multiset(r) <= multiset(pairs)
    ensures forall i, j :: 0 <= i < j < |r| ==> r[i].1 >= r[j].1
    ensures forall p :: p in r ==> p in pairs
    ensures forall p :: p in pairs && p !in r ==> forall q :: q in r ==> q.1 >= p.1
  {
    CountDescIsTotalPreorder();
    var sorted := Sort(pairs, CountDesc);
    var n := if k < |sorted| then k else |sorted|;
    SortedPrefixIsTop(pairs, sorted, n);
    assert sorted == sorted[..n] + sorted[n..];
    sorted[..n]
  }

  function Keys(pairs: seq<(string, nat)>): (ks: seq<string>)
    ensures |ks| == |pairs|
    ensures forall i :: 0 <= i < |pairs| ==> ks[i] == pairs[i].0
  {
    seq(|pairs|, i requires 0 <= i < |pairs| => pairs[i].0)
  }

  /** Part of a dictionary's items, as a sub-multiset, still has one pair
      per key. */
  lemma SubItemsKeepDistinctKeys(pairs: seq<(string, nat)>, r: seq<(string, nat)>)
    requires NoDups(Keys(pairs)) && multiset(r) <= multiset(pairs)
    ensures NoDups(Keys(r))
  {
    assert NoDups(pairs) by {
      forall i, j | 0 <= i < j < |pairs| ensures pairs[i] != pairs[j] {
        assert Keys(pairs)[i] != Keys(pairs)[j];
      }
    }
    NoDupsMultiset(pairs, r);
    forall i, j | 0 <= i < j < |r| ensures Keys(r)[i] != Keys(r)[j] {
      assert r[i] in multiset(pairs) && r[j] in multiset(pairs);
      var a :| 0 <= a < |pairs| && pairs[a] == r[i];
      var b :| 0 <= b < |pairs| && pairs[b] == r[j];
      assert a != b;
      assert Keys(pairs)[a] != Keys(pairs)[b];
    }
  }

  lemma SortedPrefixIsTop(pairs: seq<(string, nat)>, sorted: seq<(string, nat)>, n: nat)
    requires SortedBy(sorted, CountDesc) && multiset(sorted) == multiset(pairs)
    requires n <= |sorted|
    ensures forall i, j :: 0 <= i < j < n ==> sorted[i].1 >= sorted[j].1
    ensures forall p :: p in sorted[..n] ==> p in pairs
    ensures forall p :: p in pairs && p !in sorted[..n] ==> forall q :: q in sorted[..n] ==> q.1 >= p.1
  {
    var r := sorted[..n];
    forall i, j | 0 <= i < j < n ensures sorted[i].1 >= sorted[j].1 {
      assert CountDesc(sorted[i], sorted[j]);
    }
    forall p | p in r ensures p in pairs {
      assert p in sorted;
      assert p in multiset(sorted);
    }
    forall p, q | p in pairs && p !in r && q in r ensures q.1 >= p.1 {
      assert p in multiset(sorted);
      var j :| 0 <= j < |sorted| && sorted[j] == p;
      var i :| 0 <= i < n && r[i] == q;
      assert j >= n;
      assert CountDesc(sorted[i], sorted[j]);
    }
  }

  /** `{k: v for k, v in pairs}`: later pairs overwrite earlier ones. */
  function ToMap(pairs: seq<(string, nat)>): (m: map<string, nat>)
    ensures |m| <= |pairs|
    ensures forall k :: k in m <==> exists p :: p in pairs && p.0 == k
    ensures forall k :: k in m ==> (k, m[k]) in pairs
  {
    if pairs == [] then map[]
    else
      var init := pairs[..|pairs| - 1];
      var last := pairs[|pairs| - 1];
      var m := ToMap(init);
      assert pairs == init + [last];
      m[last.0 := last.1]
  }

  /** Dropping the last pair keeps one pair per key, and no remaining pair
      shares the last pair's key. */
  lemma DistinctKeysSnoc(init: seq<(string, nat)>, last: (string, nat))
    requires NoDups(Keys(init + [last]))
    ensures NoDups(Keys(init))
    ensures forall p :: p in init ==> p.0 != last.0
  {
    var pairs := init + [last];
    forall i, j | 0 <= i < j < |init| ensures Keys(init)[i] != Keys(init)[j] {
      assert Keys(pairs)[i] != Keys(pairs)[j];
    }
    forall p | p in init ensures p.0 != last.0 {
      var i :| 0 <= i < |init| && init[i] == p;
      assert Keys(pairs)[i] != Keys(pairs)[|init|];
    }
  }

  /** With one pair per key, the dictionary keeps every pair. */
  lemma {:induction false} ToMapKeepsDistinctKeys(pairs: seq<(string, nat)>)
    requires NoDups(Keys(pairs))
    ensures |ToMap(pairs)| == |pairs|
    ensures forall p :: p in pairs ==> p.0 in ToMap(pairs) && ToMap(pairs)[p.0] == p.1
  {
    if pairs != [] {
      var init := pairs[..|pairs| - 1];
      var last := pairs[|pairs| - 1];
      assert pairs == init + [last];
      DistinctKeysSnoc(init, last);
      ToMapKeepsDistinctKeys(init);
      var m := ToMap(init);
      assert ToMap(pairs) == m[last.0 := last.1];
      assert last.0 !in m;
      forall p | p in pairs ensures p.0 in ToMap(pairs) && ToMap(pairs)[p.0] == p.1 {
        if p != last {
          assert p in init;
        }
      }
    }
  }

  // ---------------------------------------------------------------------------
  // Strings
  // ---------------------------------------------------------------------------

  /** `str.lower` restricted to ASCII letters. */
  function LowerChar(c: char): char {
    if 'A' <= c <= 'Z' then (c as int + 32) as char else c
  }

  function Lower(s: string): (r: string)
    ensures |r| == |s|
    ensures forall i :: 0 <= i < |s| ==> r[i] == LowerChar(s[i])
  {
    seq(|s|, i requires 0 <= i < |s| => LowerChar(s[i]))
  }

  /** `sub` occurs in `s` starting at `i`. */
  predicate OccursAt(s: string, sub: string, i: int) {
    0 <= i && i + |sub| <= |s| && s[i..i + |sub|] == sub
  }

  predicate HasSubstring(s: string, sub: string) {
    exists i :: 0 <= i <= |s| - |sub| && OccursAt(s, sub, i)
  }

  /** An occurrence past the first character is one in the tail. */
  lemma OccursAtTail(s: string, sub: string, i: int)
    requires |s| > 0 && i > 0
    ensures OccursAt(s, sub, i) <==> OccursAt(s[1..], sub, i - 1)
  {
    if i + |sub| <= |s| {
      assert s[1..][i - 1..i - 1 + |sub|] == s[i..i + |sub|];
    }
  }

  /** The leftmost occurrence of `sub` in `s` (`str.find`). */
  function Find(s: string, sub: string): (r: Option<nat>)
    requires |sub| > 0
    ensures r.Some? ==> OccursAt(s, sub, r.value)
    ensures r.Some? ==> forall i :: 0 <= i < r.value ==> !OccursAt(s, sub, i)
    ensures r.None? ==> forall i :: !OccursAt(s, sub, i)
    decreases |s|
  {
    if |s| < |sub| then None
    else if s[..|sub|] == sub then Some(0)
    else
      match Find(s[1..], sub)
      case None =>
        assert forall i :: !OccursAt(s, sub, i) by {
          forall i ensures !OccursAt(s, sub, i) {
            if i > 0 { OccursAtTail(s, sub, i); }
          }
        }
        None
      case Some(k) =>
        OccursAtTail(s, sub, k + 1);
        assert forall i :: 0 <= i < k + 1 ==> !OccursAt(s, sub, i) by {
          forall i | 0 <= i < k + 1 ensures !OccursAt(s, sub, i) {
            if i > 0 { OccursAtTail(s, sub, i); }
          }
        }
        Some(k + 1)
  }

  /** Python's `s.split(sep)` for a non-empty separator. */
  function Split(s: string, sep: string): (parts: seq<string>)
    requires |sep| > 0
    ensures |parts| >= 1
    ensures forall p :: p in parts ==> !HasSubstring(p, sep)
    decreases |s|
  {
    match Find(s, sep)
    case None =>
      assert !HasSubstring(s, sep);
      [s]
    case Some(i) =>
      assert !HasSubstring(s[..i], sep) by {
        forall j | 0 <= j <= i - |sep| ensures !OccursAt(s[..i], sep, j) {
          assert !OccursAt(s, sep, j);
          assert s[..i][j..j + |sep|] == s[j..j + |sep|];
        }
      }
      [s[..i]] + Split(s[i + |sep|..], sep)
  }

  /** A separator-free string splits to itself. */
  lemma SplitNoSep(s: string, sep: string)
    requires |sep| > 0 && !HasSubstring(s, sep)
    ensures Split(s, sep) == [s]
  {
    assert forall i :: !OccursAt(s, sep, i);
  }

  /** `str.join`. */
  function Join(sep: string, parts: seq<string>): string {
    if parts == [] then ""
    else if |parts| == 1 then parts[0]
    else parts[0] + sep + Join(sep, parts[1..])
  }

  /** Python's slice `s[-n:]`: the last `n` elements (all of them when fewer). */
  function LastN<T>(s: seq<T>, n: nat): (r: seq<T>)
    ensures |r| == if |s| < n then |s| else n
    ensures r == s[|s| - |r|..]
  {
    if |s| <= n then s else s[|s| - n..]
  }

  /** Decimal rendering of a natural number (`str(n)`). */
  function NatToString(n: nat): string
    decreases n
  {
    var d := ['0', '1', '2', '3', '4', '5', '6', '7', '8', '9'][n % 10];
    if n < 10 then [d] else NatToString(n / 10) + [d]
  }

  // ---------------------------------------------------------------------------
  // Python string order: lexicographic by code point
  // ---------------------------------------------------------------------------

  predicate LexLe(a: string, b: string) {
    if |a| == 0 then true
    else if |b| == 0 then false
    else if a[0] != b[0] then a[0] < b[0]
    else LexLe(a[1..], b[1..])
  }

  lemma {:induction false} LexLeTotal(a: string, b: string)
    ensures LexLe(a, b) || LexLe(b, a)
    decreases |a|
  {
    if |a| > 0 && |b| > 0 && a[0] == b[0] {
      LexLeTotal(a[1..], b[1..]);
    }
  }

  lemma {:induction false} LexLeTransitive(a: string, b: string, c: string)
    requires LexLe(a, b) && LexLe(b, c)
    ensures LexLe(a, c)
    decreases |a|
  {
    if |a| > 0 && |b| > 0 && |c| > 0 && a[0] == b[0] && b[0] == c[0] {
      LexLeTransitive(a[1..], b[1..], c[1..]);
    }
  }

  lemma LexLeIsTotalPreorder()
    ensures TotalPreorder(LexLe)
  {
    forall a, b ensures LexLe(a, b) || LexLe(b, a) {
      LexLeTotal(a, b);
    }
    forall a, b, c | LexLe(a, b) && LexLe(b, c) ensures LexLe(a, c) {
      LexLeTransitive(a, b, c);
    }
  }

  /** Python's `sorted` on a list of strings. */
  function SortStrings(s: seq<string>): (r: seq<string>)
    ensures SortedBy(r, LexLe)
    ensures multiset(r) == multiset(s)
  {
    LexLeIsTotalPreorder();
    Sort(s, LexLe)
  }
  /** No duplicates means every element occurs once, so a permutation of a
      duplicate-free sequence, or of part of one, is duplicate-free. */
  lemma {:induction false} NoDupsMultiset<T>(s: seq<T>, t: seq<T>)
    requires NoDups(s) && multiset(t) <= multiset(s)
    ensures NoDups(t)
  {
    forall i, j | 0 <= i < j < |t| ensures t[i] != t[j] {
      if t[i] == t[j] {
        var x := t[i];
        assert multiset(t)[x] >= 2 by {
          assert t == t[..i] + [t[i]] + t[i + 1..j] + [t[j]] + t[j + 1..];
          assert multiset(t) == multiset(t[..i]) + multiset{x} + multiset(t[i + 1..j]) + multiset{x} + multiset(t[j + 1..]);
        }
        OccursOnce(s, x);
        assert false;
      }
    }
  }

  lemma {:induction false} OccursOnce<T>(s: seq<T>, x: T)
    requires NoDups(s)
    ensures multiset(s)[x] <= 1
  {
    if s != [] {
      assert s == [s[0]] + s[1..];
      assert NoDups(s[1..]);
      OccursOnce(s[1..], x);
      if s[0] == x {
        assert x !in s[1..];
      }
    }
  }

  /** Joining the pieces of a split with the same separator gives back the
      original string. */
  lemma {:induction false} JoinSplit(s: string, sep: string)
    requires |sep| > 0
    ensures Join(sep, Split(s, sep)) == s
    decreases |s|
  {
    var f := Find(s, sep);
    if f.Some? {
      var i := f.value;
      var tail := s[i + |sep|..];
      var rest := Split(tail, sep);
      JoinSplit(tail, sep);
      assert Split(s, sep) == [s[..i]] + rest;
      JoinCons(sep, s[..i], rest);
      assert s == s[..i] + s[i..i + |sep|] + tail;
    }
  }

  lemma JoinCons(sep: string, a: string, rest: seq<string>)
    requires |rest| >= 1
    ensures Join(sep, [a] + rest) == a + sep + Join(sep, rest)
  {
    assert ([a] + rest)[1..] == rest;
  }

  /** `sep` has no proper prefix that is also a suffix, so two of its
      occurrences can never overlap (true of "$", "|" and ", "). */
  predicate BorderFree(sep: string) {
    forall k :: 0 < k < |sep| ==> sep[k..] != sep[..|sep| - k]
  }

  /** Splitting `a + sep + b`, where neither part holds the separator, gives
      back the two parts. */
  lemma SplitPair(a: string, b: string, sep: string)
    requires |sep| > 0 && BorderFree(sep)
    requires !HasSubstring(a, sep) && !HasSubstring(b, sep)
    ensures Split(a + sep + b, sep) == [a, b]
  {
    var s := a + sep + b;
    assert OccursAt(s, sep, |a|) by { assert s[|a|..|a| + |sep|] == sep; }
    forall i | 0 <= i < |a| ensures !OccursAt(s, sep, i) {
      if i + |sep| <= |a| {
        assert !OccursAt(a, sep, i);
        assert a[i..i + |sep|] == s[i..i + |sep|];
      } else {
        var k := |a| - i;
        assert s[i..i + |sep|][k..] == sep[..|sep| - k];
        assert sep[k..] != sep[..|sep| - k];
      }
    }
    assert Find(s, sep) == Some(|a|);
    assert s[..|a|] == a;
    assert s[|a| + |sep|..] == b;
    SplitNoSep(b, sep);
  }
}
