/** The diagnostic country table built from a blacklist response: a count of
    entries per `countryCode` (a missing code counts as "Unknown"), the ten
    most frequent countries in descending order, and the high-risk check on
    the first five of them. None of it changes what the fetch returns. */
module CountryStats {
  import opened Common

  /** One blacklist entry; only its optional `countryCode` field matters here. */
  datatype Entry = Entry(countryCode: Option<string>)

  /** One `(country, count)` item of the table. */
  datatype CountryCount = CountryCount(country: string, count: nat)

  const UNKNOWN_COUNTRY := "Unknown"
  const TOP_COUNTRIES: nat := 10
  const HIGH_RISK_WINDOW: nat := 5
  const HIGH_RISK_COUNTRIES := ["RU", "CN", "KP", "IR"]

  /** `entry.get("countryCode", "Unknown")`. */
  function CountryOf(e: Entry): string {
    e.countryCode.GetOr(UNKNOWN_COUNTRY)
  }

  /** The country of every entry, entry by entry. */
  function Countries(entries: seq<Entry>): (cs: seq<string>)
    ensures |cs| == |entries|
    ensures forall i :: 0 <= i < |entries| ==> cs[i] == CountryOf(entries[i])
  {
    seq(|entries|, i requires 0 <= i < |entries| => CountryOf(entries[i]))
  }

  predicate Distinct<T(==)>(s: seq<T>) {
    forall i, j :: 0 <= i < j < |s| ==> s[i] != s[j]
  }

  /** The distinct values of `cs` in order of first appearance: the key order
      of a Python dict filled from `cs`. */
  function FirstAppearance(cs: seq<string>): (order: seq<string>)
    ensures forall c :: c in order <==> c in cs
    ensures Distinct(order)
    decreases |cs|
  {
    if cs == [] then []
    else
      var init := cs[..|cs| - 1];
      var last := cs[|cs| - 1];
      assert cs == init + [last];
      var o := FirstAppearance(init);
      if last in o then o else o + [last]
  }

  /** The items of a dict with keys `order` whose value for key `c` is the
      number of occurrences of `c` in `occurrences`. */
  function TableOf(order: seq<string>, occurrences: multiset<string>): (items: seq<CountryCount>)
    ensures |items| == |order|
    ensures forall i :: 0 <= i < |order| ==> items[i] == CountryCount(order[i], occurrences[order[i]])
  {
    seq(|order|, i requires 0 <= i < |order| => CountryCount(order[i], occurrences[order[i]]))
  }

  /** `country_stats.items()` after the counting loop, as a function of the entries. */
  function CountryTable(entries: seq<Entry>): seq<CountryCount> {
    var cs := Countries(entries);
    TableOf(FirstAppearance(cs), multiset(cs))
  }

  /** The counting loop: `country_stats[country] = country_stats.get(country, 0) + 1`
      for each entry. A Python dict remembers the order in which keys were first
      inserted, so the dict is modelled by its key order and its key-to-count map. */
  method CountCountries(entries: seq<Entry>) returns (order: seq<string>, counts: map<string, nat>)
    ensures order == FirstAppearance(Countries(entries))
    ensures forall c :: c in counts <==> c in order
    ensures forall c :: c in counts ==> counts[c] == multiset(Countries(entries))[c]
    ensures forall i :: 0 <= i < |entries| && entries[i].countryCode.None? ==> UNKNOWN_COUNTRY in counts
    ensures Items(order, counts) == CountryTable(entries)
  {
    ghost var cs := Countries(entries);
    order, counts := [], map[];
    for i := 0 to |entries|
      invariant order == FirstAppearance(cs[..i])
      invariant forall c :: c in counts <==> c in order
      invariant forall c :: c in counts ==> counts[c] == multiset(cs[..i])[c]
    {
      var country := CountryOf(entries[i]);
      ghost var order0, counts0 := order, counts;
      var previous := if country in counts then counts[country] else 0;
      if country !in counts {
        order := order + [country];
      }
      counts := counts[country := previous + 1];
      CountStep(cs[..i], country, order0, counts0, order, counts);
      PrefixSnoc(cs, i);
    }
    assert cs[..|entries|] == cs;
    TableOfCounts(order, counts, multiset(cs));
    forall i | 0 <= i < |entries| && entries[i].countryCode.None?
      ensures UNKNOWN_COUNTRY in counts
    {
      assert cs[i] == UNKNOWN_COUNTRY;
    }
  }

  /** One more value seen: the key order grows by that value iff it is new. */
  lemma FirstAppearanceSnoc(cs: seq<string>, x: string)
    ensures x in FirstAppearance(cs) <==> x in cs
    ensures FirstAppearance(cs + [x]) == if x in cs then FirstAppearance(cs) else FirstAppearance(cs) + [x]
  {
    assert (cs + [x])[..|cs|] == cs;
  }

  /** One step of the counting loop keeps the dict in step with the values seen. */
  lemma CountStep(seen: seq<string>, x: string, order: seq<string>, counts: map<string, nat>,
                  order': seq<string>, counts': map<string, nat>)
    requires order == FirstAppearance(seen)
    requires forall c :: c in counts <==> c in order
    requires forall c :: c in counts ==> counts[c] == multiset(seen)[c]
    requires order' == if x in counts then order else order + [x]
    requires counts' == counts[x := (if x in counts then counts[x] else 0) + 1]
    ensures order' == FirstAppearance(seen + [x])
    ensures forall c :: c in counts' <==> c in order'
    ensures forall c :: c in counts' ==> counts'[c] == multiset(seen + [x])[c]
  {
    FirstAppearanceSnoc(seen, x);
    assert multiset(seen + [x]) == multiset(seen) + multiset{x};
  }

  /** A dict holding the multiplicity of each of its keys has the table's items. */
  lemma TableOfCounts(order: seq<string>, counts: map<string, nat>, occurrences: multiset<string>)
    requires forall c :: c in counts <==> c in order
    requires forall c :: c in counts ==> counts[c] == occurrences[c]
    ensures Items(order, counts) == TableOf(order, occurrences)
  {
  }

  /** `country_stats.items()` of the dict returned by CountCountries. */
  function Items(order: seq<string>, counts: map<string, nat>): seq<CountryCount>
    requires forall c :: c in order ==> c in counts
  {
    seq(|order|, i requires 0 <= i < |order| => CountryCount(order[i], counts[order[i]]))
  }

  function SumCounts(items: seq<CountryCount>): nat
    decreases |items|
  {
    if items == [] then 0 else SumCounts(items[..|items| - 1]) + items[|items| - 1].count
  }

  /** Adding one occurrence of `x` raises the total of a table by one when `x`
      is one of its keys and leaves it unchanged otherwise. */
  lemma {:induction false} SumCountsAdd(order: seq<string>, occurrences: multiset<string>, x: string)
    requires Distinct(order)
    ensures SumCounts(TableOf(order, occurrences + multiset{x}))
         == SumCounts(TableOf(order, occurrences)) + (if x in order then 1 else 0)
    decreases |order|
  {
    if order != [] {
      var init := order[..|order| - 1];
      var last := order[|order| - 1];
      assert order == init + [last];
      assert TableOf(order, occurrences)[..|init|] == TableOf(init, occurrences);
      assert TableOf(order, occurrences + multiset{x})[..|init|] == TableOf(init, occurrences + multiset{x});
      assert last !in init;
      SumCountsAdd(init, occurrences, x);
    }
  }

  /** The counts of the table sum to the number of entries looked at. */
  lemma {:induction false} CountsSumToEntries(entries: seq<Entry>)
    ensures SumCounts(CountryTable(entries)) == |entries|
  {
    CountsSumToLength(Countries(entries));
  }

  lemma {:induction false} CountsSumToLength(cs: seq<string>)
    ensures SumCounts(TableOf(FirstAppearance(cs), multiset(cs))) == |cs|
    decreases |cs|
  {
    if cs != [] {
      var init := cs[..|cs| - 1];
      var last := cs[|cs| - 1];
      PrefixSnoc(cs, |cs| - 1);
      assert cs[..|cs|] == cs;
      var o := FirstAppearance(init);
      var occurrences := multiset(cs);
      assert occurrences == multiset(init) + multiset{last};
      FirstAppearanceSnoc(init, last);
      CountsSumToLength(init);
      SumCountsAdd(o, multiset(init), last);
      assert SumCounts(TableOf(o, occurrences)) == |init| + (if last in o then 1 else 0);
      if last !in o {
        var table := TableOf(o + [last], occurrences);
        assert table[..|o|] == TableOf(o, occurrences);
        assert table[|o|].count == 1 by {
          assert multiset(init)[last] == 0;
        }
        assert SumCounts(table) == SumCounts(table[..|o|]) + table[|o|].count;
      }
    }
  }

  /** Every count of `items` is at least every count after it. */
  predicate NonIncreasing(items: seq<CountryCount>) {
    forall i, j :: 0 <= i < j < |items| ==> items[i].count >= items[j].count
  }

  /** Insert `x` into a list sorted by descending count, before the first item
      whose count does not exceed its own. */
  function InsertByCount(x: CountryCount, sorted: seq<CountryCount>): (r: seq<CountryCount>)
    requires NonIncreasing(sorted)
    ensures NonIncreasing(r)
    ensures multiset(r) == multiset(sorted) + multiset{x}
    ensures |r| == |sorted| + 1
    ensures r[0] == x || (|sorted| > 0 && r[0] == sorted[0])
    decreases |sorted|
  {
    if sorted == [] then [x]
    else if sorted[0].count <= x.count then
      NonIncreasingCons(x, sorted);
      [x] + sorted
    else
      var tail := sorted[1..];
      assert sorted == [sorted[0]] + tail;
      NonIncreasingTail(sorted);
      var rest := InsertByCount(x, tail);
      assert rest[0] == x || rest[0] == sorted[1];
      NonIncreasingCons(sorted[0], rest);
      assert multiset(sorted) == multiset{sorted[0]} + multiset(tail);
      [sorted[0]] + rest
  }

  /** An item counting at least the head of a sorted list may go in front of it. */
  lemma NonIncreasingCons(h: CountryCount, t: seq<CountryCount>)
    requires NonIncreasing(t)
    requires |t| > 0 ==> h.count >= t[0].count
    ensures NonIncreasing([h] + t)
  {
    var r := [h] + t;
    forall i, j | 0 <= i < j < |r|
      ensures r[i].count >= r[j].count
    {
      if i == 0 && j > 1 {
        assert t[0].count >= t[j - 1].count;
      }
    }
  }

  lemma NonIncreasingTail(s: seq<CountryCount>)
    requires NonIncreasing(s) && |s| > 0
    ensures NonIncreasing(s[1..])
  {
    forall i, j | 0 <= i < j < |s| - 1
      ensures s[1..][i].count >= s[1..][j].count
    {
      assert s[1..][i] == s[i + 1] && s[1..][j] == s[j + 1];
    }
  }

  /** `sorted(items, key=lambda x: x[1], reverse=True)`: a stable sort by
      descending count (equal counts keep their order of appearance). */
  function SortByCountDesc(items: seq<CountryCount>): (r: seq<CountryCount>)
    ensures NonIncreasing(r)
    ensures multiset(r) == multiset(items)
    decreases |items|
  {
    if items == [] then []
    else
      assert items == [items[0]] + items[1..];
      InsertByCount(items[0], SortByCountDesc(items[1..]))
  }

  /** The list the script prints: the sorted items cut to ten. It holds as many
      items as there are countries, up to ten, in non-increasing count order,
      each taken from the table, and no country left out has a higher count than
      any country shown. */
  function TopCountries(items: seq<CountryCount>): (top: seq<CountryCount>)
    ensures |top| == Min(TOP_COUNTRIES, |items|)
    ensures NonIncreasing(top)
    ensures multiset(top) <= multiset(items)
    ensures forall x, i :: x in multiset(items) - multiset(top) && 0 <= i < |top| ==> x.count <= top[i].count
  {
    var sorted := SortByCountDesc(items);
    SortedPrefix(sorted, TOP_COUNTRIES);
    Take(sorted, TOP_COUNTRIES)
  }

  /** Cutting a sorted list keeps it sorted and leaves nothing behind that
      counts more than what was kept. */
  lemma SortedPrefix(sorted: seq<CountryCount>, n: nat)
    requires NonIncreasing(sorted)
    ensures NonIncreasing(Take(sorted, n))
    ensures multiset(Take(sorted, n)) <= multiset(sorted)
    ensures forall x, i :: x in multiset(sorted) - multiset(Take(sorted, n)) && 0 <= i < |Take(sorted, n)|
              ==> x.count <= Take(sorted, n)[i].count
  {
    var k := Min(n, |sorted|);
    assert Take(sorted, n) == sorted[..k];
    PrefixSorted(sorted, k);
    PrefixDominates(sorted, k);
  }

  lemma PrefixSorted(sorted: seq<CountryCount>, k: nat)
    requires NonIncreasing(sorted) && k <= |sorted|
    ensures NonIncreasing(sorted[..k])
  {
    forall i, j | 0 <= i < j < k
      ensures sorted[..k][i].count >= sorted[..k][j].count
    {
      assert sorted[..k][i] == sorted[i] && sorted[..k][j] == sorted[j];
    }
  }

  lemma PrefixDominates(sorted: seq<CountryCount>, k: nat)
    requires NonIncreasing(sorted) && k <= |sorted|
    ensures multiset(sorted[..k]) <= multiset(sorted)
    ensures forall x, i :: x in multiset(sorted) - multiset(sorted[..k]) && 0 <= i < k ==> x.count <= sorted[i].count
  {
    var top, rest := sorted[..k], sorted[k..];
    assert sorted == top + rest;
    assert multiset(sorted) == multiset(top) + multiset(rest);
    assert multiset(sorted) - multiset(top) == multiset(rest);
    forall x: CountryCount, i | x in multiset(rest) && 0 <= i < k
      ensures x.count <= sorted[i].count
    {
      assert x in rest;
      var j :| 0 <= j < |rest| && rest[j] == x;
      assert sorted[k + j] == x;
    }
  }

  /** `any(country in [c[0] for c in sorted_countries[:5]] for country in high_risk_countries)`. */
  function HighRiskDetected(top: seq<CountryCount>): (detected: bool)
    ensures detected <==> exists i :: 0 <= i < Min(HIGH_RISK_WINDOW, |top|) && top[i].country in HIGH_RISK_COUNTRIES
  {
    var window := Take(top, HIGH_RISK_WINDOW);
    exists i :: 0 <= i < |window| && window[i].country in HIGH_RISK_COUNTRIES
  }
}
