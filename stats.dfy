/**
  The analytics page's aggregation: one pass over a link's clicks, newest
  first, fills a country tally and a referrer tally; the page then shows the
  total, the twenty most recent clicks and the five largest entries of each
  tally.

  A JavaScript `Record<string, number>` is modelled as a sequence of entries
  in insertion order, which is the order `Object.entries` lists them in.
 */
module Stats {
  import opened Wrappers

  /** A row of `clicks`, restricted to the columns the aggregation reads. */
  datatype Click = Click(country: Option<string>, referrer: Option<string>, timestamp: int)

  /** A nullable text column is truthy when it is set and not empty. */
  predicate Present(v: Option<string>) {
    v.Some? && v.value != ""
  }

  /** The tally key a click contributes to the country counts, if any. */
  function CountryKey(c: Click): Option<string> {
    if Present(c.country) then c.country else None
  }

  /** The tally key a click contributes to the referrer counts: `direct` is shown as `Direct`. */
  function ReferrerKey(c: Click): Option<string> {
    if Present(c.referrer) then Some(if c.referrer.value == "direct" then "Direct" else c.referrer.value)
    else None
  }

  function CountryKeys(clicks: seq<Click>): (keys: seq<Option<string>>)
    ensures |keys| == |clicks|
  {
    if clicks == [] then [] else CountryKeys(clicks[..|clicks| - 1]) + [CountryKey(clicks[|clicks| - 1])]
  }

  function ReferrerKeys(clicks: seq<Click>): (keys: seq<Option<string>>)
    ensures |keys| == |clicks|
  {
    if clicks == [] then [] else ReferrerKeys(clicks[..|clicks| - 1]) + [ReferrerKey(clicks[|clicks| - 1])]
  }

  // ---------------------------------------------------------------------
  // Frequency dictionaries

  datatype Entry = Entry(key: string, count: nat)

  /** A `Record<string, number>`, entries in insertion order. */
  type Counts = seq<Entry>

  /** The keys of a dictionary. */
  function Keys(counts: Counts): set<string> {
    if counts == [] then {} else {counts[0].key} + Keys(counts[1..])
  }

  /** No key occurs twice. */
  predicate DistinctKeys(counts: Counts) {
    counts == [] || (counts[0].key !in Keys(counts[1..]) && DistinctKeys(counts[1..]))
  }

  /** `counts[key] || 0`. */
  function CountOf(counts: Counts, key: string): nat {
    if counts == [] then 0
    else if counts[0].key == key then counts[0].count
    else CountOf(counts[1..], key)
  }

  /** The sum of a dictionary's values. */
  function Total(counts: Counts): nat {
    if counts == [] then 0 else counts[0].count + Total(counts[1..])
  }

  /** `counts[key] = (counts[key] || 0) + 1`. */
  function Bump(counts: Counts, key: string): Counts {
    if counts == [] then [Entry(key, 1)]
    else if counts[0].key == key then [Entry(key, counts[0].count + 1)] + counts[1..]
    else [counts[0]] + Bump(counts[1..], key)
  }

  /** Bumping a key adds one to that key's count and to no other. */
  lemma {:induction false} BumpCounts(counts: Counts, key: string, k: string)
    ensures CountOf(Bump(counts, key), k) == CountOf(counts, k) + (if k == key then 1 else 0)
  {
    if counts != [] && counts[0].key != key {
      BumpCounts(counts[1..], key, k);
    }
  }

  /** Bumping adds the key if it was missing, keeps keys distinct, and adds one to the total. */
  lemma {:induction false} BumpKeys(counts: Counts, key: string)
    ensures Keys(Bump(counts, key)) == Keys(counts) + {key}
    ensures DistinctKeys(counts) ==> DistinctKeys(Bump(counts, key))
    ensures Total(Bump(counts, key)) == Total(counts) + 1
  {
    if counts != [] && counts[0].key != key {
      BumpKeys(counts[1..], key);
      assert Bump(counts, key)[1..] == Bump(counts[1..], key);
    } else if counts != [] {
      assert Bump(counts, key)[1..] == counts[1..];
    }
  }

  /**
    Insertion order: an existing key is incremented where it stands; a new
    key is appended with count 1.
   */
  lemma {:induction false} BumpOrder(counts: Counts, key: string)
    ensures key !in Keys(counts) ==> Bump(counts, key) == counts + [Entry(key, 1)]
    ensures key in Keys(counts) ==>
      |Bump(counts, key)| == |counts| && forall i :: 0 <= i < |counts| ==> Bump(counts, key)[i].key == counts[i].key
  {
    if counts != [] && counts[0].key != key {
      BumpOrder(counts[1..], key);
      var r := Bump(counts, key);
      assert r == [counts[0]] + Bump(counts[1..], key);
      if key in Keys(counts) {
        forall i | 0 <= i < |counts|
          ensures r[i].key == counts[i].key
        {
          if i > 0 {
            assert r[i] == Bump(counts[1..], key)[i - 1];
          }
        }
      }
    }
  }

  /** One click's key applied to a dictionary; a falsy field leaves it unchanged. */
  function Record(counts: Counts, key: Option<string>): Counts {
    if key.Some? then Bump(counts, key.value) else counts
  }

  /** The dictionary a `forEach` over these keys builds, starting from `{}`. */
  function Tally(keys: seq<Option<string>>): Counts {
    if keys == [] then [] else Record(Tally(keys[..|keys| - 1]), keys[|keys| - 1])
  }

  /** Each key's count in the tally is the number of times it occurs in the keys. */
  lemma {:induction false} TallyCounts(keys: seq<Option<string>>, k: string)
    ensures CountOf(Tally(keys), k) == multiset(keys)[Some(k)]
  {
    if keys != [] {
      var init := keys[..|keys| - 1];
      assert keys == init + [keys[|keys| - 1]];
      TallyCounts(init, k);
      if keys[|keys| - 1].Some? {
        BumpCounts(Tally(init), keys[|keys| - 1].value, k);
      }
    }
  }

  /**
    The tally has one entry per distinct key that occurs, and its values
    add up to the number of keys that are set.
   */
  lemma {:induction false} TallyShape(keys: seq<Option<string>>)
    ensures DistinctKeys(Tally(keys))
    ensures forall x :: x in Keys(Tally(keys)) <==> Some(x) in keys
    ensures Total(Tally(keys)) == |keys| - multiset(keys)[None]
  {
    if keys != [] {
      var init, last := keys[..|keys| - 1], keys[|keys| - 1];
      assert keys == init + [last];
      TallyShape(init);
      if last.Some? {
        BumpKeys(Tally(init), last.value);
      }
    }
  }

  /** Neither tally adds up to more than the keys it was built from. */
  lemma TallyTotalBound(keys: seq<Option<string>>)
    ensures Total(Tally(keys)) <= |keys|
  {
    TallyShape(keys);
    assert multiset(keys)[None] >= 0;
  }

  // ---------------------------------------------------------------------
  // Reference counts, stated directly over the clicks

  /** The number of clicks whose country column is exactly `c`. */
  function ClicksFrom(clicks: seq<Click>, c: string): nat {
    if clicks == [] then 0
    else ClicksFrom(clicks[..|clicks| - 1], c) + (if clicks[|clicks| - 1].country == Some(c) then 1 else 0)
  }

  /** The number of clicks whose referrer column is exactly `r`. */
  function ClicksReferredBy(clicks: seq<Click>, r: string): nat {
    if clicks == [] then 0
    else ClicksReferredBy(clicks[..|clicks| - 1], r) + (if clicks[|clicks| - 1].referrer == Some(r) then 1 else 0)
  }

  /** What `countryCounts[c]` should be: the clicks from `c`, and nothing under the empty string. */
  function CountryClicks(clicks: seq<Click>, c: string): nat {
    if c == "" then 0 else ClicksFrom(clicks, c)
  }

  /**
    What `referrerCounts[r]` should be: clicks referred by `direct` or
    `Direct` count under `Direct`, nothing counts under `direct` or the
    empty string, and any other referrer counts its own clicks.
   */
  function ReferrerClicks(clicks: seq<Click>, r: string): nat {
    if r == "" || r == "direct" then 0
    else if r == "Direct" then ClicksReferredBy(clicks, "direct") + ClicksReferredBy(clicks, "Direct")
    else ClicksReferredBy(clicks, r)
  }

  /** The country tally counts, per country, the clicks from it. */
  lemma {:induction false} CountryCountsAreClicks(clicks: seq<Click>, c: string)
    ensures CountOf(Tally(CountryKeys(clicks)), c) == CountryClicks(clicks, c)
  {
    TallyCounts(CountryKeys(clicks), c);
    CountryKeysOccurrences(clicks, c);
  }

  lemma {:induction false} CountryKeysOccurrences(clicks: seq<Click>, c: string)
    ensures multiset(CountryKeys(clicks))[Some(c)] == CountryClicks(clicks, c)
  {
    if clicks != [] {
      CountryKeysOccurrences(clicks[..|clicks| - 1], c);
    }
  }

  /** The referrer tally counts, per referrer, the clicks it stands for. */
  lemma {:induction false} ReferrerCountsAreClicks(clicks: seq<Click>, r: string)
    ensures CountOf(Tally(ReferrerKeys(clicks)), r) == ReferrerClicks(clicks, r)
  {
    TallyCounts(ReferrerKeys(clicks), r);
    ReferrerKeysOccurrences(clicks, r);
  }

  lemma {:induction false} ReferrerKeysOccurrences(clicks: seq<Click>, r: string)
    ensures multiset(ReferrerKeys(clicks))[Some(r)] == ReferrerClicks(clicks, r)
  {
    if clicks != [] {
      ReferrerKeysOccurrences(clicks[..|clicks| - 1], r);
    }
  }

  // ---------------------------------------------------------------------
  // The aggregation

  /** At most this many clicks are listed as recent. */
  const RecentLimit: nat := 20

  function Min(a: nat, b: nat): nat {
    if a <= b then a else b
  }

  /** One more click extends each tally by that click's key. */
  lemma TalliesStep(clicks: seq<Click>, i: nat)
    requires i < |clicks|
    ensures Tally(CountryKeys(clicks[..i + 1])) == Record(Tally(CountryKeys(clicks[..i])), CountryKey(clicks[i]))
    ensures Tally(ReferrerKeys(clicks[..i + 1])) == Record(Tally(ReferrerKeys(clicks[..i])), ReferrerKey(clicks[i]))
  {
    assert clicks[..i + 1][..i] == clicks[..i];
    var ck := CountryKeys(clicks[..i + 1]);
    assert ck[..|ck| - 1] == CountryKeys(clicks[..i]);
    var rk := ReferrerKeys(clicks[..i + 1]);
    assert rk[..|rk| - 1] == ReferrerKeys(clicks[..i]);
  }

  datatype LinkStats = LinkStats(
    totalClicks: nat,
    countryCounts: Counts,
    referrerCounts: Counts,
    recentClicks: seq<Click>)

  /**
    Lines 46-64: the `forEach` over the clicks, then the total and the
    recent slice. A null click list behaves as the empty one.
   */
  method Aggregate(clicks: seq<Click>) returns (s: LinkStats)
    ensures s.totalClicks == |clicks|
    ensures s.countryCounts == Tally(CountryKeys(clicks))
    ensures s.referrerCounts == Tally(ReferrerKeys(clicks))
    ensures s.recentClicks == clicks[..Min(RecentLimit, |clicks|)]
    ensures forall c :: CountOf(s.countryCounts, c) == CountryClicks(clicks, c)
    ensures forall r :: CountOf(s.referrerCounts, r) == ReferrerClicks(clicks, r)
    ensures DistinctKeys(s.countryCounts) && DistinctKeys(s.referrerCounts)
    ensures Total(s.countryCounts) <= s.totalClicks && Total(s.referrerCounts) <= s.totalClicks
    ensures clicks == [] ==> s == LinkStats(0, [], [], [])
  {
    var countryCounts: Counts := [];
    var referrerCounts: Counts := [];
    var i := 0;
    while i < |clicks|
      invariant 0 <= i <= |clicks|
      invariant countryCounts == Tally(CountryKeys(clicks[..i]))
      invariant referrerCounts == Tally(ReferrerKeys(clicks[..i]))
    {
      var click := clicks[i];
      TalliesStep(clicks, i);
      if Present(click.country) {
        countryCounts := Bump(countryCounts, click.country.value);
      }
      if Present(click.referrer) {
        var ref := if click.referrer.value == "direct" then "Direct" else click.referrer.value;
        referrerCounts := Bump(referrerCounts, ref);
      }
      i := i + 1;
    }
    assert clicks[..i] == clicks;
    s := LinkStats(|clicks|, countryCounts, referrerCounts, clicks[..Min(RecentLimit, |clicks|)]);
    forall c
      ensures CountOf(s.countryCounts, c) == CountryClicks(clicks, c)
    {
      CountryCountsAreClicks(clicks, c);
    }
    forall r
      ensures CountOf(s.referrerCounts, r) == ReferrerClicks(clicks, r)
    {
      ReferrerCountsAreClicks(clicks, r);
    }
    TallyShape(CountryKeys(clicks));
    TallyShape(ReferrerKeys(clicks));
    TallyTotalBound(CountryKeys(clicks));
    TallyTotalBound(ReferrerKeys(clicks));
  }

  /** The order `.order('timestamp', {ascending: false})` delivers the clicks in. */
  predicate NewestFirst(clicks: seq<Click>) {
    forall i, j :: 0 <= i < j < |clicks| ==> clicks[i].timestamp >= clicks[j].timestamp
  }

  /** On clicks delivered newest first, the recent slice holds the latest clicks. */
  lemma RecentAreLatest(clicks: seq<Click>)
    requires NewestFirst(clicks)
    ensures var recent := clicks[..Min(RecentLimit, |clicks|)];
      |recent| == Min(RecentLimit, |clicks|) && NewestFirst(recent) &&
      forall i, j :: 0 <= i < |recent| <= j < |clicks| ==> recent[i].timestamp >= clicks[j].timestamp
  {
  }

  // ---------------------------------------------------------------------
  // Top entries

  /** How many entries the page shows per tally. */
  const TopLimit: nat := 5

  /** Largest count first. */
  predicate ByCountDesc(s: Counts) {
    forall i, j :: 0 <= i < j < |s| ==> s[i].count >= s[j].count
  }

  /** The entries of `s` with count `n`, in order. */
  function WithCount(s: Counts, n: nat): Counts {
    if s == [] then []
    else (if s[0].count == n then [s[0]] else []) + WithCount(s[1..], n)
  }

  /** Places `e` after the entries with a larger count and before the rest. */
  function InsertByCount(e: Entry, sorted: Counts): (r: Counts)
    ensures multiset(r) == multiset(sorted) + multiset{e}
  {
    if sorted == [] || sorted[0].count <= e.count then [e] + sorted
    else
      assert sorted == [sorted[0]] + sorted[1..];
      [sorted[0]] + InsertByCount(e, sorted[1..])
  }

  /** An entry whose count is at least the head's may go in front of an ordered list. */
  lemma ConsByCount(x: Entry, s: Counts)
    requires ByCountDesc(s) && (s == [] || x.count >= s[0].count)
    ensures ByCountDesc([x] + s)
  {
    var r := [x] + s;
    forall i, j | 0 <= i < j < |r|
      ensures r[i].count >= r[j].count
    {
      if i == 0 && j > 1 {
        assert s[0].count >= s[j - 1].count;
      }
    }
  }

  /** Inserting into a list ordered by count keeps it ordered. */
  lemma {:induction false} InsertByCountSorted(e: Entry, sorted: Counts)
    requires ByCountDesc(sorted)
    ensures ByCountDesc(InsertByCount(e, sorted))
  {
    if sorted == [] || sorted[0].count <= e.count {
      ConsByCount(e, sorted);
    } else {
      var tail := sorted[1..];
      assert ByCountDesc(tail) by {
        forall i, j | 0 <= i < j < |tail| ensures tail[i].count >= tail[j].count {
          assert tail[i] == sorted[i + 1] && tail[j] == sorted[j + 1];
        }
      }
      InsertByCountSorted(e, tail);
      var rest := InsertByCount(e, tail);
      assert rest[0] == e || (tail != [] && rest[0] == tail[0]);
      if tail != [] {
        assert tail[0] == sorted[1];
      }
      ConsByCount(sorted[0], rest);
    }
  }

  /**
    `.sort(([, a], [, b]) => b - a)`: a stable sort by count, descending,
    as `Array.prototype.sort` is required to be.
   */
  function SortByCount(entries: Counts): (r: Counts)
    ensures multiset(r) == multiset(entries)
    ensures |r| == |entries|
    ensures ByCountDesc(r)
  {
    if entries == [] then []
    else
      assert entries == [entries[0]] + entries[1..];
      var rest := SortByCount(entries[1..]);
      InsertByCountSorted(entries[0], rest);
      var r := InsertByCount(entries[0], rest);
      assert |r| == |multiset(r)|;
      r
  }

  /** Inserting `e` adds it in front of the other entries of its count. */
  lemma {:induction false} InsertByCountStable(e: Entry, sorted: Counts, n: nat)
    ensures WithCount(InsertByCount(e, sorted), n) == (if e.count == n then [e] else []) + WithCount(sorted, n)
  {
    if sorted == [] || sorted[0].count <= e.count {
      assert ([e] + sorted)[1..] == sorted;
    } else {
      var rest := InsertByCount(e, sorted[1..]);
      assert ([sorted[0]] + rest)[1..] == rest;
      InsertByCountStable(e, sorted[1..], n);
    }
  }

  /** The sort is stable: entries with equal counts keep their insertion order. */
  lemma {:induction false} SortByCountStable(entries: Counts, n: nat)
    ensures WithCount(SortByCount(entries), n) == WithCount(entries, n)
  {
    if entries != [] {
      SortByCountStable(entries[1..], n);
      InsertByCountStable(entries[0], SortByCount(entries[1..]), n);
    }
  }

  /** `.slice(0, 5)` of the sorted entries: what the Top Countries and Top Referrers cards list. */
  function Top(counts: Counts): (r: Counts)
    ensures |r| == Min(TopLimit, |counts|)
  {
    SortByCount(counts)[..Min(TopLimit, |counts|)]
  }

  /** A prefix of a list ordered by count is ordered, and drawn from the list. */
  lemma PrefixByCount(s: Counts, k: nat)
    requires k <= |s| && ByCountDesc(s)
    ensures ByCountDesc(s[..k])
    ensures multiset(s[..k]) <= multiset(s)
  {
    assert s == s[..k] + s[k..];
    assert multiset(s) == multiset(s[..k]) + multiset(s[k..]);
  }

  /** The top list is ordered by count, drawn from the tally, and whole when the tally has at most five entries. */
  lemma TopIsOrderedPart(counts: Counts)
    ensures ByCountDesc(Top(counts))
    ensures multiset(Top(counts)) <= multiset(counts)
    ensures |counts| <= TopLimit ==> Top(counts) == SortByCount(counts)
  {
    var sorted := SortByCount(counts);
    var k := Min(TopLimit, |counts|);
    PrefixByCount(sorted, k);
    assert Top(counts) == sorted[..k];
    if |counts| <= TopLimit {
      assert k == |sorted|;
      assert sorted[..k] == sorted;
    }
  }

  /** No entry left out of the top list has a larger count than an entry in it. */
  lemma TopIsLargest(counts: Counts, t: Entry, e: Entry)
    requires t in Top(counts) && e in counts && e !in Top(counts)
    ensures t.count >= e.count
  {
    var sorted := SortByCount(counts);
    var top := Top(counts);
    assert e in multiset(sorted) by {
      assert e in multiset(counts);
    }
    var j :| 0 <= j < |sorted| && sorted[j] == e;
    var i :| 0 <= i < |top| && top[i] == t;
    assert sorted[i] == t;
  }
}
