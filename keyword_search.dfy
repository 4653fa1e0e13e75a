/**
 * The selection loop of `searchKeywordInQuran` (js/main.js:562-579): walk
 * the surah table in order, and each available surah's verses in the
 * record's key order, collecting the verses whose normalised text contains
 * the normalised keyword, never verse 0, stopping at seven.
 *
 * `AllHits` is the whole answer without the bound; the method is proved
 * to return its first seven.
 */
module KeywordSearch {
  import opened Wrappers
  import opened JsText
  import opened ArabicText
  import opened Corpus

  /** `MAX_SEARCH_RESULTS_DISPLAY`. */
  const MaxSearchResults: nat := 7

  /** One search result: the surah it comes from, the verse number and the verse text. */
  datatype Hit = Hit(surahIndex: string, verseNumber: int, text: string)

  /**
   * What `fetchSurahData` yields during a search: the record of every
   * surah that can be loaded. An empty index or a missing record is a
   * surah whose data is unavailable.
   */
  function RecordOf(records: map<string, SurahRecord>, index: string): (r: Option<SurahRecord>)
    ensures r.Some? <==> index != "" && index in records
  {
    if index != "" && index in records then Some(records[index]) else None
  }

  /** Every surah the cache holds is held with the record the network yields for it. */
  predicate CacheAgrees(entries: map<string, SurahRecord>, records: map<string, SurahRecord>) {
    forall k :: k in entries ==> k in records && entries[k] == records[k]
  }

  /**
   * `await fetchSurahData(surahMeta.index)` inside the search, with a
   * network that loads exactly the surahs of `records`: on a cache that
   * agrees with `records`, the fetch yields `RecordOf(records, index)` and
   * the cache still agrees afterwards.
   */
  method FetchForSearch(cache: SurahCache, records: map<string, SurahRecord>, index: string)
    returns (r: Option<SurahRecord>)
    requires CacheAgrees(cache.entries, records)
    modifies cache
    ensures r == RecordOf(records, index)
    ensures CacheAgrees(cache.entries, records)
  {
    var outcome := if index in records then Loaded(records[index]) else LoadFailed;
    var fetched;
    r, fetched := cache.FetchSurahData(index, outcome);
  }

  /** A verse the search reports: its normal form holds the keyword and it is not verse 0. */
  predicate IsMatch(v: Verse, normalizedKeyword: string) {
    Contains(Normalize(v.text), normalizedKeyword) && v.number != 0
  }

  /**
   * The search's filter for one keyword, normalised once: a verse passes
   * when `normalizeArabicText(text).includes(normalizedKeyword)` and its
   * number is not 0.
   */
  function Matcher(keyword: string): Verse -> bool {
    (v: Verse) => IsMatch(v, Normalize(keyword))
  }

  /** The verses of one record that pass `matches`, in record order. */
  function VerseHits(index: string, verses: seq<Verse>, matches: Verse -> bool): (r: seq<Hit>)
    ensures |r| <= |verses|
  {
    if verses == [] then []
    else
      var v := verses[|verses| - 1];
      VerseHits(index, verses[..|verses| - 1], matches) + (if matches(v) then [Hit(index, v.number, v.text)] else [])
  }

  /** The passing verses of one surah; an unavailable surah has none. */
  function SurahHits(meta: SurahMeta, records: map<string, SurahRecord>, matches: Verse -> bool): seq<Hit> {
    match RecordOf(records, meta.index)
    case None => []
    case Some(verses) => VerseHits(meta.index, verses, matches)
  }

  /** Every passing verse, surah by surah in table order. */
  function AllHits(table: seq<SurahMeta>, records: map<string, SurahRecord>, matches: Verse -> bool): seq<Hit> {
    if table == [] then []
    else AllHits(table[..|table| - 1], records, matches) + SurahHits(table[|table| - 1], records, matches)
  }

  /** The first seven matches. */
  function SearchResults(table: seq<SurahMeta>, records: map<string, SurahRecord>, keyword: string): seq<Hit> {
    Take(AllHits(table, records, Matcher(keyword)), MaxSearchResults)
  }

  /** `searchKeywordInQuran`'s loops, with the found verses as the result instead of chat messages. */
  method SearchKeywordInQuran(table: seq<SurahMeta>, records: map<string, SurahRecord>, keyword: string)
    returns (results: seq<Hit>)
    ensures results == SearchResults(table, records, keyword)
  {
    results := [];
    var m := Matcher(keyword);
    var i := 0;
    while i < |table|
      invariant 0 <= i <= |table|
      invariant results == Take(AllHits(table[..i], records, m), MaxSearchResults)
    {
      if |results| >= MaxSearchResults {
        FullBufferStops(table, records, m, i, results);
        break;
      }
      SurahStep(table, records, m, i, results);
      var data := RecordOf(records, table[i].index);
      if data.Some? {
        results := ScanVerses(table[i].index, data.value, m, results);
      }
      i := i + 1;
    }
    assert table[..|table|] == table;
  }

  /**
   * The inner loop over one surah's verses: append the verses that pass
   * `matches` to `found` until seven results are held.
   */
  method ScanVerses(index: string, verses: seq<Verse>, matches: Verse -> bool, found: seq<Hit>) returns (results: seq<Hit>)
    requires |found| < MaxSearchResults
    ensures results == Take(found + VerseHits(index, verses, matches), MaxSearchResults)
  {
    results := found;
    var j := 0;
    while j < |verses|
      invariant 0 <= j <= |verses|
      invariant results == found + VerseHits(index, verses[..j], matches)
      invariant |results| < MaxSearchResults
    {
      VerseHitsStep(index, verses, matches, j);
      if matches(verses[j]) {
        results := results + [Hit(index, verses[j].number, verses[j].text)];
        if |results| >= MaxSearchResults {
          FullBeforeEnd(index, verses, matches, j + 1, found);
          return;
        }
      }
      j := j + 1;
    }
    assert verses[..|verses|] == verses;
  }

  // ------------------------------------------------------------ helpers

  /** Cutting an already long sequence to `n` ignores what follows it. */
  lemma TakeOfLonger<T>(a: seq<T>, b: seq<T>, n: nat)
    requires |a| >= n
    ensures Take(a + b, n) == Take(a, n)
  {
    assert (a + b)[..n] == a[..n];
  }

  lemma VerseHitsStep(index: string, verses: seq<Verse>, m: Verse -> bool, j: nat)
    requires j < |verses|
    ensures VerseHits(index, verses[..j + 1], m)
      == VerseHits(index, verses[..j], m) + (if m(verses[j]) then [Hit(index, verses[j].number, verses[j].text)] else [])
  {
    assert verses[..j + 1][..j] == verses[..j];
  }

  /** Once the hits of a prefix fill the bound, the rest of the record does not matter. */
  lemma FullBeforeEnd(index: string, verses: seq<Verse>, m: Verse -> bool, j: nat, found: seq<Hit>)
    requires j <= |verses| && |found + VerseHits(index, verses[..j], m)| >= MaxSearchResults
    ensures Take(found + VerseHits(index, verses, m), MaxSearchResults)
      == Take(found + VerseHits(index, verses[..j], m), MaxSearchResults)
  {
    VerseHitsSplit(index, verses, m, j);
    var a := found + VerseHits(index, verses[..j], m);
    assert found + VerseHits(index, verses, m) == a + VerseHits(index, verses[j..], m);
    TakeOfLonger(a, VerseHits(index, verses[j..], m), MaxSearchResults);
  }

  lemma {:induction false} VerseHitsSplit(index: string, verses: seq<Verse>, m: Verse -> bool, j: nat)
    requires j <= |verses|
    ensures VerseHits(index, verses, m) == VerseHits(index, verses[..j], m) + VerseHits(index, verses[j..], m)
    decreases |verses|
  {
    if j < |verses| {
      var front := verses[..|verses| - 1];
      VerseHitsSplit(index, front, m, j);
      assert front[..j] == verses[..j];
      assert verses[j..][..|verses[j..]| - 1] == front[j..];
    } else {
      assert verses[..j] == verses;
    }
  }

  /** Once seven results are held after `i` surahs, the rest of the table cannot change them. */
  lemma FullBufferStops(table: seq<SurahMeta>, records: map<string, SurahRecord>, m: Verse -> bool, i: nat, results: seq<Hit>)
    requires i <= |table| && |results| >= MaxSearchResults
    requires results == Take(AllHits(table[..i], records, m), MaxSearchResults)
    ensures results == Take(AllHits(table, records, m), MaxSearchResults)
  {
    AllHitsSplit(table, records, m, i);
    TakeOfLonger(AllHits(table[..i], records, m), AllHits(table[i..], records, m), MaxSearchResults);
  }

  /** With fewer than seven results after `i` surahs, surah `i` adds its own hits, or nothing when its data is unavailable. */
  lemma SurahStep(table: seq<SurahMeta>, records: map<string, SurahRecord>, m: Verse -> bool, i: nat, results: seq<Hit>)
    requires i < |table| && |results| < MaxSearchResults
    requires results == Take(AllHits(table[..i], records, m), MaxSearchResults)
    ensures RecordOf(records, table[i].index).None? ==>
      results == Take(AllHits(table[..i + 1], records, m), MaxSearchResults)
    ensures RecordOf(records, table[i].index).Some? ==>
      Take(AllHits(table[..i + 1], records, m), MaxSearchResults)
        == Take(results + VerseHits(table[i].index, RecordOf(records, table[i].index).value, m), MaxSearchResults)
  {
    AllHitsPrefixStep(table, records, m, i);
    assert results == AllHits(table[..i], records, m);
    if RecordOf(records, table[i].index).None? {
      assert results + SurahHits(table[i], records, m) == results;
    }
  }

  lemma {:induction false} AllHitsSplit(table: seq<SurahMeta>, records: map<string, SurahRecord>, m: Verse -> bool, i: nat)
    requires i <= |table|
    ensures AllHits(table, records, m) == AllHits(table[..i], records, m) + AllHits(table[i..], records, m)
    decreases |table|
  {
    if i < |table| {
      var front, last, back := table[..|table| - 1], table[|table| - 1], table[i..];
      AllHitsSplit(front, records, m, i);
      assert front[..i] == table[..i];
      assert back[..|back| - 1] == front[i..] && back[|back| - 1] == last;
      AllHitsLast(table, records, m);
      AllHitsLast(back, records, m);
      var a, b, c := AllHits(table[..i], records, m), AllHits(front[i..], records, m), SurahHits(last, records, m);
      assert (a + b) + c == a + (b + c);
    } else {
      assert table[..i] == table;
    }
  }

  /** The definition of `AllHits`, one surah at a time from the end. */
  lemma AllHitsLast(table: seq<SurahMeta>, records: map<string, SurahRecord>, m: Verse -> bool)
    requires table != []
    ensures AllHits(table, records, m) == AllHits(table[..|table| - 1], records, m) + SurahHits(table[|table| - 1], records, m)
  {
  }

  /** Extending the prefix of the table by one surah appends that surah's hits. */
  lemma AllHitsPrefixStep(table: seq<SurahMeta>, records: map<string, SurahRecord>, m: Verse -> bool, i: nat)
    requires i < |table|
    ensures AllHits(table[..i + 1], records, m) == AllHits(table[..i], records, m) + SurahHits(table[i], records, m)
  {
    assert table[..i + 1][..i] == table[..i];
    AllHitsLast(table[..i + 1], records, m);
  }

  // ------------------------------------------------------------ properties

  /** The search order: earlier surahs' hits come first, whole (table order). */
  lemma AllHitsConcat(a: seq<SurahMeta>, b: seq<SurahMeta>, records: map<string, SurahRecord>, m: Verse -> bool)
    ensures AllHits(a + b, records, m) == AllHits(a, records, m) + AllHits(b, records, m)
  {
    AllHitsSplit(a + b, records, m, |a|);
    assert (a + b)[..|a|] == a && (a + b)[|a|..] == b;
  }

  /** Within a surah, hits follow the record's own order. */
  lemma VerseHitsConcat(index: string, a: seq<Verse>, b: seq<Verse>, m: Verse -> bool)
    ensures VerseHits(index, a + b, m) == VerseHits(index, a, m) + VerseHits(index, b, m)
  {
    VerseHitsSplit(index, a + b, m, |a|);
    assert (a + b)[..|a|] == a && (a + b)[|a|..] == b;
  }

  /** A surah whose data cannot be loaded contributes nothing. */
  lemma UnavailableSurahSkipped(table: seq<SurahMeta>, records: map<string, SurahRecord>, m: Verse -> bool, k: nat)
    requires k < |table| && RecordOf(records, table[k].index).None?
    ensures AllHits(table, records, m) == AllHits(table[..k], records, m) + AllHits(table[k + 1..], records, m)
  {
    AllHitsSplit(table, records, m, k);
    SkipFirstUnavailable(table[k..], records, m);
    assert table[k..][1..] == table[k + 1..];
  }

  lemma SkipFirstUnavailable(rest: seq<SurahMeta>, records: map<string, SurahRecord>, m: Verse -> bool)
    requires rest != [] && RecordOf(records, rest[0].index).None?
    ensures AllHits(rest, records, m) == AllHits(rest[1..], records, m)
  {
    AllHitsSplit(rest, records, m, 1);
    assert rest[..1] == [rest[0]];
    NoHitsAlone(rest[0], records, m);
  }

  lemma NoHitsAlone(meta: SurahMeta, records: map<string, SurahRecord>, m: Verse -> bool)
    requires RecordOf(records, meta.index).None?
    ensures AllHits([meta], records, m) == []
  {
    AllHitsLast([meta], records, m);
    assert [meta][..0] == [];
  }

  /** Every hit is a verse of the record, with the record's index, that passes the filter. */
  lemma {:induction false} VerseHitsSound(index: string, verses: seq<Verse>, m: Verse -> bool)
    ensures forall h :: h in VerseHits(index, verses, m) ==>
      h.surahIndex == index && Verse(h.verseNumber, h.text) in verses && m(Verse(h.verseNumber, h.text))
  {
    if verses != [] {
      var front := verses[..|verses| - 1];
      VerseHitsSound(index, front, m);
      assert forall v :: v in front ==> v in verses;
    }
  }

  /** A hit of an available surah of the table, for a verse of its record that passes the filter. */
  predicate HitFrom(table: seq<SurahMeta>, records: map<string, SurahRecord>, m: Verse -> bool, h: Hit) {
    (exists k :: 0 <= k < |table| && table[k].index == h.surahIndex)
    && RecordOf(records, h.surahIndex).Some?
    && Verse(h.verseNumber, h.text) in RecordOf(records, h.surahIndex).value
    && m(Verse(h.verseNumber, h.text))
  }

  lemma {:induction false} AllHitsSound(table: seq<SurahMeta>, records: map<string, SurahRecord>, m: Verse -> bool)
    ensures forall h :: h in AllHits(table, records, m) ==> HitFrom(table, records, m, h)
  {
    if table != [] {
      var front := table[..|table| - 1];
      var last := table[|table| - 1];
      AllHitsSound(front, records, m);
      if RecordOf(records, last.index).Some? {
        VerseHitsSound(last.index, RecordOf(records, last.index).value, m);
      }
      forall h | h in AllHits(table, records, m)
        ensures HitFrom(table, records, m, h)
      {
        if h in AllHits(front, records, m) {
          var k :| 0 <= k < |front| && front[k].index == h.surahIndex;
          assert table[k] == front[k];
        } else {
          assert table[|table| - 1].index == h.surahIndex;
        }
      }
    }
  }

  /**
   * The search reports at most seven verses, each a verse other than 0 of
   * an available surah of the table, whose normal form contains the
   * normalised keyword.
   */
  lemma SearchResultsSound(table: seq<SurahMeta>, records: map<string, SurahRecord>, keyword: string, h: Hit)
    requires h in SearchResults(table, records, keyword)
    ensures |SearchResults(table, records, keyword)| <= MaxSearchResults
    ensures h.verseNumber != 0 && Contains(Normalize(h.text), Normalize(keyword))
    ensures exists k :: 0 <= k < |table| && table[k].index == h.surahIndex
    ensures RecordOf(records, h.surahIndex).Some? && Verse(h.verseNumber, h.text) in RecordOf(records, h.surahIndex).value
  {
    AllHitsSound(table, records, Matcher(keyword));
    assert h in AllHits(table, records, Matcher(keyword));
    assert Matcher(keyword)(Verse(h.verseNumber, h.text));
  }

  /** Every passing verse of an available surah of the table is among all the hits. */
  lemma {:induction false} AllHitsComplete(table: seq<SurahMeta>, records: map<string, SurahRecord>, m: Verse -> bool, k: nat, v: Verse)
    requires k < |table| && RecordOf(records, table[k].index).Some?
    requires v in RecordOf(records, table[k].index).value && m(v)
    ensures Hit(table[k].index, v.number, v.text) in AllHits(table, records, m)
    decreases |table|
  {
    var front := table[..|table| - 1];
    if k < |table| - 1 {
      assert front[k] == table[k];
      AllHitsComplete(front, records, m, k, v);
    } else {
      VerseHitsComplete(table[k].index, RecordOf(records, table[k].index).value, m, v);
    }
  }

  lemma {:induction false} VerseHitsComplete(index: string, verses: seq<Verse>, m: Verse -> bool, v: Verse)
    requires v in verses && m(v)
    ensures Hit(index, v.number, v.text) in VerseHits(index, verses, m)
  {
    var front := verses[..|verses| - 1];
    if v != verses[|verses| - 1] {
      assert verses == front + [verses[|verses| - 1]];
      VerseHitsComplete(index, front, m, v);
    }
  }

  /**
   * When there are no more than seven matches in all, the search reports
   * every verse other than 0, of every available surah, whose normal form
   * contains the normalised keyword.
   */
  lemma FewMatchesAllReported(table: seq<SurahMeta>, records: map<string, SurahRecord>, keyword: string, k: nat, v: Verse)
    requires |AllHits(table, records, Matcher(keyword))| <= MaxSearchResults
    requires k < |table| && RecordOf(records, table[k].index).Some? && v in RecordOf(records, table[k].index).value
    requires v.number != 0 && Contains(Normalize(v.text), Normalize(keyword))
    ensures Hit(table[k].index, v.number, v.text) in SearchResults(table, records, keyword)
  {
    assert Matcher(keyword)(v);
    AllHitsComplete(table, records, Matcher(keyword), k, v);
  }
}
