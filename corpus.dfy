/**
 * The surah table and the per-surah verse records (js/main.js:4-5, 49-66).
 *
 * `allSurahsMeta` is an ordered sequence of `SurahMeta`; every lookup in
 * the source is an `Array.prototype.find` over it, first match in table
 * order. `fetchedSurahsCache` is the `SurahCache` class; the network is an
 * outcome passed in by the caller.
 */
module Corpus {
  import opened Wrappers
  import opened JsText

  /** One entry of the surah table: `index` is the surah number as text ("1".."114"). */
  datatype SurahMeta = SurahMeta(
    index: string,
    name: string,
    nameSimple: Option<string>,
    englishName: Option<string>,
    verses: nat)

  /** One verse of a surah record: the number in its `verse_<n>` key, and its text. */
  datatype Verse = Verse(number: int, text: string)

  /**
   * The last verse shown in a chat, as `saveLastReadAyah` stores it. The
   * verse number is `None` where the source's `parseInt` gave NaN, which
   * the stored JSON turns into `null`.
   */
  datatype ReadMark = ReadMark(surahIndex: string, ayahNumber: Option<int>)

  /** The verses of one surah file, in the record's own key order. */
  type SurahRecord = seq<Verse>

  /** An optional text field that JavaScript treats as true: present and not empty. */
  predicate Truthy(o: Option<string>) {
    o.Some? && o.value != ""
  }

  /** `findIndex`: the position of the first element satisfying `p`. */
  function FirstIndex<T>(s: seq<T>, p: T -> bool): (r: Option<nat>)
    ensures r.Some? ==> r.value < |s| && p(s[r.value])
    ensures r.Some? ==> forall j :: 0 <= j < r.value ==> !p(s[j])
    ensures r.None? ==> forall j :: 0 <= j < |s| ==> !p(s[j])
  {
    if s == [] then None
    else if p(s[0]) then Some(0)
    else match FirstIndex(s[1..], p)
      case None => None
      case Some(k) => Some(k + 1)
  }

  /** `Array.prototype.find`: the first element satisfying `p`. */
  function Find<T>(s: seq<T>, p: T -> bool): (r: Option<T>)
    ensures r.Some? ==> r.value in s && p(r.value)
    ensures r.None? <==> forall j :: 0 <= j < |s| ==> !p(s[j])
  {
    match FirstIndex(s, p)
    case None => None
    case Some(i) => Some(s[i])
  }

  /** An element that satisfies `p` with none before it is the one `findIndex` and `find` report. */
  lemma FirstIndexIs<T>(s: seq<T>, p: T -> bool, k: nat)
    requires k < |s| && p(s[k])
    requires forall j :: 0 <= j < k ==> !p(s[j])
    ensures FirstIndex(s, p) == Some(k)
    ensures Find(s, p) == Some(s[k])
  {
  }

  /** `allSurahsMeta.find(s => s.index === index)`, used by every caller that holds a surah number. */
  function SurahByIndex(table: seq<SurahMeta>, index: string): (r: Option<SurahMeta>)
    ensures r.Some? ==> r.value in table && r.value.index == index
    ensures r.None? <==> forall j :: 0 <= j < |table| ==> table[j].index != index
  {
    Find(table, (s: SurahMeta) => s.index == index)
  }

  /** The shape of the shipped table: 114 entries numbered "1".."114" in order, each with at least one verse. */
  predicate ValidTable(table: seq<SurahMeta>) {
    |table| == 114 && forall i :: 0 <= i < 114 ==> NumberedEntry(table, i)
  }

  /** Entry `i` of the table is surah number `i + 1`, with at least one verse. */
  predicate NumberedEntry(table: seq<SurahMeta>, i: nat) {
    i < |table| && table[i].index == NatToDecimal(i + 1) && table[i].verses >= 1
  }

  /** In a valid table, surah number n is found at position n - 1. */
  lemma ValidTableLookup(table: seq<SurahMeta>, n: nat)
    requires ValidTable(table) && 1 <= n <= 114
    ensures |table| == 114 && table[n - 1].index == NatToDecimal(n) && table[n - 1].verses >= 1
    ensures SurahByIndex(table, NatToDecimal(n)) == Some(table[n - 1])
  {
    assert NumberedEntry(table, n - 1);
    var p := (s: SurahMeta) => s.index == NatToDecimal(n);
    assert p(table[n - 1]);
    var k := FirstIndex(table, p);
    assert NumberedEntry(table, k.value);
    NatToDecimalInjective(k.value + 1, n);
  }

  // ------------------------------------------------------------ the cache

  /** What the network does when a surah file is requested. */
  datatype FetchOutcome = Loaded(record: SurahRecord) | LoadFailed

  /** `fetchedSurahsCache` and `fetchSurahData`. */
  class SurahCache {
    var entries: map<string, SurahRecord>

    constructor ()
      ensures entries == map[]
    {
      entries := map[];
    }

    /**
     * `fetchSurahData(index)`: an empty index gives nothing; a cached surah
     * is returned without fetching; otherwise the fetch outcome decides, and
     * only a successful fetch is cached. `fetched` says whether the network
     * was asked.
     */
    method FetchSurahData(index: string, outcome: FetchOutcome) returns (r: Option<SurahRecord>, fetched: bool)
      modifies this
      ensures fetched <==> index != "" && index !in old(entries)
      ensures index == "" ==> r.None?
      ensures index != "" && index in old(entries) ==> r == Some(old(entries)[index])
      ensures fetched ==> r == (if outcome.Loaded? then Some(outcome.record) else None)
      ensures entries == if fetched && outcome.Loaded? then old(entries)[index := outcome.record] else old(entries)
    {
      if index == "" {
        return None, false;
      }
      if index in entries {
        return Some(entries[index]), false;
      }
      fetched := true;
      match outcome
      case Loaded(record) =>
        entries := entries[index := record];
        r := Some(record);
      case LoadFailed =>
        r := None;
    }

    /** Once a surah is cached, asking for it again returns the same record and does not fetch. */
    method FetchTwice(index: string, first: FetchOutcome, second: FetchOutcome)
      returns (r1: Option<SurahRecord>, r2: Option<SurahRecord>, refetched: bool)
      modifies this
      ensures r1.Some? ==> r2 == r1 && !refetched
      ensures old(entries).Keys <= entries.Keys
    {
      var f1;
      r1, f1 := FetchSurahData(index, first);
      r2, refetched := FetchSurahData(index, second);
    }
  }
}
