/**
 * Resolving a surah reference (`findSurahMeta`, `matchSurah`,
 * js/main.js:84-100): a number 1..114 is looked up by index; anything else
 * by normalised name, exact match first, then by substring of the Arabic
 * name when the normalised query has at least two characters.
 */
module Resolver {
  import opened Wrappers
  import opened JsText
  import opened ArabicText
  import opened Corpus

  /** `/^([1-9]|[1-9]\d|10\d|11[0-4])$/`. */
  predicate IsSurahNumeral(s: string) {
    || (|s| == 1 && '1' <= s[0] <= '9')
    || (|s| == 2 && '1' <= s[0] <= '9' && IsDigit(s[1]))
    || (|s| == 3 && s[0] == '1' && s[1] == '0' && IsDigit(s[2]))
    || (|s| == 3 && s[0] == '1' && s[1] == '1' && '0' <= s[2] <= '4')
  }

  /** The numerals the pattern accepts are exactly the printed surah numbers 1..114. */
  lemma SurahNumeralIsSurahNumber(s: string)
    requires IsSurahNumeral(s)
    ensures AllDigits(s) && 1 <= DigitsValue(s) <= 114 && s == NatToDecimal(DigitsValue(s))
  {
    assert AllDigits(s);
    DecimalOfDigits(s);
    DigitsValueAtLeastLead(s);
    if |s| == 3 {
      assert s[..2][..1] == s[..1];
    }
  }

  lemma SurahNumberIsSurahNumeral(n: nat)
    requires 1 <= n <= 114
    ensures IsSurahNumeral(NatToDecimal(n))
  {
    var s := NatToDecimal(n);
    if n >= 10 {
      var front := NatToDecimal(n / 10);
      assert s == front + [DigitChar(n % 10)];
      if n >= 100 {
        assert NatToDecimal(n / 10 / 10) == "1";
        assert front == "1" + [DigitChar(n / 10 % 10)];
      }
    }
  }

  /** The name test of the first `find`: the Arabic name, or a non-empty simple or English name, normalises to the query. */
  predicate NameMatches(s: SurahMeta, nid: string) {
    || Normalize(s.name) == nid
    || (Truthy(s.nameSimple) && Normalize(s.nameSimple.value) == nid)
    || (Truthy(s.englishName) && Normalize(s.englishName.value) == nid)
  }

  /** The test of the second `find`: the normalised Arabic name contains a query of two characters or more. */
  predicate NameContains(s: SurahMeta, nid: string) {
    Contains(Normalize(s.name), nid) && |nid| >= 2
  }

  /** `findSurahMeta(identifier)`. */
  function FindSurahMeta(table: seq<SurahMeta>, identifier: string): (r: Option<SurahMeta>)
    ensures table == [] ==> r.None?
    ensures r.Some? ==> r.value in table
    ensures r.Some? && IsSurahNumeral(Trim(identifier)) ==> r.value.index == Trim(identifier)
    ensures r.Some? && !IsSurahNumeral(Trim(identifier)) ==>
      NameMatches(r.value, Normalize(Trim(identifier))) || NameContains(r.value, Normalize(Trim(identifier)))
  {
    if table == [] then None
    else
      var cleaned := Trim(identifier);
      if IsSurahNumeral(cleaned) then SurahByIndex(table, cleaned)
      else
        var nid := Normalize(cleaned);
        match Find(table, (s: SurahMeta) => NameMatches(s, nid))
        case Some(s) => Some(s)
        case None => Find(table, (s: SurahMeta) => NameContains(s, nid))
  }

  /** In the shipped table every surah number, printed and padded with white space or not, finds its own surah. */
  lemma FindSurahByNumber(table: seq<SurahMeta>, n: nat, l: string, r: string)
    requires ValidTable(table) && 1 <= n <= 114 && AllSpaces(l) && AllSpaces(r)
    ensures FindSurahMeta(table, l + NatToDecimal(n) + r) == Some(table[n - 1])
  {
    var s := NatToDecimal(n);
    TrimPadded(l, s, r);
    SurahNumberIsSurahNumeral(n);
    ValidTableLookup(table, n);
  }

  /** A numeral query never reaches the name search: an absent index gives nothing. */
  lemma NumeralNeverMatchesByName(table: seq<SurahMeta>, identifier: string)
    requires IsSurahNumeral(Trim(identifier))
    requires forall j :: 0 <= j < |table| ==> table[j].index != Trim(identifier)
    ensures FindSurahMeta(table, identifier).None?
  {
  }

  /**
   * For a name query, the first entry whose name matches exactly wins over
   * every substring match, however early.
   */
  lemma ExactNameWins(table: seq<SurahMeta>, identifier: string, k: nat)
    requires !IsSurahNumeral(Trim(identifier))
    requires k < |table| && NameMatches(table[k], Normalize(Trim(identifier)))
    requires forall j :: 0 <= j < k ==> !NameMatches(table[j], Normalize(Trim(identifier)))
    ensures FindSurahMeta(table, identifier) == Some(table[k])
  {
    var nid := Normalize(Trim(identifier));
    FirstIndexIs(table, (s: SurahMeta) => NameMatches(s, nid), k);
  }

  /**
   * Without an exact match, the first Arabic name that contains the
   * normalised query is chosen; a query shorter than two characters finds
   * nothing.
   */
  lemma SubstringFallback(table: seq<SurahMeta>, identifier: string)
    requires !IsSurahNumeral(Trim(identifier))
    requires forall j :: 0 <= j < |table| ==> !NameMatches(table[j], Normalize(Trim(identifier)))
    ensures |Normalize(Trim(identifier))| < 2 ==> FindSurahMeta(table, identifier).None?
    ensures forall k :: 0 <= k < |table| && NameContains(table[k], Normalize(Trim(identifier)))
              && (forall j :: 0 <= j < k ==> !NameContains(table[j], Normalize(Trim(identifier))))
              ==> FindSurahMeta(table, identifier) == Some(table[k])
  {
    var nid := Normalize(Trim(identifier));
    var p := (s: SurahMeta) => NameContains(s, nid);
    forall k | 0 <= k < |table| && NameContains(table[k], nid) && (forall j :: 0 <= j < k ==> !NameContains(table[j], nid))
      ensures FindSurahMeta(table, identifier) == Some(table[k])
    {
      FirstIndexIs(table, p, k);
    }
  }

  /** Only the trimmed identifier matters. */
  lemma FindIgnoresPadding(table: seq<SurahMeta>, l: string, x: string, r: string)
    requires AllSpaces(l) && AllSpaces(r)
    ensures FindSurahMeta(table, l + x + r) == FindSurahMeta(table, x)
  {
    TrimIgnoresPadding(l, x, r);
  }

  /** A diacritic inside a surah name does not change which surah it names. */
  lemma FindIgnoresTashkeel(table: seq<SurahMeta>, a: string, m: char, b: string)
    requires IsTashkeel(m) && !IsSurahNumeral(Trim(a + b))
    ensures FindSurahMeta(table, a + [m] + b) == FindSurahMeta(table, a + b)
  {
    var x := a + [m] + b;
    MarkedIsNotNumeral(a, m, b);
    NormalizeAbsorbsTrim(x);
    NormalizeAbsorbsTrim(a + b);
    NormalizeIgnoresTashkeel(a, m, b);
    FindByKey(table, x, a + b);
  }

  /** A text holding a visible character that is not a digit never trims to a numeral. */
  lemma MarkedIsNotNumeral(a: string, m: char, b: string)
    requires !IsSpace(m) && !IsDigit(m)
    ensures !IsSurahNumeral(Trim(a + [m] + b))
  {
    var x := a + [m] + b;
    assert OccursAt(x, [m], |a|) by { assert x[|a|..|a| + 1] == [m]; }
    TrimKeepsOccurrence(x, [m], |a|);
    var t := Trim(x);
    var i :| 0 <= i <= |t| && OccursAt(t, [m], i);
    OccurrenceChars(t, [m], i, 0);
    assert !IsDigit(t[i]);
  }

  /** Two name queries with the same normalised key resolve alike. */
  lemma FindByKey(table: seq<SurahMeta>, x: string, y: string)
    requires !IsSurahNumeral(Trim(x)) && !IsSurahNumeral(Trim(y))
    requires Normalize(Trim(x)) == Normalize(Trim(y))
    ensures FindSurahMeta(table, x) == FindSurahMeta(table, y)
  {
  }

  // ------------------------------------------------------------ matchSurah

  /** The word "سورة" (surah). */
  const SurahWord: string := "سورة"

  /** `replace(/^سورة\s*\/, '')`: drop a leading "سورة" and the white space after it. */
  function StripSurahWord(q: string): (r: string)
    ensures StartsWith(q, SurahWord) ==> |r| <= |q| - |SurahWord|
    ensures !StartsWith(q, SurahWord) ==> r == q
  {
    if StartsWith(q, SurahWord) then q[SkipSpaces(q, |SurahWord|)..] else q
  }

  /** `matchSurah(arabicQuery)`. */
  function MatchSurah(table: seq<SurahMeta>, query: string): (r: Option<SurahMeta>)
    ensures r.Some? ==> r.value in table
  {
    FindSurahMeta(table, StripSurahWord(query))
  }

  /** "سورة", any white space, then a name resolves exactly as the bare name does. */
  lemma MatchSurahDropsSurahWord(table: seq<SurahMeta>, sp: string, x: string)
    requires AllSpaces(sp)
    ensures MatchSurah(table, SurahWord + sp + x) == FindSurahMeta(table, x)
  {
    var q := SurahWord + sp + x;
    assert q[..|SurahWord|] == SurahWord;
    var j := SkipSpaces(q, |SurahWord|);
    var k := j - |SurahWord| - |sp|;
    assert forall i :: |SurahWord| <= i < |SurahWord| + |sp| ==> q[i] == sp[i - |SurahWord|];
    assert 0 <= k <= |x|;
    assert q[j..] == x[k..];
    assert x == x[..k] + x[k..] + [];
    assert AllSpaces(x[..k]) by {
      forall i | 0 <= i < k ensures IsSpace(x[..k][i]) {
        assert x[..k][i] == q[|SurahWord| + |sp| + i];
      }
    }
    FindIgnoresPadding(table, x[..k], x[k..], []);
  }
}
