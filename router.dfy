/**
 * The decision part of `processQuranQuery` (js/main.js:473-530): which
 * single response a query gets. Every `await fetch…` and chat message of
 * the source is replaced by the `Intent` it would act on.
 *
 * `Classify` is the reference definition: an ordered list of attempts,
 * the first that succeeds wins. `RouteQuery` is the source's own shape,
 * a `responseSent` flag threaded through sequential tests, and is proved
 * to agree with it.
 */
module Router {
  import opened Wrappers
  import opened JsText
  import opened ArabicText
  import opened Corpus
  import opened Resolver
  import opened AyahRequest

  /** What the engine does with a query. */
  datatype Intent =
    | ContinueAt(surahIndex: string, ayahNumber: int)  // show the verse after the last one read
    | SurahComplete(surahIndex: string)                // the last verse read ended the surah
    | SingleAyah(surahIndex: string, ayahNumber: int)
    | FullSurah(surahIndex: string)
    | Search(keyword: string)
    | Greeting
    | Thanks
    | Fallback

  /** The follow-up words; the query is normalised before they are looked for. */
  const ContinueWords: seq<string> := ["تابع", "اكمل", "متابعة"]
  /** Looked for in the raw query. */
  const GreetingWords: seq<string> := ["السلام عليكم", "مرحبا", "اهلا"]
  /** Looked for in the raw query. */
  const ThanksWords: seq<string> := ["شكرا", "جزاك الله خيرا"]

  /** `words.some(w => text.includes(w))`. */
  predicate ContainsAny(text: string, words: seq<string>) {
    exists i :: 0 <= i < |words| && Contains(text, words[i])
  }

  /** `lastRead && lastRead.surahIndex && lastRead.ayahNumber`. */
  predicate ValidMark(lastRead: Option<ReadMark>) {
    lastRead.Some? && lastRead.value.surahIndex != ""
    && lastRead.value.ayahNumber.Some? && lastRead.value.ayahNumber.value != 0
  }

  // ------------------------------------------------------------ attempts

  /** The follow-up branch: it answers only when the surah of the last verse read is in the table. */
  function ContinueIntent(query: string, lastRead: Option<ReadMark>, table: seq<SurahMeta>): (r: Option<Intent>)
    ensures r.Some? <==>
      ContainsAny(Normalize(query), ContinueWords) && ValidMark(lastRead)
      && exists j :: 0 <= j < |table| && table[j].index == lastRead.value.surahIndex
    ensures r.Some? ==> r.value.ContinueAt? || r.value.SurahComplete?
  {
    if ContainsAny(Normalize(query), ContinueWords) && ValidMark(lastRead) then
      var mark := lastRead.value;
      match SurahByIndex(table, mark.surahIndex)
      case None => None
      case Some(meta) =>
        var next := mark.ayahNumber.value + 1;
        Some(if next <= meta.verses then ContinueAt(mark.surahIndex, next) else SurahComplete(mark.surahIndex))
    else None
  }

  function VerseIntent(query: string, table: seq<SurahMeta>): (r: Option<Intent>)
    ensures r.Some? <==> ParseAyahRequest(table, query).Some?
    ensures r.Some? ==> r.value.SingleAyah?
  {
    match ParseAyahRequest(table, query)
    case Some(a) => Some(SingleAyah(a.surahIndex, a.ayahNumber))
    case None => None
  }

  function SurahIntent(query: string, table: seq<SurahMeta>): (r: Option<Intent>)
    ensures r.Some? <==> MatchSurah(table, query).Some?
    ensures r.Some? ==> r.value.FullSurah?
  {
    match MatchSurah(table, query)
    case Some(meta) => Some(FullSurah(meta.index))
    case None => None
  }

  /** The search branch: an empty keyword is false in JavaScript and does not search. */
  function SearchIntent(query: string): (r: Option<Intent>)
    ensures r.Some? ==> r.value.Search? && r.value.keyword != []
  {
    match ExtractSearchKeyword(query)
    case Some(k) => if k != "" then Some(Search(k)) else None
    case None => None
  }

  function GreetingIntent(query: string): (r: Option<Intent>)
    ensures r.Some? <==> ContainsAny(query, GreetingWords)
    ensures r.Some? ==> r.value == Greeting
  {
    if ContainsAny(query, GreetingWords) then Some(Greeting) else None
  }

  function ThanksIntent(query: string): (r: Option<Intent>)
    ensures r.Some? <==> ContainsAny(query, ThanksWords)
    ensures r.Some? ==> r.value == Thanks
  {
    if ContainsAny(query, ThanksWords) then Some(Thanks) else None
  }

  /**
   * The one intent a query gets: the first branch that answers, in the
   * source's order, or the fallback message. Each kind of intent is
   * chosen exactly when its own branch answers and every earlier one
   * declined.
   */
  function Classify(query: string, lastRead: Option<ReadMark>, table: seq<SurahMeta>): (r: Intent)
    ensures (r.ContinueAt? || r.SurahComplete?) <==> ContinueIntent(query, lastRead, table).Some?
    ensures r.SingleAyah? <==>
      ContinueIntent(query, lastRead, table).None? && ParseAyahRequest(table, query).Some?
    ensures r.FullSurah? <==>
      ContinueIntent(query, lastRead, table).None? && ParseAyahRequest(table, query).None?
      && MatchSurah(table, query).Some?
    ensures r.Search? <==>
      ContinueIntent(query, lastRead, table).None? && ParseAyahRequest(table, query).None?
      && MatchSurah(table, query).None? && SearchIntent(query).Some?
    ensures r.Greeting? <==>
      ContinueIntent(query, lastRead, table).None? && ParseAyahRequest(table, query).None?
      && MatchSurah(table, query).None? && SearchIntent(query).None? && ContainsAny(query, GreetingWords)
    ensures r.Thanks? <==>
      ContinueIntent(query, lastRead, table).None? && ParseAyahRequest(table, query).None?
      && MatchSurah(table, query).None? && SearchIntent(query).None? && !ContainsAny(query, GreetingWords)
      && ContainsAny(query, ThanksWords)
    // what each intent carries
    ensures (r.ContinueAt? || r.SurahComplete?) ==> ContinueIntent(query, lastRead, table) == Some(r)
    ensures r.SingleAyah? ==> ParseAyahRequest(table, query) == Some(AyahRef(r.surahIndex, r.ayahNumber))
    ensures r.FullSurah? ==> MatchSurah(table, query).Some? && r.surahIndex == MatchSurah(table, query).value.index
    ensures r.Search? ==> ExtractSearchKeyword(query) == Some(r.keyword) && r.keyword != ""
  {
    match ContinueIntent(query, lastRead, table)
    case Some(intent) => intent
    case None =>
    match VerseIntent(query, table)
    case Some(intent) => intent
    case None =>
    match SurahIntent(query, table)
    case Some(intent) => intent
    case None =>
    match SearchIntent(query)
    case Some(intent) => intent
    case None =>
    match GreetingIntent(query)
    case Some(intent) => intent
    case None =>
    match ThanksIntent(query)
    case Some(intent) => intent
    case None => Fallback
  }

  /** The routing as the source writes it: sequential tests guarded by `responseSent`. */
  method RouteQuery(query: string, lastRead: Option<ReadMark>, table: seq<SurahMeta>) returns (intent: Intent)
    ensures intent == Classify(query, lastRead, table)
  {
    var responseSent;
    intent, responseSent := FollowUpStage(query, lastRead, table);
    if !responseSent {
      intent, responseSent := RequestStage(query, table);
    }
    if !responseSent {
      var keyword := ExtractSearchKeyword(query);
      if keyword.Some? && keyword.value != "" {
        intent := Search(keyword.value);
        responseSent := true;
        assert SearchIntent(query) == Some(intent);
      }
    }
    assert !responseSent ==> SearchIntent(query).None?;
    if !responseSent {
      if ContainsAny(query, GreetingWords) {
        intent := Greeting;
      } else if ContainsAny(query, ThanksWords) {
        intent := Thanks;
      } else {
        intent := Fallback;
      }
    }
  }

  /** The follow-up block of `processQuranQuery`: it sets `responseSent` exactly when the follow-up branch answers. */
  method FollowUpStage(query: string, lastRead: Option<ReadMark>, table: seq<SurahMeta>) returns (intent: Intent, responseSent: bool)
    ensures responseSent <==> ContinueIntent(query, lastRead, table).Some?
    ensures responseSent ==> ContinueIntent(query, lastRead, table) == Some(intent)
  {
    responseSent := false;
    intent := Fallback;
    if ContainsAny(Normalize(query), ContinueWords) {
      if ValidMark(lastRead) {
        var meta := SurahByIndex(table, lastRead.value.surahIndex);
        if meta.Some? {
          var next := lastRead.value.ayahNumber.value + 1;
          if next <= meta.value.verses {
            intent := ContinueAt(lastRead.value.surahIndex, next);
          } else {
            intent := SurahComplete(lastRead.value.surahIndex);
          }
          responseSent := true;
        }
      }
    }
  }

  /** The verse-or-surah block of `processQuranQuery`: a verse request first, then a surah name. */
  method RequestStage(query: string, table: seq<SurahMeta>) returns (intent: Intent, responseSent: bool)
    ensures responseSent <==> VerseIntent(query, table).Some? || SurahIntent(query, table).Some?
    ensures VerseIntent(query, table).Some? ==> intent == VerseIntent(query, table).value
    ensures VerseIntent(query, table).None? && responseSent ==> intent == SurahIntent(query, table).value
  {
    responseSent := false;
    intent := Fallback;
    var ayahRequest := ParseAyahRequest(table, query);
    if ayahRequest.Some? {
      intent := SingleAyah(ayahRequest.value.surahIndex, ayahRequest.value.ayahNumber);
      responseSent := true;
    } else {
      var surahMatch := MatchSurah(table, query);
      if surahMatch.Some? {
        intent := FullSurah(surahMatch.value.index);
        responseSent := true;
      }
    }
  }

  // ------------------------------------------------------------ properties

  /** "متابعة" ends in ة, which normalisation folds away, so that word is never found as written. */
  lemma MutabaaNeverMatches(query: string)
    ensures !Contains(Normalize(query), ContinueWords[2])
  {
    assert ContinueWords[2][5] == TaMarbuta;
    NormalTextExcludes(Normalize(query), ContinueWords[2], 5);
  }

  /** A query holding "متابعة" still counts as a follow-up, because its normal form holds "تابع". */
  lemma MutabaaContinuesThroughTabi(query: string)
    requires Contains(query, ContinueWords[2])
    ensures ContainsAny(Normalize(query), ContinueWords)
  {
    var w := ContinueWords[2];
    MutabaaIsPlain(w);
    NormalizeKeepsPhrase(query, w);
    MutabaaFolds(w);
    FoldedMutabaaHoldsTabi(Normalize(query));
  }

  lemma FoldedMutabaaHoldsTabi(n: string)
    requires Contains(n, "متابعه")
    ensures Contains(n, ContinueWords[0])
  {
    var i :| 0 <= i <= |n| && OccursAt(n, "متابعه", i);
    TabiInsideMutabaa(n, "متابعه", i);
  }

  lemma MutabaaIsPlain(w: string)
    requires w == "متابعة"
    ensures w != [] && !IsSpace(w[0]) && !IsSpace(w[|w| - 1])
    ensures forall k :: 0 <= k < |w| ==> !IsTashkeel(w[k]) && !IsTatweel(w[k])
  {
  }

  lemma MutabaaFolds(w: string)
    requires w == "متابعة"
    ensures ToLower(FoldLetters(w)) == "متابعه"
  {
  }

  lemma TabiInsideMutabaa(n: string, folded: string, i: nat)
    requires folded == "متابعه" && OccursAt(n, folded, i)
    ensures OccursAt(n, "تابع", i + 1)
  {
    assert n[i + 1..i + 5] == n[i..i + 6][1..5];
  }

  /** When the follow-up branch answers, it shows the next verse or reports the surah finished. */
  lemma ContinueShowsNextVerse(query: string, mark: ReadMark, table: seq<SurahMeta>, k: nat)
    requires ContainsAny(Normalize(query), ContinueWords) && ValidMark(Some(mark))
    requires k < |table| && table[k].index == mark.surahIndex
    ensures var next := mark.ayahNumber.value + 1;
      Classify(query, Some(mark), table) ==
        if next <= SurahByIndex(table, mark.surahIndex).value.verses then ContinueAt(mark.surahIndex, next)
        else SurahComplete(mark.surahIndex)
  {
  }

  /** A query naming the Throne Verse gets it, unless it is a follow-up that answers first. */
  lemma ThroneVerseWins(query: string, lastRead: Option<ReadMark>, table: seq<SurahMeta>)
    requires ContinueIntent(query, lastRead, table).None?
    requires Contains(Normalize(query), KursiKey)
    ensures Classify(query, lastRead, table) == SingleAyah("2", 255)
  {
    FamousAyahIsKursi(query);
  }

  /** A search is chosen only for a query that opens with a search phrase, and only with a non-empty trimmed keyword. */
  lemma SearchNeedsPhrase(query: string, lastRead: Option<ReadMark>, table: seq<SurahMeta>)
    requires Classify(query, lastRead, table).Search?
    ensures exists i :: 0 <= i < |SearchPrefixes| && StartsWith(query, SearchPrefixes[i])
    ensures ExtractSearchKeyword(query) == Some(Classify(query, lastRead, table).keyword)
    ensures Classify(query, lastRead, table).keyword != [] && Trimmed(Classify(query, lastRead, table).keyword)
  {
  }

  /**
   * In a fresh chat, a surah name, a space and a verse number in range
   * (as in "البقرة 255") ask for that verse of the first surah whose name
   * matches exactly.
   */
  lemma NameNumberQueryShowsVerse(table: seq<SurahMeta>, name: string, digits: string, k: nat)
    requires name != [] && forall i :: 0 <= i < |name| ==> IsNameChar(name[i])
    requires !StartsWith(name, SurahWord) && !IsSurahNumeral(name)
    requires digits != [] && AllDigits(digits)
    requires k < |table| && NameMatches(table[k], Normalize(name))
    requires forall j :: 0 <= j < k ==> !NameMatches(table[j], Normalize(name))
    requires 0 < DigitsValue(digits) <= table[k].verses
    ensures Classify(name + " " + digits, None, table) == SingleAyah(table[k].index, DigitsValue(digits))
  {
    NameFound(table, name, k);
    FoundNameParsed(table, name, digits, table[k]);
    ParsedVerseShown(name + " " + digits, table, AyahRef(table[k].index, DigitsValue(digits)));
  }

  /** A bare name that matches surah `k` exactly, and no surah before it, finds surah `k`. */
  lemma NameFound(table: seq<SurahMeta>, name: string, k: nat)
    requires name != [] && forall i :: 0 <= i < |name| ==> IsNameChar(name[i])
    requires !IsSurahNumeral(name)
    requires k < |table| && NameMatches(table[k], Normalize(name))
    requires forall j :: 0 <= j < k ==> !NameMatches(table[j], Normalize(name))
    ensures FindSurahMeta(table, name) == Some(table[k])
  {
    assert Trimmed(name);
    TrimOfTrimmed(name);
    ExactNameWins(table, name, k);
  }

  /** The parsing half: "name number" with a name that finds a surah parses to that verse when it is in range. */
  lemma FoundNameParsed(table: seq<SurahMeta>, name: string, digits: string, meta: SurahMeta)
    requires name != [] && forall i :: 0 <= i < |name| ==> IsNameChar(name[i])
    requires !StartsWith(name, SurahWord)
    requires digits != [] && AllDigits(digits)
    requires FindSurahMeta(table, name) == Some(meta) && 0 < DigitsValue(digits) <= meta.verses
    ensures ParseAyahRequest(table, name + " " + digits) == Some(AyahRef(meta.index, DigitsValue(digits)))
  {
    NameNumberRequest(table, name, " ", digits);
  }

  /** The routing half: in a fresh chat, a query that parses to a verse shows that verse. */
  lemma ParsedVerseShown(query: string, table: seq<SurahMeta>, a: AyahRef)
    requires ParseAyahRequest(table, query) == Some(a)
    ensures Classify(query, None, table) == SingleAyah(a.surahIndex, a.ayahNumber)
  {
    assert !ValidMark(None);
  }
}
