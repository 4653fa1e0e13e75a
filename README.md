# GPT-Quran query engine: a Dafny model

GPT-Quran is a browser chat over the text of the Quran. The user types a
free-form request in Arabic. The page works out which of these it is:

- a follow-up ("تابع", continue reading);
- a reference to one verse ("البقرة 255", "آية الكرسي");
- the name or number of a surah;
- a topic search ("آيات عن الصبر");
- a greeting or thanks.

It then shows the matching verses. The page keeps chat histories, a list of
recent chats, the last verse read in each chat, and the set of surahs shown
in full in `localStorage`.

This project models the logic of `js/main.js` behind that, module by module:

- `JsText` holds the JavaScript string primitives the code relies on: the
  `\s` white-space set, `trim`, `includes`, `startsWith`, `parseInt`,
  `String(n)`, ASCII `toLowerCase`, and `slice`/`substring`.
- `ArabicText` holds `normalizeArabicText` and `arabicToIndianNumerals`.
- `Corpus` holds the surah table, `Array.prototype.find`, and the
  surah-file cache of `fetchSurahData`. The cache is a class; the network
  is an outcome parameter.
- `Resolver` holds `findSurahMeta` and `matchSurah`.
- `AyahRequest` holds `parseAyahRequest` and `extractSearchKeyword`. The
  regular expression of `parseAyahRequest` is written out as a scanner:
  leftmost match, greedy groups, and the optional "سورة" prefix tried first.
- `Router` holds the decision part of `processQuranQuery`: a pure
  `Classify`, and `RouteQuery`, a method that threads the source's
  `responseSent` flag and is proved equal to it.
- `KeywordSearch` holds the selection loops of `searchKeywordInQuran`,
  proved to return the first seven hits of a reference definition.
- `Session` holds the `localStorage` state as the class `SessionStore`:
  histories, recent chats, last-read marks and the khatma read-set. Pure
  functions state each update.
- `Zen` holds the step arithmetic of `navigateZenAyah`.

Saving a message resets the preview of a chat whose first message is not the
user's to "محادثة جديدة", even when the chat already had a preview
(js/main.js:373-379). `Session.FirstOtherMessageSetsPlaceholder` states this.

## Model

| member | source | states |
|---|---|---|
| JsText.Trim | js/main.js:86 | `trim` leaves no white space at either end and never lengthens the text |
| JsText.TrimPadded | js/main.js:86 | trimming white-space padding off text that is already trimmed gives that text back |
| JsText.TrimIgnoresPadding | js/main.js:86 | extra white space around a text does not change what `trim` returns |
| JsText.TrimOfTrimmed | js/main.js:45 | `trim` of trimmed text is the identity |
| JsText.TrimKeepsOccurrence | js/main.js:45 | trimming keeps every occurrence of a word that does not start or end with white space |
| JsText.NatToDecimal | js/main.js:691 | `String(n)` of a natural number is a digit string with no leading zero whose decimal value is `n` |
| JsText.NatToDecimalInjective | js/main.js:691 | two numbers print alike only if they are equal |
| JsText.ParseInt | js/main.js:554 | `parseInt` gives a number only when the text holds a digit |
| JsText.ParseIntOfDigits | js/main.js:554 | `parseInt` of a run of digits is its decimal value |
| JsText.ParseIntOfDecimal | js/main.js:691 | parsing a printed number gives the number back |
| JsText.DecimalOfDigits | js/main.js:87 | a digit run without a leading zero is the printed form of its value |
| JsText.ToLower | js/main.js:45 | lower-casing keeps the length, leaves no ASCII capital, turns each capital into its small letter and keeps every other character |
| JsText.ToLowerIdempotent | js/main.js:45 | lower-casing twice is lower-casing once |
| ArabicText.StripMarks | js/main.js:40-41 | deleting the diacritics and tatweel leaves none of them and never lengthens the text |
| ArabicText.RemoveConcat | js/main.js:40 | deleting a character class distributes over concatenation |
| ArabicText.FoldLetters | js/main.js:42-44 | the three letter foldings keep the length and fold each character on its own |
| ArabicText.Normalize | js/main.js:37-46 | `normalizeArabicText` is total; its output is no longer than its input and holds no diacritic, tatweel, alif variant, ta marbuta, alif maqsura or ASCII capital; it has no white space at either end |
| ArabicText.NormalizePipeline | js/main.js:38-45 | the empty-input guard agrees with the pipeline: normalising is strip, fold, trim, lower-case in that order |
| ArabicText.NormalizeFixesNormalText | js/main.js:37-46 | text that is already normal and trimmed is its own normal form |
| ArabicText.NormalizeIdempotent | js/main.js:37-46 | normalising twice is normalising once |
| ArabicText.NormalizeIgnoresTashkeel | js/main.js:40 | a diacritic anywhere in the text does not change its normal form |
| ArabicText.NormalizeIgnoresTatweel | js/main.js:41 | a tatweel anywhere in the text does not change its normal form |
| ArabicText.DeletedCharIgnored | js/main.js:40-41 | any run of deleted characters can be dropped without changing the normal form |
| ArabicText.NormalizeAbsorbsTrim | js/main.js:45 | trimming before normalising changes nothing |
| ArabicText.NormalTextExcludes | js/main.js:40-44 | normal text never contains a word that holds a character normalisation removes or folds |
| ArabicText.NormalizeKeepsPhrase | js/main.js:37-46 | a phrase with no marks and no white space at its ends, found in a query, is found in folded form in the normalised query |
| ArabicText.ToIndianNumerals | js/main.js:32-35 | a string keeps its length, and no ASCII digit survives |
| ArabicText.IndianNumeralsRoundTrip | js/main.js:34 | mapping the Indic digits back to ASCII restores the input |
| ArabicText.IndianNumeralsKeepOthers | js/main.js:34 | every character other than an ASCII digit is left alone |
| ArabicText.IndianNumeralsIdempotent | js/main.js:34 | converting twice is converting once |
| ArabicText.IndianNumeralsOfNumber | js/main.js:33-34 | a number is printed with `String` and then converted, giving only Indic digits |
| Corpus.Find | js/main.js:88 | `find` gives an element of the sequence that satisfies the test, and none exactly when no element does |
| Corpus.FirstIndexIs | js/main.js:91-95 | `find` returns the first element that satisfies the test |
| Corpus.SurahByIndex | js/main.js:486 | the lookup by index gives an entry with that index, and none exactly when no entry has it |
| Corpus.ValidTableLookup | js/main.js:88 | in a table of 114 surahs indexed "1" to "114" in order, the printed number `n` finds the entry at position `n - 1` |
| Corpus.SurahCache.constructor | js/main.js:5 | the cache starts empty |
| Corpus.SurahCache.FetchSurahData | js/main.js:49-66 | an empty index gives nothing; a cached surah is returned without fetching; otherwise the fetch decides, and only a successful fetch is cached |
| Corpus.SurahCache.FetchTwice | js/main.js:52-54 | once a fetch succeeds, a second request returns the same record without fetching |
| Resolver.SurahNumeralIsSurahNumber | js/main.js:87 | every text the numeral pattern accepts is the printed form of a number 1..114 |
| Resolver.SurahNumberIsSurahNumeral | js/main.js:87 | the printed form of every number 1..114 is accepted by the numeral pattern |
| Resolver.FindSurahMeta | js/main.js:84-96 | an empty table gives nothing; a result is an entry of the table; a numeral query finds only the entry with exactly that index; any other query finds only an entry whose name, simple name or English name normalises to the query, or whose Arabic name contains it |
| Resolver.FindSurahByNumber | js/main.js:86-88 | in a table of surahs "1" to "114", every surah number, padded with white space or not, finds its own surah |
| Resolver.NumeralNeverMatchesByName | js/main.js:87-89 | a numeral query whose index is absent finds nothing and never falls through to the name search |
| Resolver.ExactNameWins | js/main.js:91-95 | the first exact name match wins over every substring match |
| Resolver.SubstringFallback | js/main.js:95 | without an exact match, the first Arabic name containing the query wins; a query shorter than two characters finds nothing |
| Resolver.FindIgnoresPadding | js/main.js:86 | only the trimmed identifier matters |
| Resolver.FindIgnoresTashkeel | js/main.js:90-95 | a diacritic inside a name query does not change which surah it finds |
| Resolver.MarkedIsNotNumeral | js/main.js:86-87 | a text holding a visible character that is not a digit never trims to a numeral |
| Resolver.FindByKey | js/main.js:90-95 | two name queries with the same normal form resolve alike |
| Resolver.StripSurahWord | js/main.js:99 | a query starting with "سورة" loses at least that word; any other query is unchanged |
| Resolver.MatchSurah | js/main.js:98-100 | `matchSurah` gives an entry of the table or nothing |
| Resolver.MatchSurahDropsSurahWord | js/main.js:99 | "سورة", any white space, then a name resolves exactly as the bare name |
| AyahRequest.FamousAyah | js/main.js:545-550 | a named verse is found exactly when the normalised query contains the normal form of one of its names |
| AyahRequest.FamousNamesNormalize | js/main.js:545-547 | both spellings of the Throne Verse normalise to the same key |
| AyahRequest.FamousAyahIsKursi | js/main.js:546-549 | the named-verse table answers exactly when the normalised query contains that key, and then gives surah 2, verse 255 |
| AyahRequest.NameEnd | js/main.js:551 | group 1 runs to the end of the maximal run of characters that are neither digits nor white space |
| AyahRequest.NumberSpan | js/main.js:551 | group 2 is a maximal non-empty run of ASCII digits |
| AyahRequest.AyahPattern | js/main.js:551 | a match of the regular expression has a non-empty name of non-digit, non-space characters and a non-empty digit string |
| AyahRequest.ParseAyahRequest | js/main.js:544-560 | a query containing the Throne Verse's name gives surah 2, verse 255; otherwise no pattern match gives null, and the leftmost match alone decides: its name must resolve through `findSurahMeta` and its number lie in 1..verses of that surah, giving that surah and verse, and null in every other case |
| AyahRequest.ResolveGroups | js/main.js:552-558 | a resolved match is an entry of the table and a verse in range |
| AyahRequest.NotFamous | js/main.js:546-547 | a query whose every white-space character precedes a digit never names a famous verse |
| AyahRequest.NormalizeKeepsSpacesPrecedeDigits | js/main.js:37-46 | normalisation keeps every white-space character directly before a digit |
| AyahRequest.NameNumberPattern | js/main.js:551 | a name, at most one white-space character, then digits are matched as the name and the digits |
| AyahRequest.LeadingMatch | js/main.js:551 | a name, at most one white-space character and a digit run that open the query, followed by anything but a digit, are the leftmost match's two groups |
| AyahRequest.LeftmostMatchDecides | js/main.js:551-558 | no later match is tried: when a "name number" opens the query, an unknown name or an out-of-range number gives null whatever follows, and otherwise that verse |
| AyahRequest.NameNumberRequest | js/main.js:544-560 | "name number" resolves through `findSurahMeta` of the name: an unknown name or an out-of-range number gives nothing, otherwise that surah and verse |
| AyahRequest.SearchPrefixEnd | js/main.js:540 | the query starts with a search phrase exactly when a position is found, and the position is the end of that phrase |
| AyahRequest.ExtractSearchKeyword | js/main.js:539-542 | a keyword is found exactly when the query starts with a search phrase and something other than a line break follows it; the keyword is trimmed and holds no line break |
| AyahRequest.ExtractSearchKeywordRoundTrip | js/main.js:540-541 | a search phrase, white space and a trimmed one-line keyword give that keyword back |
| Router.Classify | js/main.js:473-530 | each intent is chosen exactly when every earlier branch declined and its own branch answers, in this order: continue (a continue word in the normalised query, a last-read mark with a surah and a non-zero verse, and that surah in the table; lines 483-497), a verse (`parseAyahRequest` finds one; lines 500-504), a surah (`matchSurah` finds one; lines 505-510), a search (a search phrase with a non-empty keyword; lines 514-519), a greeting word, a thanks word (lines 523-526), then the fallback; a follow-up intent is the one the follow-up branch gives, a verse intent carries the surah and verse `parseAyahRequest` found (line 503), a surah intent carries the index of the surah `matchSurah` found (line 508), and a search intent carries the extracted non-empty keyword |
| Router.RouteQuery | js/main.js:475-530 | the `responseSent` sequence of tests chooses the intent `Classify` gives |
| Router.FollowUpStage | js/main.js:483-498 | the follow-up block sets `responseSent` exactly when the follow-up branch answers, and then with that branch's intent |
| Router.RequestStage | js/main.js:500-511 | the request block answers exactly when a verse or a surah is found, a verse taking priority |
| Router.MutabaaNeverMatches | js/main.js:483 | the continue word "متابعة" can never occur in normalised text, because ta marbuta is folded to ha |
| Router.MutabaaContinuesThroughTabi | js/main.js:483 | a query holding "متابعة" still passes the continue test, through "تابع" inside its folded form |
| Router.ContinueShowsNextVerse | js/main.js:485-494 | a follow-up shows the verse after the last one read, or reports the surah complete when it was the last |
| Router.ThroneVerseWins | js/main.js:500-504 | when the follow-up branch declines, a query holding the Throne Verse's name shows surah 2, verse 255 |
| Router.SearchNeedsPhrase | js/main.js:514-519 | a search intent needs a query starting with a search phrase, and carries the trimmed non-empty keyword |
| Router.NameNumberQueryShowsVerse | js/main.js:500-504 | "name number" with an exactly matching surah name and an in-range number shows that verse |
| KeywordSearch.FetchForSearch | js/main.js:568-569 | the search's `fetchSurahData`, through a cache that agrees with what the network loads, yields exactly the record `RecordOf` gives the search model, and leaves the cache in agreement |
| KeywordSearch.VerseHits | js/main.js:570-577 | a surah contributes at most one hit per verse |
| KeywordSearch.SearchKeywordInQuran | js/main.js:562-579 | the nested loops return exactly the first seven hits of the whole table, surah by surah and verse by verse |
| KeywordSearch.ScanVerses | js/main.js:570-578 | the inner loop appends the passing verses of one record in order, stopping at seven results |
| KeywordSearch.FullBeforeEnd | js/main.js:576 | once seven results are held, the rest of the record cannot change them |
| KeywordSearch.AllHitsConcat | js/main.js:566 | hits follow table order: earlier surahs' hits come first, whole |
| KeywordSearch.VerseHitsConcat | js/main.js:570 | within a surah, hits follow the record's key order |
| KeywordSearch.UnavailableSurahSkipped | js/main.js:569 | a surah whose data cannot be loaded contributes nothing |
| KeywordSearch.AllHitsSound | js/main.js:566-577 | every hit is a verse that passes the filter, from the record of an available surah of the table |
| KeywordSearch.SearchResultsSound | js/main.js:564-579 | the search reports at most seven verses, each not verse 0, containing the normalised keyword, from an available surah of the table |
| KeywordSearch.VerseHitsSound | js/main.js:570-577 | every hit of a record is one of its verses, under the surah's index, that passes the filter |
| KeywordSearch.VerseHitsComplete | js/main.js:570-577 | every passing verse of a record is among its hits |
| KeywordSearch.AllHitsComplete | js/main.js:566-577 | every passing verse of every available surah is among the hits |
| KeywordSearch.FewMatchesAllReported | js/main.js:564-579 | with seven matches or fewer in all, every match is reported |
| Session.Preview | js/main.js:404 | a preview keeps a text of up to 35 characters whole; a longer one becomes its first 35 characters and "..." |
| Session.PreviewIdempotent | js/main.js:404 | cutting a preview again changes nothing |
| Session.NewChatPreviewFits | js/main.js:408-409 | the placeholder "محادثة جديدة" is its own preview |
| Session.Without | js/main.js:405 | the filter keeps exactly the entries for other chats |
| Session.WithoutAppend | js/main.js:405 | the filter keeps order: filtering a concatenation gives the filtered parts in turn |
| Session.WithoutSnoc | js/main.js:405 | each entry is kept after the entries kept before it, exactly when it is for another chat |
| Session.WithoutAbsent | js/main.js:408-409 | a list without the chat loses nothing to the filter |
| Session.ChatEntry | js/main.js:401-409 | the entry put first is for the chat and carries the new time |
| Session.RecentAfter | js/main.js:399-411 | the stored list is non-empty, holds at most seven entries, and starts with the updated entry |
| Session.RecentAfterShape | js/main.js:405-411 | after the update the chat is first with the new time, followed by the other chats in their old order, cut to seven |
| Session.RecentAfterPreview | js/main.js:403-409 | a non-empty text sets the preview; otherwise an existing chat keeps its preview and a new one shows the placeholder |
| Session.RecentAfterKeepsUnique | js/main.js:405-406 | the update never lists a chat twice |
| Session.UserMessages | js/main.js:373 | the count of user messages is zero exactly when the history has none |
| Session.FirstUserMessageSetsPreview | js/main.js:373-374 | the first user message of a chat becomes its preview |
| Session.FirstOtherMessageSetsPlaceholder | js/main.js:375-376 | a chat whose first message is not the user's shows the placeholder, even over an existing preview |
| Session.LaterMessagesKeepPreview | js/main.js:377-378 | after the first user message, further messages keep the preview and only refresh the time |
| Session.PreviewArgument | js/main.js:373-379 | the text passed to the recent-chats update: the chat's first user message passes its own text; a chat's very first message, when not the user's, passes "محادثة جديدة"; every later message passes nothing |
| Session.MarkRead | js/main.js:721-722 | marking a surah read adds it, keeps every surah already read, and grows the count only for a new surah |
| Session.MarkReadIdempotent | js/main.js:721 | marking a surah read twice is marking it once |
| Session.KhatmaCountBounded | js/main.js:714-717 | when only table surahs are marked, the progress count never exceeds the table size |
| Session.SessionStore.constructor | js/main.js:368 | a fresh store has no histories, no recent chats, no marks and no surahs read |
| Session.SessionStore.SaveLastRead | js/main.js:391-393 | the chat's mark is overwritten and nothing else changes |
| Session.SessionStore.UpdateRecentChat | js/main.js:399-411 | the recent-chats list becomes `RecentAfter` of the old list, and nothing else changes |
| Session.SessionStore.SaveMessage | js/main.js:366-389 | an empty chat id saves nothing; otherwise the message is appended, the recent list is updated with the preview rules, and a verse message records its last verse |
| Session.SessionStore.MarkSurahRead | js/main.js:719-726 | the surah is added to the read-set, the store is written only the first time, and the read count grows by one exactly then |
| Zen.NumberText | js/main.js:691 | `String` of NaN is "NaN", and the printed form of a natural number parses back to it |
| Zen.ZenStep | js/main.js:684-699 | without a current verse nothing happens; a target verse number is never negative; the step fails (the TypeError) exactly when the surah whose `verses` it reads is missing: the previous surah when stepping back before verse 1, the current one otherwise |
| Zen.ZenStepInside | js/main.js:686-698 | a step that stays inside the surah moves by one verse |
| Zen.ZenStepBack | js/main.js:690-693 | stepping back from verse 1 goes to the last verse of the surah numbered before |
| Zen.ZenStepForward | js/main.js:694-696 | stepping past the last verse goes to verse 1 of the surah numbered after |
| Zen.ZenStepStaysValid | js/main.js:684-699 | in a table of surahs "1" to "114", one step either way from a valid verse lands on a valid verse |
| Zen.ZenBackFromFirstVerse | js/main.js:690-693 | stepping back from the first verse of surah 1 goes to the last verse of surah 114 |
| Zen.ZenForwardFromLastVerse | js/main.js:694-696 | stepping past the last verse of surah 114 goes to verse 1 of surah 1 |
| Zen.ZenForwardThenBack | js/main.js:684-699 | a step forward, then back, returns to the same verse |
| Zen.ZenBackThenForward | js/main.js:684-699 | a step back, then forward, returns to the same verse |

## Left out

- The page itself is not modelled: the DOM, chat bubbles, loading states, the sidebar, the zen overlay, the tafsir view, clipboard and sharing. They render results and hold no decision logic.
- The network side of `fetchSurahData` and `fetchTafsir` is not modelled. Each fetch is an outcome parameter, and the search takes the records a fetch would yield as a map. The error messages a failed fetch shows are not modelled.
- The `setTimeout` delay, `console` logging and the `catch` path of `processQuranQuery` are not modelled.
- `Date.now` is a clock parameter (`now`). One reading serves a whole `SaveMessage`, where the source reads the clock once for the message and again for the recent-chats entry.
- `JSON.parse` and `JSON.stringify` are not modelled. The store keeps structured values, and a NaN verse number, which the stored JSON turns into `null`, is `None`.
- The shared key space of `localStorage` is not modelled. Each key family is its own field.
- Strings are sequences of code points. JavaScript's `length` and `substring` count UTF-16 units, which differ only outside the Basic Multilingual Plane. `toLowerCase` folds ASCII capitals only.
- `parseInt` is modelled for decimal text only. Hexadecimal prefixes and numbers beyond double precision are not modelled.
- Verse keys are taken already parsed: a record is a sequence of (verse number, text) pairs in key order. The parsing of `verse_<n>` keys is not modelled. So a key whose number is NaN, which the search would report, cannot be expressed.
- ArabicText.ToIndianNumerals: a number argument is a natural, so `String` of NaN ("NaN", passed through unchanged) or of a fraction cannot be expressed. In the modelled code a number reaches it only from a verse key, and verse-key parsing is not modelled (see the line on verse keys above).
- KeywordSearch.ScanVerses: the verse test is passed in as one filter, "normalised text contains the keyword and the number is not 0". The source tests the keyword first and then the number, which selects the same verses.
- The search's hit is the surah, the verse number and the raw text. The highlighting regular expression built from the keyword is not modelled, and neither is the exception it throws on special characters.
- The HTML stripping of a message's preview text and the extraction of the last verse element are not modelled. Both are inputs of `SaveMessage` (`plainText`, `lastAyah`).
- `displayFullSurah` and `fetchAndDisplaySingleAyah` are not modelled; the router stops at the intent they would act on. This includes the sorted verse listing and the "009"/"001" bismillah test, which compares against unpadded indices. The khatma update `displayFullSurah` performs is `SessionStore.MarkSurahRead`.
- Some state is not modelled: `startNewChat`, `currentChatID`, the zen-mode state variables, and `handleZenModeToggle`. The latter picks a random verse and reads `s`/`a` fields from a last-read mark whose fields are `surahIndex`/`ayahNumber`. The arithmetic of a zen step is `Zen.ZenStep`.
- Session.SessionStore.MarkSurahRead: the khatma percentage of `getKhatmaProgress` is a floating-point division. Only the count behind it is modelled, as the helper `SessionStore.ReadCount` that the contract of `MarkSurahRead` uses.
- The `i` flag on the search-phrase pattern is not modelled. The phrases are Arabic and have no case.
