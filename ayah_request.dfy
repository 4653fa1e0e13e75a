/**
 * Reading a request for one verse or for a keyword search out of a query
 * (`parseAyahRequest` and `extractSearchKeyword`, js/main.js:539-560).
 *
 * The two regular expressions are written out as the match a backtracking
 * engine finds: the leftmost start position, and at that position the
 * alternatives in order with greedy repetition. Where backtracking could
 * in principle change the split, the comments on the functions below say
 * why it cannot.
 */
module AyahRequest {
  import opened Wrappers
  import opened JsText
  import opened ArabicText
  import opened Corpus
  import opened Resolver

  /** A verse reference: the surah number as text and the verse number. */
  datatype AyahRef = AyahRef(surahIndex: string, ayahNumber: int)

  /** The verses known by name, in the object's key order; both spellings are the Throne Verse, 2:255. */
  const FamousAyahs: seq<(string, AyahRef)> := [
    ("اية الكرسي", AyahRef("2", 255)),
    ("آية الكرسي", AyahRef("2", 255))
  ]

  /** The normal form both spellings of the Throne Verse share. */
  const KursiKey: string := "ايه الكرسي"

  /** The first named verse whose normalised name the normalised query contains. */
  function FamousAyah(nq: string, names: seq<(string, AyahRef)>): (r: Option<AyahRef>)
    ensures r.Some? <==> exists i :: 0 <= i < |names| && Contains(nq, Normalize(names[i].0))
    ensures r.Some? ==> exists i :: 0 <= i < |names| && r.value == names[i].1
  {
    if names == [] then None
    else if Contains(nq, Normalize(names[0].0)) then Some(names[0].1)
    else
      var r := FamousAyah(nq, names[1..]);
      assert forall i :: 1 <= i < |names| ==> names[i] == names[1..][i - 1];
      r
  }

  /** Both spellings of the Throne Verse normalise to the same key. */
  lemma FamousNamesNormalize()
    ensures Normalize(FamousAyahs[0].0) == KursiKey
    ensures Normalize(FamousAyahs[1].0) == KursiKey
  {
    FamousNameNormalizes(FamousAyahs[0].0);
    FamousNameNormalizes(FamousAyahs[1].0);
  }

  lemma FamousNameNormalizes(n: string)
    requires n == "اية الكرسي" || n == "آية الكرسي"
    ensures Normalize(n) == KursiKey
  {
    FamousNameUnmarked(n);
    RemoveNothing(n, IsTashkeel);
    RemoveNothing(n, IsTatweel);
    assert StripMarks(n) == n;
    FamousNameFolds(n);
    KursiKeyIsNormal();
    NormalizePipeline(n);
  }

  lemma FamousNameUnmarked(n: string)
    requires n == "اية الكرسي" || n == "آية الكرسي"
    ensures forall k :: 0 <= k < |n| ==> !IsTashkeel(n[k]) && !IsTatweel(n[k])
  {
  }

  lemma FamousNameFolds(n: string)
    requires n == "اية الكرسي" || n == "آية الكرسي"
    ensures FoldLetters(n) == KursiKey
  {
  }

  lemma KursiKeyIsNormal()
    ensures Trim(KursiKey) == KursiKey && ToLower(KursiKey) == KursiKey
  {
    TrimOfTrimmed(KursiKey);
  }

  /** A query names the Throne Verse exactly when its normal form contains the shared key. */
  lemma FamousAyahIsKursi(query: string)
    ensures FamousAyah(Normalize(query), FamousAyahs).Some? <==> Contains(Normalize(query), KursiKey)
    ensures FamousAyah(Normalize(query), FamousAyahs).Some? ==>
      FamousAyah(Normalize(query), FamousAyahs) == Some(AyahRef("2", 255))
  {
    FamousNamesNormalize();
  }

  // ------------------------------------------------ the verse pattern

  /** `[^\d\s]`. */
  predicate IsNameChar(c: char) {
    !IsDigit(c) && !IsSpace(c)
  }

  /** `[^\d\s]*` from `i`: one past the run of name characters that starts there. */
  function NameEnd(s: string, i: nat): (j: nat)
    requires i <= |s|
    ensures i <= j <= |s|
    ensures forall k :: i <= k < j ==> IsNameChar(s[k])
    ensures j < |s| ==> !IsNameChar(s[j])
    decreases |s| - i
  {
    if i < |s| && IsNameChar(s[i]) then NameEnd(s, i + 1) else i
  }

  /** The optional verse marker: "آية", "اية" or "رقم", tried in that order. */
  const Markers: seq<string> := ["آية", "اية", "رقم"]

  /** `(?:آية|اية|رقم)?` at `i`: the end of the first alternative found there. */
  function MarkerEnd(s: string, i: nat): (r: Option<nat>)
    requires i <= |s|
    ensures r.Some? ==> i < r.value <= |s| && IsNameChar(s[i])
  {
    if OccursAt(s, Markers[0], i) then
      OccurrenceChars(s, Markers[0], i, 0);
      Some(i + |Markers[0]|)
    else if OccursAt(s, Markers[1], i) then
      OccurrenceChars(s, Markers[1], i, 0);
      Some(i + |Markers[1]|)
    else if OccursAt(s, Markers[2], i) then
      OccurrenceChars(s, Markers[2], i, 0);
      Some(i + |Markers[2]|)
    else None
  }

  /**
   * `\s*(?:آية|اية|رقم)?\s*(\d+)` from `e`: the span of the digit group.
   * Giving back white space cannot help: the character after it would be
   * white space, which neither a marker nor a digit matches.
   */
  function NumberSpan(s: string, e: nat): (r: Option<(nat, nat)>)
    requires e <= |s|
    ensures r.Some? ==> e <= r.value.0 < r.value.1 <= |s|
    ensures r.Some? ==> forall k :: r.value.0 <= k < r.value.1 ==> IsDigit(s[k])
    ensures r.Some? ==> r.value.1 == |s| || !IsDigit(s[r.value.1])
  {
    var w := SkipSpaces(s, e);
    var marked :=
      match MarkerEnd(s, w)
      case Some(m) =>
        var d := SkipSpaces(s, m);
        if d < |s| && IsDigit(s[d]) then Some((d, DigitEnd(s, d))) else None
      case None => None;
    if marked.Some? then marked
    else if w < |s| && IsDigit(s[w]) then Some((w, DigitEnd(s, w)))
    else None
  }

  /** The two capture groups: the surah name and the verse number. */
  datatype PatternMatch = PatternMatch(name: string, number: string)

  /**
   * `([^\d\s]+)` followed by the number part, with the name group starting
   * at `g`. The name run is taken whole: a shorter run leaves a name
   * character next, and only a marker can start with one, but a marker
   * ending where the whole run ends is followed by what the whole run
   * would have matched without it.
   */
  function NameAndNumber(s: string, g: nat): (r: Option<PatternMatch>)
    requires g <= |s|
    ensures r.Some? ==> r.value.name != [] && forall k :: 0 <= k < |r.value.name| ==> IsNameChar(r.value.name[k])
    ensures r.Some? ==> r.value.number != [] && AllDigits(r.value.number)
  {
    if g < |s| && IsNameChar(s[g]) then
      var e := NameEnd(s, g);
      match NumberSpan(s, e)
      case Some(span) => Some(PatternMatch(s[g..e], s[span.0..span.1]))
      case None => None
    else None
  }

  /**
   * The pattern tried at start position `p`: first with the optional
   * "سورة\s*" taken, then without it.
   */
  function MatchAt(s: string, p: nat): (r: Option<PatternMatch>)
    requires p <= |s|
    ensures r.Some? ==> r.value.name != [] && forall k :: 0 <= k < |r.value.name| ==> IsNameChar(r.value.name[k])
    ensures r.Some? ==> r.value.number != [] && AllDigits(r.value.number)
  {
    var withWord :=
      if OccursAt(s, SurahWord, p) then NameAndNumber(s, SkipSpaces(s, p + |SurahWord|)) else None;
    if withWord.Some? then withWord else NameAndNumber(s, p)
  }

  /** The leftmost match at or after `p`. */
  function FirstMatchFrom(s: string, p: nat): (r: Option<PatternMatch>)
    requires p <= |s|
    ensures r.Some? ==> r.value.name != [] && forall k :: 0 <= k < |r.value.name| ==> IsNameChar(r.value.name[k])
    ensures r.Some? ==> r.value.number != [] && AllDigits(r.value.number)
    decreases |s| - p
  {
    match MatchAt(s, p)
    case Some(m) => Some(m)
    case None => if p == |s| then None else FirstMatchFrom(s, p + 1)
  }

  /** `query.match(/(?:سورة\s*)?([^\d\s]+)\s*(?:آية|اية|رقم)?\s*(\d+)/)`. */
  function AyahPattern(query: string): (r: Option<PatternMatch>)
    ensures r.Some? ==> r.value.name != [] && forall k :: 0 <= k < |r.value.name| ==> IsNameChar(r.value.name[k])
    ensures r.Some? ==> r.value.number != [] && AllDigits(r.value.number)
  {
    FirstMatchFrom(query, 0)
  }

  /**
   * `parseAyahRequest(query)`: a named verse first; otherwise the pattern,
   * whose name must resolve to a surah and whose number must lie in
   * 1..verses of that surah.
   */
  function ParseAyahRequest(table: seq<SurahMeta>, query: string): (r: Option<AyahRef>)
    ensures FamousAyah(Normalize(query), FamousAyahs).Some? ==> r == Some(AyahRef("2", 255))
    ensures r.Some? && FamousAyah(Normalize(query), FamousAyahs).None? ==>
      exists meta :: meta in table && meta.index == r.value.surahIndex && 1 <= r.value.ayahNumber <= meta.verses
    // no named verse and no match: null
    ensures FamousAyah(Normalize(query), FamousAyahs).None? && AyahPattern(query).None? ==> r.None?
    // otherwise the leftmost match alone decides: its name must resolve and its number lie in 1..verses
    ensures FamousAyah(Normalize(query), FamousAyahs).None? && AyahPattern(query).Some? ==>
      var m := AyahPattern(query).value;
      var meta := FindSurahMeta(table, m.name);
      var n := DigitsValue(m.number);
      r == if meta.Some? && 0 < n <= meta.value.verses then Some(AyahRef(meta.value.index, n)) else None
  {
    match FamousAyah(Normalize(query), FamousAyahs)
    case Some(a) =>
      FamousAyahIsKursi(query);
      Some(a)
    case None =>
      match AyahPattern(query)
      case None => None
      case Some(m) =>
        PlainGroups(table, m.name, m.number);
        ResolveGroups(table, m)
  }

  /** The groups of a pattern match, resolved: a known surah and a verse number within it. */
  function ResolveGroups(table: seq<SurahMeta>, m: PatternMatch): (r: Option<AyahRef>)
    ensures r.Some? ==> exists meta :: meta in table && meta.index == r.value.surahIndex && 1 <= r.value.ayahNumber <= meta.verses
  {
    var meta := FindSurahMeta(table, Trim(m.name));
    match ParseInt(Trim(m.number))
    case None => None
    case Some(n) =>
      if meta.Some? && n > 0 && n <= meta.value.verses then Some(AyahRef(meta.value.index, n)) else None
  }

  // -------------------------------------- queries of the form "name number"

  /** Every white-space character is directly followed by a digit. */
  predicate SpacesPrecedeDigits(s: string) {
    forall i :: 0 <= i < |s| && IsSpace(s[i]) ==> i + 1 < |s| && IsDigit(s[i + 1])
  }

  /** Deleting characters that are neither white space nor digits keeps every space before its digit. */
  lemma {:induction false} RemoveKeepsSpacesPrecedeDigits(s: string, drop: char -> bool)
    requires SpacesPrecedeDigits(s)
    requires forall c :: drop(c) ==> !IsSpace(c) && !IsDigit(c)
    ensures SpacesPrecedeDigits(RemoveWhere(s, drop))
  {
    if s != [] {
      var rest := s[1..];
      assert SpacesPrecedeDigits(rest) by {
        forall i | 0 <= i < |rest| && IsSpace(rest[i]) ensures i + 1 < |rest| && IsDigit(rest[i + 1]) {
          assert rest[i] == s[i + 1];
        }
      }
      RemoveKeepsSpacesPrecedeDigits(rest, drop);
      var tail := RemoveWhere(rest, drop);
      var head := if drop(s[0]) then [] else [s[0]];
      assert RemoveWhere(s, drop) == head + tail;
      if IsSpace(s[0]) {
        assert rest[0] == s[1];
        assert tail == [rest[0]] + RemoveWhere(rest[1..], drop);
      }
      var r := head + tail;
      forall i | 0 <= i < |r| && IsSpace(r[i]) ensures i + 1 < |r| && IsDigit(r[i + 1]) {
        if i >= |head| {
          assert r[i] == tail[i - |head|];
          assert r[i + 1] == tail[i + 1 - |head|];
        }
      }
    }
  }

  /** `normalizeArabicText` keeps every white-space character directly before a digit. */
  lemma NormalizeKeepsSpacesPrecedeDigits(s: string)
    requires SpacesPrecedeDigits(s)
    ensures SpacesPrecedeDigits(Normalize(s))
  {
    if s != "" {
      RemoveKeepsSpacesPrecedeDigits(s, IsTashkeel);
      RemoveKeepsSpacesPrecedeDigits(RemoveWhere(s, IsTashkeel), IsTatweel);
      var f := FoldLetters(StripMarks(s));
      FoldKeepsSpacesPrecedeDigits(StripMarks(s));
      TrimKeepsSpacesPrecedeDigits(f);
      NormalizePipeline(s);
    }
  }

  lemma FoldKeepsSpacesPrecedeDigits(s: string)
    requires SpacesPrecedeDigits(s)
    ensures SpacesPrecedeDigits(FoldLetters(s))
  {
  }

  lemma TrimKeepsSpacesPrecedeDigits(f: string)
    requires SpacesPrecedeDigits(f)
    ensures SpacesPrecedeDigits(ToLower(Trim(f)))
  {
    TrimOnlyKeepsSpacesPrecedeDigits(f);
    LowerKeepsSpacesPrecedeDigits(Trim(f));
  }

  lemma TrimOnlyKeepsSpacesPrecedeDigits(f: string)
    requires SpacesPrecedeDigits(f)
    ensures SpacesPrecedeDigits(Trim(f))
  {
    var lead, core, tail := TrimSplit(f);
    forall i | 0 <= i < |core| && IsSpace(core[i]) ensures i + 1 < |core| && IsDigit(core[i + 1]) {
      assert core[i] == f[|lead| + i];
      assert i != |core| - 1;
      assert core[i + 1] == f[|lead| + i + 1];
    }
  }

  lemma LowerKeepsSpacesPrecedeDigits(t: string)
    requires SpacesPrecedeDigits(t)
    ensures SpacesPrecedeDigits(ToLower(t))
  {
    var u := ToLower(t);
    forall i | 0 <= i < |u| && IsSpace(u[i]) ensures i + 1 < |u| && IsDigit(u[i + 1]) {
      assert u[i] == LowerChar(t[i]) && u[i] == t[i];
    }
  }

  /** A query in which every space comes just before a digit never names the Throne Verse. */
  lemma NotFamous(query: string)
    requires SpacesPrecedeDigits(query)
    ensures FamousAyah(Normalize(query), FamousAyahs).None?
  {
    FamousAyahIsKursi(query);
    NormalizeKeepsSpacesPrecedeDigits(query);
    KursiKeyNeedsSpaceBeforeLetter(Normalize(query));
  }

  /** The key has a space before a letter, so it cannot occur where every space precedes a digit. */
  lemma KursiKeyNeedsSpaceBeforeLetter(n: string)
    requires SpacesPrecedeDigits(n)
    ensures !Contains(n, KursiKey)
  {
    forall i | 0 <= i <= |n| ensures !OccursAt(n, KursiKey, i) {
      if i + |KursiKey| <= |n| {
        var w := n[i..i + |KursiKey|];
        assert w[3] == n[i + 3] && w[4] == n[i + 4];
        if IsSpace(n[i + 3]) {
          assert w[4] != KursiKey[4];
        } else {
          assert w[3] != KursiKey[3];
        }
      }
    }
  }

  /**
   * A surah name, at most one space and a verse number (as in "البقرة 255")
   * asks for that verse of the surah the name resolves to, when the number
   * lies within the surah, and for nothing otherwise.
   */
  lemma NameNumberRequest(table: seq<SurahMeta>, name: string, sep: string, digits: string)
    requires name != [] && forall k :: 0 <= k < |name| ==> IsNameChar(name[k])
    requires !StartsWith(name, SurahWord)
    requires |sep| <= 1 && AllSpaces(sep)
    requires digits != [] && AllDigits(digits)
    ensures FindSurahMeta(table, name).None? ==> ParseAyahRequest(table, name + sep + digits).None?
    ensures FindSurahMeta(table, name).Some? ==>
      var meta := FindSurahMeta(table, name).value;
      var n := DigitsValue(digits);
      ParseAyahRequest(table, name + sep + digits) == if 0 < n <= meta.verses then Some(AyahRef(meta.index, n)) else None
  {
    var q := name + sep + digits;
    NameNumberSpacing(name, sep, digits);
    NotFamous(q);
    NameNumberPattern(name, sep, digits);
    PlainGroups(table, name, digits);
  }

  lemma PlainGroups(table: seq<SurahMeta>, name: string, digits: string)
    requires name != [] && forall k :: 0 <= k < |name| ==> IsNameChar(name[k])
    requires digits != [] && AllDigits(digits)
    ensures FindSurahMeta(table, name).None? ==> ResolveGroups(table, PatternMatch(name, digits)).None?
    ensures FindSurahMeta(table, name).Some? ==>
      var meta := FindSurahMeta(table, name).value;
      var n := DigitsValue(digits);
      ResolveGroups(table, PatternMatch(name, digits)) == if 0 < n <= meta.verses then Some(AyahRef(meta.index, n)) else None
  {
    TrimOfTrimmed(name);
    TrimOfTrimmed(digits);
    ParseIntOfDigits(digits);
  }

  lemma NameNumberSpacing(name: string, sep: string, digits: string)
    requires forall k :: 0 <= k < |name| ==> IsNameChar(name[k])
    requires |sep| <= 1 && digits != [] && AllDigits(digits)
    ensures SpacesPrecedeDigits(name + sep + digits)
  {
    var q := name + sep + digits;
    assert forall k :: 0 <= k < |name| ==> q[k] == name[k];
    assert forall k :: 0 <= k < |digits| ==> q[|name| + |sep| + k] == digits[k];
    forall i | 0 <= i < |q| && IsSpace(q[i]) ensures i + 1 < |q| && IsDigit(q[i + 1]) {
      assert i == |name| && |sep| == 1;
      assert q[i + 1] == digits[0];
    }
  }

  lemma NameNumberPattern(name: string, sep: string, digits: string)
    requires name != [] && forall k :: 0 <= k < |name| ==> IsNameChar(name[k])
    requires !StartsWith(name, SurahWord)
    requires |sep| <= 1 && AllSpaces(sep)
    requires digits != [] && AllDigits(digits)
    ensures AyahPattern(name + sep + digits) == Some(PatternMatch(name, digits))
  {
    LeadingMatch(name, sep, digits, []);
    assert name + sep + digits + [] == name + sep + digits;
  }

  /**
   * A name, at most one white-space character and a digit run open the
   * query, and what follows does not continue the digits: the leftmost
   * match is exactly that name and those digits.
   */
  lemma LeadingMatch(name: string, sep: string, digits: string, rest: string)
    requires name != [] && forall k :: 0 <= k < |name| ==> IsNameChar(name[k])
    requires !StartsWith(name, SurahWord)
    requires |sep| <= 1 && AllSpaces(sep)
    requires digits != [] && AllDigits(digits)
    requires rest == [] || !IsDigit(rest[0])
    ensures AyahPattern(name + sep + digits + rest) == Some(PatternMatch(name, digits))
  {
    var q := name + sep + digits + rest;
    var e: nat, w: nat := |name|, |name| + |sep|;
    var d: nat := w + |digits|;
    assert q[..e] == name && q[0..e] == name;
    assert q[w..d] == digits;
    assert q[0] == name[0];
    assert q[w] == digits[0];
    assert q[e] == (if |sep| == 1 then sep[0] else digits[0]);
    NoSurahWordAtStart(name, q);
    NameEndAt(name, q);
    assert SkipSpaces(q, e) == w by {
      if |sep| == 1 { assert q[e] == sep[0]; }
    }
    DigitRunEnd(q, w, d, digits, rest);
    assert MarkerEnd(q, w).None?;
    assert NumberSpan(q, e) == Some((w, d));
    assert NameAndNumber(q, 0) == Some(PatternMatch(q[0..e], q[w..d]));
    assert MatchAt(q, 0) == NameAndNumber(q, 0);
  }

  lemma NoSurahWordAtStart(name: string, q: string)
    requires |name| < |q| && q[..|name|] == name && !StartsWith(name, SurahWord)
    requires IsSpace(q[|name|]) || IsDigit(q[|name|])
    ensures !OccursAt(q, SurahWord, 0)
  {
    if |name| >= |SurahWord| {
      assert q[..|SurahWord|] == name[..|SurahWord|];
    } else {
      assert SurahWord[|name|] != q[|name|];
    }
  }

  lemma NameEndAt(name: string, q: string)
    requires |name| < |q| && q[..|name|] == name && forall k :: 0 <= k < |name| ==> IsNameChar(name[k])
    requires !IsNameChar(q[|name|])
    ensures NameEnd(q, 0) == |name|
  {
    assert forall k :: 0 <= k < |name| ==> q[k] == name[k];
  }

  /** The digit run from `w` ends where the digits placed there end. */
  lemma DigitRunEnd(q: string, w: nat, d: nat, digits: string, rest: string)
    requires w <= d <= |q| && d == w + |digits| && q[w..d] == digits && q[d..] == rest && AllDigits(digits)
    requires rest == [] || !IsDigit(rest[0])
    ensures DigitEnd(q, w) == d
  {
    assert forall k :: w <= k < d ==> q[k] == digits[k - w];
  }

  /**
   * Only the leftmost match is tried: in "آية 5 البقرة 255" the pattern
   * matches "آية 5" first, and when that name resolves to no surah, or 5
   * is out of range, the request is null, although "البقرة 255" later in
   * the query would resolve.
   */
  lemma LeftmostMatchDecides(table: seq<SurahMeta>, name: string, sep: string, digits: string, rest: string)
    requires name != [] && forall k :: 0 <= k < |name| ==> IsNameChar(name[k])
    requires !StartsWith(name, SurahWord)
    requires |sep| <= 1 && AllSpaces(sep)
    requires digits != [] && AllDigits(digits)
    requires rest == [] || !IsDigit(rest[0])
    requires FamousAyah(Normalize(name + sep + digits + rest), FamousAyahs).None?
    ensures FindSurahMeta(table, name).None? ==> ParseAyahRequest(table, name + sep + digits + rest).None?
    ensures FindSurahMeta(table, name).Some? ==>
      var meta := FindSurahMeta(table, name).value;
      var n := DigitsValue(digits);
      ParseAyahRequest(table, name + sep + digits + rest) == if 0 < n <= meta.verses then Some(AyahRef(meta.index, n)) else None
  {
    LeadingMatch(name, sep, digits, rest);
  }

  // --------------------------------------------------- keyword search

  /** The phrases that open a keyword search, tried in this order. */
  const SearchPrefixes: seq<string> := ["آيات عن", "ابحث عن", "ماذا يقول القرآن عن"]

  /** The end of the first search phrase the query starts with. */
  function SearchPrefixEnd(query: string): (r: Option<nat>)
    ensures r.Some? <==> exists i :: 0 <= i < |SearchPrefixes| && StartsWith(query, SearchPrefixes[i])
    ensures r.Some? ==> exists i :: 0 <= i < |SearchPrefixes| && StartsWith(query, SearchPrefixes[i]) && r.value == |SearchPrefixes[i]|
  {
    if StartsWith(query, SearchPrefixes[0]) then Some(|SearchPrefixes[0]|)
    else if StartsWith(query, SearchPrefixes[1]) then Some(|SearchPrefixes[1]|)
    else if StartsWith(query, SearchPrefixes[2]) then Some(|SearchPrefixes[2]|)
    else None
  }

  /**
   * `extractSearchKeyword(query)`: `/^(?:آيات عن|ابحث عن|ماذا يقول القرآن عن)\s*(.+)/i`,
   * group 1 trimmed. Group 1 runs from the first visible character after
   * the phrase up to the end of its line; when only white space follows,
   * `\s*` gives back one character for `(.+)` to take, provided it is not
   * a line terminator, and the trimmed group is empty.
   */
  function ExtractSearchKeyword(query: string): (r: Option<string>)
    ensures r.Some? <==>
      (SearchPrefixEnd(query).Some? && exists k :: SearchPrefixEnd(query).value <= k < |query| && !IsLineTerminator(query[k]))
    ensures r.Some? ==> Trimmed(r.value)
    ensures r.Some? ==> forall k :: 0 <= k < |r.value| ==> !IsLineTerminator(r.value[k])
  {
    match SearchPrefixEnd(query)
    case None => None
    case Some(a) =>
      var w := SkipSpaces(query, a);
      if w < |query| then
        var line := query[w..LineEnd(query, w)];
        assert !IsLineTerminator(query[w]);
        TrimKeepsChars(line);
        Some(Trim(line))
      else if exists k :: a <= k < |query| && !IsLineTerminator(query[k]) then Some("")
      else None
  }

  /** `trim` returns a piece of its argument, so it keeps any line free of terminators. */
  lemma TrimKeepsChars(s: string)
    requires forall k :: 0 <= k < |s| ==> !IsLineTerminator(s[k])
    ensures forall k :: 0 <= k < |Trim(s)| ==> !IsLineTerminator(Trim(s)[k])
  {
    var i := ContentStart(s);
    var t := Trim(s);
    assert forall k :: 0 <= k < |t| ==> t[k] == s[i + k];
  }

  /** A search phrase, any white space and a one-line keyword give back exactly that keyword. */
  lemma ExtractSearchKeywordRoundTrip(i: nat, sp: string, keyword: string)
    requires i < |SearchPrefixes| && AllSpaces(sp)
    requires keyword != [] && Trimmed(keyword)
    requires forall k :: 0 <= k < |keyword| ==> !IsLineTerminator(keyword[k])
    ensures ExtractSearchKeyword(SearchPrefixes[i] + sp + keyword) == Some(keyword)
  {
    var p := SearchPrefixes[i];
    var q := p + sp + keyword;
    assert q[..|p|] == p;
    assert q[0] == p[0];
    assert SearchPrefixEnd(q) == Some(|p|);
    KeywordAfterPrefix(p, sp, keyword);
    assert q[|p| + |sp|..|q|] == keyword;
    TrimOfTrimmed(keyword);
  }

  lemma KeywordAfterPrefix(p: string, sp: string, keyword: string)
    requires AllSpaces(sp)
    requires keyword != [] && Trimmed(keyword)
    requires forall k :: 0 <= k < |keyword| ==> !IsLineTerminator(keyword[k])
    ensures SkipSpaces(p + sp + keyword, |p|) == |p| + |sp|
    ensures LineEnd(p + sp + keyword, |p| + |sp|) == |p + sp + keyword|
    ensures (p + sp + keyword)[|p| + |sp|..] == keyword
  {
    var q := p + sp + keyword;
    var w := |p| + |sp|;
    assert forall k :: |p| <= k < w ==> q[k] == sp[k - |p|];
    assert forall k :: w <= k < |q| ==> q[k] == keyword[k - w];
    assert q[w] == keyword[0];
    assert q[w..] == keyword;
  }
}
