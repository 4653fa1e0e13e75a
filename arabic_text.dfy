/**
 * Text normalisation and numeral display (js/main.js:29-46).
 *
 * `normalizeArabicText` is a chain of global replaces followed by `trim`
 * and `toLowerCase`; each replace becomes a character-level deletion or
 * folding here, applied in the source's order.
 */
module ArabicText {
  import opened JsText

  // ------------------------------------------------------ character classes

  /** The diacritic ranges the first replace deletes. */
  predicate IsTashkeel(c: char) {
    || ('\U{0610}' <= c <= '\U{061A}')
    || ('\U{064B}' <= c <= '\U{065F}')
    || c == '\U{0670}'
    || ('\U{06D6}' <= c <= '\U{06DC}')
    || ('\U{06DF}' <= c <= '\U{06E8}')
    || ('\U{06EA}' <= c <= '\U{06ED}')
  }

  const Tatweel: char := '\U{0640}'
  const Alif: char := '\U{0627}'
  const TaMarbuta: char := '\U{0629}'
  const Ha: char := '\U{0647}'
  const AlifMaqsura: char := '\U{0649}'
  const Ya: char := '\U{064A}'

  predicate IsTatweel(c: char) {
    c == Tatweel
  }

  /** Alif with madda, hamza above, hamza below, and alif wasla. */
  predicate IsAlifVariant(c: char) {
    c == '\U{0622}' || c == '\U{0623}' || c == '\U{0625}' || c == '\U{0671}'
  }

  predicate IsUpperAscii(c: char) {
    'A' <= c <= 'Z'
  }

  /** A character that can appear in normalised text. */
  predicate IsNormalChar(c: char) {
    && !IsTashkeel(c) && c != Tatweel && !IsAlifVariant(c)
    && c != TaMarbuta && c != AlifMaqsura && !IsUpperAscii(c)
  }

  predicate IsNormalText(s: string) {
    forall i :: 0 <= i < |s| ==> IsNormalChar(s[i])
  }

  function FoldAlif(c: char): char {
    if IsAlifVariant(c) then Alif else c
  }

  function FoldTaMarbuta(c: char): char {
    if c == TaMarbuta then Ha else c
  }

  function FoldAlifMaqsura(c: char): char {
    if c == AlifMaqsura then Ya else c
  }

  // ------------------------------------------------ replace, as functions

  /** `s.replace(/[class]/g, "")`: delete every character `drop` selects. */
  function RemoveWhere(s: string, drop: char -> bool): (r: string)
    ensures |r| <= |s|
    ensures forall i :: 0 <= i < |r| ==> !drop(r[i])
  {
    if s == [] then []
    else (if drop(s[0]) then [] else [s[0]]) + RemoveWhere(s[1..], drop)
  }

  /** `s.replace(/[class]/g, f)` with a one-character replacement: rewrite each character. */
  function MapChars(s: string, f: char -> char): (r: string)
    ensures |r| == |s|
    ensures forall i :: 0 <= i < |s| ==> r[i] == f(s[i])
  {
    seq(|s|, i requires 0 <= i < |s| => f(s[i]))
  }

  /** The two deletions of js/main.js:40-41, in order. */
  function StripMarks(s: string): (r: string)
    ensures |r| <= |s|
    ensures forall i :: 0 <= i < |r| ==> !IsTashkeel(r[i]) && !IsTatweel(r[i])
  {
    var t := RemoveWhere(s, IsTashkeel);
    RemoveKeeps(t, IsTatweel, c => !IsTashkeel(c));
    RemoveWhere(t, IsTatweel)
  }

  /** Deleting characters keeps any property every character had. */
  lemma {:induction false} RemoveKeeps(s: string, drop: char -> bool, p: char -> bool)
    requires forall i :: 0 <= i < |s| ==> p(s[i])
    ensures forall i :: 0 <= i < |RemoveWhere(s, drop)| ==> p(RemoveWhere(s, drop)[i])
  {
    if s != [] {
      RemoveKeeps(s[1..], drop, p);
    }
  }

  /** The three foldings of js/main.js:42-44, applied to one character. */
  function FoldChar(c: char): char {
    FoldAlifMaqsura(FoldTaMarbuta(FoldAlif(c)))
  }

  /** The three foldings of js/main.js:42-44, in order: each character is folded on its own. */
  function FoldLetters(s: string): (r: string)
    ensures |r| == |s|
    ensures forall i :: 0 <= i < |s| ==> r[i] == FoldChar(s[i])
  {
    MapChars(MapChars(MapChars(s, FoldAlif), FoldTaMarbuta), FoldAlifMaqsura)
  }

  /** The whole pipeline of js/main.js:40-45 without the guard for falsy input. */
  function Pipeline(text: string): string {
    ToLower(Trim(FoldLetters(StripMarks(text))))
  }

  /**
   * `normalizeArabicText`: total (empty input gives empty output), and its
   * output holds no diacritic, no tatweel, no letter that is folded, no
   * upper-case ASCII letter and no white space at either end.
   */
  function Normalize(text: string): (r: string)
    ensures |r| <= |text|
    ensures IsNormalText(r)
    ensures Trimmed(r)
  {
    if text == "" then ""
    else
      PipelineIsNormal(text);
      Pipeline(text)
  }

  lemma PipelineIsNormal(text: string)
    ensures |Pipeline(text)| <= |text|
    ensures IsNormalText(Pipeline(text))
    ensures Trimmed(Pipeline(text))
  {
    var trimmed := Trim(FoldLetters(StripMarks(text)));
    FoldedTrimNormal(StripMarks(text));
    LowerKeepsTrimmed(trimmed);
  }

  /** Folding text without marks, then trimming it, leaves only characters that lower-case to normal ones. */
  lemma FoldedTrimNormal(stripped: string)
    requires forall k :: 0 <= k < |stripped| ==> !IsTashkeel(stripped[k]) && !IsTatweel(stripped[k])
    ensures forall i :: 0 <= i < |Trim(FoldLetters(stripped))| ==> IsNormalChar(LowerChar(Trim(FoldLetters(stripped))[i]))
  {
    var folded := FoldLetters(stripped);
    var lead, core, tail := TrimSplit(folded);
    forall i | 0 <= i < |core| ensures IsNormalChar(LowerChar(core[i])) {
      assert core[i] == folded[|lead| + i];
      FoldedCharIsNormal(stripped[|lead| + i]);
    }
  }

  lemma FoldedCharIsNormal(c: char)
    requires !IsTashkeel(c) && !IsTatweel(c)
    ensures IsNormalChar(LowerChar(FoldChar(c)))
  {
  }

  lemma LowerKeepsTrimmed(s: string)
    requires Trimmed(s)
    ensures Trimmed(ToLower(s))
  {
    if s != [] {
      assert ToLower(s)[0] == LowerChar(s[0]);
      assert ToLower(s)[|s| - 1] == LowerChar(s[|s| - 1]);
    }
  }

  /** The guard `if (!text) return ""` agrees with the pipeline on the empty string. */
  lemma NormalizePipeline(text: string)
    ensures Normalize(text) == Pipeline(text)
  {
    if text == "" {
      assert StripMarks(text) == [];
      assert Trim([]) == [] by { TrimOfTrimmed([]); }
    }
  }

  // ------------------------------------------------------------ idempotence

  lemma {:induction false} RemoveNothing(s: string, drop: char -> bool)
    requires forall i :: 0 <= i < |s| ==> !drop(s[i])
    ensures RemoveWhere(s, drop) == s
  {
    if s != [] {
      RemoveNothing(s[1..], drop);
    }
  }

  lemma {:induction false} RemoveConcat(a: string, b: string, drop: char -> bool)
    ensures RemoveWhere(a + b, drop) == RemoveWhere(a, drop) + RemoveWhere(b, drop)
  {
    if a != [] {
      var c, t := a[0], a[1..];
      var kept := if drop(c) then [] else [c];
      assert a == [c] + t;
      assert a + b == [c] + (t + b);
      RemoveCons(c, t, drop);
      RemoveCons(c, t + b, drop);
      RemoveConcat(t, b, drop);
      assert kept + (RemoveWhere(t, drop) + RemoveWhere(b, drop))
          == (kept + RemoveWhere(t, drop)) + RemoveWhere(b, drop);
    } else {
      assert a + b == b;
    }
  }

  /** Deleting from a text that starts with `c` keeps `c` unless it is dropped, then deletes from the rest. */
  lemma RemoveCons(c: char, t: string, drop: char -> bool)
    ensures RemoveWhere([c] + t, drop) == (if drop(c) then [] else [c]) + RemoveWhere(t, drop)
  {
    assert ([c] + t)[0] == c;
    assert ([c] + t)[1..] == t;
  }

  lemma StripMarksConcat(a: string, b: string)
    ensures StripMarks(a + b) == StripMarks(a) + StripMarks(b)
  {
    RemoveConcat(a, b, IsTashkeel);
    RemoveConcat(RemoveWhere(a, IsTashkeel), RemoveWhere(b, IsTashkeel), IsTatweel);
  }

  lemma FoldLettersConcat(a: string, b: string)
    ensures FoldLetters(a + b) == FoldLetters(a) + FoldLetters(b)
  {
    var l, r := FoldLetters(a + b), FoldLetters(a) + FoldLetters(b);
    forall i | 0 <= i < |l| ensures l[i] == r[i] {
      if i < |a| { assert (a + b)[i] == a[i]; } else { assert (a + b)[i] == b[i - |a|]; }
    }
  }

  /** Normalised text is left unchanged by normalisation. */
  lemma NormalizeFixesNormalText(s: string)
    requires IsNormalText(s) && Trimmed(s)
    ensures Normalize(s) == s
  {
    if s != [] {
      RemoveNothing(s, IsTashkeel);
      RemoveNothing(s, IsTatweel);
      assert StripMarks(s) == s;
      assert FoldLetters(s) == s;
      TrimOfTrimmed(s);
      assert ToLower(s) == s;
    }
  }

  /** `normalizeArabicText` is idempotent. */
  lemma NormalizeIdempotent(text: string)
    ensures Normalize(Normalize(text)) == Normalize(text)
  {
    NormalizeFixesNormalText(Normalize(text));
  }

  // ---------------------------------------------- what normalisation ignores

  /** A diacritic anywhere in the text makes no difference to its normal form. */
  lemma NormalizeIgnoresTashkeel(a: string, m: char, b: string)
    requires IsTashkeel(m)
    ensures Normalize(a + [m] + b) == Normalize(a + b)
  {
    DeletedCharIgnored(a, [m], b);
  }

  /** So does a tatweel. */
  lemma NormalizeIgnoresTatweel(a: string, b: string)
    ensures Normalize(a + [Tatweel] + b) == Normalize(a + b)
  {
    DeletedCharIgnored(a, [Tatweel], b);
  }

  lemma DeletedCharIgnored(a: string, m: string, b: string)
    requires StripMarks(m) == []
    ensures Normalize(a + m + b) == Normalize(a + b)
  {
    StripMarksConcat(a + m, b);
    StripMarksConcat(a, m);
    StripMarksConcat(a, b);
    assert StripMarks(a + m) == StripMarks(a);
    assert StripMarks(a + m + b) == StripMarks(a + b);
    NormalizePipeline(a + m + b);
    NormalizePipeline(a + b);
  }

  /** White space passes through the deletions and the foldings unchanged. */
  lemma SpacesPassThrough(l: string)
    requires AllSpaces(l)
    ensures StripMarks(l) == l && FoldLetters(l) == l
  {
    RemoveNothing(l, IsTashkeel);
    RemoveNothing(l, IsTatweel);
  }

  /** The deletions and foldings distribute over a split of the text into three parts. */
  lemma FoldStripConcat3(a: string, b: string, c: string)
    ensures FoldLetters(StripMarks(a + b + c))
         == FoldLetters(StripMarks(a)) + FoldLetters(StripMarks(b)) + FoldLetters(StripMarks(c))
  {
    StripMarksConcat(a + b, c);
    StripMarksConcat(a, b);
    FoldLettersConcat(StripMarks(a) + StripMarks(b), StripMarks(c));
    FoldLettersConcat(StripMarks(a), StripMarks(b));
  }

  /** Trimming before normalising changes nothing: normalisation trims anyway. */
  lemma NormalizeAbsorbsTrim(x: string)
    ensures Normalize(Trim(x)) == Normalize(x)
  {
    var lo := ContentStart(x);
    var hi := ContentEnd(x, lo);
    var lead, core, tail := x[..lo], x[lo..hi], x[hi..];
    assert x == lead + core + tail;
    assert Trim(x) == core;
    SpacesPassThrough(lead);
    SpacesPassThrough(tail);
    FoldStripConcat3(lead, core, tail);
    TrimIgnoresPadding(lead, FoldLetters(StripMarks(core)), tail);
    NormalizePipeline(x);
    NormalizePipeline(core);
  }

  // --------------------------------------------------- words in normal text

  /** A word holding a character normalisation removes can never be found in normalised text. */
  lemma NormalTextExcludes(s: string, w: string, k: nat)
    requires IsNormalText(s) && k < |w| && !IsNormalChar(w[k])
    ensures !Contains(s, w)
  {
    if Contains(s, w) {
      var i :| 0 <= i <= |s| && OccursAt(s, w, i);
      OccurrenceChars(s, w, i, k);
      assert false;
    }
  }

  /**
   * A phrase without diacritics or tatweel that starts and ends with a
   * visible character survives normalisation in its folded, lower-cased form.
   */
  lemma NormalizeKeepsPhrase(q: string, w: string)
    requires Contains(q, w)
    requires w != [] && !IsSpace(w[0]) && !IsSpace(w[|w| - 1])
    requires forall k :: 0 <= k < |w| ==> !IsTashkeel(w[k]) && !IsTatweel(w[k])
    ensures Contains(Normalize(q), ToLower(FoldLetters(w)))
  {
    var j := FoldedOccurrence(q, w);
    TrimKeepsOccurrence(FoldLetters(StripMarks(q)), FoldLetters(w), j);
    LowerKeepsOccurrence(Trim(FoldLetters(StripMarks(q))), FoldLetters(w));
    NormalizePipeline(q);
  }

  /** Before trimming, the phrase is found folded where it stood in the query, after the marks before it are dropped. */
  lemma FoldedOccurrence(q: string, w: string) returns (j: nat)
    requires Contains(q, w)
    requires forall k :: 0 <= k < |w| ==> !IsTashkeel(w[k]) && !IsTatweel(w[k])
    ensures OccursAt(FoldLetters(StripMarks(q)), FoldLetters(w), j)
  {
    var i :| 0 <= i <= |q| && OccursAt(q, w, i);
    var a, b := q[..i], q[i + |w|..];
    assert q == a + w + b;
    RemoveNothing(w, IsTashkeel);
    RemoveNothing(w, IsTatweel);
    FoldStripConcat3(a, w, b);
    var fa, fw := FoldLetters(StripMarks(a)), FoldLetters(w);
    var folded := FoldLetters(StripMarks(q));
    assert folded == fa + fw + FoldLetters(StripMarks(b));
    j := |fa|;
  }

  lemma LowerKeepsOccurrence(t: string, w: string)
    requires Contains(t, w)
    ensures Contains(ToLower(t), ToLower(w))
  {
    var j :| 0 <= j <= |t| && OccursAt(t, w, j);
    assert ToLower(t)[j..j + |w|] == ToLower(w);
    assert OccursAt(ToLower(t), ToLower(w), j);
  }

  // ------------------------------------------------------------- numerals

  /** The Extended Arabic-Indic digit for an ASCII digit; every other character is kept. */
  function IndianDigit(c: char): char {
    if IsDigit(c) then ('\U{06F0}' as int + DigitValue(c)) as char else c
  }

  predicate IsIndianDigit(c: char) {
    '\U{06F0}' <= c <= '\U{06F9}'
  }

  /** The inverse mapping, from Extended Arabic-Indic digits back to ASCII. */
  function AsciiDigit(c: char): char {
    if IsIndianDigit(c) then ('0' as int + (c as int - '\U{06F0}' as int)) as char else c
  }

  /** What `arabicToIndianNumerals` is called with. */
  datatype NumeralInput = Text(s: string) | Number(n: int) | OtherValue

  /** `arabicToIndianNumerals`: strings and numbers are printed in Extended Arabic-Indic digits, anything else gives "". */
  function ToIndianNumerals(v: NumeralInput): (r: string)
    ensures v.Text? ==> |r| == |v.s|
    ensures forall i :: 0 <= i < |r| ==> !IsDigit(r[i])
  {
    match v
    case Text(s) => MapChars(s, IndianDigit)
    case Number(n) => MapChars(IntToDecimal(n), IndianDigit)
    case OtherValue => ""
  }

  /** Converting digits and converting them back restores any text that held no Extended Arabic-Indic digit. */
  lemma IndianNumeralsRoundTrip(s: string)
    requires forall i :: 0 <= i < |s| ==> !IsIndianDigit(s[i])
    ensures MapChars(ToIndianNumerals(Text(s)), AsciiDigit) == s
  {
  }

  /** Only ASCII digits change; every other character keeps its place. */
  lemma IndianNumeralsKeepOthers(s: string, i: nat)
    requires i < |s| && !IsDigit(s[i])
    ensures ToIndianNumerals(Text(s))[i] == s[i]
  {
  }

  /** Converting twice is converting once. */
  lemma IndianNumeralsIdempotent(s: string)
    ensures ToIndianNumerals(Text(ToIndianNumerals(Text(s)))) == ToIndianNumerals(Text(s))
  {
  }

  /** A number is shown with exactly as many digits as `String(n)` has. */
  lemma IndianNumeralsOfNumber(n: nat)
    ensures ToIndianNumerals(Number(n)) == ToIndianNumerals(Text(NatToDecimal(n)))
    ensures forall i :: 0 <= i < |ToIndianNumerals(Number(n))| ==> IsIndianDigit(ToIndianNumerals(Number(n))[i])
  {
  }
}
