/**
 * The step arithmetic of `navigateZenAyah` (js/main.js:684-699): from the
 * verse shown in zen mode, move one verse forward or back, crossing into
 * the next or previous surah at the ends, and from surah 114 round to 1
 * and back.
 */
module Zen {
  import opened Wrappers
  import opened JsText
  import opened Corpus

  /** The verse zen mode shows: `currentZenModeSurahIndex` and `currentZenModeAyahNumber`. */
  datatype ZenPosition = ZenPosition(surahIndex: string, ayahNumber: int)

  /**
   * What a step does: nothing when zen mode shows no verse yet, a failure
   * where the source reads `verses` of a surah it did not find (a
   * TypeError), or the verse it asks `fetchAndDisplayZenAyah` to show.
   */
  datatype ZenStepResult = NoStep | Failed | Show(target: ZenPosition)

  /** `String(x)` of a number that may be NaN. */
  function NumberText(x: Option<int>): (r: string)
    ensures x.None? ==> r == "NaN"
    ensures x.Some? && x.value >= 0 ==> ParseInt(r) == x
  {
    match x
    case None => "NaN"
    case Some(n) =>
      if n >= 0 then ParseIntOfDecimal(n); IntToDecimal(n)
      else IntToDecimal(n)
  }

  lemma NumberTextOfNat(k: nat)
    ensures NumberText(Some(k)) == NatToDecimal(k)
  {
  }

  /** The surah before `n`, with surah 1 preceded by 114; NaN stays NaN. */
  function PreviousSurah(n: Option<int>): Option<int> {
    match n
    case None => None
    case Some(k) => Some(if k == 1 then 114 else k - 1)
  }

  /** The surah after `n`, with surah 114 followed by 1; NaN stays NaN. */
  function NextSurah(n: Option<int>): Option<int> {
    match n
    case None => None
    case Some(k) => Some(if k == 114 then 1 else k + 1)
  }

  /** `navigateZenAyah(direction)`. */
  function ZenStep(table: seq<SurahMeta>, current: Option<ZenPosition>, direction: int): (r: ZenStepResult)
    ensures current.None? || current.value.surahIndex == "" ==> r == NoStep
    ensures r.Show? ==> r.target.ayahNumber >= 0
    // the TypeError: stepping back before verse 1 reads the previous surah, any other step the current one
    ensures r.Failed? <==>
      current.Some? && current.value.surahIndex != "" &&
      if current.value.ayahNumber + direction < 1
      then SurahByIndex(table, NumberText(PreviousSurah(ParseInt(current.value.surahIndex)))).None?
      else SurahByIndex(table, current.value.surahIndex).None?
  {
    if current.None? || current.value.surahIndex == "" then NoStep
    else
      var cur := current.value;
      var newAyah := cur.ayahNumber + direction;
      if newAyah < 1 then
        var newIndex := NumberText(PreviousSurah(ParseInt(cur.surahIndex)));
        match SurahByIndex(table, newIndex)
        case None => Failed
        case Some(meta) => Show(ZenPosition(newIndex, meta.verses))
      else
        match SurahByIndex(table, cur.surahIndex)
        case None => Failed
        case Some(meta) =>
          if newAyah > meta.verses then Show(ZenPosition(NumberText(NextSurah(ParseInt(cur.surahIndex))), 1))
          else Show(ZenPosition(cur.surahIndex, newAyah))
  }

  /** A verse of the shipped table: surah `n` of 1..114 printed without padding, and a verse within it. */
  predicate ValidPosition(table: seq<SurahMeta>, p: ZenPosition) {
    exists n :: 1 <= n <= 114 && n <= |table| && p.surahIndex == NatToDecimal(n) && 1 <= p.ayahNumber <= table[n - 1].verses
  }

  /** The surah number of a valid position, read back from its index. */
  lemma PositionSurah(table: seq<SurahMeta>, p: ZenPosition, n: nat)
    requires ValidTable(table) && 1 <= n <= 114 && p.surahIndex == NatToDecimal(n)
    ensures ParseInt(p.surahIndex) == Some(n)
    ensures SurahByIndex(table, p.surahIndex) == Some(table[n - 1])
  {
    ParseIntOfDecimal(n);
    ValidTableLookup(table, n);
  }

  /** Within a surah, a step that stays inside its verses moves by one verse. */
  lemma ZenStepInside(table: seq<SurahMeta>, p: ZenPosition, meta: SurahMeta, direction: int)
    requires p.surahIndex != "" && SurahByIndex(table, p.surahIndex) == Some(meta)
    requires 1 <= p.ayahNumber + direction <= meta.verses
    ensures ZenStep(table, Some(p), direction) == Show(ZenPosition(p.surahIndex, p.ayahNumber + direction))
  {
  }

  /** Stepping back from verse 1 goes to the last verse of the surah numbered before it. */
  lemma ZenStepBack(table: seq<SurahMeta>, p: ZenPosition, n: int, prev: nat, meta: SurahMeta)
    requires p.surahIndex != "" && ParseInt(p.surahIndex) == Some(n) && p.ayahNumber == 1
    requires prev == (if n == 1 then 114 else n - 1)
    requires SurahByIndex(table, NatToDecimal(prev)) == Some(meta)
    ensures ZenStep(table, Some(p), -1) == Show(ZenPosition(NatToDecimal(prev), meta.verses))
  {
    NumberTextOfNat(prev);
  }

  /** Stepping past the last verse goes to verse 1 of the surah numbered after it. */
  lemma ZenStepForward(table: seq<SurahMeta>, p: ZenPosition, n: int, next: nat, meta: SurahMeta)
    requires p.surahIndex != "" && ParseInt(p.surahIndex) == Some(n)
    requires SurahByIndex(table, p.surahIndex) == Some(meta) && p.ayahNumber == meta.verses
    requires next == (if n == 114 then 1 else n + 1)
    ensures ZenStep(table, Some(p), 1) == Show(ZenPosition(NatToDecimal(next), 1))
  {
    NumberTextOfNat(next);
  }

  /** In the shipped table, stepping back from verse 1 of surah `n` goes to the last verse of the previous surah, 114 before 1. */
  lemma ZenStepBackAcross(table: seq<SurahMeta>, p: ZenPosition, n: nat)
    requires ValidTable(table) && 1 <= n <= 114 && p.surahIndex == NatToDecimal(n) && p.ayahNumber == 1
    ensures var prev := if n == 1 then 114 else n - 1;
      ZenStep(table, Some(p), -1) == Show(ZenPosition(NatToDecimal(prev), table[prev - 1].verses))
  {
    var prev := if n == 1 then 114 else n - 1;
    PositionSurah(table, p, n);
    ValidTableLookup(table, prev);
    ZenStepBack(table, p, n, prev, table[prev - 1]);
  }

  /** In the shipped table, stepping past the last verse of surah `n` goes to verse 1 of the next surah, 1 after 114. */
  lemma ZenStepForwardAcross(table: seq<SurahMeta>, p: ZenPosition, n: nat)
    requires ValidTable(table) && 1 <= n <= 114 && p.surahIndex == NatToDecimal(n) && p.ayahNumber == table[n - 1].verses
    ensures var next := if n == 114 then 1 else n + 1;
      ZenStep(table, Some(p), 1) == Show(ZenPosition(NatToDecimal(next), 1))
  {
    var next := if n == 114 then 1 else n + 1;
    PositionSurah(table, p, n);
    ZenStepForward(table, p, n, next, table[n - 1]);
  }

  /** In the shipped table, a step that stays inside surah `n` moves by one verse. */
  lemma ZenStepWithin(table: seq<SurahMeta>, p: ZenPosition, n: nat, direction: int)
    requires ValidTable(table) && 1 <= n <= 114 && p.surahIndex == NatToDecimal(n)
    requires 1 <= p.ayahNumber + direction <= table[n - 1].verses
    ensures ZenStep(table, Some(p), direction) == Show(ZenPosition(p.surahIndex, p.ayahNumber + direction))
  {
    PositionSurah(table, p, n);
    ZenStepInside(table, p, table[n - 1], direction);
  }

  /** From a valid verse, one step either way lands on a valid verse. */
  lemma ZenStepStaysValid(table: seq<SurahMeta>, p: ZenPosition, direction: int)
    requires ValidTable(table) && ValidPosition(table, p) && (direction == 1 || direction == -1)
    ensures ZenStep(table, Some(p), direction).Show?
    ensures ValidPosition(table, ZenStep(table, Some(p), direction).target)
  {
    var n :| 1 <= n <= 114 && n <= |table| && p.surahIndex == NatToDecimal(n) && 1 <= p.ayahNumber <= table[n - 1].verses;
    if 1 <= p.ayahNumber + direction <= table[n - 1].verses {
      StepWithinValid(table, p, n, direction);
    } else if direction == -1 {
      StepBackValid(table, p, n);
    } else {
      StepForwardValid(table, p, n);
    }
  }

  lemma StepWithinValid(table: seq<SurahMeta>, p: ZenPosition, n: nat, direction: int)
    requires ValidTable(table) && 1 <= n <= 114 && p.surahIndex == NatToDecimal(n)
    requires 1 <= p.ayahNumber + direction <= table[n - 1].verses
    ensures ZenStep(table, Some(p), direction).Show?
    ensures ValidPosition(table, ZenStep(table, Some(p), direction).target)
  {
    ZenStepWithin(table, p, n, direction);
    ValidAt(table, n, p.ayahNumber + direction);
  }

  lemma StepBackValid(table: seq<SurahMeta>, p: ZenPosition, n: nat)
    requires ValidTable(table) && 1 <= n <= 114 && p.surahIndex == NatToDecimal(n) && p.ayahNumber == 1
    ensures ZenStep(table, Some(p), -1).Show?
    ensures ValidPosition(table, ZenStep(table, Some(p), -1).target)
  {
    var prev := if n == 1 then 114 else n - 1;
    ZenStepBackAcross(table, p, n);
    ValidTableLookup(table, prev);
    ValidAt(table, prev, table[prev - 1].verses);
  }

  lemma StepForwardValid(table: seq<SurahMeta>, p: ZenPosition, n: nat)
    requires ValidTable(table) && 1 <= n <= 114 && p.surahIndex == NatToDecimal(n) && p.ayahNumber == table[n - 1].verses
    ensures ZenStep(table, Some(p), 1).Show?
    ensures ValidPosition(table, ZenStep(table, Some(p), 1).target)
  {
    var next := if n == 114 then 1 else n + 1;
    ZenStepForwardAcross(table, p, n);
    ValidTableLookup(table, next);
    ValidAt(table, next, 1);
  }

  /** Verse `a` of surah `n` is a valid position when it lies within the surah. */
  lemma ValidAt(table: seq<SurahMeta>, n: nat, a: int)
    requires 1 <= n <= 114 && n <= |table| && 1 <= a <= table[n - 1].verses
    ensures ValidPosition(table, ZenPosition(NatToDecimal(n), a))
  {
  }

  /** Stepping back from verse 1 of surah 1 wraps to the last verse of surah 114. */
  lemma ZenBackFromFirstVerse(table: seq<SurahMeta>)
    requires ValidTable(table)
    ensures ZenStep(table, Some(ZenPosition(NatToDecimal(1), 1)), -1)
      == Show(ZenPosition(NatToDecimal(114), table[113].verses))
  {
    ZenStepBackAcross(table, ZenPosition(NatToDecimal(1), 1), 1);
  }

  /** Stepping past the last verse of surah 114 wraps to verse 1 of surah 1. */
  lemma ZenForwardFromLastVerse(table: seq<SurahMeta>)
    requires ValidTable(table)
    ensures ZenStep(table, Some(ZenPosition(NatToDecimal(114), table[113].verses)), 1)
      == Show(ZenPosition(NatToDecimal(1), 1))
  {
    ZenStepForwardAcross(table, ZenPosition(NatToDecimal(114), table[113].verses), 114);
  }

  /** One step forward and one step back return to the same verse. */
  lemma ZenForwardThenBack(table: seq<SurahMeta>, p: ZenPosition)
    requires ValidTable(table) && ValidPosition(table, p)
    ensures ZenStep(table, Some(p), 1).Show?
    ensures ZenStep(table, Some(ZenStep(table, Some(p), 1).target), -1) == Show(p)
  {
    var n :| 1 <= n <= 114 && n <= |table| && p.surahIndex == NatToDecimal(n) && 1 <= p.ayahNumber <= table[n - 1].verses;
    if p.ayahNumber < table[n - 1].verses {
      ForwardThenBackWithin(table, p, n);
    } else {
      ForwardThenBackAcross(table, p, n);
    }
  }

  lemma ForwardThenBackWithin(table: seq<SurahMeta>, p: ZenPosition, n: nat)
    requires ValidTable(table) && 1 <= n <= 114 && p.surahIndex == NatToDecimal(n)
    requires 1 <= p.ayahNumber < table[n - 1].verses
    ensures ZenStep(table, Some(p), 1) == Show(ZenPosition(p.surahIndex, p.ayahNumber + 1))
    ensures ZenStep(table, Some(ZenPosition(p.surahIndex, p.ayahNumber + 1)), -1) == Show(p)
  {
    var q := ZenPosition(p.surahIndex, p.ayahNumber + 1);
    ZenStepWithin(table, p, n, 1);
    ZenStepWithin(table, q, n, -1);
    assert ZenPosition(q.surahIndex, q.ayahNumber - 1) == p;
  }

  lemma ForwardThenBackAcross(table: seq<SurahMeta>, p: ZenPosition, n: nat)
    requires ValidTable(table) && 1 <= n <= 114 && p.surahIndex == NatToDecimal(n)
    requires p.ayahNumber == table[n - 1].verses
    ensures ZenStep(table, Some(p), 1) == Show(ZenPosition(NatToDecimal(if n == 114 then 1 else n + 1), 1))
    ensures ZenStep(table, Some(ZenPosition(NatToDecimal(if n == 114 then 1 else n + 1), 1)), -1) == Show(p)
  {
    var next := if n == 114 then 1 else n + 1;
    ZenStepForwardAcross(table, p, n);
    ZenStepBackAcross(table, ZenPosition(NatToDecimal(next), 1), next);
    assert (if next == 1 then 114 else next - 1) == n;
    assert ZenPosition(NatToDecimal(n), table[n - 1].verses) == p;
  }

  /** One step back and one step forward return to the same verse. */
  lemma ZenBackThenForward(table: seq<SurahMeta>, p: ZenPosition)
    requires ValidTable(table) && ValidPosition(table, p)
    ensures ZenStep(table, Some(p), -1).Show?
    ensures ZenStep(table, Some(ZenStep(table, Some(p), -1).target), 1) == Show(p)
  {
    var n :| 1 <= n <= 114 && n <= |table| && p.surahIndex == NatToDecimal(n) && 1 <= p.ayahNumber <= table[n - 1].verses;
    if p.ayahNumber > 1 {
      BackThenForwardWithin(table, p, n);
    } else {
      BackThenForwardAcross(table, p, n);
    }
  }

  lemma BackThenForwardWithin(table: seq<SurahMeta>, p: ZenPosition, n: nat)
    requires ValidTable(table) && 1 <= n <= 114 && p.surahIndex == NatToDecimal(n)
    requires 1 < p.ayahNumber <= table[n - 1].verses
    ensures ZenStep(table, Some(p), -1) == Show(ZenPosition(p.surahIndex, p.ayahNumber - 1))
    ensures ZenStep(table, Some(ZenPosition(p.surahIndex, p.ayahNumber - 1)), 1) == Show(p)
  {
    var q := ZenPosition(p.surahIndex, p.ayahNumber - 1);
    ZenStepWithin(table, p, n, -1);
    ZenStepWithin(table, q, n, 1);
    assert ZenPosition(q.surahIndex, q.ayahNumber + 1) == p;
  }

  lemma BackThenForwardAcross(table: seq<SurahMeta>, p: ZenPosition, n: nat)
    requires ValidTable(table) && 1 <= n <= 114 && p.surahIndex == NatToDecimal(n) && p.ayahNumber == 1
    ensures var prev := if n == 1 then 114 else n - 1;
      ZenStep(table, Some(p), -1) == Show(ZenPosition(NatToDecimal(prev), table[prev - 1].verses))
    ensures var prev := if n == 1 then 114 else n - 1;
      ZenStep(table, Some(ZenPosition(NatToDecimal(prev), table[prev - 1].verses)), 1) == Show(p)
  {
    var prev := if n == 1 then 114 else n - 1;
    var q := ZenPosition(NatToDecimal(prev), table[prev - 1].verses);
    ZenStepBackAcross(table, p, n);
    ZenStepForwardAcross(table, q, prev);
    assert (if prev == 114 then 1 else prev + 1) == n;
    assert ZenPosition(NatToDecimal(n), 1) == p;
  }
}
