/**
 * The few JavaScript string primitives the query engine is built from:
 * the white-space class shared by `\s` and `String.prototype.trim`,
 * `trim`, `includes`, `startsWith`, ASCII digits, `parseInt` and `String(n)`.
 */
module JsText {
  import opened Wrappers

  /** The characters JavaScript's `\s` matches and `trim` removes. */
  predicate IsSpace(c: char) {
    || c == '\t' || c == '\n' || c == '\U{000B}' || c == '\U{000C}' || c == '\r'
    || c == ' ' || c == '\U{00A0}' || c == '\U{1680}' || ('\U{2000}' <= c <= '\U{200A}')
    || c == '\U{2028}' || c == '\U{2029}' || c == '\U{202F}' || c == '\U{205F}'
    || c == '\U{3000}' || c == '\U{FEFF}'
  }

  /** The characters a regular-expression `.` does not match. */
  predicate IsLineTerminator(c: char) {
    c == '\n' || c == '\r' || c == '\U{2028}' || c == '\U{2029}'
  }

  /** `\d`: ASCII digits only. */
  predicate IsDigit(c: char) {
    '0' <= c <= '9'
  }

  predicate AllSpaces(s: string) {
    forall i :: 0 <= i < |s| ==> IsSpace(s[i])
  }

  predicate AllDigits(s: string) {
    forall i :: 0 <= i < |s| ==> IsDigit(s[i])
  }

  /** No white space at either end: what `trim` leaves. */
  predicate Trimmed(s: string) {
    s == [] || (!IsSpace(s[0]) && !IsSpace(s[|s| - 1]))
  }

  // ---------------------------------------------------------------- trim

  /** Index of the first character that is not white space (|s| if none). */
  function ContentStart(s: string): (i: nat)
    ensures i <= |s|
    ensures forall k :: 0 <= k < i ==> IsSpace(s[k])
    ensures i < |s| ==> !IsSpace(s[i])
  {
    if s == [] || !IsSpace(s[0]) then 0 else 1 + ContentStart(s[1..])
  }

  /** One past the last character at or after `lo` that is not white space (`lo` if none). */
  function ContentEnd(s: string, lo: nat): (j: nat)
    requires lo <= |s|
    ensures lo <= j <= |s|
    ensures forall k :: j <= k < |s| ==> IsSpace(s[k])
    ensures lo < j ==> !IsSpace(s[j - 1])
    decreases |s|
  {
    if |s| == lo || !IsSpace(s[|s| - 1]) then |s| else ContentEnd(s[..|s| - 1], lo)
  }

  /** `String.prototype.trim`. */
  function Trim(s: string): (r: string)
    ensures Trimmed(r)
    ensures |r| <= |s|
  {
    var i := ContentStart(s);
    s[i..ContentEnd(s, i)]
  }

  /** `trim` removes exactly the white space around a trimmed core. */
  lemma TrimPadded(l: string, m: string, r: string)
    requires AllSpaces(l) && AllSpaces(r) && Trimmed(m)
    ensures Trim(l + m + r) == m
  {
    var s := l + m + r;
    var i := ContentStart(s);
    var j := ContentEnd(s, i);
    if m == [] {
      assert AllSpaces(s) by {
        forall k | 0 <= k < |s| ensures IsSpace(s[k]) {
          if k < |l| { assert s[k] == l[k]; } else { assert s[k] == r[k - |l|]; }
        }
      }
      assert i == |s|;
    } else {
      assert !IsSpace(s[|l|]) by { assert s[|l|] == m[0]; }
      assert forall k :: 0 <= k < |l| ==> IsSpace(s[k]) by {
        forall k | 0 <= k < |l| ensures IsSpace(s[k]) { assert s[k] == l[k]; }
      }
      assert i == |l|;
      assert !IsSpace(s[|l| + |m| - 1]) by { assert s[|l| + |m| - 1] == m[|m| - 1]; }
      assert forall k :: |l| + |m| <= k < |s| ==> IsSpace(s[k]) by {
        forall k | |l| + |m| <= k < |s| ensures IsSpace(s[k]) { assert s[k] == r[k - |l| - |m|]; }
      }
      assert j == |l| + |m|;
      assert s[i..j] == m;
    }
  }

  /** `trim` ignores white space added around its argument. */
  lemma TrimIgnoresPadding(l: string, x: string, r: string)
    requires AllSpaces(l) && AllSpaces(r)
    ensures Trim(l + x + r) == Trim(x)
  {
    var lead, core, tail := TrimSplit(x);
    SpacesConcat(l, lead);
    SpacesConcat(tail, r);
    Regroup(l, lead, core, tail, r);
    TrimPadded(l + lead, core, tail + r);
  }

  /** Every string is its trim with white space around it. */
  lemma TrimSplit(x: string) returns (lead: string, core: string, tail: string)
    ensures x == lead + core + tail && core == Trim(x)
    ensures AllSpaces(lead) && AllSpaces(tail) && Trimmed(core)
  {
    var i := ContentStart(x);
    var j := ContentEnd(x, i);
    lead, core, tail := x[..i], x[i..j], x[j..];
    assert x == lead + core + tail;
  }

  lemma Regroup(l: string, lead: string, core: string, tail: string, r: string)
    ensures l + (lead + core + tail) + r == (l + lead) + core + (tail + r)
  {
  }

  lemma SpacesConcat(a: string, b: string)
    requires AllSpaces(a) && AllSpaces(b)
    ensures AllSpaces(a + b)
  {
    forall k | 0 <= k < |a + b| ensures IsSpace((a + b)[k]) {
      if k < |a| { assert (a + b)[k] == a[k]; } else { assert (a + b)[k] == b[k - |a|]; }
    }
  }

  /** A trimmed string is its own trim. */
  lemma TrimOfTrimmed(s: string)
    requires Trimmed(s)
    ensures Trim(s) == s
  {
    TrimPadded([], s, []);
    assert [] + s + [] == s;
  }

  // ------------------------------------------------- searching in strings

  /** `w` occurs in `s` starting at index `i`. */
  predicate OccursAt(s: string, w: string, i: nat) {
    i + |w| <= |s| && s[i..i + |w|] == w
  }

  /** `String.prototype.includes`. */
  predicate Contains(s: string, w: string) {
    exists i :: 0 <= i <= |s| && OccursAt(s, w, i)
  }

  /** `String.prototype.startsWith`, also the anchored `^w` of a regular expression. */
  predicate StartsWith(s: string, w: string) {
    OccursAt(s, w, 0)
  }

  /** Every character of an occurrence is a character of the text. */
  lemma OccurrenceChars(s: string, w: string, i: nat, k: nat)
    requires OccursAt(s, w, i) && k < |w|
    ensures s[i + k] == w[k]
  {
    assert s[i..i + |w|][k] == w[k];
  }

  /** `trim` never cuts into an occurrence that starts and ends with a visible character. */
  lemma TrimKeepsOccurrence(s: string, w: string, i: nat)
    requires OccursAt(s, w, i) && w != [] && !IsSpace(w[0]) && !IsSpace(w[|w| - 1])
    ensures Contains(Trim(s), w)
  {
    var lo := ContentStart(s);
    var hi := ContentEnd(s, lo);
    OccurrenceChars(s, w, i, 0);
    OccurrenceChars(s, w, i, |w| - 1);
    assert lo <= i;
    assert i + |w| <= hi;
    assert Trim(s)[i - lo..i - lo + |w|] == s[i..i + |w|];
    assert OccursAt(Trim(s), w, i - lo);
  }

  // ---------------------------------------------------- scanning helpers

  /** `\s*` from index `i`: the first index at or after `i` that is not white space. */
  function SkipSpaces(s: string, i: nat): (j: nat)
    requires i <= |s|
    ensures i <= j <= |s|
    ensures forall k :: i <= k < j ==> IsSpace(s[k])
    ensures j < |s| ==> !IsSpace(s[j])
    decreases |s| - i
  {
    if i < |s| && IsSpace(s[i]) then SkipSpaces(s, i + 1) else i
  }

  /** `\d*` from index `i`: one past the digit run that starts at `i`. */
  function DigitEnd(s: string, i: nat): (j: nat)
    requires i <= |s|
    ensures i <= j <= |s|
    ensures forall k :: i <= k < j ==> IsDigit(s[k])
    ensures j < |s| ==> !IsDigit(s[j])
    decreases |s| - i
  {
    if i < |s| && IsDigit(s[i]) then DigitEnd(s, i + 1) else i
  }

  /** Index of the first line terminator at or after `i` (|s| if none). */
  function LineEnd(s: string, i: nat): (j: nat)
    requires i <= |s|
    ensures i <= j <= |s|
    ensures forall k :: i <= k < j ==> !IsLineTerminator(s[k])
    ensures j < |s| ==> IsLineTerminator(s[j])
    decreases |s| - i
  {
    if i < |s| && !IsLineTerminator(s[i]) then LineEnd(s, i + 1) else i
  }

  // ------------------------------------------------------------ numbers

  function DigitValue(c: char): nat
    requires IsDigit(c)
  {
    c as int - '0' as int
  }

  function DigitChar(d: nat): (c: char)
    requires d < 10
    ensures IsDigit(c) && DigitValue(c) == d
  {
    ('0' as int + d) as char
  }

  /** The decimal value of a run of ASCII digits (leading zeros allowed). */
  function DigitsValue(s: string): nat
    requires AllDigits(s)
  {
    if s == [] then 0 else DigitsValue(s[..|s| - 1]) * 10 + DigitValue(s[|s| - 1])
  }

  /** `String(n)` for a non-negative integer: decimal, no leading zero. */
  function NatToDecimal(n: nat): (r: string)
    ensures r != [] && AllDigits(r)
    ensures r[0] == '0' ==> n == 0
    ensures n < 10 <==> |r| == 1
    ensures DigitsValue(r) == n
  {
    if n < 10 then [DigitChar(n)]
    else
      var front := NatToDecimal(n / 10);
      var r := front + [DigitChar(n % 10)];
      assert r[..|r| - 1] == front;
      r
  }

  /** `String(i)` for any integer. */
  function IntToDecimal(i: int): (r: string)
    ensures r != []
    ensures i >= 0 ==> r == NatToDecimal(i)
    ensures i < 0 ==> r[0] == '-'
  {
    if i < 0 then "-" + NatToDecimal(-i) else NatToDecimal(i)
  }

  /** `String(n)` is one-to-one: two numbers print alike only if they are equal. */
  lemma NatToDecimalInjective(m: nat, n: nat)
    requires NatToDecimal(m) == NatToDecimal(n)
    ensures m == n
  {
  }

  /**
   * `parseInt(s)` with the default radix: leading white space, an optional
   * sign, then the longest run of decimal digits; `None` stands for NaN.
   */
  function ParseInt(s: string): (r: Option<int>)
    ensures r.Some? ==> exists k :: 0 <= k < |s| && IsDigit(s[k])
  {
    var i := SkipSpaces(s, 0);
    var signed := i < |s| && (s[i] == '-' || s[i] == '+');
    var j := if signed then i + 1 else i;
    var e := DigitEnd(s, j);
    if e == j then None
    else
      var v: int := DigitsValue(s[j..e]);
      Some(if signed && s[i] == '-' then -v else v)
  }

  /** `parseInt` of a bare run of digits is the run's decimal value. */
  lemma ParseIntOfDigits(s: string)
    requires s != [] && AllDigits(s)
    ensures ParseInt(s) == Some(DigitsValue(s))
  {
    assert SkipSpaces(s, 0) == 0;
    assert DigitEnd(s, 0) == |s| by {
      DigitEndOfDigits(s, 0);
    }
    assert s[0..|s|] == s;
  }

  /** Printing a number and parsing it back gives the number. */
  lemma ParseIntOfDecimal(n: nat)
    ensures ParseInt(NatToDecimal(n)) == Some(n)
  {
    ParseIntOfDigits(NatToDecimal(n));
  }

  /** A digit run is worth at least its leading digit. */
  lemma {:induction false} DigitsValueAtLeastLead(s: string)
    requires s != [] && AllDigits(s)
    ensures DigitsValue(s) >= DigitValue(s[0])
  {
    if |s| > 1 {
      var front := s[..|s| - 1];
      DigitsValueAtLeastLead(front);
      assert front[0] == s[0];
    }
  }

  /** A digit run without a leading zero is exactly how `String` prints its value. */
  lemma {:induction false} DecimalOfDigits(s: string)
    requires s != [] && AllDigits(s) && s[0] != '0'
    ensures NatToDecimal(DigitsValue(s)) == s
  {
    if |s| > 1 {
      var front := s[..|s| - 1];
      assert front[0] == s[0];
      DigitsValueAtLeastLead(front);
      DecimalOfDigits(front);
      var v := DigitsValue(s);
      assert v / 10 == DigitsValue(front) && v % 10 == DigitValue(s[|s| - 1]);
      assert s == front + [s[|s| - 1]];
    }
  }

  lemma {:induction false} DigitEndOfDigits(s: string, i: nat)
    requires i <= |s| && AllDigits(s)
    ensures DigitEnd(s, i) == |s|
    decreases |s| - i
  {
    if i < |s| {
      DigitEndOfDigits(s, i + 1);
    }
  }

  // ------------------------------------------------------------ case

  /** `toLowerCase` restricted to ASCII letters; every other character is kept. */
  function LowerChar(c: char): char {
    if 'A' <= c <= 'Z' then (c as int + 32) as char else c
  }

  function ToLower(s: string): (r: string)
    ensures |r| == |s|
    ensures forall i :: 0 <= i < |s| ==> r[i] == LowerChar(s[i])
    // no ASCII capital survives
    ensures forall i :: 0 <= i < |r| ==> !('A' <= r[i] <= 'Z')
    // a capital becomes its small letter, 32 code points on
    ensures forall i :: 0 <= i < |s| && 'A' <= s[i] <= 'Z' ==> 'a' <= r[i] <= 'z' && r[i] as int == s[i] as int + 32
    // every other character is kept
    ensures forall i :: 0 <= i < |s| && !('A' <= s[i] <= 'Z') ==> r[i] == s[i]
  {
    seq(|s|, i requires 0 <= i < |s| => LowerChar(s[i]))
  }

  /** Lower-casing lower-cased text changes nothing. */
  lemma ToLowerIdempotent(s: string)
    ensures ToLower(ToLower(s)) == ToLower(s)
  {
    var t := ToLower(s);
    assert forall i :: 0 <= i < |t| ==> ToLower(t)[i] == t[i];
  }

  /** `slice(0, n)` and `substring(0, n)`: the first `n` elements, or all of them. */
  function Take<T>(s: seq<T>, n: nat): (r: seq<T>)
    ensures |r| == if |s| <= n then |s| else n
    ensures r == s[..|r|]
  {
    if |s| <= n then s else s[..n]
  }
}
