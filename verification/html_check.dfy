/**
 * `isHtml` of lib/utils.js: the input is markup when its first character
 * other than space, tab, CR or LF is `<`. The JavaScript function has three
 * outcomes, so the result is an `Option<bool>` whose `None` is `undefined`.
 */
module HtmlCheck {
  import opened Wrappers

  /** The characters the scan skips. */
  predicate IsBlank(c: char) {
    c == ' ' || c == '\t' || c == '\r' || c == '\n'
  }

  /** Every character of `text` in `[from, to)` is blank. */
  predicate BlankBetween(text: string, from: int, to: int) {
    forall j :: from <= j < to && 0 <= j < |text| ==> IsBlank(text[j])
  }

  /** `text[i]` is the first non-blank character at or after `from`. */
  predicate FirstVisibleFrom(text: string, from: int, i: int) {
    from <= i < |text| && 0 <= i && !IsBlank(text[i]) && BlankBetween(text, from, i)
  }

  /** JavaScript truthiness of the result: `false` and `undefined` are both falsy. */
  predicate Truthy(r: Option<bool>) {
    r == Some(true)
  }

  /** JavaScript's `text[idx]`: `undefined` past the end. */
  function CharAt(text: string, idx: nat): (s: Option<char>)
    ensures s.Some? <==> idx < |text|
    ensures s.Some? ==> s.value == text[idx]
  {
    if idx < |text| then Some(text[idx]) else None
  }

  /**
   * One pass of the do-while loop and the passes after it. The first pass
   * runs even on empty text, reading `undefined`, which is not blank.
   */
  function ScanFrom(text: string, idx: nat): Option<bool>
    requires idx == 0 || idx < |text|
    decreases |text| - idx
  {
    var s := CharAt(text, idx);
    if !(s.Some? && IsBlank(s.value)) then
      Some(s == Some('<'))
    else if idx + 1 < |text| then
      ScanFrom(text, idx + 1)
    else
      None
  }

  /**
   * What the scan from `idx` answers: `undefined` when only blanks remain,
   * otherwise whether the first non-blank character from `idx` on is `<`.
   */
  lemma {:induction false} ScanFromSpec(text: string, idx: nat)
    requires idx == 0 || idx < |text|
    ensures ScanFrom(text, idx) == None <==> |text| > 0 && BlankBetween(text, idx, |text|)
    ensures ScanFrom(text, idx) == Some(true) <==>
      exists i :: FirstVisibleFrom(text, idx, i) && text[i] == '<'
    ensures ScanFrom(text, idx) == Some(false) <==>
      |text| == 0 || exists i :: FirstVisibleFrom(text, idx, i) && text[i] != '<'
    decreases |text| - idx
  {
    if idx < |text| && IsBlank(text[idx]) && idx + 1 < |text| {
      ScanFromSpec(text, idx + 1);
      assert ScanFrom(text, idx) == ScanFrom(text, idx + 1);
      forall i | FirstVisibleFrom(text, idx + 1, i)
        ensures FirstVisibleFrom(text, idx, i)
      {
      }
      forall i | FirstVisibleFrom(text, idx, i)
        ensures FirstVisibleFrom(text, idx + 1, i)
      {
      }
    } else if idx < |text| && !IsBlank(text[idx]) {
      assert FirstVisibleFrom(text, idx, idx);
    }
  }

  /** `isHtml(text)`. */
  function IsHtml(text: string): (r: Option<bool>)
    ensures |text| == 0 ==> r == Some(false)
    ensures r == None <==> |text| > 0 && BlankBetween(text, 0, |text|)
    ensures r == Some(true) <==> exists i :: FirstVisibleFrom(text, 0, i) && text[i] == '<'
    ensures r == Some(false) <==>
      |text| == 0 || exists i :: FirstVisibleFrom(text, 0, i) && text[i] != '<'
  {
    ScanFromSpec(text, 0);
    ScanFrom(text, 0)
  }

  /** The scan walks over blanks: starting anywhere in a blank run gives the same answer as starting at its end. */
  lemma {:induction false} ScanSkipsBlanks(text: string, m: nat, k: nat)
    requires m <= k < |text|
    requires BlankBetween(text, m, k)
    ensures ScanFrom(text, m) == ScanFrom(text, k)
    decreases k - m
  {
    if m < k {
      assert CharAt(text, m) == Some(text[m]) && IsBlank(text[m]);
      assert ScanFrom(text, m) == ScanFrom(text, m + 1);
      ScanSkipsBlanks(text, m + 1, k);
    }
  }

  /** The scan depends only on the text from its starting point on. */
  lemma {:induction false} ScanShift(prefix: string, text: string, i: nat)
    requires i < |text|
    ensures ScanFrom(prefix + text, |prefix| + i) == ScanFrom(text, i)
    decreases |text| - i
  {
    assert (prefix + text)[|prefix| + i] == text[i];
    if i + 1 < |text| {
      ScanShift(prefix, text, i + 1);
    }
  }

  /**
   * Leading blanks do not change the answer for non-empty text, and never
   * change its truthiness (blanks before empty text turn `false` into `undefined`).
   */
  lemma {:induction false} BlankPrefixKeepsIsHtml(blanks: string, text: string)
    requires BlankBetween(blanks, 0, |blanks|)
    ensures |text| > 0 ==> IsHtml(blanks + text) == IsHtml(text)
    ensures Truthy(IsHtml(blanks + text)) == Truthy(IsHtml(text))
  {
    var whole := blanks + text;
    if |text| > 0 {
      assert BlankBetween(whole, 0, |blanks|) by {
        forall j | 0 <= j < |blanks|
          ensures IsBlank(whole[j])
        {
          assert whole[j] == blanks[j];
        }
      }
      ScanSkipsBlanks(whole, 0, |blanks|);
      ScanShift(blanks, text, 0);
    } else {
      assert whole == blanks;
    }
  }
}
