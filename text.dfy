/** String operations the event service relies on: ECMAScript's `trim`,
    `toLowerCase` (restricted to ASCII) and `includes`. */
module Text {

  /** The code points ECMAScript's `String.prototype.trim` removes:
      the WhiteSpace set (tab, vertical tab, form feed, BOM and the
      space separators) and the LineTerminator set. */
  predicate IsJsWhitespace(c: char)
  {
    || c == '\t' || c == '\n' || c == '\U{000B}' || c == '\U{000C}' || c == '\r'
    || c == ' ' || c == '\U{00A0}' || c == '\U{1680}'
    || ('\U{2000}' <= c <= '\U{200A}')
    || c == '\U{2028}' || c == '\U{2029}' || c == '\U{202F}' || c == '\U{205F}'
    || c == '\U{3000}' || c == '\U{FEFF}'
  }

  /** All characters of `s` are whitespace (this includes the empty string). */
  ghost predicate IsBlank(s: string)
  {
    forall k :: 0 <= k < |s| ==> IsJsWhitespace(s[k])
  }

  /** The index of the first non-whitespace character of `s` at or after
      `i`, or `|s|` when there is none. */
  function CoreStart(s: string, i: nat): (j: nat)
    requires i <= |s|
    ensures i <= j <= |s|
    ensures forall k :: i <= k < j ==> IsJsWhitespace(s[k])
    ensures j < |s| ==> !IsJsWhitespace(s[j])
    decreases |s| - i
  {
    if i < |s| && IsJsWhitespace(s[i]) then CoreStart(s, i + 1) else i
  }

  /** Scanning down from `j` to `lo`, the end of the last non-whitespace
      character, or `lo` when there is none. */
  function CoreEnd(s: string, lo: nat, j: nat): (e: nat)
    requires lo <= j <= |s|
    ensures lo <= e <= j
    ensures forall k :: e <= k < j ==> IsJsWhitespace(s[k])
    ensures lo < e ==> !IsJsWhitespace(s[e - 1])
  {
    if lo < j && IsJsWhitespace(s[j - 1]) then CoreEnd(s, lo, j - 1) else j
  }

  /** `s.trim()`: leading whitespace removed, then trailing whitespace. */
  function Trim(s: string): (r: string)
  {
    var i := CoreStart(s, 0);
    s[i..CoreEnd(s, i, |s|)]
  }

  /** `r` is the piece of `s` starting at `i`, everything around it is
      whitespace, and it neither starts nor ends with whitespace. */
  ghost predicate IsCoreAt(s: string, r: string, i: int)
  {
    && 0 <= i <= |s| - |r| && r == s[i..i + |r|]
    && (forall k :: 0 <= k < i ==> IsJsWhitespace(s[k]))
    && (forall k :: i + |r| <= k < |s| ==> IsJsWhitespace(s[k]))
    && (r != [] ==> !IsJsWhitespace(r[0]) && !IsJsWhitespace(r[|r| - 1]))
  }

  /** `Trim(s)` is the whitespace-free core of `s`. */
  lemma TrimIsCore(s: string)
    ensures exists i :: IsCoreAt(s, Trim(s), i)
  {
    var i := CoreStart(s, 0);
    var e := CoreEnd(s, i, |s|);
    var r := s[i..e];
    if r != [] {
      assert r[0] == s[i] && r[|r| - 1] == s[e - 1];
    }
    assert Trim(s) == r && IsCoreAt(s, r, i);
  }

  /** The trimmed string is empty exactly when `s` is blank, so `!s.trim()`
      holds exactly for blank strings. */
  lemma TrimEmptyIffBlank(s: string)
    ensures Trim(s) == [] <==> IsBlank(s)
  {
    var i := CoreStart(s, 0);
    var e := CoreEnd(s, i, |s|);
    if e == i {
      assert forall k :: 0 <= k < |s| ==> IsJsWhitespace(s[k]);
    } else {
      assert !IsJsWhitespace(s[e - 1]);
    }
  }

  /** ASCII lower-casing of one character; every other character is kept. */
  function LowerChar(c: char): (d: char)
  {
    if 'A' <= c <= 'Z' then (c as int + 32) as char else c
  }

  /** `s.toLowerCase()`, restricted to ASCII letters. */
  function Lower(s: string): (r: string)
  {
    seq(|s|, k requires 0 <= k < |s| => LowerChar(s[k]))
  }

  /** A lower-case letter that `s` holds in neither case is absent from
      `Lower(s)`. */
  lemma LowerOmits(s: string, c: char)
    requires 'a' <= c <= 'z' && c !in s && (c as int - 32) as char !in s
    ensures c !in Lower(s)
  {
    forall k | 0 <= k < |s| ensures Lower(s)[k] != c {
      assert s[k] in s;
    }
  }

  /** `pat` occurs in `text` starting at index `i`. */
  ghost predicate OccursAt(text: string, pat: string, i: int)
  {
    0 <= i && i + |pat| <= |text| && text[i..i + |pat|] == pat
  }

  /** `text.includes(pat)`: a left-to-right search for `pat`. */
  function Includes(text: string, pat: string): (b: bool)
    decreases |text|
  {
    if pat <= text then true
    else if text == [] then false
    else Includes(text[1..], pat)
  }

  /** The search finds `pat` exactly when it occurs somewhere in `text`. */
  lemma {:induction false} IncludesIff(text: string, pat: string)
    ensures Includes(text, pat) <==> exists i :: OccursAt(text, pat, i)
    decreases |text|
  {
    if pat <= text {
      assert text[0..|pat|] == pat;
      assert OccursAt(text, pat, 0);
    } else if text == [] {
      assert forall i :: !OccursAt(text, pat, i);
    } else {
      var tail := text[1..];
      IncludesIff(tail, pat);
      forall i | OccursAt(tail, pat, i) ensures OccursAt(text, pat, i + 1) {
        assert text[i + 1..i + 1 + |pat|] == tail[i..i + |pat|];
      }
      forall i | OccursAt(text, pat, i) ensures 1 <= i && OccursAt(tail, pat, i - 1) {
        assert text[i..i + |pat|] == pat;
        assert i != 0;
        assert tail[i - 1..i - 1 + |pat|] == text[i..i + |pat|];
      }
    }
  }

  /** The empty pattern is found in every text. */
  lemma IncludesEmpty(text: string)
    ensures Includes(text, [])
  {
  }

  /** Every character of a found pattern is a character of the text, so a
      pattern with a character the text lacks is never found. */
  lemma {:induction false} IncludesChars(text: string, pat: string, c: char)
    requires Includes(text, pat) && c in pat
    ensures c in text
  {
    IncludesIff(text, pat);
    var i :| OccursAt(text, pat, i);
    var k :| 0 <= k < |pat| && pat[k] == c;
    assert text[i..i + |pat|][k] == text[i + k];
  }
}
