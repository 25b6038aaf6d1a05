/** The three JavaScript string built-ins the note store relies on:
    `trim()`, `toLowerCase()` (on ASCII letters) and `includes()`. */
module JsString {

  /** The characters `String.prototype.trim` strips: ECMAScript's WhiteSpace
      (tab, vertical tab, form feed, the byte order mark and every space
      separator) and LineTerminator (line feed, carriage return, and the
      line and paragraph separators). */
  predicate IsWhitespace(c: char)
  {
    c == '\t' || c == '\n' || c == '\U{000B}' || c == '\U{000C}' || c == '\r' ||
    c == ' ' || c == '\U{00A0}' || c == '\U{1680}' ||
    ('\U{2000}' <= c <= '\U{200A}') ||
    c == '\U{2028}' || c == '\U{2029}' || c == '\U{202F}' || c == '\U{205F}' ||
    c == '\U{3000}' || c == '\U{FEFF}'
  }

  /** The characters of `s` in `[lo, hi)` are all whitespace. */
  predicate WhitespaceBetween(s: string, lo: int, hi: int)
    requires 0 <= lo && hi <= |s|
  {
    forall k :: lo <= k < hi ==> IsWhitespace(s[k])
  }

  /** The first index at or after `i` that does not hold whitespace
      (`|s|` if there is none). */
  function SkipForward(s: string, i: nat): (j: nat)
    requires i <= |s|
    ensures i <= j <= |s|
    ensures WhitespaceBetween(s, i, j)
    ensures j < |s| ==> !IsWhitespace(s[j])
    decreases |s| - i
  {
    if i < |s| && IsWhitespace(s[i]) then SkipForward(s, i + 1) else i
  }

  /** The index just after the last non-whitespace character in `[lo, j)`
      (`lo` if there is none). */
  function SkipBackward(s: string, lo: nat, j: nat): (i: nat)
    requires lo <= j <= |s|
    ensures lo <= i <= j
    ensures WhitespaceBetween(s, i, j)
    ensures i > lo ==> !IsWhitespace(s[i - 1])
  {
    if j > lo && IsWhitespace(s[j - 1]) then SkipBackward(s, lo, j - 1) else j
  }

  /** `r` is the infix of `s` at index `i`, and the parts of `s` before and
      after it are whitespace. */
  ghost predicate TrimmedAt(s: string, r: string, i: int)
  {
    0 <= i <= |s| - |r| && r == s[i..i + |r|] &&
    WhitespaceBetween(s, 0, i) && WhitespaceBetween(s, i + |r|, |s|)
  }

  /** `String.prototype.trim`: the infix of `s` left after removing the
      whitespace at both ends. It is empty exactly when `s` is all
      whitespace; otherwise it starts and ends with a non-whitespace
      character. */
  function Trim(s: string): (r: string)
    ensures exists i :: TrimmedAt(s, r, i)
    ensures r == [] <==> WhitespaceBetween(s, 0, |s|)
    ensures r != [] ==> !IsWhitespace(r[0]) && !IsWhitespace(r[|r| - 1])
  {
    var lo := SkipForward(s, 0);
    var hi := SkipBackward(s, lo, |s|);
    assert TrimmedAt(s, s[lo..hi], lo);
    s[lo..hi]
  }

  /** Trimming a string that has no whitespace at either end returns it. */
  lemma TrimUnchanged(s: string)
    requires s != [] ==> !IsWhitespace(s[0]) && !IsWhitespace(s[|s| - 1])
    ensures Trim(s) == s
  {
  }

  /** Trimming twice is trimming once. */
  lemma TrimIdempotent(s: string)
    ensures Trim(Trim(s)) == Trim(s)
  {
  }

  predicate IsAsciiUpper(c: char)
  {
    'A' <= c <= 'Z'
  }

  /** `toLowerCase` on one character; only ASCII letters are mapped. */
  function LowerChar(c: char): (r: char)
    ensures !IsAsciiUpper(r)
    ensures IsAsciiUpper(c) ==> r as int == c as int + 32
    ensures !IsAsciiUpper(c) ==> r == c
  {
    if IsAsciiUpper(c) then (c as int + 32) as char else c
  }

  /** `String.prototype.toLowerCase`, restricted to ASCII letters: every
      character is mapped on its own, so the length is kept. */
  function ToLower(s: string): (r: string)
    ensures |r| == |s|
    ensures forall k :: 0 <= k < |s| ==> r[k] == LowerChar(s[k])
  {
    if s == [] then [] else [LowerChar(s[0])] + ToLower(s[1..])
  }

  /** Lower-casing a lower-cased string changes nothing. */
  lemma ToLowerIdempotent(s: string)
    ensures ToLower(ToLower(s)) == ToLower(s)
  {
  }

  /** `t` occurs in `s` starting at index `i`. */
  ghost predicate OccursAt(s: string, t: string, i: int)
  {
    0 <= i && i + |t| <= |s| && s[i..i + |t|] == t
  }

  /** `String.prototype.includes` (searching from position 0): `t` occurs
      somewhere in `s`. The empty string occurs in every string. */
  function Includes(s: string, t: string): (r: bool)
    ensures r <==> exists i :: OccursAt(s, t, i)
    decreases |s|
  {
    if |t| > |s| then false
    else if s[..|t|] == t then (assert OccursAt(s, t, 0); true)
    else
      var rest := Includes(s[1..], t);
      assert rest ==> exists i :: OccursAt(s, t, i) by {
        if rest {
          var j :| OccursAt(s[1..], t, j);
          assert s[j + 1..j + 1 + |t|] == s[1..][j..j + |t|];
          assert OccursAt(s, t, j + 1);
        }
      }
      assert (exists i :: OccursAt(s, t, i)) ==> rest by {
        if exists i :: OccursAt(s, t, i) {
          var i :| OccursAt(s, t, i);
          assert i != 0;
          assert s[1..][i - 1..i - 1 + |t|] == s[i..i + |t|];
          assert OccursAt(s[1..], t, i - 1);
        }
      }
      rest
  }
}
