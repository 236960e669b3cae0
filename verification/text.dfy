/** ASCII approximations of the Python string primitives the reconciliation code
    relies on: `str.strip`, `str.upper`, `str.lower`/`str.casefold`, and the
    character classes `\d`, `\w` and `[A-Za-z0-9-]`. */
module Text {

  /** Python's `str.isspace` restricted to ASCII: tab, line feed, vertical tab,
      form feed, carriage return, the four information separators and space. */
  predicate IsSpace(c: char) {
    c == ' ' || ('\t' <= c <= '\r') || ('\U{1C}' <= c <= '\U{1F}')
  }

  predicate IsDigit(c: char) {
    '0' <= c <= '9'
  }

  predicate IsLower(c: char) {
    'a' <= c <= 'z'
  }

  predicate IsAsciiUpper(c: char) {
    'A' <= c <= 'Z'
  }

  /** The class `[A-Za-z0-9-]`. */
  predicate IsAlnumOrHyphen(c: char) {
    IsLower(c) || IsAsciiUpper(c) || IsDigit(c) || c == '-'
  }

  /** The class `[\w-]` (ASCII word characters and the hyphen). */
  predicate IsWordOrHyphen(c: char) {
    IsAlnumOrHyphen(c) || c == '_'
  }

  function UpperChar(c: char): char {
    if IsLower(c) then (c as int - 32) as char else c
  }

  function LowerChar(c: char): char {
    if IsAsciiUpper(c) then (c as int + 32) as char else c
  }

  /** First index in [lo, hi] whose character does not satisfy p (hi when
      every character of s[lo..hi] does). */
  function SkipWhile(s: string, lo: nat, hi: nat, p: char -> bool): (i: nat)
    requires lo <= hi <= |s|
    ensures lo <= i <= hi
    ensures forall k :: lo <= k < i ==> p(s[k])
    ensures i < hi ==> !p(s[i])
    decreases hi - lo
  {
    if lo < hi && p(s[lo]) then SkipWhile(s, lo + 1, hi, p) else lo
  }

  /** Smallest j in [lo, hi] such that every character of s[j..hi]
      satisfies p: the start of the maximal p-run ending at hi. */
  function BackWhile(s: string, lo: nat, hi: nat, p: char -> bool): (j: nat)
    requires lo <= hi <= |s|
    ensures lo <= j <= hi
    ensures forall k :: j <= k < hi ==> p(s[k])
    ensures j > lo ==> !p(s[j - 1])
    decreases hi - lo
  {
    if lo < hi && p(s[hi - 1]) then BackWhile(s, lo, hi - 1, p) else hi
  }

  /** Bounds of the stripped text of s[lo..hi]. */
  function StripStart(s: string, lo: nat, hi: nat): nat
    requires lo <= hi <= |s|
  {
    SkipWhile(s, lo, hi, IsSpace)
  }

  function StripEnd(s: string, lo: nat, hi: nat): (e: nat)
    requires lo <= hi <= |s|
    ensures StripStart(s, lo, hi) <= e <= hi
  {
    BackWhile(s, StripStart(s, lo, hi), hi, IsSpace)
  }

  /** r occupies s[a..a + |r|], and everything of s outside it is
      whitespace. */
  predicate StripAt(s: string, r: string, a: int) {
    && 0 <= a && a + |r| <= |s|
    && r == s[a..a + |r|]
    && (forall k :: 0 <= k < a ==> IsSpace(s[k]))
    && (forall k :: a + |r| <= k < |s| ==> IsSpace(s[k]))
  }

  /** Python `str.strip()` with no argument: the text between the leading
      and the trailing whitespace. */
  function Trim(s: string): (r: string)
    ensures |r| <= |s|
    ensures exists a :: StripAt(s, r, a)
    ensures r == [] || (!IsSpace(r[0]) && !IsSpace(r[|r| - 1]))
    ensures r == [] <==> forall i :: 0 <= i < |s| ==> IsSpace(s[i])
  {
    var a := StripStart(s, 0, |s|);
    var b := StripEnd(s, 0, |s|);
    assert a < b ==> s[a..b][0] == s[a];
    assert StripAt(s, s[a..b], a);
    s[a..b]
  }

  /** Only one string sits inside s between whitespace and starts and ends
      with a non-space character: a stripped text is determined by s. */
  lemma StripUnique(s: string, r: string, a: int, r': string, a': int)
    requires StripAt(s, r, a) && IsTrimmed(r) && r != []
    requires StripAt(s, r', a') && IsTrimmed(r') && r' != []
    ensures r == r'
  {
    assert s[a] == r[0] && s[a'] == r'[0];
    assert s[a + |r| - 1] == r[|r| - 1] && s[a' + |r'| - 1] == r'[|r'| - 1];
  }

  /** Python `str.upper()` on ASCII letters. */
  function Upper(s: string): (r: string)
    ensures |r| == |s|
    ensures forall i :: 0 <= i < |s| ==> r[i] == UpperChar(s[i])
  {
    if s == [] then [] else [UpperChar(s[0])] + Upper(s[1..])
  }

  /** Python `str.lower()` / `str.casefold()` on ASCII letters. */
  function Lower(s: string): (r: string)
    ensures |r| == |s|
    ensures forall i :: 0 <= i < |s| ==> r[i] == LowerChar(s[i])
  {
    if s == [] then [] else [LowerChar(s[0])] + Lower(s[1..])
  }

  /** A string that `strip()` leaves as it is. */
  predicate IsTrimmed(s: string) {
    s == [] || (!IsSpace(s[0]) && !IsSpace(s[|s| - 1]))
  }

  /** `strip()` leaves an already-stripped string unchanged. */
  lemma TrimOfTrimmed(s: string)
    requires IsTrimmed(s)
    ensures Trim(s) == s
  {
    assert StripStart(s, 0, |s|) == 0;
    assert StripEnd(s, 0, |s|) == |s|;
  }

  /** `strip()` is idempotent. */
  lemma TrimIdempotent(s: string)
    ensures Trim(Trim(s)) == Trim(s)
  {
    TrimOfTrimmed(Trim(s));
  }

  /** Upper-casing neither creates nor removes whitespace, so an upper-cased
      stripped string is still stripped. */
  lemma UpperKeepsTrimmed(s: string)
    requires IsTrimmed(s)
    ensures IsTrimmed(Upper(s))
  {
  }

  /** Lower-casing keeps a stripped string stripped. */
  lemma LowerKeepsTrimmed(s: string)
    requires IsTrimmed(s)
    ensures IsTrimmed(Lower(s))
  {
  }

  lemma UpperIdempotent(s: string)
    ensures Upper(Upper(s)) == Upper(s)
  {
  }

  lemma LowerIdempotent(s: string)
    ensures Lower(Lower(s)) == Lower(s)
  {
  }

  /** An upper-cased string has no lower-case ASCII letter. */
  lemma UpperHasNoLower(s: string)
    ensures forall i :: 0 <= i < |s| ==> !IsLower(Upper(s)[i])
  {
  }

  /** A stripped string with no lower-case letter is its own stripped,
      upper-cased form. */
  lemma UpperTrimFixed(s: string)
    requires IsTrimmed(s)
    requires forall i :: 0 <= i < |s| ==> !IsLower(s[i])
    ensures Upper(Trim(s)) == s
  {
    TrimOfTrimmed(s);
    assert Upper(s) == s;
  }
}
