/** Extraction of a vendor part code from a product line such as
    "Core Cotton Tee - PC54." (main.py `_parse_part_code`). */
module PartCode {
  import opened Text
  import opened Schemas

  /** The three-character separator " - " starts at index i of s. */
  predicate SepAt(s: string, i: int) {
    0 <= i && i + 3 <= |s| && s[i] == ' ' && s[i + 1] == '-' && s[i + 2] == ' '
  }

  predicate HasSep(s: string) {
    exists i :: 0 <= i < |s| && SepAt(s, i)
  }

  /** Index of the leftmost separator at or after k, or -1. */
  function FirstSepFrom(s: string, k: nat): (i: int)
    ensures i == -1 || (k <= i && SepAt(s, i))
    ensures forall j :: k <= j && (i == -1 || j < i) ==> !SepAt(s, j)
    decreases |s| - k
  {
    if k + 3 > |s| then -1
    else if SepAt(s, k) then k
    else FirstSepFrom(s, k + 1)
  }

  /** Python's split cuts at the separator starting at i: a separator is
      skipped exactly when it overlaps a cut separator, and the only
      separator it can overlap is one starting two characters earlier. */
  predicate SplitAt(s: string, i: int)
    decreases if i < 0 then 0 else i
  {
    SepAt(s, i) && (i < 2 || !SplitAt(s, i - 2))
  }

  /** Separators never start one character apart. */
  lemma SepNotAdjacent(s: string, i: int)
    ensures !(SepAt(s, i) && SepAt(s, i + 1))
  {
  }

  /** The cuts of the split never overlap. */
  lemma CutsApart(s: string, a: int, b: int)
    requires SplitAt(s, a) && SplitAt(s, b)
    ensures a < b ==> a + 3 <= b
  {
    SepNotAdjacent(s, a);
  }

  /** From a position the split has reached (the start, or just past a cut
      separator), the leftmost separator is a cut. */
  lemma FirstSepIsCut(s: string, k: nat)
    requires k == 0 || (3 <= k && SplitAt(s, k - 3))
    requires FirstSepFrom(s, k) >= 0
    ensures SplitAt(s, FirstSepFrom(s, k))
  {
    var i := FirstSepFrom(s, k);
    assert k <= i - 2 ==> !SepAt(s, i - 2);
    assert 3 <= k && i == k ==> !SepAt(s, i - 2) by {
      SepNotAdjacent(s, k - 3);
    }
  }

  /** The separators SegmentStart passes are the cuts of the split. */
  lemma {:induction false} SegmentStartCuts(s: string, k: nat)
    requires k <= |s|
    requires k == 0 || (3 <= k && SplitAt(s, k - 3))
    ensures SegmentStart(s, k) == k || SplitAt(s, SegmentStart(s, k) - 3)
    decreases |s| - k
  {
    var i := FirstSepFrom(s, k);
    if i >= 0 {
      FirstSepIsCut(s, k);
      SegmentStartCuts(s, i + 3);
    }
  }

  /** Where the last element of `s[k..].split(" - ")` starts. Python splits
      left to right at non-overlapping separators, so the last element of
      "a - - b" is "- b", not "b". */
  function SegmentStart(s: string, k: nat): (st: nat)
    requires k <= |s|
    ensures k <= st <= |s|
    ensures st == k || (k + 3 <= st && SepAt(s, st - 3))
    ensures forall j :: st <= j ==> !SepAt(s, j)
    decreases |s| - k
  {
    var i := FirstSepFrom(s, k);
    if i < 0 then k else SegmentStart(s, i + 3)
  }

  /** `s.split(" - ")[-1]`: the whole string when it holds no separator,
      otherwise the text after the last separator the split cuts at. */
  function LastSegment(s: string): (r: string)
    ensures |r| <= |s| && r == s[|s| - |r|..]
    ensures !HasSep(s) ==> r == s
    ensures HasSep(s) ==> 3 <= |s| - |r| && SplitAt(s, |s| - |r| - 3)
    ensures forall j :: |s| - |r| <= j ==> !SepAt(s, j)
  {
    var st := SegmentStart(s, 0);
    SegmentStartCuts(s, 0);
    s[st..]
  }

  /** Only one position can start the last segment: the start of a text
      without separators, or the end of a cut with no separator after it. */
  lemma SegmentStartUnique(s: string, st: int)
    requires 0 <= st <= |s|
    requires (st == 0 && !HasSep(s)) || (3 <= st && SplitAt(s, st - 3))
    requires forall j :: st <= j ==> !SepAt(s, j)
    ensures st == SegmentStart(s, 0)
  {
    var st' := SegmentStart(s, 0);
    SegmentStartCuts(s, 0);
    if st == 0 {
      assert st' == 0;
    } else {
      assert HasSep(s) by {
        assert SepAt(s, st - 3);
      }
      assert st' != 0;
      CutsApart(s, st - 3, st' - 3);
      CutsApart(s, st' - 3, st - 3);
    }
  }

  /** The contract of LastSegment has one solution: the suffix starting at
      a position that meets it (the start of a text without separators, or
      the end of a cut separator, with no separator starting after it) is
      the last segment. */
  lemma LastSegmentUnique(s: string, st: nat)
    requires st <= |s|
    requires !HasSep(s) ==> st == 0
    requires HasSep(s) ==> 3 <= st && SplitAt(s, st - 3)
    requires forall j :: st <= j ==> !SepAt(s, j)
    ensures s[st..] == LastSegment(s)
  {
    if HasSep(s) {
      SegmentStartUnique(s, st);
    } else {
      SegmentStartUnique(s, 0);
    }
  }

  /** Separators are found left to right without overlap: in "a - - b" the
      split cuts at the first " - ", skips the overlapping second one, and
      the last segment is "- b", not "b". */
  lemma OverlappingSeparators()
    ensures SplitAt("a - - b", 1) && !SplitAt("a - - b", 3)
    ensures LastSegment("a - - b") == "- b"
  {
    var s := "a - - b";
    assert !SepAt(s, 0) && SepAt(s, 1);
    assert FirstSepFrom(s, 0) == 1;
    assert !SepAt(s, 4) && FirstSepFrom(s, 5) == -1;
    assert FirstSepFrom(s, 4) == -1;
    assert SegmentStart(s, 4) == 4;
    assert SegmentStart(s, 0) == 4;
  }

  predicate IsNotWordChar(c: char) {
    !IsWordOrHyphen(c)
  }

  predicate IsRunChar(c: char) {
    IsAlnumOrHyphen(c)
  }

  predicate IsNotRunChar(c: char) {
    !IsAlnumOrHyphen(c)
  }

  /** t[a..b] is t[lo..] with its surrounding whitespace and its trailing
      punctuation removed. */
  predicate IsCodeIn(t: string, lo: int, a: int, b: int) {
    && 0 <= lo <= a <= b <= |t|
    && (forall i :: lo <= i < a ==> IsSpace(t[i]))
    && (forall i :: b <= i < |t| ==> !IsWordOrHyphen(t[i]))
    && (a < b ==> !IsSpace(t[a]) && IsWordOrHyphen(t[b - 1]))
  }

  /** t[a..b] is the last " - " segment of t with its surrounding whitespace
      and its trailing punctuation removed. */
  predicate IsSegmentCode(t: string, a: int, b: int) {
    IsCodeIn(t, |t| - |LastSegment(t)|, a, b)
  }

  /** A maximal run of `[A-Za-z0-9-]` characters occupies s[start..end]. */
  predicate IsMaximalRun(s: string, start: int, end: int) {
    && 0 <= start < end <= |s|
    && (forall i :: start <= i < end ==> IsAlnumOrHyphen(s[i]))
    && (start == 0 || !IsAlnumOrHyphen(s[start - 1]))
    && (end == |s| || !IsAlnumOrHyphen(s[end]))
  }

  /** `re.sub(r"[^\w\-]+$", "", t[lo..].strip())`: the stripped text
      without its trailing run of characters that are neither word
      characters nor hyphens. */
  function StripCode(t: string, lo: nat): (r: string)
    requires lo <= |t|
    ensures exists a, b :: IsCodeIn(t, lo, a, b) && r == t[a..b]
  {
    var a := StripStart(t, lo, |t|);
    var e := StripEnd(t, lo, |t|);
    var b := BackWhile(t, a, e, IsNotWordChar);
    assert forall i :: b <= i < |t| ==> !IsWordOrHyphen(t[i]) by {
      forall i | b <= i < |t| ensures !IsWordOrHyphen(t[i]) {
        if i >= e {
          assert IsSpace(t[i]);
        }
      }
    }
    assert IsCodeIn(t, lo, a, b);
    t[a..b]
  }

  /** The code the last " - " segment of t carries. */
  function SegmentCode(t: string): (r: string)
    ensures exists a, b :: IsSegmentCode(t, a, b) && r == t[a..b]
  {
    StripCode(t, |t| - |LastSegment(t)|)
  }

  /** `re.findall(r"[A-Za-z0-9\-]+", s)[-1]`, or None when there is no match:
      the last maximal run, after which no run character occurs. */
  function LastRun(s: string): (r: Option<string>)
    ensures r.None? <==> forall i :: 0 <= i < |s| ==> !IsAlnumOrHyphen(s[i])
    ensures r.Some? ==> exists start, end ::
      IsMaximalRun(s, start, end) && r.value == s[start..end]
      && forall i :: end <= i < |s| ==> !IsAlnumOrHyphen(s[i])
  {
    var end := BackWhile(s, 0, |s|, IsNotRunChar);
    if end == 0 then None
    else
      var start := BackWhile(s, 0, end, IsRunChar);
      assert IsMaximalRun(s, start, end);
      Some(s[start..end])
  }

  /** The part code of a product line. Absent or empty text has none. When
      the text holds " - ", the code is the last segment, stripped, without
      trailing punctuation; otherwise it is the last alphanumeric/hyphen run,
      or the stripped text when there is no such run. */
  function ParsePartCode(text: Option<string>): (r: Option<string>)
    ensures r.None? <==> text.None? || text.value == ""
    ensures r.Some? && HasSep(text.value) ==>
      exists a, b :: IsSegmentCode(text.value, a, b) && r.value == text.value[a..b]
    ensures r.Some? && !HasSep(text.value) ==>
      || ((forall i :: 0 <= i < |text.value| ==> !IsAlnumOrHyphen(text.value[i]))
          && r.value == Trim(text.value))
      || exists start, end :: IsMaximalRun(text.value, start, end)
           && r.value == text.value[start..end]
           && forall i :: end <= i < |text.value| ==> !IsAlnumOrHyphen(text.value[i])
  {
    if text.None? || text.value == "" then None
    else
      var t := text.value;
      if FirstSepFrom(t, 0) >= 0 then Some(SegmentCode(t))
      else
        match LastRun(t)
        case Some(m) => Some(m)
        case None => Some(Trim(t))
  }
}
