/** The stable sort of a line item's size entries by the fixed size rank
    (main.py `_size_sort_key` and `sizes.sort`). */
module SizeSort {
  import opened Schemas
  import opened Canonical

  function Rank(x: SizeItem): int {
    SizeRank(x.size)
  }

  /** Where x goes: after every entry of lower rank, in front of the first
      entry whose rank is not below x's. */
  function InsertPos(x: SizeItem, s: seq<SizeItem>): (p: nat)
    ensures p <= |s|
    ensures forall k :: 0 <= k < p ==> Rank(s[k]) < Rank(x)
    ensures p < |s| ==> Rank(x) <= Rank(s[p])
  {
    if s == [] || Rank(x) <= Rank(s[0]) then 0 else 1 + InsertPos(x, s[1..])
  }

  /** Inserts x at its position, so x stays ahead of the entries of equal
      rank that follow it in the input. */
  function Insert(x: SizeItem, s: seq<SizeItem>): (r: seq<SizeItem>)
    ensures multiset(r) == multiset(s) + multiset{x}
    ensures |r| == |s| + 1
  {
    var p := InsertPos(x, s);
    assert s == s[..p] + s[p..];
    s[..p] + [x] + s[p..]
  }

  /** Python's `list.sort(key=_size_sort_key)`, which is stable: an insertion
      sort that inserts each entry in front of the equal-ranked entries that
      came after it. */
  function SortSizes(s: seq<SizeItem>): (r: seq<SizeItem>)
    ensures multiset(r) == multiset(s)
    ensures |r| == |s|
  {
    if s == [] then []
    else
      assert s == [s[0]] + s[1..];
      Insert(s[0], SortSizes(s[1..]))
  }

  /** Ranks never decrease, and entries of equal rank are ordered by `first`. */
  predicate LexSorted(s: seq<SizeItem>, first: string -> int) {
    forall i, j :: 0 <= i < j < |s| ==>
      Rank(s[i]) < Rank(s[j]) || (Rank(s[i]) == Rank(s[j]) && first(s[i].size) < first(s[j].size))
  }

  /** Entries are listed in strictly increasing order of `first`. */
  predicate InOrderOf(s: seq<SizeItem>, first: string -> int) {
    forall i, j :: 0 <= i < j < |s| ==> first(s[i].size) < first(s[j].size)
  }

  lemma InsertLexSorted(x: SizeItem, s: seq<SizeItem>, first: string -> int)
    requires LexSorted(s, first)
    requires forall k :: 0 <= k < |s| ==> first(x.size) < first(s[k].size)
    ensures LexSorted(Insert(x, s), first)
  {
    InsertKeepsOrder(x, s, InsertPos(x, s), Rank, first);
  }

  /** Putting x after the entries ranked below it and in front of the rest
      keeps a rank-then-`first` order, whatever the rank function, when x
      comes first by `first`. */
  lemma InsertKeepsOrder(x: SizeItem, s: seq<SizeItem>, p: nat, rank: SizeItem -> int, first: string -> int)
    requires p <= |s|
    requires forall i, j :: 0 <= i < j < |s| ==>
      rank(s[i]) < rank(s[j]) || (rank(s[i]) == rank(s[j]) && first(s[i].size) < first(s[j].size))
    requires forall k :: 0 <= k < p ==> rank(s[k]) < rank(x)
    requires p < |s| ==> rank(x) <= rank(s[p])
    requires forall k :: 0 <= k < |s| ==> first(x.size) < first(s[k].size)
    ensures var r := s[..p] + [x] + s[p..];
      forall i, j :: 0 <= i < j < |r| ==>
        rank(r[i]) < rank(r[j]) || (rank(r[i]) == rank(r[j]) && first(r[i].size) < first(r[j].size))
  {
    var r := s[..p] + [x] + s[p..];
    assert forall i :: 0 <= i < p ==> r[i] == s[i];
    assert r[p] == x;
    assert forall i :: p < i < |r| ==> r[i] == s[i - 1];
    forall i, j | 0 <= i < j < |r|
      ensures rank(r[i]) < rank(r[j]) || (rank(r[i]) == rank(r[j]) && first(r[i].size) < first(r[j].size))
    {
      if i == p && j > p + 1 {
        assert rank(s[p]) <= rank(s[j - 1]);
      }
    }
  }

  /** The sort is stable: when the input lists entries in increasing order of
      `first`, the output is ordered by rank and then by `first`. */
  lemma {:induction false} SortStable(s: seq<SizeItem>, first: string -> int)
    requires InOrderOf(s, first)
    ensures LexSorted(SortSizes(s), first)
  {
    if s != [] {
      var tail := s[1..];
      assert InOrderOf(tail, first);
      SortStable(tail, first);
      var t := SortSizes(tail);
      forall m | 0 <= m < |t| ensures first(s[0].size) < first(t[m].size) {
        assert t[m] in multiset(t);
        assert t[m] in multiset(tail);
        var k :| 0 <= k < |tail| && tail[k] == t[m];
        assert s[k + 1] == t[m];
      }
      InsertLexSorted(s[0], SortSizes(tail), first);
    }
  }

  predicate HasLabel(s: seq<SizeItem>, lbl: string) {
    exists i :: 0 <= i < |s| && s[i].size == lbl
  }

  /** A label listed in s is listed in every rearrangement of s. */
  lemma LabelKept(s: seq<SizeItem>, r: seq<SizeItem>, lbl: string)
    requires multiset(r) == multiset(s)
    requires HasLabel(s, lbl)
    ensures HasLabel(r, lbl)
  {
    var i :| 0 <= i < |s| && s[i].size == lbl;
    assert s[i] in multiset(s);
    assert s[i] in multiset(r);
    var j :| 0 <= j < |r| && r[j] == s[i];
  }

  /** The sort neither adds nor drops a size label. */
  lemma SortSizesLabels(s: seq<SizeItem>, lbl: string)
    ensures HasLabel(SortSizes(s), lbl) <==> HasLabel(s, lbl)
  {
    var r := SortSizes(s);
    if HasLabel(s, lbl) {
      LabelKept(s, r, lbl);
    }
    if HasLabel(r, lbl) {
      LabelKept(r, s, lbl);
    }
  }

  /** Sorting keeps the total quantity. */
  lemma {:induction false} SortSizesSum(s: seq<SizeItem>)
    ensures SumQuantities(SortSizes(s)) == SumQuantities(s)
  {
    if s != [] {
      SortSizesSum(s[1..]);
      InsertSum(s[0], SortSizes(s[1..]));
    }
  }

  lemma InsertSum(x: SizeItem, s: seq<SizeItem>)
    ensures SumQuantities(Insert(x, s)) == x.quantity + SumQuantities(s)
  {
    var p := InsertPos(x, s);
    assert s == s[..p] + s[p..];
    SumQuantitiesAppend(s[..p], s[p..]);
    SumQuantitiesAppend(s[..p] + [x], s[p..]);
    SumQuantitiesAppend(s[..p], [x]);
  }
}
