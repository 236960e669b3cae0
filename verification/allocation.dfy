/** The greedy rule both vendor processors use to spread one size's quantity
    over a page's stock cells: walk the cells in page order and take from
    each usable cell the smaller of its stock and what is still wanted. */
module Allocation {

  function Min(a: int, b: int): int {
    if a <= b then a else b
  }

  function Sum(s: seq<int>): int {
    if s == [] then 0 else s[0] + Sum(s[1..])
  }

  lemma {:induction false} SumNonNegative(s: seq<int>)
    requires forall i :: 0 <= i < |s| ==> s[i] >= 0
    ensures Sum(s) >= 0
  {
    if s != [] {
      SumNonNegative(s[1..]);
    }
  }

  /** A sum of non-negative amounts is zero only when every amount is. */
  lemma {:induction false} SumZero(s: seq<int>)
    requires forall i :: 0 <= i < |s| ==> s[i] >= 0
    ensures Sum(s) == 0 <==> forall i :: 0 <= i < |s| ==> s[i] == 0
  {
    if s != [] {
      SumZero(s[1..]);
      SumNonNegative(s[1..]);
      assert forall i :: 1 <= i < |s| ==> s[i] == s[1..][i - 1];
    }
  }

  /** Some cell gives something. */
  predicate AnyPositive(s: seq<int>) {
    exists i :: 0 <= i < |s| && s[i] > 0
  }

  lemma AnyPositiveCons(x: int, s: seq<int>)
    ensures AnyPositive([x] + s) <==> x > 0 || AnyPositive(s)
  {
    var t := [x] + s;
    if x > 0 {
      assert t[0] == x;
    }
    if AnyPositive(s) {
      var i :| 0 <= i < |s| && s[i] > 0;
      assert t[i + 1] == s[i];
    }
    if AnyPositive(t) {
      var i :| 0 <= i < |t| && t[i] > 0;
      if i > 0 {
        assert s[i - 1] == t[i];
      }
    }
  }

  /** A greedy allocation takes something exactly when some cell gives
      something. */
  lemma GreedyTakes(offers: seq<int>, amounts: seq<int>)
    requires Greedy(offers, amounts)
    ensures Sum(amounts) >= 0
    ensures Sum(amounts) > 0 <==> AnyPositive(amounts)
  {
    SumNonNegative(amounts);
    SumZero(amounts);
  }

  /** `amounts` draws on `offers` greedily: each cell gives at most what it
      offers, and a cell gives something only once every earlier cell has
      given all it offers. */
  predicate Greedy(offers: seq<int>, amounts: seq<int>) {
    && |amounts| == |offers|
    && (forall i :: 0 <= i < |amounts| ==> 0 <= amounts[i] <= offers[i])
    && (forall i, j :: 0 <= i < j < |amounts| && amounts[j] > 0 ==> amounts[i] == offers[i])
  }

  /** Putting a cell in front of a greedy allocation keeps it greedy when the
      new cell is exhausted or the rest takes nothing. */
  lemma GreedyCons(o: int, offers: seq<int>, a: int, amounts: seq<int>)
    requires Greedy(offers, amounts)
    requires 0 <= a <= o
    requires a < o ==> forall i :: 0 <= i < |amounts| ==> amounts[i] == 0
    ensures Greedy([o] + offers, [a] + amounts)
  {
    var os, xs := [o] + offers, [a] + amounts;
    assert forall i :: 1 <= i < |xs| ==> xs[i] == amounts[i - 1] && os[i] == offers[i - 1];
  }

  /** n cells that give nothing. */
  function Zeros(n: nat): (z: seq<int>)
    ensures |z| == n
    ensures forall i :: 0 <= i < n ==> z[i] == 0
    ensures Sum(z) == 0
  {
    if n == 0 then [] else [0] + Zeros(n - 1)
  }

  /** A greedy allocation is fixed by its total: two greedy allocations over
      the same stock that take the same quantity take it from the same cells
      in the same amounts. */
  lemma {:induction false} GreedyUnique(offers: seq<int>, a: seq<int>, b: seq<int>)
    requires Greedy(offers, a) && Greedy(offers, b)
    requires Sum(a) == Sum(b)
    ensures a == b
  {
    if offers != [] {
      var o, a', b' := offers[1..], a[1..], b[1..];
      assert forall i :: 0 <= i < |a'| ==> a'[i] == a[i + 1] && b'[i] == b[i + 1] && o[i] == offers[i + 1];
      assert Greedy(o, a') && Greedy(o, b');
      if a[0] < b[0] {
        GreedyRestEmpty(offers, a);
        SumZero(a');
        SumNonNegative(b');
      } else if b[0] < a[0] {
        GreedyRestEmpty(offers, b);
        SumZero(b');
        SumNonNegative(a');
      } else {
        GreedyUnique(o, a', b');
        assert a == [a[0]] + a' && b == [b[0]] + b';
      }
    }
  }

  /** In a greedy allocation, a first cell that is not exhausted means nothing
      is taken after it. */
  lemma GreedyRestEmpty(offers: seq<int>, a: seq<int>)
    requires Greedy(offers, a) && |a| > 0 && a[0] < offers[0]
    ensures forall i :: 0 <= i < |a| - 1 ==> a[1..][i] == 0
  {
    forall i | 0 <= i < |a| - 1 ensures a[1..][i] == 0 {
      assert a[1..][i] == a[i + 1];
    }
  }

  /** A scan's outcome: the quantity typed into each cell, what is still
      wanted afterwards, and whether anything was typed. */
  datatype Scan = Scan(amounts: seq<int>, remaining: int, added: bool)

  /** What a scan over cells offering `offers` and wanting `remaining`
      promises: it draws on the cells greedily, `remaining` drops by exactly
      what was typed, what was typed is the wanted quantity capped by the
      total offered, nothing is typed once nothing is wanted, and `added`
      records whether anything was typed. */
  predicate ScanSound(offers: seq<int>, remaining: int, r: Scan) {
    && Greedy(offers, r.amounts)
    && r.remaining == remaining - Sum(r.amounts)
    && (remaining >= 0 ==> Sum(r.amounts) == Min(remaining, Sum(offers)))
    && (remaining <= 0 ==> forall i :: 0 <= i < |r.amounts| ==> r.amounts[i] == 0)
    && (r.added <==> AnyPositive(r.amounts))
  }

  /** Stopping the scan types nothing into the cells left, which is sound
      when nothing is wanted or no cell is left. */
  lemma ScanStop(offers: seq<int>, remaining: int)
    requires forall i :: 0 <= i < |offers| ==> offers[i] >= 0
    requires offers == [] || remaining <= 0
    ensures ScanSound(offers, remaining, Scan(Zeros(|offers|), remaining, false))
  {
    SumNonNegative(offers);
  }

  /** One step of the scan: the first cell takes the smaller of its offer
      and what is wanted (nothing when it offers nothing or nothing is
      wanted), and the rest of the cells are scanned for what is left. */
  lemma ScanStep(offers: seq<int>, remaining: int, a: int, rest: Scan)
    requires offers != [] && offers[0] >= 0
    requires a == if offers[0] > 0 && remaining > 0 then Min(offers[0], remaining) else 0
    requires ScanSound(offers[1..], remaining - a, rest)
    ensures ScanSound(offers, remaining, Scan([a] + rest.amounts, rest.remaining, a > 0 || rest.added))
  {
    assert offers == [offers[0]] + offers[1..];
    SumNonNegative(offers[1..]);
    GreedyCons(offers[0], offers[1..], a, rest.amounts);
    AnyPositiveCons(a, rest.amounts);
  }

  /** A list of per-entry values for the first entry and for the rest is
      the list of per-entry values for all entries. */
  lemma PointwiseCons<A>(xs: seq<A>, f: A -> int, y: int, rest: seq<int>)
    requires xs != [] && y == f(xs[0])
    requires |rest| == |xs| - 1
    requires forall i :: 0 <= i < |rest| ==> rest[i] == f(xs[1..][i])
    ensures forall i :: 0 <= i < |xs| ==> ([y] + rest)[i] == f(xs[i])
  {
    forall i | 0 < i < |xs| ensures ([y] + rest)[i] == f(xs[i]) {
      assert xs[i] == xs[1..][i - 1];
    }
  }
}
