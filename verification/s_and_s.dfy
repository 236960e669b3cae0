/** The S&S Activewear processor (s_and_s.py): the size header of the
    warehouse grid, the stock count read from a grid cell, and the
    column-indexed allocation of each requested size over the warehouse
    rows. */
module SsActivewear {
  import opened Text
  import opened Schemas
  import opened Allocation

  // ---------------------------------------------------------------------
  // _parse_int

  /** `re.sub(r"[^\d]", "", text)`: the decimal digits of the text, in order. */
  function DigitsOf(s: string): (ds: string)
    ensures |ds| <= |s|
    ensures forall i :: 0 <= i < |ds| ==> IsDigit(ds[i])
    ensures ds == [] <==> forall i :: 0 <= i < |s| ==> !IsDigit(s[i])
  {
    if s == [] then []
    else (if IsDigit(s[0]) then [s[0]] else []) + DigitsOf(s[1..])
  }

  lemma {:induction false} DigitsOfAppend(a: string, b: string)
    ensures DigitsOf(a + b) == DigitsOf(a) + DigitsOf(b)
  {
    if a == [] {
      assert a + b == b;
    } else {
      assert (a + b)[1..] == a[1..] + b;
      DigitsOfAppend(a[1..], b);
    }
  }

  /** A text made only of digits is its own digit string. */
  lemma {:induction false} DigitsOfDigits(s: string)
    requires forall i :: 0 <= i < |s| ==> IsDigit(s[i])
    ensures DigitsOf(s) == s
  {
    if s != [] {
      DigitsOfDigits(s[1..]);
    }
  }

  function DigitValue(c: char): int {
    c as int - '0' as int
  }

  function DigitChar(d: int): char
    requires 0 <= d <= 9
  {
    (d + '0' as int) as char
  }

  /** `int(ds)` for a string of decimal digits, read most significant first. */
  function Value(ds: string): int
    requires forall i :: 0 <= i < |ds| ==> IsDigit(ds[i])
  {
    if ds == [] then 0 else Value(ds[..|ds| - 1]) * 10 + DigitValue(ds[|ds| - 1])
  }

  lemma {:induction false} ValueNonNegative(ds: string)
    requires forall i :: 0 <= i < |ds| ==> IsDigit(ds[i])
    ensures Value(ds) >= 0
  {
    if ds != [] {
      ValueNonNegative(ds[..|ds| - 1]);
    }
  }

  /** `_parse_int`: the integer formed by all digits of the text, 0 when
      there is none. */
  function ParseInt(text: string): (r: int)
    ensures r >= 0
    ensures (forall i :: 0 <= i < |text| ==> !IsDigit(text[i])) ==> r == 0
  {
    var ds := DigitsOf(text);
    ValueNonNegative(ds);
    if ds == [] then 0 else Value(ds)
  }

  /** The decimal numeral of n, most significant digit first, without
      leading zeros. */
  function Numeral(n: nat): (s: string)
    ensures s != []
    ensures forall i :: 0 <= i < |s| ==> IsDigit(s[i])
  {
    if n < 10 then [DigitChar(n)] else Numeral(n / 10) + [DigitChar(n % 10)]
  }

  /** Reading a numeral back gives the number. */
  lemma {:induction false} ParseNumeral(n: nat)
    ensures ParseInt(Numeral(n)) == n
  {
    NumeralValue(n);
    DigitsOfDigits(Numeral(n));
  }

  lemma {:induction false} NumeralValue(n: nat)
    ensures Value(Numeral(n)) == n
  {
    if n >= 10 {
      NumeralValue(n / 10);
      var s := Numeral(n);
      assert s[..|s| - 1] == Numeral(n / 10);
    }
  }

  /** A leading zero adds nothing to the value of a digit string. */
  lemma {:induction false} ValueLeadingZero(ds: string)
    requires forall i :: 0 <= i < |ds| ==> IsDigit(ds[i])
    ensures Value(['0'] + ds) == Value(ds)
  {
    if ds != [] {
      var z := ['0'] + ds;
      ValueLeadingZero(ds[..|ds| - 1]);
      assert z[..|z| - 1] == ['0'] + ds[..|ds| - 1];
      assert z[|z| - 1] == ds[|ds| - 1];
    }
  }

  /** Leading zeros do not change the parsed value: `int("007")` is 7. */
  lemma ParseLeadingZero(t: string)
    ensures ParseInt(['0'] + t) == ParseInt(t)
  {
    DigitsOfAppend(['0'], t);
    assert DigitsOf(['0']) == ['0'] by {
      assert ['0'][1..] == [];
    }
    var ds := DigitsOf(t);
    ValueLeadingZero(ds);
    if ds == [] {
      assert Value(['0']) == Value([]) * 10 + DigitValue('0');
    }
  }

  /** Characters other than digits, such as thousands separators, do not
      change the parsed value. */
  lemma ParseIgnoresSeparator(a: string, c: char, b: string)
    requires !IsDigit(c)
    ensures ParseInt(a + [c] + b) == ParseInt(a + b)
  {
    DigitsOfAppend(a + [c], b);
    DigitsOfAppend(a, [c]);
    assert DigitsOf([c]) == [];
    DigitsOfAppend(a, b);
    assert DigitsOf(a + [c]) == DigitsOf(a);
    assert DigitsOf(a + [c] + b) == DigitsOf(a + b);
  }

  // ---------------------------------------------------------------------
  // re.findall(r"\d[\d,]*", cell_text)

  predicate IsNotDigit(c: char) {
    !IsDigit(c)
  }

  predicate IsDigitOrComma(c: char) {
    IsDigit(c) || c == ','
  }

  /** A match of the pattern occupies s[start..end]. */
  datatype Span = Span(start: nat, end: nat)

  /** s[m.start..m.end] is a digit followed by the longest run of digits
      and commas after it. */
  predicate IsNumberAt(s: string, m: Span) {
    && m.start < m.end <= |s|
    && IsDigit(s[m.start])
    && (forall i :: m.start <= i < m.end ==> IsDigitOrComma(s[i]))
    && (m.end == |s| || !IsDigitOrComma(s[m.end]))
  }

  /** Some span of ms covers position i. */
  predicate Covered(ms: seq<Span>, i: int) {
    exists k :: 0 <= k < |ms| && ms[k].start <= i < ms[k].end
  }

  /** The first match at or after p, when some digit follows p: the first
      digit and the run of digits and commas after it. */
  function NextSpan(s: string, p: nat): (m: Option<Span>)
    requires p <= |s|
    ensures m.None? <==> forall i :: p <= i < |s| ==> !IsDigit(s[i])
    ensures m.Some? ==> p <= m.value.start && IsNumberAt(s, m.value)
    ensures m.Some? ==> forall i :: p <= i < m.value.start ==> !IsDigit(s[i])
  {
    var i := SkipWhile(s, p, |s|, IsNotDigit);
    if i == |s| then None
    else
      var j := SkipWhile(s, i + 1, |s|, IsDigitOrComma);
      Some(Span(i, j))
  }

  /** The matches `re.findall` reports from position p on, left to right:
      every one is a maximal number, they follow each other without
      overlap, and every digit from p on lies inside one of them. */
  function NumberSpans(s: string, p: nat): (ms: seq<Span>)
    requires p <= |s|
    ensures forall k :: 0 <= k < |ms| ==> IsNumberAt(s, ms[k]) && p <= ms[k].start
    ensures forall k, l :: 0 <= k < l < |ms| ==> ms[k].end <= ms[l].start
    ensures forall i :: p <= i < |s| && IsDigit(s[i]) ==> Covered(ms, i)
    decreases |s| - p
  {
    match NextSpan(s, p)
    case None => []
    case Some(m) =>
      var rest := NumberSpans(s, m.end);
      NumberSpansCons(s, p, m, rest);
      [m] + rest
  }

  /** One step of the match loop keeps the facts of `NumberSpans`. */
  lemma NumberSpansCons(s: string, p: nat, m: Span, rest: seq<Span>)
    requires p <= m.start && IsNumberAt(s, m)
    requires forall i :: p <= i < m.start ==> !IsDigit(s[i])
    requires forall k :: 0 <= k < |rest| ==> IsNumberAt(s, rest[k]) && m.end <= rest[k].start
    requires forall k, l :: 0 <= k < l < |rest| ==> rest[k].end <= rest[l].start
    requires forall i :: m.end <= i < |s| && IsDigit(s[i]) ==> Covered(rest, i)
    ensures forall k :: 0 <= k < |[m] + rest| ==> IsNumberAt(s, ([m] + rest)[k]) && p <= ([m] + rest)[k].start
    ensures forall k, l :: 0 <= k < l < |[m] + rest| ==> ([m] + rest)[k].end <= ([m] + rest)[l].start
    ensures forall i :: p <= i < |s| && IsDigit(s[i]) ==> Covered([m] + rest, i)
  {
    ConsNumbers(s, p, m, rest);
    ConsOrdered(m, rest);
    ConsCovers(s, p, m, rest);
  }

  lemma ConsNumbers(s: string, p: nat, m: Span, rest: seq<Span>)
    requires p <= m.start && IsNumberAt(s, m)
    requires forall k :: 0 <= k < |rest| ==> IsNumberAt(s, rest[k]) && m.end <= rest[k].start
    ensures forall k :: 0 <= k < |[m] + rest| ==> IsNumberAt(s, ([m] + rest)[k]) && p <= ([m] + rest)[k].start
  {
    var ms := [m] + rest;
    forall k | 0 <= k < |ms| ensures IsNumberAt(s, ms[k]) && p <= ms[k].start {
      if k > 0 {
        assert ms[k] == rest[k - 1];
      }
    }
  }

  lemma ConsOrdered(m: Span, rest: seq<Span>)
    requires m.start < m.end
    requires forall k :: 0 <= k < |rest| ==> m.end <= rest[k].start
    requires forall k, l :: 0 <= k < l < |rest| ==> rest[k].end <= rest[l].start
    ensures forall k, l :: 0 <= k < l < |[m] + rest| ==> ([m] + rest)[k].end <= ([m] + rest)[l].start
  {
    var ms := [m] + rest;
    forall k, l | 0 <= k < l < |ms| ensures ms[k].end <= ms[l].start {
      assert ms[l] == rest[l - 1];
      if k > 0 {
        assert ms[k] == rest[k - 1];
      }
    }
  }

  lemma ConsCovers(s: string, p: nat, m: Span, rest: seq<Span>)
    requires p <= m.start < m.end <= |s|
    requires forall i :: p <= i < m.start ==> !IsDigit(s[i])
    requires forall i :: m.end <= i < |s| && IsDigit(s[i]) ==> Covered(rest, i)
    ensures forall i :: p <= i < |s| && IsDigit(s[i]) ==> Covered([m] + rest, i)
  {
    var ms := [m] + rest;
    forall i | p <= i < |s| && IsDigit(s[i]) ensures Covered(ms, i) {
      if i < m.end {
        assert ms[0].start <= i < ms[0].end;
      } else {
        var k :| 0 <= k < |rest| && rest[k].start <= i < rest[k].end;
        assert ms[k + 1] == rest[k];
      }
    }
  }

  /** `available` in `_fill_sizes_across_warehouses`: the value of the last number in a cell's text, 0 when the
      text holds no digit. */
  function Available(text: string): (r: int)
    ensures r >= 0
    ensures (forall i :: 0 <= i < |text| ==> !IsDigit(text[i])) ==> r == 0
  {
    var ms := NumberSpans(text, 0);
    if ms == [] then 0
    else
      var m := ms[|ms| - 1];
      ParseInt(text[m.start..m.end])
  }

  /** The match facts `NumberSpans` promises, for a given list of spans. */
  predicate SpansOf(s: string, ms: seq<Span>) {
    && (forall k :: 0 <= k < |ms| ==> IsNumberAt(s, ms[k]))
    && (forall k, l :: 0 <= k < l < |ms| ==> ms[k].end <= ms[l].start)
    && (forall i :: 0 <= i < |s| && IsDigit(s[i]) ==> Covered(ms, i))
  }

  /** When s[lo..hi] is a run of digits with neither a digit nor a comma on
      either side and no digit after it, the last of any list of matches
      with the facts of `NumberSpans` is exactly that run. */
  lemma LastSpan(s: string, ms: seq<Span>, lo: nat, hi: nat)
    requires SpansOf(s, ms)
    requires lo < hi <= |s|
    requires lo == 0 || !IsDigitOrComma(s[lo - 1])
    requires forall i :: lo <= i < hi ==> IsDigit(s[i])
    requires hi == |s| || s[hi] != ','
    requires forall i :: hi <= i < |s| ==> !IsDigit(s[i])
    ensures ms != [] && ms[|ms| - 1] == Span(lo, hi)
  {
    assert IsDigit(s[lo]);
    assert Covered(ms, lo);
    var k :| 0 <= k < |ms| && ms[k].start <= lo < ms[k].end;
    MatchThrough(s, ms[k], lo, hi);
    NoLaterMatch(s, ms, k);
  }

  /** A match covering lo is the run s[lo..hi]: it cannot start before lo,
      where no digit or comma stands, and it ends where the run ends. */
  lemma MatchThrough(s: string, m: Span, lo: nat, hi: nat)
    requires IsNumberAt(s, m) && m.start <= lo < m.end
    requires lo < hi <= |s|
    requires lo == 0 || !IsDigitOrComma(s[lo - 1])
    requires forall i :: lo <= i < hi ==> IsDigit(s[i])
    requires hi == |s| || s[hi] != ','
    requires forall i :: hi <= i < |s| ==> !IsDigit(s[i])
    ensures m == Span(lo, hi)
  {
    assert lo > 0 ==> !IsDigitOrComma(s[lo - 1]);
    assert hi < |s| ==> !IsDigitOrComma(s[hi]);
  }

  /** No match follows one after which the text has no digit. */
  lemma NoLaterMatch(s: string, ms: seq<Span>, k: int)
    requires SpansOf(s, ms)
    requires 0 <= k < |ms|
    requires forall i :: ms[k].end <= i < |s| ==> !IsDigit(s[i])
    ensures k == |ms| - 1
  {
    var last := ms[|ms| - 1];
    assert IsNumberAt(s, last) && IsDigit(s[last.start]);
  }

  /** Under the conditions of `LastSpan`, a cell's count is the value of
      that run. */
  lemma AvailableOfRun(s: string, lo: nat, hi: nat)
    requires lo < hi <= |s|
    requires lo == 0 || !IsDigitOrComma(s[lo - 1])
    requires forall i :: lo <= i < hi ==> IsDigit(s[i])
    requires hi == |s| || s[hi] != ','
    requires forall i :: hi <= i < |s| ==> !IsDigit(s[i])
    ensures Available(s) == ParseInt(s[lo..hi])
  {
    LastSpan(s, NumberSpans(s, 0), lo, hi);
  }

  /** Where the pieces of prefix + digits + suffix sit. */
  lemma Layout(prefix: string, num: string, suffix: string)
    requires prefix == [] || !IsDigitOrComma(prefix[|prefix| - 1])
    requires forall i :: 0 <= i < |num| ==> IsDigit(num[i])
    requires forall i :: 0 <= i < |suffix| ==> !IsDigit(suffix[i])
    requires suffix == [] || suffix[0] != ','
    ensures var s, lo, hi := prefix + num + suffix, |prefix|, |prefix| + |num|;
      && (lo == 0 || !IsDigitOrComma(s[lo - 1]))
      && (forall i :: lo <= i < hi ==> IsDigit(s[i]))
      && (hi == |s| || s[hi] != ',')
      && (forall i :: hi <= i < |s| ==> !IsDigit(s[i]))
      && s[lo..hi] == num
  {
    var s, lo, hi := prefix + num + suffix, |prefix|, |prefix| + |num|;
    assert forall i :: lo <= i < hi ==> s[i] == num[i - lo];
    assert forall i :: hi <= i < |s| ==> s[i] == suffix[i - hi];
    assert s[lo..hi] == num;
  }

  /** A cell whose text ends in a count, after any label that does not end
      in a digit or comma and before any digit-free note that does not start
      with a comma, shows that count: "Dallas, TX: 1234 left" offers 1234. */
  lemma AvailableOfLastNumeral(prefix: string, n: nat, suffix: string)
    requires prefix == [] || !IsDigitOrComma(prefix[|prefix| - 1])
    requires forall i :: 0 <= i < |suffix| ==> !IsDigit(suffix[i])
    requires suffix == [] || suffix[0] != ','
    ensures Available(prefix + Numeral(n) + suffix) == n
  {
    var num := Numeral(n);
    Layout(prefix, num, suffix);
    AvailableOfRun(prefix + num + suffix, |prefix|, |prefix| + |num|);
    ParseNumeral(n);
  }

  // ---------------------------------------------------------------------
  // _get_size_order

  /** A header text the size order keeps: non-blank after stripping and not
      the "Color" column. */
  predicate KeptHeader(t: string) {
    t != "" && Lower(t) != "color"
  }

  /** `_get_size_order`: the header texts stripped, without the blank ones and the
      "Color" column, in page order. */
  function SizeOrder(spans: seq<string>): (order: seq<string>)
    ensures |order| <= |spans|
    ensures forall x :: x in order ==> KeptHeader(x) && IsTrimmed(x)
  {
    if spans == [] then []
    else
      var t := Trim(spans[0]);
      (if KeptHeader(t) then [t] else []) + SizeOrder(spans[1..])
  }

  /** A text is in the size order exactly when it is the stripped text of
      some header, is not blank and is not "Color". */
  lemma {:induction false} SizeOrderMembers(spans: seq<string>)
    ensures forall x :: x in SizeOrder(spans) <==>
      (exists i :: 0 <= i < |spans| && x == Trim(spans[i]) && KeptHeader(x))
  {
    if spans != [] {
      var t, rest := Trim(spans[0]), SizeOrder(spans[1..]);
      assert SizeOrder(spans) == (if KeptHeader(t) then [t] else []) + rest;
      SizeOrderMembers(spans[1..]);
      KeepMapCons(spans, Trim, KeptHeader, rest);
    }
  }

  /** Membership in a filtered, mapped list grows one entry at a time. */
  lemma KeepMapCons<A, B>(xs: seq<A>, f: A -> B, keep: B -> bool, rest: seq<B>)
    requires xs != []
    requires forall y :: y in rest <==> exists i :: 0 <= i < |xs| - 1 && y == f(xs[1..][i]) && keep(y)
    ensures forall y ::
      (y in (if keep(f(xs[0])) then [f(xs[0])] else []) + rest <==> exists i :: 0 <= i < |xs| && y == f(xs[i]) && keep(y))
  {
    forall y | (exists i :: 0 <= i < |xs| && y == f(xs[i]) && keep(y))
      ensures y in (if keep(f(xs[0])) then [f(xs[0])] else []) + rest
    {
      var i :| 0 <= i < |xs| && y == f(xs[i]) && keep(y);
      if i > 0 {
        assert xs[i] == xs[1..][i - 1];
      }
    }
    forall y | y in rest ensures exists i :: 0 <= i < |xs| && y == f(xs[i]) && keep(y) {
      var i :| 0 <= i < |xs| - 1 && y == f(xs[1..][i]) && keep(y);
      assert xs[1..][i] == xs[i + 1];
    }
  }

  /** The header filter works text by text: the order of two header runs is
      the order of the first followed by the order of the second. */
  lemma {:induction false} SizeOrderAppend(a: seq<string>, b: seq<string>)
    ensures SizeOrder(a + b) == SizeOrder(a) + SizeOrder(b)
  {
    if a == [] {
      assert a + b == b;
    } else {
      assert (a + b)[1..] == a[1..] + b;
      SizeOrderAppend(a[1..], b);
    }
  }

  /** Filtering an already filtered size order changes nothing. */
  lemma {:induction false} SizeOrderIdempotent(spans: seq<string>)
    ensures SizeOrder(SizeOrder(spans)) == SizeOrder(spans)
  {
    if spans != [] {
      var t := Trim(spans[0]);
      SizeOrderIdempotent(spans[1..]);
      if KeptHeader(t) {
        TrimIdempotent(spans[0]);
        assert SizeOrder([t]) == [t];
        SizeOrderAppend([t], SizeOrder(spans[1..]));
      } else {
        assert SizeOrder(spans) == SizeOrder(spans[1..]);
      }
    }
  }

  /** `size_order.index(size)` in `_fill_sizes_across_warehouses`: the first
      column whose header is the size, or None when no header is. */
  function Column(order: seq<string>, size: string): (c: Option<nat>)
    ensures c.None? <==> size !in order
    ensures c.Some? ==> c.value < |order| && order[c.value] == size
    ensures c.Some? ==> forall k :: 0 <= k < c.value ==> order[k] != size
  {
    if order == [] then None
    else if order[0] == size then Some(0)
    else match Column(order[1..], size)
      case None => None
      case Some(k) => Some(k + 1)
  }

  // ---------------------------------------------------------------------
  // The row scan of _fill_sizes_across_warehouses

  /** A grid cell: its text and whether it holds a quantity input. */
  datatype Cell = Cell(text: string, hasInput: bool)

  /** A warehouse row: its `div.i` cells in column order. */
  type Row = seq<Cell>

  /** What row r can give column col: the cell's count when the cell exists,
      shows stock and holds a quantity input, and nothing otherwise. */
  function Offer(row: Row, col: nat): (o: int)
    ensures o >= 0
    ensures o > 0 <==> col < |row| && Available(row[col].text) > 0 && row[col].hasInput
  {
    if col < |row| && Available(row[col].text) > 0 && row[col].hasInput then Available(row[col].text) else 0
  }

  function Offers(rows: seq<Row>, col: nat): (os: seq<int>)
    ensures |os| == |rows|
    ensures forall i :: 0 <= i < |rows| ==> os[i] == Offer(rows[i], col)
  {
    seq(|rows|, i requires 0 <= i < |rows| => Offer(rows[i], col))
  }

  /** The warehouse-row loop of `_fill_sizes_across_warehouses` for one size: skip a row without the cell; skip a cell
      without stock, and every cell once nothing remains; type
      `min(remaining, available)` when the cell holds an input, and skip it
      with `remaining` unchanged otherwise. Stopping at `remaining == 0` and
      skipping the rows after it are the same outcome. */
  function FillRows(rows: seq<Row>, col: nat, remaining: int): (r: Scan)
    ensures Greedy(Offers(rows, col), r.amounts)
    ensures r.remaining == remaining - Sum(r.amounts)
    ensures remaining >= 0 ==> Sum(r.amounts) == Min(remaining, Sum(Offers(rows, col)))
    ensures remaining <= 0 ==> forall i :: 0 <= i < |r.amounts| ==> r.amounts[i] == 0
    ensures r.added <==> AnyPositive(r.amounts)
  {
    var offers := Offers(rows, col);
    if rows == [] || remaining <= 0 then
      ScanStop(offers, remaining);
      Scan(Zeros(|rows|), remaining, false)
    else
      assert offers[1..] == Offers(rows[1..], col);
      var row := rows[0];
      if col >= |row| then
        var rest := FillRows(rows[1..], col, remaining);
        ScanStep(offers, remaining, 0, rest);
        Scan([0] + rest.amounts, rest.remaining, rest.added)
      else
        var available := Available(row[col].text);
        if available <= 0 then
          var rest := FillRows(rows[1..], col, remaining);
          ScanStep(offers, remaining, 0, rest);
          Scan([0] + rest.amounts, rest.remaining, rest.added)
        else
          var take := Min(remaining, available);
          if !row[col].hasInput then
            var rest := FillRows(rows[1..], col, remaining);
            ScanStep(offers, remaining, 0, rest);
            Scan([0] + rest.amounts, rest.remaining, rest.added)
          else
            var rest := FillRows(rows[1..], col, remaining - take);
            ScanStep(offers, remaining, take, rest);
            Scan([take] + rest.amounts, rest.remaining, true)
  }

  /** The row scan's fill is the only greedy allocation of its total over
      the rows' usable cells in that column. */
  lemma FillRowsIsTheGreedyFill(rows: seq<Row>, col: nat, wanted: int, amounts: seq<int>)
    requires wanted >= 0
    requires Greedy(Offers(rows, col), amounts)
    requires Sum(amounts) == Min(wanted, Sum(Offers(rows, col)))
    ensures FillRows(rows, col, wanted).amounts == amounts
  {
    GreedyUnique(Offers(rows, col), FillRows(rows, col, wanted).amounts, amounts);
  }

  // ---------------------------------------------------------------------
  // The size loop of _fill_sizes_across_warehouses

  /** What one size gets, stated without the scan: nothing when its text is
      not a header or it wants nothing, otherwise the quantity capped by the
      usable stock of the first column headed by it. */
  function Expected(s: SizeItem, order: seq<string>, rows: seq<Row>): int {
    match Column(order, s.size)
    case None => 0
    case Some(c) => if s.quantity <= 0 then 0 else Min(s.quantity, Sum(Offers(rows, c)))
  }

  /** A size is reported out of stock when the grid has no column for it, or
      it got less than it wanted. */
  predicate Short(s: SizeItem, order: seq<string>, rows: seq<Row>) {
    s.size !in order || Expected(s, order, rows) < s.quantity
  }

  function ShortLabels(sizes: seq<SizeItem>, order: seq<string>, rows: seq<Row>): seq<string> {
    if sizes == [] then []
    else (if Short(sizes[0], order, rows) then [sizes[0].size] else []) + ShortLabels(sizes[1..], order, rows)
  }

  function Labels(sizes: seq<SizeItem>): (ls: seq<string>)
    ensures |ls| == |sizes|
    ensures forall i :: 0 <= i < |sizes| ==> ls[i] == sizes[i].size
  {
    if sizes == [] then [] else [sizes[0].size] + Labels(sizes[1..])
  }

  /** One size's outcome: the quantity typed in total, whether anything was
      typed, and whether the size goes on the out-of-stock list. */
  datatype SizeFill = SizeFill(filled: int, added: bool, short: bool)

  /** The body of the size loop of `_fill_sizes_across_warehouses`, for one size. */
  function FillSize(s: SizeItem, order: seq<string>, rows: seq<Row>): (r: SizeFill)
    ensures r.filled == Expected(s, order, rows)
    ensures r.added <==> r.filled > 0
    ensures r.short <==> Short(s, order, rows)
  {
    match Column(order, s.size)
    case None => SizeFill(0, false, true)
    case Some(c) =>
      var scan := FillRows(rows, c, s.quantity);
      GreedyTakes(Offers(rows, c), scan.amounts);
      SizeFill(Sum(scan.amounts), scan.added, scan.remaining > 0)
  }

  /** The processor's answer: the quantity typed per requested size, whether
      anything was added, the out-of-stock labels, and whether the
      add-to-cart button was clicked. */
  datatype SsResult = SsResult(filled: seq<int>, addedAny: bool, outOfStock: seq<string>, clicked: bool)

  /** The size loop over the requested sizes, in order. */
  function FillSizes(sizes: seq<SizeItem>, order: seq<string>, rows: seq<Row>): (r: SsResult)
    ensures |r.filled| == |sizes|
    ensures forall i :: 0 <= i < |sizes| ==> r.filled[i] == Expected(sizes[i], order, rows)
    ensures r.addedAny <==> AnyPositive(r.filled)
    ensures r.outOfStock == ShortLabels(sizes, order, rows)
  {
    if sizes == [] then SsResult([], false, [], false)
    else
      var f := FillSize(sizes[0], order, rows);
      var rest := FillSizes(sizes[1..], order, rows);
      PointwiseCons(sizes, s => Expected(s, order, rows), f.filled, rest.filled);
      AnyPositiveCons(f.filled, rest.filled);
      SsResult([f.filled] + rest.filled, f.added || rest.addedAny,
               (if f.short then [sizes[0].size] else []) + rest.outOfStock, false)
  }

  /** The product page as the processor reads it: the grid's header texts,
      its warehouse rows, and whether an add-to-cart button is present. */
  datatype Grid = Grid(headers: seq<string>, rows: seq<Row>, hasAddButton: bool)

  /** `_fill_sizes_across_warehouses`: with no warehouse row nothing is added and every
      requested size is out of stock; otherwise each size is filled from the
      column its header names. */
  function FillAcrossWarehouses(grid: Grid, sizes: seq<SizeItem>): (r: SsResult)
    ensures grid.rows == [] ==> !r.addedAny && r.outOfStock == Labels(sizes)
    ensures grid.rows == [] ==> r.filled == Zeros(|sizes|)
    ensures grid.rows != [] ==> r.outOfStock == ShortLabels(sizes, SizeOrder(grid.headers), grid.rows)
    ensures |r.filled| == |sizes|
    ensures grid.rows != [] ==>
      forall i :: 0 <= i < |sizes| ==> r.filled[i] == Expected(sizes[i], SizeOrder(grid.headers), grid.rows)
    ensures r.addedAny <==> AnyPositive(r.filled)
    ensures !r.clicked
  {
    if grid.rows == [] then SsResult(Zeros(|sizes|), false, Labels(sizes), false)
    else FillSizes(sizes, SizeOrder(grid.headers), grid.rows)
  }

  /** `process_item` after the page is set up: the add-to-cart button is clicked exactly when something
      was added and the page shows the button. */
  function ProcessItem(grid: Grid, item: Item): (r: SsResult)
    ensures r.clicked <==> r.addedAny && grid.hasAddButton
    ensures r.addedAny <==> AnyPositive(r.filled)
    ensures |r.filled| == |item.sizes|
    ensures grid.rows == [] ==> !r.addedAny && r.outOfStock == Labels(item.sizes)
    ensures grid.rows != [] ==> r.outOfStock == ShortLabels(item.sizes, SizeOrder(grid.headers), grid.rows)
    ensures grid.rows != [] ==>
      forall i :: 0 <= i < |item.sizes| ==> r.filled[i] == Expected(item.sizes[i], SizeOrder(grid.headers), grid.rows)
  {
    var f := FillAcrossWarehouses(grid, item.sizes);
    f.(clicked := f.addedAny && grid.hasAddButton)
  }

  /** Every typed quantity stays within what was asked: a size never gets
      more than its quantity, nor more than the usable stock of its column,
      and a size wanting nothing gets nothing. */
  lemma FillWithinRequest(grid: Grid, sizes: seq<SizeItem>, i: nat)
    requires i < |sizes|
    ensures 0 <= FillAcrossWarehouses(grid, sizes).filled[i]
    ensures sizes[i].quantity <= 0 ==> FillAcrossWarehouses(grid, sizes).filled[i] == 0
    ensures sizes[i].quantity > 0 ==> FillAcrossWarehouses(grid, sizes).filled[i] <= sizes[i].quantity
  {
    var order := SizeOrder(grid.headers);
    if grid.rows != [] {
      match Column(order, sizes[i].size)
      case None =>
      case Some(c) =>
        SumNonNegative(Offers(grid.rows, c));
    }
  }

  /** A size is left off the out-of-stock list exactly when it has a column
      and got all it wanted (or wanted nothing). */
  lemma ShortIff(s: SizeItem, order: seq<string>, rows: seq<Row>)
    ensures !Short(s, order, rows) <==>
      s.size in order && (s.quantity <= 0 || Expected(s, order, rows) == s.quantity)
  {
    match Column(order, s.size)
    case None =>
    case Some(c) =>
      SumNonNegative(Offers(rows, c));
  }
}
