/** SanMar's size allocation (sanmar.py): the per-size pool of warehouse cells
    read from the inventory tables, the size alias expansion, and the greedy
    fill of each requested size across the pool's cells. */
module SanMar {
  import opened Text
  import opened Schemas
  import opened Grouping
  import opened Allocation

  // ---------------------------------------------------------------------
  // The pool: build_size_inputs_by_warehouse

  /** One warehouse's quantity input for one size column: the stock it shows,
      whether the input is disabled, and whether typing into it works. */
  datatype Cell = Cell(warehouse: string, available: int, disabled: bool, fillSucceeds: bool)

  /** One inventory table: the header texts of its size columns and, per
      warehouse row and column, the cell holding a quantity input (None when
      the row has no such cell or the cell has no input). */
  datatype Table = Table(labels: seq<string>, rows: seq<seq<Option<Cell>>>)

  /** One `size_to_entries.setdefault(size_key, []).append(...)`. */
  datatype Entry = Entry(key: string, cell: Cell)

  function EntryKey(e: Entry): string {
    e.key
  }

  /** A header whose stripped text is empty is skipped. */
  predicate Blank(text: string) {
    Trim(text) == ""
  }

  /** The pool key of a header: None for a blank header, otherwise
      `raw.strip().upper()` of the stripped text `raw`. */
  function HeaderKey(text: string): (k: Option<string>)
    ensures k.None? <==> Blank(text)
    ensures k.Some? ==> k.value == Upper(Trim(text))
  {
    var raw := Trim(text);
    TrimIdempotent(text);
    if raw == "" then None else Some(Upper(Trim(raw)))
  }

  function HeaderKeys(labels: seq<string>): (ks: seq<Option<string>>)
    ensures |ks| == |labels|
    ensures forall j :: 0 <= j < |labels| ==> ks[j] == HeaderKey(labels[j])
  {
    seq(|labels|, j requires 0 <= j < |labels| => HeaderKey(labels[j]))
  }

  /** Column j of a row contributes e: the column's header is not blank,
      the row has a cell with an input there, and e files that cell under
      the header's key. */
  predicate CellAt(keys: seq<Option<string>>, row: seq<Option<Cell>>, j: int, e: Entry) {
    && 0 <= j < |keys|
    && keys[j].Some?
    && j < |row|
    && row[j] == Some(e.cell)
    && e.key == keys[j].value
  }

  /** The entry column j of a row contributes, if any. */
  function ColumnEntry(keys: seq<Option<string>>, row: seq<Option<Cell>>, j: nat): (es: seq<Entry>)
    requires j < |keys|
    ensures |es| <= 1
    ensures forall e :: e in es <==> CellAt(keys, row, j, e)
  {
    if keys[j].None? || j >= |row| || row[j].None? then []
    else [Entry(keys[j].value, row[j].value)]
  }

  /** Some column j or later of the row contributes e. */
  predicate InRowFrom(keys: seq<Option<string>>, row: seq<Option<Cell>>, j: int, e: Entry) {
    exists c :: j <= c < |keys| && CellAt(keys, row, c, e)
  }

  /** The entries of one row, columns j.. in header order. */
  function RowEntries(keys: seq<Option<string>>, row: seq<Option<Cell>>, j: nat): (es: seq<Entry>)
    requires j <= |keys|
    ensures forall e :: e in es <==> InRowFrom(keys, row, j, e)
    decreases |keys| - j
  {
    if j == |keys| then []
    else
      var rest := RowEntries(keys, row, j + 1);
      forall e | InRowFrom(keys, row, j, e)
        ensures CellAt(keys, row, j, e) || InRowFrom(keys, row, j + 1, e)
      {
        var c :| j <= c < |keys| && CellAt(keys, row, c, e);
        if c > j {
          assert j + 1 <= c < |keys| && CellAt(keys, row, c, e);
        }
      }
      ColumnEntry(keys, row, j) + rest
  }

  /** Some row r or later of the table contributes e. */
  predicate InRowsFrom(keys: seq<Option<string>>, rows: seq<seq<Option<Cell>>>, r: nat, e: Entry) {
    exists q :: r <= q < |rows| && InRowFrom(keys, rows[q], 0, e)
  }

  /** The entries of the rows r.. of a table, row after row. */
  function RowsEntries(keys: seq<Option<string>>, rows: seq<seq<Option<Cell>>>, r: nat): (es: seq<Entry>)
    requires r <= |rows|
    ensures forall e :: e in es <==> InRowsFrom(keys, rows, r, e)
    decreases |rows| - r
  {
    if r == |rows| then []
    else
      var rest := RowsEntries(keys, rows, r + 1);
      forall e | InRowsFrom(keys, rows, r, e)
        ensures InRowFrom(keys, rows[r], 0, e) || InRowsFrom(keys, rows, r + 1, e)
      {
        var q :| r <= q < |rows| && InRowFrom(keys, rows[q], 0, e);
        if q > r {
          assert r + 1 <= q < |rows| && InRowFrom(keys, rows[q], 0, e);
        }
      }
      RowEntries(keys, rows[r], 0) + rest
  }

  /** A table with its header texts replaced by their keys. */
  datatype KeyedTable = KeyedTable(keys: seq<Option<string>>, rows: seq<seq<Option<Cell>>>)

  /** `build_size_inputs_by_warehouse`: every table's header texts are read once, up front. */
  function KeyTables(tables: seq<Table>): (ks: seq<KeyedTable>)
    ensures |ks| == |tables|
    ensures forall t :: 0 <= t < |tables| ==> ks[t] == KeyedTable(HeaderKeys(tables[t].labels), tables[t].rows)
  {
    seq(|tables|, t requires 0 <= t < |tables| => KeyedTable(HeaderKeys(tables[t].labels), tables[t].rows))
  }

  /** Some row of the table contributes e. */
  predicate InTable(t: KeyedTable, e: Entry) {
    InRowsFrom(t.keys, t.rows, 0, e)
  }

  /** Some table t or later of the page contributes e. */
  predicate InTablesFrom(tables: seq<KeyedTable>, t: nat, e: Entry) {
    exists u :: t <= u < |tables| && InTable(tables[u], e)
  }

  /** The entries of the tables t.. of the page, table after table. */
  function TablesEntries(tables: seq<KeyedTable>, t: nat): (es: seq<Entry>)
    requires t <= |tables|
    ensures forall e :: e in es <==> InTablesFrom(tables, t, e)
    decreases |tables| - t
  {
    if t == |tables| then []
    else
      var rest := TablesEntries(tables, t + 1);
      forall e | InTablesFrom(tables, t, e)
        ensures InTable(tables[t], e) || InTablesFrom(tables, t + 1, e)
      {
        var u :| t <= u < |tables| && InTable(tables[u], e);
        if u > t {
          assert t + 1 <= u < |tables| && InTable(tables[u], e);
        }
      }
      RowsEntries(tables[t].keys, tables[t].rows, 0) + rest
  }

  /** The entries of every table, in page order: exactly the cells with an
      input under a non-blank header, each filed under its header's key. */
  function PoolEntries(tables: seq<Table>): (es: seq<Entry>)
    ensures forall e :: e in es <==> exists t :: 0 <= t < |tables| && InTable(KeyTables(tables)[t], e)
  {
    TablesEntries(KeyTables(tables), 0)
  }

  /** Column c of the row holds an input under a non-blank header. */
  predicate Contributes(keys: seq<Option<string>>, row: seq<Option<Cell>>, c: int) {
    0 <= c < |keys| && keys[c].Some? && c < |row| && row[c].Some?
  }

  /** The contributing columns j.. of a row, in increasing order. */
  function ContributingColumns(keys: seq<Option<string>>, row: seq<Option<Cell>>, j: nat): (cols: seq<nat>)
    requires j <= |keys|
    ensures forall i :: 0 <= i < |cols| ==> j <= cols[i] && Contributes(keys, row, cols[i])
    ensures forall a, b :: 0 <= a < b < |cols| ==> cols[a] < cols[b]
    ensures forall c :: j <= c && Contributes(keys, row, c) ==> c in cols
    decreases |keys| - j
  {
    if j == |keys| then []
    else (if Contributes(keys, row, j) then [j] else []) + ContributingColumns(keys, row, j + 1)
  }

  /** A row's entries are its contributing cells in column order, each filed
      under its column's key. */
  lemma {:induction false} RowEntriesInColumnOrder(keys: seq<Option<string>>, row: seq<Option<Cell>>, j: nat)
    requires j <= |keys|
    ensures var es, cols := RowEntries(keys, row, j), ContributingColumns(keys, row, j);
      && |es| == |cols|
      && forall i :: 0 <= i < |es| ==> es[i] == Entry(keys[cols[i]].value, row[cols[i]].value)
    decreases |keys| - j
  {
    if j < |keys| {
      RowEntriesInColumnOrder(keys, row, j + 1);
      var es, cols := RowEntries(keys, row, j), ContributingColumns(keys, row, j);
      var rest, more := RowEntries(keys, row, j + 1), ContributingColumns(keys, row, j + 1);
      if Contributes(keys, row, j) {
        assert es == [Entry(keys[j].value, row[j].value)] + rest;
        assert cols == [j] + more;
      } else {
        assert es == rest && cols == more;
      }
    }
  }

  lemma {:induction false} RowsEntriesDrop(keys: seq<Option<string>>, rows: seq<seq<Option<Cell>>>, r: nat)
    requires r <= |rows|
    ensures RowsEntries(keys, rows, r) == RowsEntries(keys, rows[r..], 0)
    decreases |rows| - r
  {
    if r < |rows| {
      RowsEntriesDrop(keys, rows, r + 1);
      RowsEntriesDrop(keys, rows[r..], 1);
      assert rows[r..][1..] == rows[r + 1..];
    }
  }

  /** A table's entries are those of its first rows followed by those of
      the rest: row after row. */
  lemma {:induction false} RowsEntriesAppend(keys: seq<Option<string>>, rows: seq<seq<Option<Cell>>>, more: seq<seq<Option<Cell>>>)
    ensures RowsEntries(keys, rows + more, 0) == RowsEntries(keys, rows, 0) + RowsEntries(keys, more, 0)
    decreases |rows|
  {
    if rows == [] {
      assert rows + more == more;
    } else {
      RowsEntriesDrop(keys, rows + more, 1);
      RowsEntriesDrop(keys, rows, 1);
      assert (rows + more)[1..] == rows[1..] + more;
      RowsEntriesAppend(keys, rows[1..], more);
    }
  }

  /** A table of one row holds that row's entries. */
  lemma RowsEntriesSingle(keys: seq<Option<string>>, row: seq<Option<Cell>>)
    ensures RowsEntries(keys, [row], 0) == RowEntries(keys, row, 0)
  {
  }

  lemma {:induction false} TablesEntriesDrop(tables: seq<KeyedTable>, t: nat)
    requires t <= |tables|
    ensures TablesEntries(tables, t) == TablesEntries(tables[t..], 0)
    decreases |tables| - t
  {
    if t < |tables| {
      TablesEntriesDrop(tables, t + 1);
      TablesEntriesDrop(tables[t..], 1);
      assert tables[t..][1..] == tables[t + 1..];
    }
  }

  lemma {:induction false} TablesEntriesAppend(tables: seq<KeyedTable>, more: seq<KeyedTable>)
    ensures TablesEntries(tables + more, 0) == TablesEntries(tables, 0) + TablesEntries(more, 0)
    decreases |tables|
  {
    if tables == [] {
      assert tables + more == more;
    } else {
      TablesEntriesDrop(tables + more, 1);
      TablesEntriesDrop(tables, 1);
      assert (tables + more)[1..] == tables[1..] + more;
      TablesEntriesAppend(tables[1..], more);
    }
  }

  /** The page's entries are those of its first tables followed by those of
      the rest: table after table. */
  lemma PoolEntriesAppend(tables: seq<Table>, more: seq<Table>)
    ensures PoolEntries(tables + more) == PoolEntries(tables) + PoolEntries(more)
  {
    assert KeyTables(tables + more) == KeyTables(tables) + KeyTables(more);
    TablesEntriesAppend(KeyTables(tables), KeyTables(more));
  }

  /** A page of one table holds that table's entries. */
  lemma PoolEntriesSingle(table: Table)
    ensures PoolEntries([table]) == RowsEntries(HeaderKeys(table.labels), table.rows, 0)
  {
    var kt := KeyTables([table]);
    assert kt[0] == KeyedTable(HeaderKeys(table.labels), table.rows);
    assert TablesEntries(kt, 1) == [];
  }

  function CellsOf(es: seq<Entry>): (cs: seq<Cell>)
    ensures |cs| == |es|
    ensures forall i :: 0 <= i < |es| ==> cs[i] == es[i].cell
  {
    seq(|es|, i requires 0 <= i < |es| => es[i].cell)
  }

  /** `size_to_entries[k]`, or no cells when k is not a key. */
  function Lookup(pool: seq<Group<Entry>>, k: string): (cs: seq<Cell>)
    ensures !HasGroup(pool, k) ==> cs == []
  {
    var i := GroupIndex(pool, k);
    if i < 0 then [] else CellsOf(pool[i].members)
  }

  /** The dictionary of lists the table walk builds, before aliasing. */
  function PoolOf(es: seq<Entry>): seq<Group<Entry>> {
    GroupBy(es, EntryKey)
  }

  /** The pool has a key exactly for the keys of the entries, and under each
      key it lists that key's cells in page order. */
  lemma PoolLookup(es: seq<Entry>, k: string)
    ensures HasGroup(PoolOf(es), k) <==> exists j :: 0 <= j < |es| && es[j].key == k
    ensures Lookup(PoolOf(es), k) == CellsOf(Members(es, EntryKey, k))
  {
    var pool := PoolOf(es);
    if HasGroup(pool, k) {
      var i := GroupIndex(pool, k);
      FirstWithKeySpec(es, EntryKey, k);
    } else {
      forall j | 0 <= j < |es| ensures es[j].key != k {
        assert HasGroup(pool, EntryKey(es[j]));
      }
      MembersNone(es, EntryKey, k);
    }
  }

  const OneSize: string := "ONE SIZE"
  const Osfa: string := "OSFA"

  predicate IsOneSizeKey(k: string) {
    k == OneSize || k == Osfa
  }

  /** The end of `build_size_inputs_by_warehouse`: a pool with a single key that is neither "ONE SIZE" nor
      "OSFA" also answers to both, with the same cells. */
  function AliasSingleKey(pool: seq<Group<Entry>>): (r: seq<Group<Entry>>)
    ensures |pool| <= |r| && r[..|pool|] == pool
    ensures forall k :: HasGroup(r, k) <==>
      HasGroup(pool, k) || (|pool| == 1 && !IsOneSizeKey(pool[0].key) && IsOneSizeKey(k))
    ensures |pool| == 1 ==> forall i :: 0 <= i < |r| ==> r[i].members == pool[0].members
    ensures |pool| != 1 ==> r == pool
  {
    if |pool| == 1 && !IsOneSizeKey(pool[0].key) then
      var only := pool[0];
      var r := pool + [Group(OneSize, only.members), Group(Osfa, only.members)];
      assert r[1].key == OneSize && r[2].key == Osfa;
      assert forall k :: HasGroup(r, k) ==> k == only.key || IsOneSizeKey(k);
      r
    else
      pool
  }

  /** The pool a SanMar colour page offers. */
  function BuildPool(tables: seq<Table>): seq<Group<Entry>> {
    AliasSingleKey(PoolOf(PoolEntries(tables)))
  }

  // ---------------------------------------------------------------------
  // normalize_size

  /** One entry of the `alt` dictionary: a key and its variants. */
  datatype AliasGroup = AliasGroup(key: string, variants: set<string>)

  /** The `alt` dictionary of `normalize_size`. */
  const AliasTable: seq<AliasGroup> := [
    AliasGroup("XS", {"XSM", "X-SMALL"}),
    AliasGroup("S", {"SM", "SMALL"}),
    AliasGroup("M", {"MED", "MEDIUM"}),
    AliasGroup("L", {"LG", "LARGE"}),
    AliasGroup("XL", {"X-LARGE", "XLG"}),
    AliasGroup("2XL", {"XXL", "2X-LARGE"}),
    AliasGroup("3XL", {"XXXL", "3X-LARGE"}),
    AliasGroup("4XL", {"XXXXL", "4X-LARGE"}),
    AliasGroup("5XL", {"XXXXXL", "5X-LARGE"}),
    AliasGroup("6XL", {"XXXXXXL", "6X-LARGE"}),
    AliasGroup("7XL", {"XXXXXXXL", "7X-LARGE"}),
    AliasGroup("8XL", {"XXXXXXXXL", "8X-LARGE"}),
    AliasGroup("9XL", {"XXXXXXXXXL", "9X-LARGE"}),
    AliasGroup(OneSize, {"OS", Osfa}),
    AliasGroup(Osfa, {OneSize, "OS"})
  ]

  /** The text u names group g, as its key or as one of its variants. */
  predicate Names(g: AliasGroup, u: string) {
    u == g.key || u in g.variants
  }

  /** The keys and variants of every group of the table that u names. */
  function Expand(u: string, table: seq<AliasGroup>): (r: set<string>)
    ensures forall c :: c in r <==> exists i :: 0 <= i < |table| && Names(table[i], u) && Names(table[i], c)
  {
    if table == [] then {}
    else
      var g := table[|table| - 1];
      var p := table[..|table| - 1];
      var rest := Expand(u, p);
      assert forall i :: 0 <= i < |p| ==> p[i] == table[i];
      rest + (if Names(g, u) then {g.key} + g.variants else {})
  }

  /** Some alias group names both u and c. */
  predicate Aliased(u: string, c: string) {
    exists i :: 0 <= i < |AliasTable| && Names(AliasTable[i], u) && Names(AliasTable[i], c)
  }

  /** `normalize_size`: the stripped, upper-cased text together with every
      spelling of every alias group that names it. Python returns the set as
      a list in an order the program does not control; the model keeps the
      set. */
  function Candidates(text: string): (r: set<string>)
    ensures Upper(Trim(text)) in r
    ensures forall c :: c in r <==> c == Upper(Trim(text)) || Aliased(Upper(Trim(text)), c)
  {
    var u := Upper(Trim(text));
    {u} + Expand(u, AliasTable)
  }

  /** A text that names no alias group is its only candidate. */
  lemma CandidatesUnaliased(text: string)
    requires forall i :: 0 <= i < |AliasTable| ==> !Names(AliasTable[i], Upper(Trim(text)))
    ensures Candidates(text) == {Upper(Trim(text))}
  {
  }

  /** A text that names an alias group has the whole group among its
      candidates. */
  lemma CandidatesCoverGroup(text: string, i: int)
    requires 0 <= i < |AliasTable| && Names(AliasTable[i], Upper(Trim(text)))
    ensures AliasTable[i].key in Candidates(text)
    ensures AliasTable[i].variants <= Candidates(text)
  {
  }

  /** On a page whose pool has a single key other than "ONE SIZE" and
      "OSFA", a one-size label finds both aliases, and whichever the set
      order picks, it is served from that single column's cells. */
  lemma SingleColumnServesOneSize(pool: seq<Group<Entry>>, text: string)
    requires |pool| == 1 && !IsOneSizeKey(pool[0].key)
    requires IsOneSizeKey(Upper(Trim(text)))
    ensures OneSize in Matches(text, AliasSingleKey(pool))
    ensures Osfa in Matches(text, AliasSingleKey(pool))
    ensures forall c :: c in Matches(text, AliasSingleKey(pool)) ==>
      Lookup(AliasSingleKey(pool), c) == CellsOf(pool[0].members)
  {
    var u := Upper(Trim(text));
    var g := AliasTable[13];
    assert g == AliasGroup(OneSize, {"OS", Osfa});
    assert Names(g, u) && Names(g, OneSize) && Names(g, Osfa);
    assert Aliased(u, OneSize) && Aliased(u, Osfa);
  }

  // ---------------------------------------------------------------------
  // The cell scan of add_requested_sizes

  /** What a cell can give the scan: its stock when it is enabled, shows
      stock and accepts the typed quantity, and nothing otherwise. */
  function Offer(c: Cell): (o: int)
    ensures o >= 0
    ensures o > 0 <==> !c.disabled && c.available > 0 && c.fillSucceeds
  {
    if !c.disabled && c.available > 0 && c.fillSucceeds then c.available else 0
  }

  function Offers(cells: seq<Cell>): (os: seq<int>)
    ensures |os| == |cells|
    ensures forall i :: 0 <= i < |cells| ==> os[i] == Offer(cells[i])
  {
    seq(|cells|, i requires 0 <= i < |cells| => Offer(cells[i]))
  }

  /** The cell loop of `add_requested_sizes`: stop once nothing remains; skip disabled cells and
      cells without stock; type `min(available, remaining)`; when typing
      fails, move on with `remaining` unchanged. */
  function ScanCells(cells: seq<Cell>, remaining: int): (r: Scan)
    ensures Greedy(Offers(cells), r.amounts)
    ensures r.remaining == remaining - Sum(r.amounts)
    ensures remaining >= 0 ==> Sum(r.amounts) == Min(remaining, Sum(Offers(cells)))
    ensures remaining <= 0 ==> forall i :: 0 <= i < |r.amounts| ==> r.amounts[i] == 0
    ensures r.added <==> AnyPositive(r.amounts)
  {
    var offers := Offers(cells);
    if cells == [] || remaining <= 0 then
      ScanStop(offers, remaining);
      Scan(Zeros(|cells|), remaining, false)
    else
      var c := cells[0];
      assert offers[1..] == Offers(cells[1..]);
      var take := Min(c.available, remaining);
      if c.disabled || c.available <= 0 || !c.fillSucceeds then
        var rest := ScanCells(cells[1..], remaining);
        ScanStep(offers, remaining, 0, rest);
        Scan([0] + rest.amounts, rest.remaining, rest.added)
      else
        var rest := ScanCells(cells[1..], remaining - take);
        ScanStep(offers, remaining, take, rest);
        Scan([take] + rest.amounts, rest.remaining, true)
  }

  /** The scan's fill is the only greedy allocation of its total: any
      greedy allocation over the same cells that takes the wanted quantity
      capped by the usable stock is the scan's. */
  lemma ScanIsTheGreedyFill(cells: seq<Cell>, wanted: int, amounts: seq<int>)
    requires wanted >= 0
    requires Greedy(Offers(cells), amounts)
    requires Sum(amounts) == Min(wanted, Sum(Offers(cells)))
    ensures ScanCells(cells, wanted).amounts == amounts
  {
    GreedyUnique(Offers(cells), ScanCells(cells, wanted).amounts, amounts);
  }

  // ---------------------------------------------------------------------
  // The demand loop of add_requested_sizes

  /** The set-order choice of `next(c for c in candidates if c in
      size_entries)` for a requested label: any member of its non-empty set
      of matching keys. */
  ghost predicate PickSound(pick: (string, set<string>) -> string) {
    forall text: string, m: set<string> :: m != {} ==> pick(text, m) in m
  }

  /** The candidates of a text that are pool keys. */
  function Matches(text: string, pool: seq<Group<Entry>>): (m: set<string>)
    ensures forall c :: c in m <==> c in Candidates(text) && HasGroup(pool, c)
  {
    set c | c in Candidates(text) && HasGroup(pool, c)
  }

  /** What one size gets, stated without the scan: nothing for a
      non-positive quantity or a text no pool key matches, otherwise the
      quantity capped by the usable stock under the chosen key. */
  function Expected(s: SizeItem, pool: seq<Group<Entry>>, pick: (string, set<string>) -> string): int {
    var m := Matches(s.size, pool);
    if s.quantity <= 0 || m == {} then 0
    else Min(s.quantity, Sum(Offers(Lookup(pool, pick(s.size, m)))))
  }

  /** A size is reported out of stock when it wanted something and got less. */
  predicate Short(s: SizeItem, pool: seq<Group<Entry>>, pick: (string, set<string>) -> string) {
    s.quantity > 0 && Expected(s, pool, pick) < s.quantity
  }

  /** The labels of the short sizes, in demand order. */
  function ShortLabels(sizes: seq<SizeItem>, pool: seq<Group<Entry>>, pick: (string, set<string>) -> string): seq<string> {
    if sizes == [] then []
    else (if Short(sizes[0], pool, pick) then [sizes[0].size] else []) + ShortLabels(sizes[1..], pool, pick)
  }

  /** One size's outcome: the quantity typed in total, whether any typing
      succeeded, and whether the size goes on the out-of-stock list. */
  datatype SizeFill = SizeFill(filled: int, added: bool, short: bool)

  /** The body of the size loop of `add_requested_sizes`, for one size. */
  function FillSize(s: SizeItem, pool: seq<Group<Entry>>, pick: (string, set<string>) -> string): (r: SizeFill)
    requires PickSound(pick)
    ensures r.filled == Expected(s, pool, pick)
    ensures r.added <==> r.filled > 0
    ensures r.short <==> Short(s, pool, pick)
  {
    if s.quantity <= 0 then SizeFill(0, false, false)
    else
      var m := Matches(s.size, pool);
      if m == {} then SizeFill(0, false, true)
      else
        var cells := Lookup(pool, pick(s.size, m));
        var scan := ScanCells(cells, s.quantity);
        GreedyTakes(Offers(cells), scan.amounts);
        SizeFill(Sum(scan.amounts), scan.added, scan.remaining > 0)
  }

  /** The processor's answer: the quantity typed per requested size, whether
      anything was added, the out-of-stock labels, and whether the
      add-to-basket button was clicked. */
  datatype SanmarResult = SanmarResult(filled: seq<int>, addedAny: bool, outOfStock: seq<string>, clicked: bool)

  /** The demand loop over the requested sizes, in order. */
  function FillSizes(sizes: seq<SizeItem>, pool: seq<Group<Entry>>, pick: (string, set<string>) -> string): (r: SanmarResult)
    requires PickSound(pick)
    ensures |r.filled| == |sizes|
    ensures forall i :: 0 <= i < |sizes| ==> r.filled[i] == Expected(sizes[i], pool, pick)
    ensures r.addedAny <==> AnyPositive(r.filled)
    ensures r.outOfStock == ShortLabels(sizes, pool, pick)
  {
    if sizes == [] then SanmarResult([], false, [], false)
    else
      var f := FillSize(sizes[0], pool, pick);
      var rest := FillSizes(sizes[1..], pool, pick);
      PointwiseCons(sizes, s => Expected(s, pool, pick), f.filled, rest.filled);
      AnyPositiveCons(f.filled, rest.filled);
      SanmarResult([f.filled] + rest.filled, f.added || rest.addedAny,
                   (if f.short then [sizes[0].size] else []) + rest.outOfStock, false)
  }

  /** `add_requested_sizes`: the pool of the page's tables, the demand loop,
      and the add-to-basket click when something was added. */
  function AddRequestedSizes(tables: seq<Table>, sizes: seq<SizeItem>, pick: (string, set<string>) -> string): (r: SanmarResult)
    requires PickSound(pick)
    ensures r.clicked <==> r.addedAny
    ensures |r.filled| == |sizes|
    ensures forall i :: 0 <= i < |sizes| ==> r.filled[i] == Expected(sizes[i], BuildPool(tables), pick)
    ensures r.addedAny <==> AnyPositive(r.filled)
    ensures r.outOfStock == ShortLabels(sizes, BuildPool(tables), pick)
  {
    var f := FillSizes(sizes, BuildPool(tables), pick);
    f.(clicked := f.addedAny)
  }
}
