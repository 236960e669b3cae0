/** Turning scraped product cards into canonical line items
    (main.py `extract_line_items`, steps 3 to 5): one raw row per size entry,
    rows bucketed by their stripped (part, color, store) key, per-size
    quantities summed under the normalised size label, and each bucket
    emitted with its sizes sorted by rank. */
module LineItems {
  import opened Text
  import opened Schemas
  import opened Canonical
  import opened SizeSort

  /** A scraped product card: its text fields and its size entries. */
  datatype Card = Card(name: string, part: string, color: string, store: string, sizes: seq<SizeItem>)

  /** One size entry of one card. */
  datatype RawRow = RawRow(name: string, part: string, color: string, store: string, size: string, quantity: int)

  /** The merge key: stripped part, color and store. */
  datatype Key = Key(part: string, color: string, store: string)

  /** A merge bucket. `sizes` is the per-size dictionary in insertion order. */
  datatype Bucket = Bucket(key: Key, name: string, sizes: seq<SizeItem>, total: int)

  /** Store of a card that shows none. */
  const CustomStore: string := "Custom"

  function StoreOrCustom(store: string): (r: string)
    ensures r != ""
    ensures store != "" ==> r == store
  {
    if store == "" then CustomStore else store
  }

  // ---------------------------------------------------------------------
  // Step 3: cards to rows

  /** The rows of one card, one per size entry, in the card's order. */
  function CardRows(c: Card): (rows: seq<RawRow>)
    ensures |rows| == |c.sizes|
    ensures forall i :: 0 <= i < |rows| ==>
      rows[i] == RawRow(c.name, c.part, c.color, StoreOrCustom(c.store), c.sizes[i].size, c.sizes[i].quantity)
  {
    seq(|c.sizes|, i requires 0 <= i < |c.sizes| =>
      RawRow(c.name, c.part, c.color, StoreOrCustom(c.store), c.sizes[i].size, c.sizes[i].quantity))
  }

  /** Rows of all cards, card after card. No row has an empty store. */
  function ExpandCards(cards: seq<Card>): (rows: seq<RawRow>)
    ensures forall j :: 0 <= j < |rows| ==> rows[j].store != ""
  {
    if cards == [] then [] else CardRows(cards[0]) + ExpandCards(cards[1..])
  }

  /** Expansion distributes over concatenation of card lists. */
  lemma {:induction false} ExpandCardsAppend(a: seq<Card>, b: seq<Card>)
    ensures ExpandCards(a + b) == ExpandCards(a) + ExpandCards(b)
  {
    if a == [] {
      assert a + b == b;
    } else {
      assert (a + b)[0] == a[0];
      assert (a + b)[1..] == a[1..] + b;
      ExpandCardsAppend(a[1..], b);
    }
  }

  // ---------------------------------------------------------------------
  // Keys and the reference quantities they select

  /** A row as the merge loop sees it: its stripped key and its normalised
      size label. */
  datatype Row = Row(key: Key, name: string, size: string, quantity: int)

  function NormalizeRow(r: RawRow): (n: Row)
    ensures n.key == Key(Trim(r.part), Trim(r.color), Trim(r.store))
    ensures n.size == NormalizeSizeLabel(r.size)
    ensures n.name == r.name && n.quantity == r.quantity
  {
    Row(Key(NormalizeKeyText(r.part), NormalizeKeyText(r.color), NormalizeKeyText(r.store)),
        r.name, NormalizeSizeLabel(r.size), r.quantity)
  }

  function NormalizeRows(rows: seq<RawRow>): (ns: seq<Row>)
    ensures |ns| == |rows|
    ensures forall j :: 0 <= j < |rows| ==> ns[j] == NormalizeRow(rows[j])
  {
    seq(|rows|, j requires 0 <= j < |rows| => NormalizeRow(rows[j]))
  }

  /** Index of the first row with key k, or |rows| when there is none. */
  function FirstKeyRow(rows: seq<Row>, k: Key): (i: nat)
    ensures i <= |rows|
  {
    if rows == [] then 0
    else if rows[0].key == k then 0
    else 1 + FirstKeyRow(rows[1..], k)
  }

  /** Index of the first row with key k and normalised size l, or |rows|. */
  function FirstSizeRow(rows: seq<Row>, k: Key, l: string): (i: nat)
    ensures i <= |rows|
  {
    if rows == [] then 0
    else if rows[0].key == k && rows[0].size == l then 0
    else 1 + FirstSizeRow(rows[1..], k, l)
  }

  /** FirstKeyRow finds the first row with key k: none before it has k. */
  lemma {:induction false} FirstKeyRowSpec(rows: seq<Row>, k: Key)
    ensures forall j :: 0 <= j < FirstKeyRow(rows, k) ==> rows[j].key != k
    ensures FirstKeyRow(rows, k) < |rows| ==> rows[FirstKeyRow(rows, k)].key == k
  {
    if rows != [] && rows[0].key != k {
      FirstKeyRowSpec(rows[1..], k);
      assert forall j :: 1 <= j < |rows| ==> rows[j] == rows[1..][j - 1];
    }
  }

  /** FirstSizeRow finds the first row with key k and label l. */
  lemma {:induction false} FirstSizeRowSpec(rows: seq<Row>, k: Key, l: string)
    ensures forall j :: 0 <= j < FirstSizeRow(rows, k, l) ==> !(rows[j].key == k && rows[j].size == l)
    ensures FirstSizeRow(rows, k, l) < |rows| ==> rows[FirstSizeRow(rows, k, l)].key == k && rows[FirstSizeRow(rows, k, l)].size == l
  {
    if rows != [] && !(rows[0].key == k && rows[0].size == l) {
      FirstSizeRowSpec(rows[1..], k, l);
      assert forall j :: 1 <= j < |rows| ==> rows[j] == rows[1..][j - 1];
    }
  }

  /** Sum of the quantities of the rows with key k. */
  function KeyTotal(rows: seq<Row>, k: Key): int {
    if rows == [] then 0
    else
      var last := rows[|rows| - 1];
      KeyTotal(rows[..|rows| - 1], k) + (if last.key == k then last.quantity else 0)
  }

  /** Sum of the quantities of the rows with key k and normalised size l. */
  function SizeTotal(rows: seq<Row>, k: Key, l: string): int {
    if rows == [] then 0
    else
      var last := rows[|rows| - 1];
      SizeTotal(rows[..|rows| - 1], k, l)
        + (if last.key == k && last.size == l then last.quantity else 0)
  }

  lemma FirstKeyRowExtend(rows: seq<Row>, r: Row, k: Key)
    ensures FirstKeyRow(rows + [r], k)
      == if FirstKeyRow(rows, k) == |rows| && r.key != k then |rows| + 1 else FirstKeyRow(rows, k)
  {
    var t := rows + [r];
    var a := FirstKeyRow(rows, k);
    var b := FirstKeyRow(t, k);
    FirstKeyRowSpec(rows, k);
    FirstKeyRowSpec(t, k);
    if a < |rows| {
      assert t[a] == rows[a];
    } else {
      assert t[|rows|] == r;
    }
    if b < |rows| {
      assert t[b] == rows[b];
    }
  }

  lemma FirstSizeRowExtend(rows: seq<Row>, r: Row, k: Key, l: string)
    ensures FirstSizeRow(rows + [r], k, l)
      == if FirstSizeRow(rows, k, l) == |rows| && !(r.key == k && r.size == l)
         then |rows| + 1 else FirstSizeRow(rows, k, l)
  {
    var t := rows + [r];
    var a := FirstSizeRow(rows, k, l);
    var b := FirstSizeRow(t, k, l);
    FirstSizeRowSpec(rows, k, l);
    FirstSizeRowSpec(t, k, l);
    if a < |rows| {
      assert t[a] == rows[a];
    } else {
      assert t[|rows|] == r;
    }
    if b < |rows| {
      assert t[b] == rows[b];
    }
  }

  lemma KeyTotalExtend(rows: seq<Row>, r: Row, k: Key)
    ensures KeyTotal(rows + [r], k) == KeyTotal(rows, k) + (if r.key == k then r.quantity else 0)
  {
    assert (rows + [r])[..|rows|] == rows;
  }

  lemma SizeTotalExtend(rows: seq<Row>, r: Row, k: Key, l: string)
    ensures SizeTotal(rows + [r], k, l) == SizeTotal(rows, k, l) + (if r.key == k && r.size == l then r.quantity else 0)
  {
    assert (rows + [r])[..|rows|] == rows;
  }

  lemma {:induction false} KeyTotalAbsent(rows: seq<Row>, k: Key)
    requires FirstKeyRow(rows, k) == |rows|
    ensures KeyTotal(rows, k) == 0
  {
    FirstKeyRowSpec(rows, k);
    KeyTotalNone(rows, k);
  }

  lemma {:induction false} KeyTotalNone(rows: seq<Row>, k: Key)
    requires forall j :: 0 <= j < |rows| ==> rows[j].key != k
    ensures KeyTotal(rows, k) == 0
  {
    if rows != [] {
      var p := rows[..|rows| - 1];
      assert forall j :: 0 <= j < |p| ==> p[j] == rows[j];
      KeyTotalNone(p, k);
    }
  }

  lemma {:induction false} SizeTotalAbsent(rows: seq<Row>, k: Key, l: string)
    requires FirstSizeRow(rows, k, l) == |rows|
    ensures SizeTotal(rows, k, l) == 0
  {
    FirstSizeRowSpec(rows, k, l);
    SizeTotalNone(rows, k, l);
  }

  lemma {:induction false} SizeTotalNone(rows: seq<Row>, k: Key, l: string)
    requires forall j :: 0 <= j < |rows| ==> !(rows[j].key == k && rows[j].size == l)
    ensures SizeTotal(rows, k, l) == 0
  {
    if rows != [] {
      var p := rows[..|rows| - 1];
      assert forall j :: 0 <= j < |p| ==> p[j] == rows[j];
      SizeTotalNone(p, k, l);
    }
  }

  // ---------------------------------------------------------------------
  // Step 4: merging rows into buckets

  predicate HasKey(bs: seq<Bucket>, k: Key) {
    exists i :: 0 <= i < |bs| && bs[i].key == k
  }

  /** Position of the bucket with key k, or -1. */
  function IndexOfKey(bs: seq<Bucket>, k: Key): (i: int)
    ensures -1 <= i < |bs|
    ensures i >= 0 ==> bs[i].key == k
    ensures i < 0 <==> !HasKey(bs, k)
  {
    if bs == [] then -1
    else if bs[0].key == k then 0
    else
      var j := IndexOfKey(bs[1..], k);
      assert HasKey(bs, k) ==> HasKey(bs[1..], k) by {
        if HasKey(bs, k) {
          var i :| 0 <= i < |bs| && bs[i].key == k;
          assert bs[1..][i - 1] == bs[i];
        }
      }
      if j < 0 then -1 else j + 1
  }

  /** Position of the size entry labelled l, or -1. */
  function IndexOfSize(ss: seq<SizeItem>, l: string): (p: int)
    ensures -1 <= p < |ss|
    ensures p >= 0 ==> ss[p].size == l
    ensures p < 0 <==> !HasLabel(ss, l)
  {
    if ss == [] then -1
    else if ss[0].size == l then 0
    else
      var j := IndexOfSize(ss[1..], l);
      assert HasLabel(ss, l) ==> HasLabel(ss[1..], l) by {
        if HasLabel(ss, l) {
          var p :| 0 <= p < |ss| && ss[p].size == l;
          assert ss[1..][p - 1] == ss[p];
        }
      }
      if j < 0 then -1 else j + 1
  }

  /** `_sizes_map[l] = _sizes_map.get(l, 0) + q`: a new label is appended,
      an existing one has q added in place. */
  function AddQuantity(ss: seq<SizeItem>, l: string, q: int): (r: seq<SizeItem>)
    ensures SumQuantities(r) == SumQuantities(ss) + q
    ensures HasLabel(r, l)
  {
    var p := IndexOfSize(ss, l);
    if p < 0 then
      SumQuantitiesAppend(ss, [SizeItem(l, q)]);
      assert (ss + [SizeItem(l, q)])[|ss|].size == l;
      ss + [SizeItem(l, q)]
    else
      SumQuantitiesUpdate(ss, p, SizeItem(l, ss[p].quantity + q));
      assert ss[p := SizeItem(l, ss[p].quantity + q)][p].size == l;
      ss[p := SizeItem(l, ss[p].quantity + q)]
  }

  /** Adds one row's quantity to its bucket's size dictionary and total. */
  function Accumulate(b: Bucket, r: Row): Bucket {
    b.(sizes := AddQuantity(b.sizes, r.size, r.quantity), total := b.total + r.quantity)
  }

  /** One iteration of the merge loop: a row whose key has no bucket yet
      opens one, named after that row and with an empty size dictionary. */
  function AddRow(bs: seq<Bucket>, r: Row): seq<Bucket> {
    var i := IndexOfKey(bs, r.key);
    if i < 0 then bs + [Accumulate(Bucket(r.key, r.name, [], 0), r)]
    else bs[i := Accumulate(bs[i], r)]
  }

  /** Every entry's label occurs among the rows with key k. */
  predicate SizesOccur(ss: seq<SizeItem>, rows: seq<Row>, k: Key) {
    forall p :: 0 <= p < |ss| ==> FirstSizeRow(rows, k, ss[p].size) < |rows|
  }

  /** Entries are listed in the order of their label's first row. */
  predicate SizesOrdered(ss: seq<SizeItem>, rows: seq<Row>, k: Key) {
    forall p, q :: 0 <= p < q < |ss| ==> FirstSizeRow(rows, k, ss[p].size) < FirstSizeRow(rows, k, ss[q].size)
  }

  /** Every row with key k has its label listed. */
  predicate SizesCover(ss: seq<SizeItem>, rows: seq<Row>, k: Key) {
    forall j :: 0 <= j < |rows| && rows[j].key == k ==> HasLabel(ss, rows[j].size)
  }

  /** Every entry holds the sum of the quantities of its rows. */
  predicate SizesSummed(ss: seq<SizeItem>, rows: seq<Row>, k: Key) {
    forall p :: 0 <= p < |ss| ==> ss[p].quantity == SizeTotal(rows, k, ss[p].size)
  }

  /** What a bucket's sizes promise about the rows merged so far: one entry
      per normalised size of the rows with key k, listed in the order of
      their first row, each holding the sum of those rows' quantities. */
  predicate SizesFaithful(ss: seq<SizeItem>, rows: seq<Row>, k: Key) {
    SizesOccur(ss, rows, k) && SizesOrdered(ss, rows, k) && SizesCover(ss, rows, k) && SizesSummed(ss, rows, k)
  }

  predicate BucketFaithful(b: Bucket, rows: seq<Row>) {
    && FirstKeyRow(rows, b.key) < |rows|
    && b.name == rows[FirstKeyRow(rows, b.key)].name
    && b.total == KeyTotal(rows, b.key)
    && SumQuantities(b.sizes) == b.total
    && SizesFaithful(b.sizes, rows, b.key)
  }

  /** The merge invariant: one bucket per key of the rows, in the order of
      each key's first row, each faithful to its rows. */
  predicate Faithful(bs: seq<Bucket>, rows: seq<Row>) {
    KeysOrdered(bs, rows) && KeysCover(bs, rows) && AllFaithful(bs, rows)
  }

  /** Buckets are listed in the order of their key's first row. */
  predicate KeysOrdered(bs: seq<Bucket>, rows: seq<Row>) {
    forall i, j :: 0 <= i < j < |bs| ==> FirstKeyRow(rows, bs[i].key) < FirstKeyRow(rows, bs[j].key)
  }

  /** Every row's key has a bucket. */
  predicate KeysCover(bs: seq<Bucket>, rows: seq<Row>) {
    forall j :: 0 <= j < |rows| ==> HasKey(bs, rows[j].key)
  }

  predicate AllFaithful(bs: seq<Bucket>, rows: seq<Row>) {
    forall i :: 0 <= i < |bs| ==> BucketFaithful(bs[i], rows)
  }

  /** Labels already seen keep their first row when a row is appended. */
  lemma FirstsStable(ss: seq<SizeItem>, rows: seq<Row>, r: Row, k: Key)
    requires SizesOccur(ss, rows, k)
    ensures forall p :: 0 <= p < |ss| ==> FirstSizeRow(rows + [r], k, ss[p].size) == FirstSizeRow(rows, k, ss[p].size)
  {
    forall p | 0 <= p < |ss| ensures FirstSizeRow(rows + [r], k, ss[p].size) == FirstSizeRow(rows, k, ss[p].size) {
      FirstSizeRowExtend(rows, r, k, ss[p].size);
    }
  }

  /** Entries listed in first-row order stay so when the rows grow, as long
      as the labels and their first rows are unchanged. */
  lemma OrderKept(ss: seq<SizeItem>, ss': seq<SizeItem>, rows: seq<Row>, r: Row, k: Key)
    requires SizesOccur(ss, rows, k) && SizesOrdered(ss, rows, k)
    requires |ss'| == |ss| && forall p :: 0 <= p < |ss| ==> ss'[p].size == ss[p].size
    ensures SizesOccur(ss', rows + [r], k) && SizesOrdered(ss', rows + [r], k)
  {
    FirstsStable(ss, rows, r, k);
  }

  /** Listed labels are pairwise different. */
  lemma LabelsDistinct(ss: seq<SizeItem>, rows: seq<Row>, k: Key, p: int, q: int)
    requires SizesOrdered(ss, rows, k)
    requires 0 <= p < |ss| && 0 <= q < |ss| && p != q
    ensures ss[p].size != ss[q].size
  {
  }

  /** A row of another key leaves a bucket's promises intact. */
  lemma SizesUnrelated(ss: seq<SizeItem>, rows: seq<Row>, r: Row, k: Key)
    requires SizesFaithful(ss, rows, k)
    requires r.key != k
    ensures SizesFaithful(ss, rows + [r], k)
  {
    var rows' := rows + [r];
    OrderKept(ss, ss, rows, r, k);
    forall j | 0 <= j < |rows'| && rows'[j].key == k
      ensures HasLabel(ss, rows'[j].size)
    {
      assert j < |rows| && rows'[j] == rows[j];
    }
    forall p | 0 <= p < |ss| ensures ss[p].quantity == SizeTotal(rows', k, ss[p].size) {
      SizeTotalExtend(rows, r, k, ss[p].size);
    }
  }

  lemma BucketUnrelated(b: Bucket, rows: seq<Row>, r: Row)
    requires BucketFaithful(b, rows)
    requires r.key != b.key
    ensures BucketFaithful(b, rows + [r])
  {
    FirstKeyRowExtend(rows, r, b.key);
    KeyTotalExtend(rows, r, b.key);
    SizesUnrelated(b.sizes, rows, r, b.key);
    assert (rows + [r])[FirstKeyRow(rows, b.key)] == rows[FirstKeyRow(rows, b.key)];
  }

  lemma CoverExisting(ss: seq<SizeItem>, rows: seq<Row>, r: Row, p: int, ss': seq<SizeItem>)
    requires SizesCover(ss, rows, r.key)
    requires 0 <= p < |ss| && ss[p].size == r.size
    requires |ss'| == |ss| && forall q :: 0 <= q < |ss| ==> ss'[q].size == ss[q].size
    ensures SizesCover(ss', rows + [r], r.key)
  {
    var rows' := rows + [r];
    forall j | 0 <= j < |rows'| && rows'[j].key == r.key
      ensures HasLabel(ss', rows'[j].size)
    {
      if j < |rows| {
        assert rows'[j] == rows[j];
        var q :| 0 <= q < |ss| && ss[q].size == rows[j].size;
        assert ss'[q].size == ss[q].size;
      } else {
        assert ss'[p].size == r.size;
      }
    }
  }

  lemma SummedExisting(ss: seq<SizeItem>, rows: seq<Row>, r: Row, p: int)
    requires SizesSummed(ss, rows, r.key) && SizesOrdered(ss, rows, r.key)
    requires 0 <= p < |ss| && ss[p].size == r.size
    ensures SizesSummed(ss[p := SizeItem(r.size, ss[p].quantity + r.quantity)], rows + [r], r.key)
  {
    var ss' := ss[p := SizeItem(r.size, ss[p].quantity + r.quantity)];
    forall q | 0 <= q < |ss'| ensures ss'[q].quantity == SizeTotal(rows + [r], r.key, ss'[q].size) {
      SizeTotalExtend(rows, r, r.key, ss'[q].size);
      if q != p {
        LabelsDistinct(ss, rows, r.key, p, q);
      }
    }
  }

  /** Adding a row's quantity under its normalised size keeps the sizes
      faithful to the extended rows, when its label is already present. */
  lemma SizesAddExisting(ss: seq<SizeItem>, rows: seq<Row>, r: Row)
    requires SizesFaithful(ss, rows, r.key)
    requires HasLabel(ss, r.size)
    ensures SizesFaithful(AddQuantity(ss, r.size, r.quantity), rows + [r], r.key)
  {
    var p := IndexOfSize(ss, r.size);
    var ss' := ss[p := SizeItem(r.size, ss[p].quantity + r.quantity)];
    assert AddQuantity(ss, r.size, r.quantity) == ss';
    OrderKept(ss, ss', rows, r, r.key);
    CoverExisting(ss, rows, r, p, ss');
    SummedExisting(ss, rows, r, p);
  }

  /** A label not yet listed has no row so far. */
  lemma UnlistedHasNoRow(ss: seq<SizeItem>, rows: seq<Row>, r: Row)
    requires SizesCover(ss, rows, r.key)
    requires !HasLabel(ss, r.size)
    ensures FirstSizeRow(rows, r.key, r.size) == |rows|
  {
    var f := FirstSizeRow(rows, r.key, r.size);
    FirstSizeRowSpec(rows, r.key, r.size);
  }

  lemma OrderNew(ss: seq<SizeItem>, rows: seq<Row>, rows': seq<Row>, k: Key, x: SizeItem)
    requires SizesOccur(ss, rows, k) && SizesOrdered(ss, rows, k)
    requires forall p :: 0 <= p < |ss| ==> FirstSizeRow(rows', k, ss[p].size) == FirstSizeRow(rows, k, ss[p].size)
    requires FirstSizeRow(rows', k, x.size) == |rows| < |rows'|
    ensures SizesOccur(ss + [x], rows', k)
    ensures SizesOrdered(ss + [x], rows', k)
  {
    assert forall p :: 0 <= p < |ss| ==> (ss + [x])[p] == ss[p];
  }

  lemma CoverNew(ss: seq<SizeItem>, rows: seq<Row>, r: Row)
    requires SizesCover(ss, rows, r.key)
    ensures SizesCover(ss + [SizeItem(r.size, r.quantity)], rows + [r], r.key)
  {
    var rows' := rows + [r];
    var ss' := ss + [SizeItem(r.size, r.quantity)];
    forall j | 0 <= j < |rows'| && rows'[j].key == r.key
      ensures HasLabel(ss', rows'[j].size)
    {
      if j < |rows| {
        assert rows'[j] == rows[j];
        var q :| 0 <= q < |ss| && ss[q].size == rows[j].size;
        assert ss'[q] == ss[q];
      } else {
        assert ss'[|ss|].size == r.size;
      }
    }
  }

  lemma SummedNew(ss: seq<SizeItem>, rows: seq<Row>, r: Row)
    requires SizesSummed(ss, rows, r.key)
    requires FirstSizeRow(rows, r.key, r.size) == |rows|
    ensures SizesSummed(ss + [SizeItem(r.size, r.quantity)], rows + [r], r.key)
  {
    var ss' := ss + [SizeItem(r.size, r.quantity)];
    SizeTotalAbsent(rows, r.key, r.size);
    forall q | 0 <= q < |ss'| ensures ss'[q].quantity == SizeTotal(rows + [r], r.key, ss'[q].size) {
      SizeTotalExtend(rows, r, r.key, ss'[q].size);
    }
  }

  /** The same when the label is new: it goes last, because its first row is
      the one just added. */
  lemma SizesAddNew(ss: seq<SizeItem>, rows: seq<Row>, r: Row)
    requires SizesFaithful(ss, rows, r.key)
    requires !HasLabel(ss, r.size)
    ensures SizesFaithful(AddQuantity(ss, r.size, r.quantity), rows + [r], r.key)
  {
    assert AddQuantity(ss, r.size, r.quantity) == ss + [SizeItem(r.size, r.quantity)];
    UnlistedHasNoRow(ss, rows, r);
    FirstSizeRowExtend(rows, r, r.key, r.size);
    FirstsStable(ss, rows, r, r.key);
    OrderNew(ss, rows, rows + [r], r.key, SizeItem(r.size, r.quantity));
    CoverNew(ss, rows, r);
    SummedNew(ss, rows, r);
  }

  lemma BucketAdd(b: Bucket, rows: seq<Row>, r: Row)
    requires BucketFaithful(b, rows)
    requires r.key == b.key
    ensures BucketFaithful(Accumulate(b, r), rows + [r])
  {
    FirstKeyRowExtend(rows, r, b.key);
    KeyTotalExtend(rows, r, b.key);
    if HasLabel(b.sizes, r.size) {
      SizesAddExisting(b.sizes, rows, r);
    } else {
      SizesAddNew(b.sizes, rows, r);
    }
    assert (rows + [r])[FirstKeyRow(rows, b.key)] == rows[FirstKeyRow(rows, b.key)];
  }

  /** The bucket a row opens is faithful to the rows up to and including it. */
  lemma BucketOpen(rows: seq<Row>, r: Row)
    requires FirstKeyRow(rows, r.key) == |rows|
    ensures BucketFaithful(Accumulate(Bucket(r.key, r.name, [], 0), r), rows + [r])
  {
    var k := r.key;
    var nb := Accumulate(Bucket(k, r.name, [], 0), r);
    KeyTotalAbsent(rows, k);
    FirstKeyRowExtend(rows, r, k);
    KeyTotalExtend(rows, r, k);
    FirstKeyRowSpec(rows, k);
    assert SizesCover([], rows, k);
    SizesAddNew([], rows, r);
    assert nb.sizes == AddQuantity([], r.size, r.quantity);
    assert (rows + [r])[|rows|] == r;
  }

  /** Distinct first rows mean distinct keys. */
  lemma KeysDistinct(bs: seq<Bucket>, rows: seq<Row>, i: int, m: int)
    requires KeysOrdered(bs, rows)
    requires 0 <= i < |bs| && 0 <= m < |bs| && m != i
    ensures bs[m].key != bs[i].key
  {
  }

  /** Keys whose first row is already present keep it when a row is appended. */
  lemma KeyFirstsStable(bs: seq<Bucket>, rows: seq<Row>, r: Row)
    requires AllFaithful(bs, rows)
    ensures forall m :: 0 <= m < |bs| ==> FirstKeyRow(rows + [r], bs[m].key) == FirstKeyRow(rows, bs[m].key)
  {
    forall m | 0 <= m < |bs| ensures FirstKeyRow(rows + [r], bs[m].key) == FirstKeyRow(rows, bs[m].key) {
      FirstKeyRowExtend(rows, r, bs[m].key);
    }
  }

  lemma BucketsUnrelated(bs: seq<Bucket>, rows: seq<Row>, r: Row)
    requires AllFaithful(bs, rows)
    requires !HasKey(bs, r.key)
    ensures AllFaithful(bs, rows + [r])
  {
    forall m | 0 <= m < |bs| ensures BucketFaithful(bs[m], rows + [r]) {
      BucketUnrelated(bs[m], rows, r);
    }
  }

  /** A row whose key has no bucket opens one at the end. */
  lemma AddRowNewKey(bs: seq<Bucket>, rows: seq<Row>, r: Row)
    requires Faithful(bs, rows)
    requires !HasKey(bs, r.key)
    ensures Faithful(bs + [Accumulate(Bucket(r.key, r.name, [], 0), r)], rows + [r])
  {
    var k := r.key;
    var rows' := rows + [r];
    var nb := Accumulate(Bucket(k, r.name, [], 0), r);
    var bs' := bs + [nb];
    var f := FirstKeyRow(rows, k);
    FirstKeyRowSpec(rows, k);
    FirstKeyRowExtend(rows, r, k);
    BucketOpen(rows, r);
    KeyFirstsStable(bs, rows, r);
    BucketsUnrelated(bs, rows, r);
    NewKeyOrdered(bs, rows, rows', nb);
    NewKeyCover(bs, rows, r, nb);
    AllFaithfulAppend(bs, nb, rows');
  }

  lemma AllFaithfulAppend(bs: seq<Bucket>, nb: Bucket, rows: seq<Row>)
    requires AllFaithful(bs, rows) && BucketFaithful(nb, rows)
    ensures AllFaithful(bs + [nb], rows)
  {
    var bs' := bs + [nb];
    assert forall m :: 0 <= m < |bs| ==> bs'[m] == bs[m];
  }

  lemma NewKeyOrdered(bs: seq<Bucket>, rows: seq<Row>, rows': seq<Row>, nb: Bucket)
    requires KeysOrdered(bs, rows)
    requires forall m :: 0 <= m < |bs| ==> FirstKeyRow(rows', bs[m].key) == FirstKeyRow(rows, bs[m].key)
    requires forall m :: 0 <= m < |bs| ==> FirstKeyRow(rows, bs[m].key) < |rows|
    requires FirstKeyRow(rows', nb.key) == |rows|
    ensures KeysOrdered(bs + [nb], rows')
  {
    var bs' := bs + [nb];
    forall i, j | 0 <= i < j < |bs'|
      ensures FirstKeyRow(rows', bs'[i].key) < FirstKeyRow(rows', bs'[j].key)
    {
      assert bs'[i] == bs[i];
      if j < |bs| {
        assert bs'[j] == bs[j];
      }
    }
  }

  lemma NewKeyCover(bs: seq<Bucket>, rows: seq<Row>, r: Row, nb: Bucket)
    requires KeysCover(bs, rows)
    requires nb.key == r.key
    ensures KeysCover(bs + [nb], rows + [r])
  {
    var rows' := rows + [r];
    var bs' := bs + [nb];
    forall j | 0 <= j < |rows'| ensures HasKey(bs', rows'[j].key) {
      if j < |rows| {
        assert rows'[j] == rows[j];
        var m :| 0 <= m < |bs| && bs[m].key == rows[j].key;
        assert bs'[m] == bs[m];
      } else {
        assert bs'[|bs|].key == r.key;
      }
    }
  }

  /** A row whose key has bucket i adds its quantity there. */
  lemma AddRowExistingKey(bs: seq<Bucket>, rows: seq<Row>, r: Row, i: int)
    requires Faithful(bs, rows)
    requires 0 <= i < |bs| && bs[i].key == r.key
    ensures Faithful(bs[i := Accumulate(bs[i], r)], rows + [r])
  {
    KeyFirstsStable(bs, rows, r);
    ExistingKeyOrdered(bs, rows, rows + [r], i, Accumulate(bs[i], r));
    ExistingKeyCover(bs, rows, r, i);
    ExistingKeyBuckets(bs, rows, r, i);
  }

  lemma ExistingKeyOrdered(bs: seq<Bucket>, rows: seq<Row>, rows': seq<Row>, i: int, b: Bucket)
    requires KeysOrdered(bs, rows)
    requires forall m :: 0 <= m < |bs| ==> FirstKeyRow(rows', bs[m].key) == FirstKeyRow(rows, bs[m].key)
    requires 0 <= i < |bs| && b.key == bs[i].key
    ensures KeysOrdered(bs[i := b], rows')
  {
    assert forall m :: 0 <= m < |bs| ==> bs[i := b][m].key == bs[m].key;
  }

  lemma ExistingKeyCover(bs: seq<Bucket>, rows: seq<Row>, r: Row, i: int)
    requires KeysCover(bs, rows)
    requires 0 <= i < |bs| && bs[i].key == r.key
    ensures KeysCover(bs[i := Accumulate(bs[i], r)], rows + [r])
  {
    var rows' := rows + [r];
    var bs' := bs[i := Accumulate(bs[i], r)];
    forall j | 0 <= j < |rows'| ensures HasKey(bs', rows'[j].key) {
      if j < |rows| {
        assert rows'[j] == rows[j];
        var m :| 0 <= m < |bs| && bs[m].key == rows[j].key;
        assert bs'[m].key == bs[m].key;
      } else {
        assert bs'[i].key == r.key;
      }
    }
  }

  lemma ExistingKeyBuckets(bs: seq<Bucket>, rows: seq<Row>, r: Row, i: int)
    requires KeysOrdered(bs, rows) && AllFaithful(bs, rows)
    requires 0 <= i < |bs| && bs[i].key == r.key
    ensures AllFaithful(bs[i := Accumulate(bs[i], r)], rows + [r])
  {
    var bs' := bs[i := Accumulate(bs[i], r)];
    forall m | 0 <= m < |bs'| ensures BucketFaithful(bs'[m], rows + [r]) {
      if m == i {
        BucketAdd(bs[i], rows, r);
      } else {
        KeysDistinct(bs, rows, i, m);
        BucketUnrelated(bs[m], rows, r);
      }
    }
  }

  /** One merge step keeps the invariant. */
  lemma AddRowFaithful(bs: seq<Bucket>, rows: seq<Row>, r: Row)
    requires Faithful(bs, rows)
    ensures Faithful(AddRow(bs, r), rows + [r])
  {
    var i := IndexOfKey(bs, r.key);
    if i < 0 {
      AddRowNewKey(bs, rows, r);
    } else {
      AddRowExistingKey(bs, rows, r, i);
    }
  }

  /** The merge loop of step 4, over the rows in order. */
  function Buckets(rows: seq<Row>): (bs: seq<Bucket>)
    ensures Faithful(bs, rows)
  {
    if rows == [] then []
    else
      var p := rows[..|rows| - 1];
      var last := rows[|rows| - 1];
      assert p + [last] == rows;
      AddRowFaithful(Buckets(p), p, last);
      AddRow(Buckets(p), last)
  }

  // ---------------------------------------------------------------------
  // Step 5: finalising buckets into line items

  /** The item emitted for a bucket: a blank store becomes "Custom", and the
      sizes are sorted by rank. */
  function Finalize(b: Bucket): Item {
    Item(b.name, b.key.part, b.key.color, StoreOrCustom(b.key.store), SortSizes(b.sizes), b.total)
  }

  /** What an emitted item's sizes promise about the rows of its key k:
      their quantities are the per-label sums, every label occurs and every
      row's label is listed, labels are distinct, and the entries are ordered
      by rank and then by the label's first row. */
  predicate ItemSizes(ss: seq<SizeItem>, k: Key, rows: seq<Row>) {
    && (forall p :: 0 <= p < |ss| ==> ss[p].quantity == SizeTotal(rows, k, ss[p].size))
    && (forall p :: 0 <= p < |ss| ==> FirstSizeRow(rows, k, ss[p].size) < |rows|)
    && (forall j :: 0 <= j < |rows| && rows[j].key == k ==> HasLabel(ss, rows[j].size))
    && (forall p, q :: 0 <= p < q < |ss| ==> ss[p].size != ss[q].size)
    && LexSorted(ss, l => FirstSizeRow(rows, k, l))
  }

  /** Everything an emitted item promises about the rows of its key k. */
  predicate ItemFor(it: Item, k: Key, rows: seq<Row>) {
    && it.part == k.part && it.color == k.color && it.store == StoreOrCustom(k.store)
    && FirstKeyRow(rows, k) < |rows|
    && it.name == rows[FirstKeyRow(rows, k)].name
    && it.totalQuantity == KeyTotal(rows, k)
    && SumQuantities(it.sizes) == it.totalQuantity
    && ItemSizes(it.sizes, k, rows)
  }

  /** Sorting a faithful size list keeps every promise and adds the order. */
  lemma SortedSizesFaithful(ss: seq<SizeItem>, k: Key, rows: seq<Row>)
    requires SizesFaithful(ss, rows, k)
    ensures ItemSizes(SortSizes(ss), k, rows)
  {
    var first := l => FirstSizeRow(rows, k, l);
    var s := SortSizes(ss);
    assert InOrderOf(ss, first);
    SortStable(ss, first);
    forall p | 0 <= p < |s|
      ensures s[p].quantity == SizeTotal(rows, k, s[p].size)
      ensures FirstSizeRow(rows, k, s[p].size) < |rows|
    {
      assert s[p] in multiset(s);
      assert s[p] in multiset(ss);
      var q :| 0 <= q < |ss| && ss[q] == s[p];
    }
    forall j | 0 <= j < |rows| && rows[j].key == k ensures HasLabel(s, rows[j].size) {
      SortSizesLabels(ss, rows[j].size);
    }
  }

  lemma FinalizeFaithful(b: Bucket, rows: seq<Row>)
    requires BucketFaithful(b, rows)
    ensures ItemFor(Finalize(b), b.key, rows)
  {
    SortSizesSum(b.sizes);
    SortedSizesFaithful(b.sizes, b.key, rows);
  }

  /** The rows' first-seen distinct keys, in order: each key's first row
      comes before the next key's, and every row's key is listed. */
  predicate FirstSeenKeys(ks: seq<Key>, rows: seq<Row>) {
    && (forall i, j :: 0 <= i < j < |ks| ==> FirstKeyRow(rows, ks[i]) < FirstKeyRow(rows, ks[j]))
    && (forall i :: 0 <= i < |ks| ==> FirstKeyRow(rows, ks[i]) < |rows|)
    && (forall j :: 0 <= j < |rows| ==> rows[j].key in ks)
  }

  /** The items are one per first-seen key, each faithful to its rows. */
  ghost predicate MergeSpec(items: seq<Item>, rows: seq<Row>) {
    exists ks :: |ks| == |items| && FirstSeenKeys(ks, rows) && forall i :: 0 <= i < |items| ==> ItemFor(items[i], ks[i], rows)
  }

  function FinalizeAll(bs: seq<Bucket>): (items: seq<Item>)
    ensures |items| == |bs|
    ensures forall i :: 0 <= i < |bs| ==> items[i] == Finalize(bs[i])
  {
    seq(|bs|, i requires 0 <= i < |bs| => Finalize(bs[i]))
  }

  function Keys(bs: seq<Bucket>): (ks: seq<Key>)
    ensures |ks| == |bs|
    ensures forall i :: 0 <= i < |bs| ==> ks[i] == bs[i].key
  {
    seq(|bs|, i requires 0 <= i < |bs| => bs[i].key)
  }

  lemma KeysFirstSeen(bs: seq<Bucket>, rows: seq<Row>)
    requires Faithful(bs, rows)
    ensures FirstSeenKeys(Keys(bs), rows)
  {
    var ks := Keys(bs);
    forall j | 0 <= j < |rows| ensures rows[j].key in ks {
      var m :| 0 <= m < |bs| && bs[m].key == rows[j].key;
      assert ks[m] == rows[j].key;
    }
  }

  lemma FinalizeAllFaithful(bs: seq<Bucket>, rows: seq<Row>)
    requires Faithful(bs, rows)
    ensures MergeSpec(FinalizeAll(bs), rows)
  {
    var items := FinalizeAll(bs);
    var ks := Keys(bs);
    forall i | 0 <= i < |bs| ensures ItemFor(items[i], ks[i], rows) {
      FinalizeFaithful(bs[i], rows);
    }
    KeysFirstSeen(bs, rows);
    assert |ks| == |items| && FirstSeenKeys(ks, rows) && forall i :: 0 <= i < |items| ==> ItemFor(items[i], ks[i], rows);
  }

  /** Steps 4 and 5 on normalised rows: one line item per distinct stripped
      (part, color, store) key, in the order keys are first seen; each named
      after its key's first row, with its total the sum of its rows'
      quantities, and its sizes the distinct normalised labels of its rows,
      each summed, ordered by rank and then by first appearance. */
  function Merge(rows: seq<Row>): (items: seq<Item>)
    ensures MergeSpec(items, rows)
  {
    FinalizeAllFaithful(Buckets(rows), rows);
    FinalizeAll(Buckets(rows))
  }

  /** The merge over raw rows: the keys and size labels the items promise
      are the stripped fields and normalised labels of the rows. */
  function MergeRows(rows: seq<RawRow>): (items: seq<Item>)
    ensures MergeSpec(items, NormalizeRows(rows))
  {
    Merge(NormalizeRows(rows))
  }

  /** The line items of a list of cards. */
  function ExtractLineItems(cards: seq<Card>): (items: seq<Item>)
    ensures MergeSpec(items, NormalizeRows(ExpandCards(cards)))
  {
    MergeRows(ExpandCards(cards))
  }
}
