/** The records exchanged between the scraper, the merger and the vendor
    processors (`SizeItem`, `Item`, `SalesOrder`), without pydantic's
    validation. Quantities are whole numbers: the source's floats only ever
    carry counts of garments. */
module Schemas {

  datatype Option<+T> = None | Some(value: T)

  /** One size of one line item and the number of units wanted in it. */
  datatype SizeItem = SizeItem(size: string, quantity: int)

  /** A canonical line item: identity is its (part, color, store). */
  datatype Item = Item(
    name: string,
    part: string,
    color: string,
    store: string,
    sizes: seq<SizeItem>,
    totalQuantity: int)

  datatype SalesOrder = SalesOrder(
    url: string,
    id: int,
    items: seq<Item>,
    total: int,
    customer: string)

  /** Sum of the quantities of a list of size entries. */
  function SumQuantities(ss: seq<SizeItem>): int
  {
    if ss == [] then 0 else ss[0].quantity + SumQuantities(ss[1..])
  }

  /** Summation distributes over concatenation. */
  lemma {:induction false} SumQuantitiesAppend(a: seq<SizeItem>, b: seq<SizeItem>)
    ensures SumQuantities(a + b) == SumQuantities(a) + SumQuantities(b)
  {
    if a == [] {
      assert a + b == b;
    } else {
      assert (a + b)[1..] == a[1..] + b;
      SumQuantitiesAppend(a[1..], b);
    }
  }

  /** Replacing one entry changes the sum by the difference of the two
      quantities. */
  lemma {:induction false} SumQuantitiesUpdate(ss: seq<SizeItem>, j: nat, x: SizeItem)
    requires j < |ss|
    ensures SumQuantities(ss[j := x]) == SumQuantities(ss) - ss[j].quantity + x.quantity
  {
    if j > 0 {
      assert ss[j := x][1..] == ss[1..][j - 1 := x];
      SumQuantitiesUpdate(ss[1..], j - 1, x);
    }
  }
}
