# shopvox-scrape-api in Dafny

This project models the decision-making core of shopvox-scrape-api. The service reads sales orders from shopVox and places their apparel line items in the shopping carts of two vendors, SanMar and S&S Activewear. The browser, the pages and the network are not modelled. What is modelled are the decisions of the core listed below, taken on the data the program reads:

- **Canonicalisation** (`Canonical`, `PartCode`). The program turns a scraped size label into a canonical label. It maps spellings such as "xxl" to "2XL", and an empty label to the `qty` sentinel. It also extracts a vendor part code from a product line, and derives the merge key and the store routing key from free text.
- **Line-item merge** (`LineItems`, `SizeSort`). Product cards become one row per size entry. The rows are merged by stripped (part, color, store). Quantities are summed per canonical size label. Each item's sizes are ordered by the fixed rank XS < S < … < 4XL < other < ONE SIZE < qty, and the sort is stable.
- **Order routing and status** (`Grouping`, `Orders`). A `process_order` call does four things:
  - it sorts the order's items by store, descending;
  - it groups them by store key, keeping the order in which keys first appear;
  - it hands the "sanmar" and "s&s activewear" groups to their processors and lists every item outside SanMar as skipped;
  - it classifies the order as `custom_store_only`, `out_of_stock`, `partial`, `success` or `no_items_added`.
- **SanMar allocation** (`SanMar`). The table walk builds a dictionary from size keys to warehouse cells, and aliases a lone key as ONE SIZE/OSFA. Each requested size is matched against its synonym set. The cells are then scanned greedily, and the size is reported out of stock when it is short.
- **S&S Activewear allocation** (`SsActivewear`). This covers the digit parsing of stock counts. A cell's count is the last `\d[\d,]*` match in its text. The size header order comes from the grid. Sizes are filled greedily across warehouse rows, and the add-to-cart click follows.

Both vendors share one greedy allocation rule (`Allocation`). It is proved to fix the allocation uniquely: the scan over the cells is the only greedy allocation of its total.

Shared notions:

- `Text` holds ASCII whitespace stripping and ASCII case mapping, the way Python's `str.strip`/`upper`/`lower` act on ASCII text.
- `Schemas` holds the order, item and size records.
- Quantities are integers.
- Python dictionaries keep insertion order, so they are sequences of keyed groups.
- The one choice Python leaves to set iteration order is the SanMar candidate pick. It is a parameter `pick` of the requested label and its set of matching keys, constrained only to return a member of that set.

## Model

| member | source | states |
|---|---|---|
| Canonical.NormalizeToQty | main.py:73-92 | a label becomes the `qty` sentinel exactly when it is empty or reads QTY in any case and spacing; it becomes empty exactly when it is non-empty whitespace |
| Canonical.NormalizeUnmapped | main.py:73-92 | a label that is not a known synonym comes back stripped and upper-cased |
| Canonical.NormalizeSynonym | main.py:73-92 | any spelling of a synonym-table key, in any case and with any surrounding spaces, maps to that key's canonical size, which is in the canonical vocabulary |
| Canonical.SynonymTargets | main.py:73-92 | every synonym maps into the canonical vocabulary, and only QTY maps to the sentinel |
| Canonical.CanonicalIsFixed | main.py:73-92 | every canonical size, the sentinel included, is left unchanged by the normaliser |
| Canonical.NormalizeIdempotent | main.py:73-92 | for a label that is not blank after stripping, normalising twice gives the same label as normalising once |
| Canonical.RankOrder | main.py:699-704 | the rank orders XS < S < M < L < XL < 2XL < 3XL < 4XL < any other label < ONE SIZE < qty |
| Canonical.NormalizeKeyText | main.py:93-94 | the merge-key text is a contiguous slice of the input with only whitespace before and after it, neither starts nor ends in whitespace, and is empty exactly when the input is all whitespace |
| Text.StripUnique | main.py:93-94 | a non-empty slice with only whitespace around it and none at its ends is unique, so the stripping contract fixes the stripped text |
| Canonical.NormalizeStore | main.py:116-117 | the store key has no surrounding whitespace and no upper-case letters; it has the length of the stripped store, and each character is the lower-case of the stripped store's character at that position |
| Canonical.NormalizeStoreCaseInsensitive | main.py:116-117 | two stores get the same key exactly when their stripped forms have the same length and agree character by character after lower-casing |
| PartCode.ParsePartCode | main.py:63-70 | none exactly for absent or empty text; with " - " in the text, the code is the last split segment stripped of whitespace and trailing punctuation; without it, the code is the last maximal `[A-Za-z0-9-]` run, or the stripped text when no such run exists |
| PartCode.LastSegment | main.py:67 | the whole text when there is no separator; otherwise the suffix right after a separator the left-to-right, non-overlapping split cuts at, with no separator starting inside it |
| PartCode.LastSegmentUnique | main.py:67 | the suffix from any start position meeting that description (0 when there is no separator, else just after a cut separator, with no separator from there on) is the last segment, so the contract fixes the value |
| PartCode.OverlappingSeparators | main.py:67 | in "a - - b" the split cuts at the first separator and skips the overlapping second one, so the last segment is "- b" |
| LineItems.CardRows | main.py:658-668 | one row per size entry of the card, in order, carrying the card's name, part and color and its store or "Custom" |
| LineItems.ExpandCardsAppend | main.py:654-668 | rows of a card list are the rows of its parts, concatenated |
| LineItems.Merge | main.py:670-719 | one item per distinct stripped key, in first-seen order; each item's name is its key's first row's; its total is the sum over its rows; each size label of its rows is listed once, with the summed quantity; sizes are ordered by rank and then by first appearance; the sizes sum to the total |
| LineItems.ExtractLineItems | main.py:654-719 | the line items of a card list satisfy the merge promise over the normalised rows of its cards |
| LineItems.FinalizeFaithful | main.py:706-719 | finalising a bucket built from the rows keeps every per-size promise and adds the rank order |
| SizeSort.SortStable | main.py:713 | when entries come in increasing order of first appearance, the sort orders them by rank and keeps that order among equal ranks |
| SizeSort.SortSizesLabels | main.py:713 | the sort neither adds nor drops a size label |
| SizeSort.SortSizesSum | main.py:713 | the sort keeps the total quantity |
| Grouping.GroupBy | main.py:321-323 | one group per store key in first-seen order, each holding exactly its key's items in order, and every item's key has a group |
| Orders.SortDescendingOrdered | main.py:311 | the store sort leaves the items in non-increasing order of lower-cased store |
| Orders.SortDescendingStable | main.py:311 | the sort is stable: the items with a given store keep their relative order |
| Orders.Route | main.py:311-354 | the groups are faithful to the sorted items; the processed items are exactly the items whose store key has a processor, and the skipped items exactly those outside SanMar, as multisets; in both lists the store keys come in the order of each key's first item in the descending sort, and under each listed key the items are that key's items in sorted order |
| Orders.GroupedCollect | main.py:321-354 | walking the groups of a dictionary of lists and keeping some keys lists those keys' entries key after key in first-seen order, each key's entries in their order |
| Orders.RouteMembership | main.py:331-354 | an item is processed exactly when it is in the order and its store has a processor; it is skipped exactly when it is in the order and its store is not SanMar |
| Orders.RouteNonEmpty | main.py:360-362 | something is processed, or skipped, exactly when some item of the order qualifies |
| Orders.ClassifyTable | main.py:360-378 | custom_store_only exactly when nothing was processed and something was skipped; out_of_stock exactly when something was processed, nothing added and something short; partial and success both need something added and differ only in whether something is short; no_items_added covers the rest, where nothing was added |
| Orders.ClassifySuccess | main.py:373-375 | success implies something was added and nothing is out of stock |
| Orders.ProcessOrder | main.py:310-392 | as written: the out-of-stock map is empty and nothing is reported added, so the status is only ever custom_store_only or no_items_added |
| Orders.ProcessOrderStatus | main.py:310-392 | as written: custom_store_only exactly when the order has items and none has a processor store; otherwise no_items_added |
| Orders.ProcessOrderTallied | main.py:335-378 | with processor results aggregated: added exactly when some processor-store item added something; the out-of-stock map is the tally of the processed items and is empty exactly when no processor-store item reported a short size; success exactly when something was added and nothing is short; partial exactly when something was added and something is short; out_of_stock exactly when nothing was added and something is short; custom_store_only exactly when the order has items and none has a processor store |
| Orders.TallyOutcomes | main.py:437-440 | a part is in the out-of-stock map exactly when one of its items reported a short size; added exactly when some item added |
| Orders.TallyLastReports | main.py:437-438 | each part in the out-of-stock map maps to the sizes reported by the last item of that part that reported any, since a later assignment overwrites an earlier one |
| Orders.RoutedAdded | main.py:342-345 | some processed item added something exactly when some processor-store item of the order did |
| Orders.RoutedOutOfStock | main.py:342-345 | the processed items' out-of-stock map is empty exactly when no processor-store item of the order reported a short size |
| Orders.SanmarOnlyOrder | main.py:342-375 | an order of one SanMar item whose processor adds everything and reports nothing short is no_items_added as written and success when aggregated |
| Orders.DroppedOutcomes | main.py:342-345 | a one-item SanMar order whose processor adds everything reports no_items_added as written but success when aggregated |
| SanMar.PoolEntries | sanmar.py:41-112 | an entry is recorded exactly when some table has a non-blank stripped header over a row's cell with an input, keyed by the upper-cased header |
| SanMar.PoolEntriesAppend | sanmar.py:41-42 | the entries of a page are those of its first tables followed by those of the rest |
| SanMar.PoolEntriesSingle | sanmar.py:41-112 | the entries of one table are those of its rows |
| SanMar.RowsEntriesAppend | sanmar.py:63-64 | the entries of a table are those of its first rows followed by those of the rest |
| SanMar.RowEntriesInColumnOrder | sanmar.py:76-112 | a row's entries are exactly its cells with an input under a non-blank header, one per such column, in increasing column order, each filed under its column's key |
| SanMar.PoolLookup | sanmar.py:110-112 | the dictionary has a key exactly for the recorded keys, and each key's list holds that key's cells in page order |
| SanMar.AliasSingleKey | sanmar.py:114-118 | a pool with a single key other than ONE SIZE/OSFA gains both alias keys sharing its cells; any other pool is unchanged |
| SanMar.SingleColumnServesOneSize | sanmar.py:114-118 | on such a page a ONE SIZE or OSFA request matches both alias keys, and each resolves to the single column's cells |
| SanMar.Candidates | sanmar.py:183-206 | the candidates are the stripped, upper-cased label and every spelling sharing an alias group with it |
| SanMar.CandidatesUnaliased | sanmar.py:183-206 | a label naming no alias group is its only candidate |
| SanMar.CandidatesCoverGroup | sanmar.py:183-206 | a label naming an alias group has the whole group among its candidates |
| SanMar.ScanCells | sanmar.py:225-253 | the fill is greedy over the usable cells, takes the requested quantity capped by the stock on offer, lowers the remainder by what it typed, types nothing once nothing remains, and reports added exactly when some cell was typed into |
| SanMar.ScanIsTheGreedyFill | sanmar.py:225-253 | any greedy allocation taking the capped quantity is the scan's allocation |
| SanMar.FillSize | sanmar.py:208-256 | one size gets nothing when its quantity is not positive or no candidate is a key; otherwise it gets its quantity capped by the chosen key's stock; it is short exactly when it wanted something and got less |
| SanMar.FillSizes | sanmar.py:208-256 | each size's fill is its expected fill; added exactly when some size got something; the out-of-stock list is the short sizes in request order |
| SanMar.AddRequestedSizes | sanmar.py:171-268 | the same over the pool of the page's tables, and the cart button is clicked exactly when something was added |
| SsActivewear.ParseInt | s_and_s.py:19-21 | the parsed value is never negative and is 0 when the text has no digit |
| SsActivewear.ParseLeadingZero | s_and_s.py:19-21 | a leading zero does not change the parsed value |
| SsActivewear.ParseNumeral | s_and_s.py:19-21 | parsing the decimal numeral of n gives n back |
| SsActivewear.ParseIgnoresSeparator | s_and_s.py:19-21 | a non-digit character, such as a thousands comma, does not change the parsed value |
| SsActivewear.NumberSpans | s_and_s.py:86 | the matches are digit-led runs of digits and commas, left to right, not overlapping, and cover every digit of the text |
| SsActivewear.AvailableOfLastNumeral | s_and_s.py:85-87 | a cell whose text ends in the numeral of n, after a label not ending in a digit or comma, offers n |
| SsActivewear.SizeOrderMembers | s_and_s.py:51-54 | a text is in the size order exactly when it is the stripped form of some header, non-blank and not "color" in any case |
| SsActivewear.SizeOrderAppend | s_and_s.py:51-54 | the header filter works header by header, so it distributes over concatenation |
| SsActivewear.SizeOrderIdempotent | s_and_s.py:51-54 | filtering a size order again changes nothing |
| SsActivewear.Column | s_and_s.py:73-77 | no column exactly when the size is not in the order; otherwise the first index holding the size |
| SsActivewear.FillRows | s_and_s.py:79-103 | the fill is greedy over the warehouse rows' usable cells, takes the requested quantity capped by the stock on offer, lowers the remainder by what it typed, types nothing once nothing remains, and reports added exactly when something was typed |
| SsActivewear.FillRowsIsTheGreedyFill | s_and_s.py:79-103 | any greedy allocation taking the capped quantity is the row scan's allocation |
| SsActivewear.FillSizes | s_and_s.py:69-107 | each size's fill is its expected fill; added exactly when some size got something; the out-of-stock list is the short sizes in request order |
| SsActivewear.ShortIff | s_and_s.py:73-107 | a size is left off the out-of-stock list exactly when it has a column and its quantity is not positive or the rows offer enough |
| SsActivewear.FillAcrossWarehouses | s_and_s.py:57-109 | with no warehouse row nothing is added and every requested size is reported; otherwise the per-size fills and short list of the size loop |
| SsActivewear.FillWithinRequest | s_and_s.py:69-103 | every typed total is between 0 and the requested quantity, and 0 for a non-positive request |
| SsActivewear.ProcessItem | s_and_s.py:112-133 | the add-to-cart button is clicked exactly when something was added and the page has the button |
| Allocation.GreedyUnique | sanmar.py:225-253 | two greedy allocations of the same total over the same stock are equal |
| Allocation.ScanStep | s_and_s.py:88-103 | taking the smaller of the first cell's offer and what is wanted, then scanning the rest for what is left, keeps the scan's promises |
| Allocation.GreedyTakes | s_and_s.py:101 | a greedy allocation takes something exactly when some cell gives something |

## Left out

- Browser automation is not modelled: page navigation, logins, waits, timeouts, popups, cookies, the view switcher and the retry of a table walk after an exception. A page is given as the data the program reads from it.
- Concurrency is not modelled. The semaphore and `asyncio.gather` over orders only interleave independent orders.
- Floating point is not modelled. `_to_float`, `float(...)` and `round(..., 2)` are left out, and quantities are integers. This also drops `int(quantity)` truncation.
- Messages are not modelled. The report's `message` text is left out; the status and the details are kept.
- The SanMar stock read (span text, falling back to `data-available`) is not modelled. Each cell's stock is given as an integer.
- The lookup of a SanMar warehouse's name, with its "Warehouse" fallback, is not modelled. Each cell carries a given name, and no decision uses it.
- Whether filling a SanMar input raises is not computed. It is a given flag per cell (`fillSucceeds`). A failed cell is skipped.
- SanMar.FillSize: does not fix which candidate Python's set iteration order picks. It and its callers take the choice as a parameter `pick` that returns, for the requested label, some member of its set of matching keys, so the contracts hold for every such choice.
- `Text`: whitespace, case mapping, digits and the regular-expression class `\w` cover ASCII only. Unicode strip, case and character-class rules are not modelled.
- The unreachable second `process_order` (main.py:399-479) is not modelled as a whole. `Orders.ProcessOrderTallied` aggregates the processor results as the variable names at main.py:437-440 intend; main.py:435 unpacks `add_requested_sizes`'s `(added_any, oos_sizes)` in swapped order, so that code, run as written, would not do so either.
- The S&S add-to-cart click's retry after a `TimeoutError` is not modelled; the click is a single step.
- The order's `store` home-page visit (`STORE_HOMES`) is not modelled, since it is navigation only.
- Scraping the card texts from the order page (main.py:545-652) is not modelled beyond the card rows: a card is given as its texts and size entries. In particular a card's part is given, not derived as `_parse_part_code(name_text) or ""` (main.py:617, 627); `PartCode.ParsePartCode` models that parser on its own.
- SanMar's colour matching (sanmar.py:149-160) and search-box fill (sanmar.py:120-133) are not modelled: they only navigate to the product page.
- Exceptions that escape a processor are not modelled. The model assumes every processor returns and every S&S input fill succeeds. In the program, a raise from `fill_search` (sanmar.py:133), `open_color_detail` (sanmar.py:160), the SanMar add-to-basket wait (sanmar.py:264) or an S&S `qty_input.fill` (s_and_s.py:98) passes through `process_order`'s `try`/`finally` (main.py:334-356) and `asyncio.gather(..., return_exceptions=False)` (main.py:396), and aborts the order and the whole batch.

## Findings

| source | as written | input that shows it | evidently intended | confidence | as-written member | corrected member |
|---|---|---|---|---|---|---|
| main.py:342-345 | the value `await processor(page, it)` returns is discarded, so `all_out_of_stock` stays empty and `any_added_overall` stays False; the status can only be custom_store_only or no_items_added | one SanMar item whose processor adds every size: the order is reported no_items_added | fold each processor's (added, out-of-stock) pair into the order, as the variable names at main.py:437-440 intend (main.py:435 swaps the pair), so the order reports success | not executed | Orders.ProcessOrder | Orders.ProcessOrderTallied |
