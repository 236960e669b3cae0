/** Routing of a sales order's line items to the vendor processors and the
    status the order reports (main.py `add_to_cart.process_order`). */
module Orders {
  import opened Text
  import opened Schemas
  import opened Canonical
  import opened Grouping

  // ---------------------------------------------------------------------
  // Python's order on strings

  /** `a < b` on Python strings: lexicographic on code points, a proper
      prefix first. */
  predicate StrLess(a: string, b: string) {
    if a == [] then b != []
    else if b == [] then false
    else if a[0] != b[0] then a[0] < b[0]
    else StrLess(a[1..], b[1..])
  }

  lemma {:induction false} StrLessIrreflexive(a: string)
    ensures !StrLess(a, a)
  {
    if a != [] {
      StrLessIrreflexive(a[1..]);
    }
  }

  lemma {:induction false} StrLessTransitive(a: string, b: string, c: string)
    requires StrLess(a, b) && StrLess(b, c)
    ensures StrLess(a, c)
  {
    if a != [] && a[0] == b[0] && b[0] == c[0] {
      StrLessTransitive(a[1..], b[1..], c[1..]);
    }
  }

  lemma {:induction false} StrLessTotal(a: string, b: string)
    ensures a == b || StrLess(a, b) || StrLess(b, a)
  {
    if a != [] && b != [] && a[0] == b[0] {
      StrLessTotal(a[1..], b[1..]);
      assert a == [a[0]] + a[1..] && b == [b[0]] + b[1..];
    }
  }

  lemma StrLessAsymmetric(a: string, b: string)
    requires StrLess(a, b)
    ensures !StrLess(b, a)
  {
    if StrLess(b, a) {
      StrLessTransitive(a, b, a);
      StrLessIrreflexive(a);
    }
  }

  /** "Not below" is transitive, which is what a descending sort needs. */
  lemma NotLessTransitive(a: string, b: string, c: string)
    requires !StrLess(a, b) && !StrLess(b, c)
    ensures !StrLess(a, c)
  {
    StrLessTotal(a, b);
    if a != b && StrLess(a, c) {
      StrLessTransitive(b, a, c);
    }
  }

  // ---------------------------------------------------------------------
  // order.items.sort(key=..., reverse=True)

  /** Where x goes in a list sorted by descending key: after every entry
      whose key is above x's, in front of the first one that is not. */
  function InsertPos<T>(x: T, s: seq<T>, key: T -> string): (p: nat)
    ensures p <= |s|
    ensures forall k :: 0 <= k < p ==> StrLess(key(x), key(s[k]))
    ensures p < |s| ==> !StrLess(key(x), key(s[p]))
  {
    if s == [] || !StrLess(key(x), key(s[0])) then 0 else 1 + InsertPos(x, s[1..], key)
  }

  function Insert<T>(x: T, s: seq<T>, key: T -> string): (r: seq<T>)
    ensures multiset(r) == multiset(s) + multiset{x}
    ensures |r| == |s| + 1
  {
    var p := InsertPos(x, s, key);
    assert s == s[..p] + s[p..];
    s[..p] + [x] + s[p..]
  }

  /** Python's stable `sort(key=key, reverse=True)`: keys descend, and
      entries with equal keys keep their relative order. */
  function SortDescending<T>(s: seq<T>, key: T -> string): (r: seq<T>)
    ensures multiset(r) == multiset(s)
    ensures |r| == |s|
  {
    if s == [] then []
    else
      assert s == [s[0]] + s[1..];
      Insert(s[0], SortDescending(s[1..], key), key)
  }

  predicate Descending<T>(s: seq<T>, key: T -> string) {
    forall i, j :: 0 <= i < j < |s| ==> !StrLess(key(s[i]), key(s[j]))
  }

  lemma InsertDescending<T>(x: T, s: seq<T>, key: T -> string)
    requires Descending(s, key)
    ensures Descending(Insert(x, s, key), key)
  {
    var p := InsertPos(x, s, key);
    var r := Insert(x, s, key);
    assert forall i :: 0 <= i < p ==> r[i] == s[i];
    assert r[p] == x;
    assert forall i :: p < i < |r| ==> r[i] == s[i - 1];
    forall i, j | 0 <= i < j < |r| ensures !StrLess(key(r[i]), key(r[j])) {
      if i < p && j == p {
        StrLessAsymmetric(key(x), key(s[i]));
      } else if i == p && j > p + 1 {
        NotLessTransitive(key(x), key(s[p]), key(s[j - 1]));
      }
    }
  }

  /** The sorted entries run from the highest key down. */
  lemma {:induction false} SortDescendingOrdered<T>(s: seq<T>, key: T -> string)
    ensures Descending(SortDescending(s, key), key)
  {
    if s != [] {
      SortDescendingOrdered(s[1..], key);
      InsertDescending(s[0], SortDescending(s[1..], key), key);
    }
  }

  /** The entries of s whose key is k, in their order in s. */
  function WithKey<T>(s: seq<T>, key: T -> string, k: string): seq<T> {
    if s == [] then [] else (if key(s[0]) == k then [s[0]] else []) + WithKey(s[1..], key, k)
  }

  lemma {:induction false} WithKeyAppend<T>(a: seq<T>, b: seq<T>, key: T -> string, k: string)
    ensures WithKey(a + b, key, k) == WithKey(a, key, k) + WithKey(b, key, k)
  {
    if a == [] {
      assert a + b == b;
    } else {
      var c := a + b;
      var h := if key(a[0]) == k then [a[0]] else [];
      assert c[0] == a[0] && c[1..] == a[1..] + b;
      assert WithKey(c, key, k) == h + WithKey(a[1..] + b, key, k);
      WithKeyAppend(a[1..], b, key, k);
      assert WithKey(a, key, k) == h + WithKey(a[1..], key, k);
    }
  }

  lemma {:induction false} WithKeyNone<T>(s: seq<T>, key: T -> string, k: string)
    requires forall i :: 0 <= i < |s| ==> key(s[i]) != k
    ensures WithKey(s, key, k) == []
  {
    if s != [] {
      WithKeyNone(s[1..], key, k);
    }
  }

  lemma WithKeySingle<T>(x: T, key: T -> string, k: string)
    ensures WithKey([x], key, k) == if key(x) == k then [x] else []
  {
    assert [x][1..] == [];
  }

  /** Where Insert puts x. */
  lemma InsertShape<T>(x: T, s: seq<T>, key: T -> string)
    ensures Insert(x, s, key) == s[..InsertPos(x, s, key)] + ([x] + s[InsertPos(x, s, key)..])
    ensures s == s[..InsertPos(x, s, key)] + s[InsertPos(x, s, key)..]
  {
  }

  /** The entries Insert passes over all have keys above x's. */
  lemma InsertPassesOver<T>(x: T, s: seq<T>, key: T -> string)
    ensures WithKey(s[..InsertPos(x, s, key)], key, key(x)) == []
  {
    var a := s[..InsertPos(x, s, key)];
    StrLessIrreflexive(key(x));
    assert forall i :: 0 <= i < |a| ==> a[i] == s[i];
    WithKeyNone(a, key, key(x));
  }

  lemma InsertStable<T>(x: T, s: seq<T>, key: T -> string, k: string)
    ensures WithKey(Insert(x, s, key), key, k) == WithKey([x], key, k) + WithKey(s, key, k)
  {
    var p := InsertPos(x, s, key);
    var a, b := s[..p], s[p..];
    var wa, wx, wb := WithKey(a, key, k), WithKey([x], key, k), WithKey(b, key, k);
    InsertShape(x, s, key);
    WithKeyAppend(a, [x] + b, key, k);
    WithKeyAppend([x], b, key, k);
    assert WithKey(Insert(x, s, key), key, k) == wa + (wx + wb);
    WithKeyAppend(a, b, key, k);
    assert WithKey(s, key, k) == wa + wb;
    WithKeySingle(x, key, k);
    if key(x) == k {
      InsertPassesOver(x, s, key);
      assert wa == [];
    } else {
      assert wx == [];
    }
  }

  /** The sort is stable: the entries sharing a key come out in their input
      order. */
  lemma {:induction false} SortDescendingStable<T>(s: seq<T>, key: T -> string, k: string)
    ensures WithKey(SortDescending(s, key), key, k) == WithKey(s, key, k)
  {
    if s != [] {
      SortDescendingStable(s[1..], key, k);
      InsertStable(s[0], SortDescending(s[1..], key), key, k);
      WithKeySingle(s[0], key, k);
    }
  }

  // ---------------------------------------------------------------------
  // processed_items and other_items

  /** The sort key of `order.items.sort`: the raw store, lower-cased. */
  function SortKey(it: Item): string {
    Lower(it.store)
  }

  /** The routing key of an item: its store, stripped and case-folded. */
  function StoreKey(it: Item): string {
    NormalizeStore(it.store)
  }

  /** The registered processors' store keys (`STORE_PROCESSORS`). */
  const SanmarKey: string := "sanmar"
  const SsActivewearKey: string := "s&s activewear"

  predicate HasProcessor(k: string) {
    k == SanmarKey || k == SsActivewearKey
  }

  /** `other_items` takes every group but SanMar's. */
  predicate NotSanmar(k: string) {
    k != SanmarKey
  }

  /** The members of the groups whose key satisfies keep, group after group. */
  function Collect<T>(gs: seq<Group<T>>, keep: string -> bool): seq<T> {
    if gs == [] then []
    else
      var last := gs[|gs| - 1];
      Collect(gs[..|gs| - 1], keep) + (if keep(last.key) then last.members else [])
  }

  /** The entries whose key satisfies keep, in order. */
  function Select<T>(s: seq<T>, key: T -> string, keep: string -> bool): seq<T> {
    if s == [] then []
    else
      var last := s[|s| - 1];
      Select(s[..|s| - 1], key, keep) + (if keep(key(last)) then [last] else [])
  }

  /** The members a group contributes to Collect. */
  function Kept<T>(g: Group<T>, keep: string -> bool): seq<T> {
    if keep(g.key) then g.members else []
  }

  lemma CollectLast<T>(gs: seq<Group<T>>, keep: string -> bool)
    requires gs != []
    ensures multiset(Collect(gs, keep))
      == multiset(Collect(gs[..|gs| - 1], keep)) + multiset(Kept(gs[|gs| - 1], keep))
  {
  }

  /** Appending x to the last group. */
  lemma CollectUpdateLast<T>(gs: seq<Group<T>>, g: Group<T>, x: T, keep: string -> bool)
    requires gs != []
    requires g.key == gs[|gs| - 1].key && g.members == gs[|gs| - 1].members + [x]
    ensures multiset(Collect(gs[|gs| - 1 := g], keep))
      == multiset(Collect(gs, keep)) + (if keep(g.key) then multiset{x} else multiset{})
  {
    var n := |gs| - 1;
    var gs' := gs[n := g];
    CollectLast(gs, keep);
    CollectLast(gs', keep);
    assert gs'[..n] == gs[..n];
  }

  /** Replacing a group other than the last leaves the last group's share. */
  lemma CollectSplit<T>(gs: seq<Group<T>>, i: int, g: Group<T>, keep: string -> bool)
    requires 0 <= i < |gs| - 1
    ensures multiset(Collect(gs[i := g], keep))
      == multiset(Collect(gs[..|gs| - 1][i := g], keep)) + multiset(Kept(gs[|gs| - 1], keep))
  {
    var n := |gs| - 1;
    assert gs[i := g][..n] == gs[..n][i := g];
    assert gs[i := g][n] == gs[n];
    CollectLast(gs[i := g], keep);
  }

  /** Appending x to group i adds x to the collected members exactly when
      the group is kept. */
  lemma {:induction false} CollectUpdate<T>(gs: seq<Group<T>>, i: int, g: Group<T>, x: T, keep: string -> bool)
    requires 0 <= i < |gs|
    requires g.key == gs[i].key && g.members == gs[i].members + [x]
    ensures multiset(Collect(gs[i := g], keep))
      == multiset(Collect(gs, keep)) + (if keep(g.key) then multiset{x} else multiset{})
  {
    var n := |gs| - 1;
    if i < n {
      CollectSplit(gs, i, g, keep);
      CollectUpdate(gs[..n], i, g, x, keep);
      CollectLast(gs, keep);
    } else {
      CollectUpdateLast(gs, g, x, keep);
    }
  }

  lemma CollectAppend<T>(gs: seq<Group<T>>, g: Group<T>, keep: string -> bool)
    ensures Collect(gs + [g], keep) == Collect(gs, keep) + (if keep(g.key) then g.members else [])
  {
    assert (gs + [g])[..|gs|] == gs;
  }

  /** The groups' members whose key satisfies keep are exactly the entries
      whose key satisfies keep, counted with multiplicity. */
  lemma {:induction false} CollectGroups<T>(s: seq<T>, key: T -> string, keep: string -> bool)
    ensures multiset(Collect(GroupBy(s, key), keep)) == multiset(Select(s, key, keep))
  {
    if s != [] {
      var p := s[..|s| - 1];
      var last := s[|s| - 1];
      CollectGroups(p, key, keep);
      var gs := GroupBy(p, key);
      var i := GroupIndex(gs, key(last));
      if i < 0 {
        CollectAppend(gs, Group(key(last), [last]), keep);
      } else {
        CollectUpdate(gs, i, Group(gs[i].key, gs[i].members + [last]), last, keep);
      }
    }
  }

  lemma {:induction false} SelectCount<T>(s: seq<T>, key: T -> string, keep: string -> bool, x: T)
    ensures multiset(Select(s, key, keep))[x] == if keep(key(x)) then multiset(s)[x] else 0
  {
    if s != [] {
      var p := s[..|s| - 1];
      assert p + [s[|s| - 1]] == s;
      SelectCount(p, key, keep, x);
    }
  }

  /** Which entries are selected depends only on which entries there are. */
  lemma SelectPermutation(a: seq<Item>, b: seq<Item>, key: Item -> string, keep: string -> bool)
    requires multiset(a) == multiset(b)
    ensures multiset(Select(a, key, keep)) == multiset(Select(b, key, keep))
  {
    var ma, mb := multiset(Select(a, key, keep)), multiset(Select(b, key, keep));
    forall x ensures ma[x] == mb[x] {
      SelectCount(a, key, keep, x);
      SelectCount(b, key, keep, x);
      assert multiset(a)[x] == multiset(b)[x];
    }
    assert ma == mb;
  }

  lemma {:induction false} SelectEmpty<T>(s: seq<T>, key: T -> string, keep: string -> bool)
    ensures Select(s, key, keep) == [] <==> forall j :: 0 <= j < |s| ==> !keep(key(s[j]))
  {
    if s != [] {
      var p := s[..|s| - 1];
      SelectEmpty(p, key, keep);
      assert forall j :: 0 <= j < |p| ==> p[j] == s[j];
    }
  }

  /** Every member of every group carries that group's key. */
  predicate KeyedGroups<T>(gs: seq<Group<T>>, key: T -> string) {
    forall i, j :: 0 <= i < |gs| && 0 <= j < |gs[i].members| ==> key(gs[i].members[j]) == gs[i].key
  }

  /** The collected entries with key k: those of the groups before the last,
      then the last group's when it has key k. */
  lemma CollectMembersLast<T>(gs: seq<Group<T>>, key: T -> string, keep: string -> bool, k: string)
    requires gs != [] && KeyedGroups(gs, key)
    ensures KeyedGroups(gs[..|gs| - 1], key)
    ensures Members(Collect(gs, keep), key, k)
      == Members(Collect(gs[..|gs| - 1], keep), key, k) + (if gs[|gs| - 1].key == k then Kept(gs[|gs| - 1], keep) else [])
  {
    var n := |gs| - 1;
    var init, last := gs[..n], gs[n];
    assert forall a :: 0 <= a < n ==> init[a] == gs[a];
    var c, m := Collect(init, keep), Kept(last, keep);
    assert Collect(gs, keep) == c + m;
    MembersAppend(c, m, key, k);
    assert forall j :: 0 <= j < |last.members| ==> key(last.members[j]) == last.key;
    MembersUniform(m, key, last.key, k);
  }

  /** The collected entries whose key no group has: none. */
  lemma {:induction false} CollectMembersNone<T>(gs: seq<Group<T>>, key: T -> string, keep: string -> bool, k: string)
    requires KeyedGroups(gs, key)
    requires forall i :: 0 <= i < |gs| ==> gs[i].key != k
    ensures Members(Collect(gs, keep), key, k) == []
  {
    if gs != [] {
      var init := gs[..|gs| - 1];
      CollectMembersLast(gs, key, keep, k);
      assert forall a :: 0 <= a < |init| ==> init[a] == gs[a];
      CollectMembersNone(init, key, keep, k);
    }
  }

  /** Under distinct group keys, the collected entries with group i's key
      are that group's members when it is kept, and none otherwise. */
  lemma {:induction false} CollectMembersOf<T>(gs: seq<Group<T>>, key: T -> string, keep: string -> bool, i: int)
    requires KeyedGroups(gs, key)
    requires forall a, b :: 0 <= a < b < |gs| ==> gs[a].key != gs[b].key
    requires 0 <= i < |gs|
    ensures Members(Collect(gs, keep), key, gs[i].key) == Kept(gs[i], keep)
  {
    var n := |gs| - 1;
    var init := gs[..n];
    var k := gs[i].key;
    CollectMembersLast(gs, key, keep, k);
    assert forall a :: 0 <= a < n ==> init[a] == gs[a];
    if i == n {
      assert forall a :: 0 <= a < |init| ==> init[a].key != k;
      CollectMembersNone(init, key, keep, k);
    } else {
      assert gs[n].key != k;
      assert forall a, b :: 0 <= a < b < |init| ==> init[a].key != init[b].key;
      CollectMembersOf(init, key, keep, i);
    }
  }

  /** When the group keys are ranked in increasing order, so are the keys of
      the collected entries. */
  lemma {:induction false} CollectOrder<T>(gs: seq<Group<T>>, key: T -> string, keep: string -> bool, rank: string -> int)
    requires KeyedGroups(gs, key)
    requires forall i, j :: 0 <= i < j < |gs| ==> rank(gs[i].key) < rank(gs[j].key)
    ensures forall i, j :: 0 <= i < j < |Collect(gs, keep)| ==> rank(key(Collect(gs, keep)[i])) <= rank(key(Collect(gs, keep)[j]))
    ensures gs != [] ==> forall i :: 0 <= i < |Collect(gs, keep)| ==> rank(key(Collect(gs, keep)[i])) <= rank(gs[|gs| - 1].key)
  {
    if gs != [] {
      var n := |gs| - 1;
      var init, last := gs[..n], gs[n];
      assert forall i :: 0 <= i < n ==> init[i] == gs[i];
      CollectOrder(init, key, keep, rank);
      var c, m := Collect(init, keep), Kept(last, keep);
      assert Collect(gs, keep) == c + m;
      assert forall j :: 0 <= j < |m| ==> key(m[j]) == last.key;
      assert n > 0 ==> rank(init[n - 1].key) < rank(last.key);
      assert forall i :: 0 <= i < |c| ==> rank(key(c[i])) < rank(last.key);
    }
  }

  /** The grouped entries whose key satisfies keep come key after key in the
      order of each key's first entry, and under each kept key they are that
      key's entries in their order. */
  lemma GroupedCollect<T>(s: seq<T>, key: T -> string, keep: string -> bool)
    ensures forall i, j :: 0 <= i < j < |Collect(GroupBy(s, key), keep)| ==>
      FirstWithKey(s, key, key(Collect(GroupBy(s, key), keep)[i])) <= FirstWithKey(s, key, key(Collect(GroupBy(s, key), keep)[j]))
    ensures forall k :: Members(Collect(GroupBy(s, key), keep), key, k) == if keep(k) then Members(s, key, k) else []
  {
    var gs := GroupBy(s, key);
    forall i | 0 <= i < |gs| ensures forall j :: 0 <= j < |gs[i].members| ==> key(gs[i].members[j]) == gs[i].key {
      MembersKeyed(s, key, gs[i].key);
    }
    CollectOrder(gs, key, keep, k => FirstWithKey(s, key, k));
    forall k ensures Members(Collect(gs, keep), key, k) == if keep(k) then Members(s, key, k) else [] {
      if HasGroup(gs, k) {
        var i := GroupIndex(gs, k);
        CollectMembersOf(gs, key, keep, i);
      } else {
        CollectMembersNone(gs, key, keep, k);
        MembersNone(s, key, k);
      }
    }
  }

  /** `process_order`'s grouping: the groups of the sorted items, the items
      handed to a processor and the items listed as skipped. */
  datatype Routing = Routing(groups: seq<Group<Item>>, processed: seq<Item>, skipped: seq<Item>)

  function Route(items: seq<Item>): (r: Routing)
    ensures GroupsFaithful(r.groups, SortDescending(items, SortKey), StoreKey)
    ensures multiset(r.processed) == multiset(Select(items, StoreKey, HasProcessor))
    ensures multiset(r.skipped) == multiset(Select(items, StoreKey, NotSanmar))
    ensures forall i, j :: 0 <= i < j < |r.processed| ==>
      FirstWithKey(SortDescending(items, SortKey), StoreKey, StoreKey(r.processed[i]))
        <= FirstWithKey(SortDescending(items, SortKey), StoreKey, StoreKey(r.processed[j]))
    ensures forall k :: Members(r.processed, StoreKey, k)
                 == if HasProcessor(k) then Members(SortDescending(items, SortKey), StoreKey, k) else []
    ensures forall i, j :: 0 <= i < j < |r.skipped| ==>
      FirstWithKey(SortDescending(items, SortKey), StoreKey, StoreKey(r.skipped[i]))
        <= FirstWithKey(SortDescending(items, SortKey), StoreKey, StoreKey(r.skipped[j]))
    ensures forall k :: Members(r.skipped, StoreKey, k)
                 == if NotSanmar(k) then Members(SortDescending(items, SortKey), StoreKey, k) else []
  {
    var sorted := SortDescending(items, SortKey);
    var gs := GroupBy(sorted, StoreKey);
    GroupedCollect(sorted, StoreKey, HasProcessor);
    GroupedCollect(sorted, StoreKey, NotSanmar);
    CollectGroups(sorted, StoreKey, HasProcessor);
    CollectGroups(sorted, StoreKey, NotSanmar);
    SelectPermutation(sorted, items, StoreKey, HasProcessor);
    SelectPermutation(sorted, items, StoreKey, NotSanmar);
    Routing(gs, Collect(gs, HasProcessor), Collect(gs, NotSanmar))
  }

  /** Something is processed exactly when some item's store has a processor,
      and something is skipped exactly when some item's store is not SanMar. */
  lemma RouteNonEmpty(items: seq<Item>)
    ensures Route(items).processed != [] <==> exists j :: 0 <= j < |items| && HasProcessor(StoreKey(items[j]))
    ensures Route(items).skipped != [] <==> exists j :: 0 <= j < |items| && NotSanmar(StoreKey(items[j]))
  {
    SelectEmpty(items, StoreKey, HasProcessor);
    SelectEmpty(items, StoreKey, NotSanmar);
    var r := Route(items);
    assert |multiset(r.processed)| == |r.processed|;
    assert |multiset(r.skipped)| == |r.skipped|;
    assert |multiset(Select(items, StoreKey, HasProcessor))| == |Select(items, StoreKey, HasProcessor)|;
    assert |multiset(Select(items, StoreKey, NotSanmar))| == |Select(items, StoreKey, NotSanmar)|;
  }

  /** An item is processed exactly when its store has a processor, and
      skipped exactly when its store is not SanMar; an S&S item is both. */
  lemma RouteMembership(items: seq<Item>, x: Item)
    ensures x in Route(items).processed <==> x in items && HasProcessor(StoreKey(x))
    ensures x in Route(items).skipped <==> x in items && NotSanmar(StoreKey(x))
  {
    SelectCount(items, StoreKey, HasProcessor, x);
    SelectCount(items, StoreKey, NotSanmar, x);
    assert x in Route(items).processed <==> x in multiset(Route(items).processed);
    assert x in Route(items).skipped <==> x in multiset(Route(items).skipped);
  }

  // ---------------------------------------------------------------------
  // The status decision table

  datatype Status = CustomStoreOnly | OutOfStock | Partial | Success | NoItemsAdded

  /** The status decision of `process_order`, evaluated first match. */
  function Classify(processedAny: bool, hasCustom: bool, anyAdded: bool, hasOos: bool): Status {
    if !processedAny && hasCustom then CustomStoreOnly
    else if processedAny && !anyAdded && hasOos then OutOfStock
    else if hasOos && anyAdded then Partial
    else if anyAdded then Success
    else NoItemsAdded
  }

  /** Each status in terms of the four flags alone. */
  lemma ClassifyTable(processedAny: bool, hasCustom: bool, anyAdded: bool, hasOos: bool)
    ensures var s := Classify(processedAny, hasCustom, anyAdded, hasOos);
      && (s == CustomStoreOnly <==> !processedAny && hasCustom)
      && (s == OutOfStock <==> processedAny && !anyAdded && hasOos)
      && (s == Partial <==> anyAdded && hasOos && (processedAny || !hasCustom))
      && (s == Success <==> anyAdded && !hasOos && (processedAny || !hasCustom))
      && (s == NoItemsAdded <==> !anyAdded && (processedAny || !hasCustom) && !(processedAny && hasOos))
  {
  }

  /** Success needs something added and nothing out of stock. */
  lemma ClassifySuccess(processedAny: bool, hasCustom: bool, anyAdded: bool, hasOos: bool)
    requires Classify(processedAny, hasCustom, anyAdded, hasOos) == Success
    ensures anyAdded && !hasOos
  {
  }

  /** When only processed items can add or run out, the four vendor-facing
      statuses depend on the two vendor flags alone. */
  lemma ClassifyReported(processedAny: bool, hasCustom: bool, anyAdded: bool, hasOos: bool)
    requires anyAdded ==> processedAny
    requires hasOos ==> processedAny
    ensures var s := Classify(processedAny, hasCustom, anyAdded, hasOos);
      && (s == Success <==> anyAdded && !hasOos)
      && (s == Partial <==> anyAdded && hasOos)
      && (s == OutOfStock <==> !anyAdded && hasOos)
      && (s == CustomStoreOnly <==> !processedAny && hasCustom)
  {
  }

  /** Without anything added and nothing out of stock, the status is one of
      the two that do not depend on the vendors. */
  lemma ClassifyNothingReported(processedAny: bool, hasCustom: bool)
    ensures Classify(processedAny, hasCustom, false, false)
      == if !processedAny && hasCustom then CustomStoreOnly else NoItemsAdded
  {
  }

  // ---------------------------------------------------------------------
  // The report

  /** `{"part": it.part, "color": it.color}` of `processed_items`. */
  datatype ProcessedTag = ProcessedTag(part: string, color: string)

  /** `{"part", "color", "store"}` of `skipped_custom`; the store is the raw one. */
  datatype SkippedTag = SkippedTag(part: string, color: string, store: string)

  function ProcessedTags(its: seq<Item>): (r: seq<ProcessedTag>)
    ensures |r| == |its|
    ensures forall i :: 0 <= i < |its| ==> r[i] == ProcessedTag(its[i].part, its[i].color)
  {
    seq(|its|, i requires 0 <= i < |its| => ProcessedTag(its[i].part, its[i].color))
  }

  function SkippedTags(its: seq<Item>): (r: seq<SkippedTag>)
    ensures |r| == |its|
    ensures forall i :: 0 <= i < |its| ==> r[i] == SkippedTag(its[i].part, its[i].color, its[i].store)
  {
    seq(|its|, i requires 0 <= i < |its| => SkippedTag(its[i].part, its[i].color, its[i].store))
  }

  datatype Report = Report(
    orderId: int,
    url: string,
    customer: string,
    status: Status,
    outOfStock: map<string, seq<string>>,
    skipped: seq<SkippedTag>,
    processed: seq<ProcessedTag>,
    anyAdded: bool)

  /** `process_order` as written: the processors' results are dropped, so the
      out-of-stock map stays empty and nothing counts as added. */
  function ProcessOrder(order: SalesOrder): (rep: Report)
    ensures rep.outOfStock == map[] && !rep.anyAdded
    ensures rep.status == CustomStoreOnly || rep.status == NoItemsAdded
  {
    var r := Route(order.items);
    var status := Classify(r.processed != [], r.skipped != [], false, false);
    Report(order.id, order.url, order.customer, status, map[],
           SkippedTags(r.skipped), ProcessedTags(r.processed), false)
  }

  /** As written, an order reports `custom_store_only` exactly when it has
      items and none of them has a processor store, and `no_items_added`
      otherwise, whatever the vendors did. */
  lemma ProcessOrderStatus(order: SalesOrder)
    ensures ProcessOrder(order).status == CustomStoreOnly
      <==> order.items != [] && forall j :: 0 <= j < |order.items| ==> !HasProcessor(StoreKey(order.items[j]))
    ensures ProcessOrder(order).status == NoItemsAdded
      <==> order.items == [] || exists j :: 0 <= j < |order.items| && HasProcessor(StoreKey(order.items[j]))
  {
    RouteNonEmpty(order.items);
    if order.items != [] {
      assert HasProcessor(StoreKey(order.items[0])) || NotSanmar(StoreKey(order.items[0]));
    }
  }

  // ---------------------------------------------------------------------
  // The report with the processors' results kept

  /** What a processor returns for one item: `(added_any, oos_sizes)`. */
  datatype Outcome = Outcome(added: bool, oos: seq<string>)

  /** The aggregation the results were meant for. */
  datatype Tally = Tally(outOfStock: map<string, seq<string>>, anyAdded: bool)

  /** Item i is the last of part p to report sizes out of stock. */
  predicate LastShortOf(its: seq<Item>, outcome: Item -> Outcome, p: string, i: int) {
    && 0 <= i < |its|
    && its[i].part == p
    && outcome(its[i]).oos != []
    && forall k :: i < k < |its| && its[k].part == p ==> outcome(its[k]).oos == []
  }

  /** Every part in m maps to the sizes of the last item of that part that
      reported any. */
  predicate LastReports(its: seq<Item>, outcome: Item -> Outcome, m: map<string, seq<string>>) {
    forall p :: p in m ==> exists i :: 0 <= i < |its| && LastShortOf(its, outcome, p, i) && m[p] == outcome(its[i]).oos
  }

  /** One more item keeps LastReports. */
  lemma TallyStep(its: seq<Item>, it: Item, outcome: Item -> Outcome, m: map<string, seq<string>>)
    requires LastReports(its, outcome, m)
    ensures LastReports(its + [it], outcome,
                        if outcome(it).oos != [] then m[it.part := outcome(it).oos] else m)
  {
    var s := its + [it];
    var m' := if outcome(it).oos != [] then m[it.part := outcome(it).oos] else m;
    assert forall k :: 0 <= k < |its| ==> s[k] == its[k];
    forall p | p in m' ensures exists i :: 0 <= i < |s| && LastShortOf(s, outcome, p, i) && m'[p] == outcome(s[i]).oos {
      if outcome(it).oos != [] && p == it.part {
        assert LastShortOf(s, outcome, p, |its|);
      } else {
        var i :| 0 <= i < |its| && LastShortOf(its, outcome, p, i) && m[p] == outcome(its[i]).oos;
        assert LastShortOf(s, outcome, p, i);
      }
    }
  }

  /** Folds the processed items' outcomes in processing order:
      `all_out_of_stock[item.part] = oos_sizes` when there are any, and
      `any_added_overall = True` when something was added. */
  function TallyOutcomes(its: seq<Item>, outcome: Item -> Outcome): (t: Tally)
    ensures t.anyAdded <==> exists i :: 0 <= i < |its| && outcome(its[i]).added
    ensures forall p :: p in t.outOfStock <==> exists i :: 0 <= i < |its| && its[i].part == p && outcome(its[i]).oos != []
  {
    if its == [] then Tally(map[], false)
    else
      var p := its[..|its| - 1];
      var it := its[|its| - 1];
      var t := TallyOutcomes(p, outcome);
      assert forall i :: 0 <= i < |p| ==> its[i] == p[i];
      var o := outcome(it);
      Tally(if o.oos != [] then t.outOfStock[it.part := o.oos] else t.outOfStock, t.anyAdded || o.added)
  }

  /** The items `process_order` hands to a processor. */
  predicate Processable(it: Item) {
    HasProcessor(StoreKey(it))
  }

  /** Some item with a processor store had something added. */
  predicate SomeAdded(items: seq<Item>, outcome: Item -> Outcome) {
    exists j :: 0 <= j < |items| && Processable(items[j]) && outcome(items[j]).added
  }

  /** No item with a processor store reported a size out of stock. */
  predicate NoneOutOfStock(items: seq<Item>, outcome: Item -> Outcome) {
    forall j :: 0 <= j < |items| && Processable(items[j]) ==> outcome(items[j]).oos == []
  }

  /** Each part in the out-of-stock map maps to the sizes of the last item
      of that part that reported any: a later report overwrites an earlier
      one. */
  lemma {:induction false} TallyLastReports(its: seq<Item>, outcome: Item -> Outcome)
    ensures LastReports(its, outcome, TallyOutcomes(its, outcome).outOfStock)
  {
    if its != [] {
      var p, it := its[..|its| - 1], its[|its| - 1];
      TallyLastReports(p, outcome);
      assert p + [it] == its;
      TallyStep(p, it, outcome, TallyOutcomes(p, outcome).outOfStock);
    }
  }

  /** The out-of-stock map is empty exactly when no item reported a size. */
  lemma TallyEmpty(its: seq<Item>, outcome: Item -> Outcome)
    ensures |TallyOutcomes(its, outcome).outOfStock| == 0
      <==> forall i :: 0 <= i < |its| ==> outcome(its[i]).oos == []
  {
    var m := TallyOutcomes(its, outcome).outOfStock;
    if |m| > 0 {
      var p :| p in m;
    }
    if exists i :: 0 <= i < |its| && outcome(its[i]).oos != [] {
      var i :| 0 <= i < |its| && outcome(its[i]).oos != [];
      assert its[i].part in m;
    }
  }

  /** When p lists exactly the entries of s that satisfy sel, some entry of p
      satisfies pr exactly when some entry of s satisfies sel and pr. */
  lemma ExistsTransfer<T>(p: seq<T>, s: seq<T>, sel: T -> bool, pr: T -> bool)
    requires forall x :: x in p <==> x in s && sel(x)
    ensures (exists i :: 0 <= i < |p| && pr(p[i])) <==> (exists j :: 0 <= j < |s| && sel(s[j]) && pr(s[j]))
  {
    if exists i :: 0 <= i < |p| && pr(p[i]) {
      var i :| 0 <= i < |p| && pr(p[i]);
      assert p[i] in p;
      var j :| 0 <= j < |s| && s[j] == p[i];
    }
    if exists j :: 0 <= j < |s| && sel(s[j]) && pr(s[j]) {
      var j :| 0 <= j < |s| && sel(s[j]) && pr(s[j]);
      assert s[j] in s;
      var i :| 0 <= i < |p| && p[i] == s[j];
    }
  }

  /** The processed items are exactly the items with a processor store. */
  lemma ProcessedAre(items: seq<Item>)
    ensures forall x :: x in Route(items).processed <==> x in items && Processable(x)
  {
    forall x ensures x in Route(items).processed <==> x in items && Processable(x) {
      RouteMembership(items, x);
    }
  }

  /** Something among the processed items was added exactly when some item
      with a processor store had something added. */
  lemma RoutedAdded(items: seq<Item>, outcome: Item -> Outcome)
    ensures TallyOutcomes(Route(items).processed, outcome).anyAdded <==> SomeAdded(items, outcome)
  {
    var p := Route(items).processed;
    ProcessedAre(items);
    ExistsTransfer(p, items, Processable, x => outcome(x).added);
    assert TallyOutcomes(p, outcome).anyAdded <==> exists i :: 0 <= i < |p| && outcome(p[i]).added;
  }

  /** The processed items' out-of-stock map is empty exactly when no item
      with a processor store reported a size out of stock. */
  lemma RoutedOutOfStock(items: seq<Item>, outcome: Item -> Outcome)
    ensures |TallyOutcomes(Route(items).processed, outcome).outOfStock| == 0 <==> NoneOutOfStock(items, outcome)
  {
    var p := Route(items).processed;
    TallyEmpty(p, outcome);
    ProcessedAre(items);
    ExistsTransfer(p, items, Processable, x => outcome(x).oos != []);
    assert (forall i :: 0 <= i < |p| ==> outcome(p[i]).oos == [])
      <==> !exists i :: 0 <= i < |p| && outcome(p[i]).oos != [];
    assert NoneOutOfStock(items, outcome)
      <==> !exists j :: 0 <= j < |items| && Processable(items[j]) && outcome(items[j]).oos != [];
  }

  /** Nothing is processed while something is skipped exactly when there are
      items and none has a processor store. */
  lemma RoutedCustomOnly(items: seq<Item>)
    ensures Route(items).processed == [] && Route(items).skipped != []
      <==> items != [] && forall j :: 0 <= j < |items| ==> !Processable(items[j])
  {
    RouteNonEmpty(items);
    assert items != [] ==> HasProcessor(StoreKey(items[0])) || NotSanmar(StoreKey(items[0]));
  }

  /** The status decision over the processed items' tally. */
  function TalliedStatusOf(items: seq<Item>, outcome: Item -> Outcome): Status {
    var r := Route(items);
    var t := TallyOutcomes(r.processed, outcome);
    Classify(r.processed != [], r.skipped != [], t.anyAdded, |t.outOfStock| > 0)
  }

  lemma TalliedStatus(items: seq<Item>, outcome: Item -> Outcome)
    ensures var s := TalliedStatusOf(items, outcome);
      && (s == Success <==> SomeAdded(items, outcome) && NoneOutOfStock(items, outcome))
      && (s == Partial <==> SomeAdded(items, outcome) && !NoneOutOfStock(items, outcome))
      && (s == OutOfStock <==> !SomeAdded(items, outcome) && !NoneOutOfStock(items, outcome))
      && (s == CustomStoreOnly <==> items != [] && forall j :: 0 <= j < |items| ==> !Processable(items[j]))
  {
    var r := Route(items);
    var t := TallyOutcomes(r.processed, outcome);
    RoutedAdded(items, outcome);
    RoutedOutOfStock(items, outcome);
    RoutedCustomOnly(items);
    assert t.anyAdded ==> r.processed != [];
    assert |t.outOfStock| > 0 ==> r.processed != [];
    ClassifyReported(r.processed != [], r.skipped != [], t.anyAdded, |t.outOfStock| > 0);
  }

  /** `process_order` with the processors' results aggregated as the
      variable names of the unreachable second `process_order` intend
      (its unpacking of `add_requested_sizes`'s result swaps the pair): the status
      follows from what the vendors reported for the items with a processor
      store. */
  function ProcessOrderTallied(order: SalesOrder, outcome: Item -> Outcome): (rep: Report)
    ensures rep.outOfStock == TallyOutcomes(Route(order.items).processed, outcome).outOfStock
    ensures rep.processed == ProcessedTags(Route(order.items).processed)
    ensures rep.anyAdded <==> SomeAdded(order.items, outcome)
    ensures |rep.outOfStock| == 0 <==> NoneOutOfStock(order.items, outcome)
    ensures rep.status == Success <==> SomeAdded(order.items, outcome) && NoneOutOfStock(order.items, outcome)
    ensures rep.status == Partial <==> SomeAdded(order.items, outcome) && !NoneOutOfStock(order.items, outcome)
    ensures rep.status == OutOfStock <==> !SomeAdded(order.items, outcome) && !NoneOutOfStock(order.items, outcome)
    ensures rep.status == CustomStoreOnly
      <==> order.items != [] && forall j :: 0 <= j < |order.items| ==> !Processable(order.items[j])
  {
    var r := Route(order.items);
    var t := TallyOutcomes(r.processed, outcome);
    RoutedAdded(order.items, outcome);
    RoutedOutOfStock(order.items, outcome);
    TalliedStatus(order.items, outcome);
    var status := TalliedStatusOf(order.items, outcome);
    Report(order.id, order.url, order.customer, status, t.outOfStock,
           SkippedTags(r.skipped), ProcessedTags(r.processed), t.anyAdded)
  }

  /** An item whose store is written "sanmar" is routed to SanMar. */
  lemma SanmarStore(it: Item)
    requires it.store == "sanmar"
    ensures StoreKey(it) == SanmarKey
  {
    TrimOfTrimmed("sanmar");
    assert Lower("sanmar") == "sanmar";
  }

  /** An order of one SanMar item whose processor adds everything: as
      written it reports `no_items_added`; with the results kept it reports
      `success`. */
  lemma SanmarOnlyOrder(order: SalesOrder, outcome: Item -> Outcome)
    requires |order.items| == 1 && order.items[0].store == "sanmar"
    requires outcome(order.items[0]) == Outcome(true, [])
    ensures ProcessOrder(order).status == NoItemsAdded
    ensures ProcessOrderTallied(order, outcome).status == Success
  {
    var it := order.items[0];
    SanmarStore(it);
    assert Processable(it);
    ProcessOrderStatus(order);
    assert SomeAdded(order.items, outcome) by {
      assert Processable(order.items[0]) && outcome(order.items[0]).added;
    }
    assert NoneOutOfStock(order.items, outcome) by {
      assert forall j :: 0 <= j < |order.items| ==> order.items[j] == it;
    }
  }

  /** A fully stocked SanMar order: as written it reports `no_items_added`;
      with the results kept it reports `success`. */
  lemma DroppedOutcomes()
    ensures var order := SalesOrder("orders/1", 1, [Item("Tee", "PC54", "Navy", "sanmar", [SizeItem("L", 2)], 2)], 2, "Acme");
      && ProcessOrder(order).status == NoItemsAdded
      && ProcessOrderTallied(order, it => Outcome(true, [])).status == Success
  {
    var order := SalesOrder("orders/1", 1, [Item("Tee", "PC54", "Navy", "sanmar", [SizeItem("L", 2)], 2)], 2, "Acme");
    SanmarOnlyOrder(order, it => Outcome(true, []));
  }
}
