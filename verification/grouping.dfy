/** Python's `d.setdefault(key(x), []).append(x)` over a list: a dictionary
    of lists in key insertion order, modelled as a sequence of groups. */
module Grouping {

  /** One entry of a dictionary of lists built by `setdefault(...).append`. */
  datatype Group<T> = Group(key: string, members: seq<T>)

  /** The entries with key k, in order. */
  function Members<T>(s: seq<T>, key: T -> string, k: string): seq<T> {
    if s == [] then []
    else
      var last := s[|s| - 1];
      Members(s[..|s| - 1], key, k) + (if key(last) == k then [last] else [])
  }

  /** Index of the first entry with key k, or |s|. */
  function FirstWithKey<T>(s: seq<T>, key: T -> string, k: string): (i: nat)
    ensures i <= |s|
  {
    if s == [] then 0
    else if key(s[0]) == k then 0
    else 1 + FirstWithKey(s[1..], key, k)
  }

  lemma {:induction false} FirstWithKeySpec<T>(s: seq<T>, key: T -> string, k: string)
    ensures forall j :: 0 <= j < FirstWithKey(s, key, k) ==> key(s[j]) != k
    ensures FirstWithKey(s, key, k) < |s| ==> key(s[FirstWithKey(s, key, k)]) == k
  {
    if s != [] && key(s[0]) != k {
      FirstWithKeySpec(s[1..], key, k);
      assert forall j :: 1 <= j < |s| ==> s[j] == s[1..][j - 1];
    }
  }

  lemma {:induction false} FirstWithKeyExtend<T>(s: seq<T>, x: T, key: T -> string, k: string)
    ensures FirstWithKey(s + [x], key, k)
      == if FirstWithKey(s, key, k) < |s| then FirstWithKey(s, key, k)
         else if key(x) == k then |s| else |s| + 1
  {
    if s == [] {
      assert [x][1..] == [];
    } else {
      assert (s + [x])[0] == s[0];
      assert (s + [x])[1..] == s[1..] + [x];
      FirstWithKeyExtend(s[1..], x, key, k);
    }
  }

  lemma {:induction false} MembersNone<T>(s: seq<T>, key: T -> string, k: string)
    requires forall j :: 0 <= j < |s| ==> key(s[j]) != k
    ensures Members(s, key, k) == []
  {
    if s != [] {
      var p := s[..|s| - 1];
      assert forall j :: 0 <= j < |p| ==> p[j] == s[j];
      MembersNone(p, key, k);
    }
  }

  predicate HasGroup<T>(gs: seq<Group<T>>, k: string) {
    exists i :: 0 <= i < |gs| && gs[i].key == k
  }

  function GroupIndex<T>(gs: seq<Group<T>>, k: string): (i: int)
    ensures -1 <= i < |gs|
    ensures i >= 0 ==> gs[i].key == k
    ensures i < 0 <==> !HasGroup(gs, k)
  {
    if gs == [] then -1
    else if gs[0].key == k then 0
    else
      var j := GroupIndex(gs[1..], k);
      assert HasGroup(gs, k) ==> HasGroup(gs[1..], k) by {
        if HasGroup(gs, k) {
          var i :| 0 <= i < |gs| && gs[i].key == k;
          assert gs[1..][i - 1] == gs[i];
        }
      }
      if j < 0 then -1 else j + 1
  }

  /** One iteration of the grouping loop. */
  function AddToGroup<T>(gs: seq<Group<T>>, x: T, key: T -> string): seq<Group<T>> {
    var i := GroupIndex(gs, key(x));
    if i < 0 then gs + [Group(key(x), [x])]
    else gs[i := Group(gs[i].key, gs[i].members + [x])]
  }

  /** What the dictionary promises: one group per key of the entries, in the
      order of each key's first entry, holding exactly that key's entries in
      their order. */
  ghost predicate GroupsFaithful<T>(gs: seq<Group<T>>, s: seq<T>, key: T -> string) {
    && (forall i, j :: 0 <= i < j < |gs| ==> FirstWithKey(s, key, gs[i].key) < FirstWithKey(s, key, gs[j].key))
    && (forall i :: 0 <= i < |gs| ==> FirstWithKey(s, key, gs[i].key) < |s|)
    && (forall i :: 0 <= i < |gs| ==> gs[i].members == Members(s, key, gs[i].key))
    && (forall j :: 0 <= j < |s| ==> HasGroup(gs, key(s[j])))
  }

  lemma FirstsKept<T>(gs: seq<Group<T>>, s: seq<T>, x: T, key: T -> string)
    requires forall i :: 0 <= i < |gs| ==> FirstWithKey(s, key, gs[i].key) < |s|
    ensures forall i :: 0 <= i < |gs| ==> FirstWithKey(s + [x], key, gs[i].key) == FirstWithKey(s, key, gs[i].key)
  {
    forall i | 0 <= i < |gs| ensures FirstWithKey(s + [x], key, gs[i].key) == FirstWithKey(s, key, gs[i].key) {
      FirstWithKeyExtend(s, x, key, gs[i].key);
    }
  }

  /** A group appended with a key whose first entry is the latest keeps
      the groups in first-entry order. */
  lemma NewGroupOrdered<T>(gs: seq<Group<T>>, g: Group<T>, first: string -> int, bound: int)
    requires forall i, j :: 0 <= i < j < |gs| ==> first(gs[i].key) < first(gs[j].key)
    requires forall i :: 0 <= i < |gs| ==> first(gs[i].key) < bound
    requires first(g.key) == bound
    ensures forall i, j :: 0 <= i < j < |gs| + 1 ==> first((gs + [g])[i].key) < first((gs + [g])[j].key)
  {
    var gs' := gs + [g];
    assert forall i :: 0 <= i < |gs| ==> gs'[i].key == gs[i].key;
    assert gs'[|gs|].key == g.key;
  }

  lemma NewGroupCover<T>(gs: seq<Group<T>>, s: seq<T>, x: T, key: T -> string)
    requires forall j :: 0 <= j < |s| ==> HasGroup(gs, key(s[j]))
    ensures forall j :: 0 <= j < |s| + 1 ==> HasGroup(gs + [Group(key(x), [x])], key((s + [x])[j]))
  {
    var s' := s + [x];
    var gs' := gs + [Group(key(x), [x])];
    forall j | 0 <= j < |s'| ensures HasGroup(gs', key(s'[j])) {
      if j < |s| {
        assert s'[j] == s[j];
        var i :| 0 <= i < |gs| && gs[i].key == key(s[j]);
        assert gs'[i].key == gs[i].key;
      } else {
        assert gs'[|gs|].key == key(x);
      }
    }
  }

  lemma GroupsNew<T>(gs: seq<Group<T>>, s: seq<T>, x: T, key: T -> string)
    requires GroupsFaithful(gs, s, key)
    requires !HasGroup(gs, key(x))
    ensures GroupsFaithful(gs + [Group(key(x), [x])], s + [x], key)
  {
    var k := key(x);
    var s' := s + [x];
    var gs' := gs + [Group(k, [x])];
    FirstWithKeySpec(s, key, k);
    FirstWithKeyExtend(s, x, key, k);
    MembersNone(s, key, k);
    assert s'[..|s|] == s;
    FirstsKept(gs, s, x, key);
    NewGroupOrdered(gs, Group(k, [x]), l => FirstWithKey(s', key, l), |s|);
    NewGroupCover(gs, s, x, key);
    NewGroupMembers(gs, s, x, key);
    assert forall i :: 0 <= i < |gs| ==> gs'[i].key == gs[i].key;
  }

  lemma NewGroupMembers<T>(gs: seq<Group<T>>, s: seq<T>, x: T, key: T -> string)
    requires forall i :: 0 <= i < |gs| ==> gs[i].members == Members(s, key, gs[i].key)
    requires !HasGroup(gs, key(x)) && Members(s, key, key(x)) == []
    ensures forall i :: 0 <= i < |gs| + 1 ==>
      (gs + [Group(key(x), [x])])[i].members == Members(s + [x], key, (gs + [Group(key(x), [x])])[i].key)
  {
    var gs' := gs + [Group(key(x), [x])];
    forall i | 0 <= i < |gs'| ensures gs'[i].members == Members(s + [x], key, gs'[i].key) {
      MembersExtend(s, x, key, gs'[i].key);
      if i < |gs| {
        assert gs'[i].key == gs[i].key && gs'[i].members == gs[i].members;
      }
    }
  }

  lemma MembersExtend<T>(s: seq<T>, x: T, key: T -> string, k: string)
    ensures Members(s + [x], key, k) == Members(s, key, k) + (if key(x) == k then [x] else [])
  {
    assert (s + [x])[..|s|] == s;
  }

  lemma GroupsExisting<T>(gs: seq<Group<T>>, s: seq<T>, x: T, key: T -> string, i: int)
    requires GroupsFaithful(gs, s, key)
    requires 0 <= i < |gs| && gs[i].key == key(x)
    ensures GroupsFaithful(gs[i := Group(gs[i].key, gs[i].members + [x])], s + [x], key)
  {
    var s' := s + [x];
    var gs' := gs[i := Group(gs[i].key, gs[i].members + [x])];
    assert s'[..|s|] == s;
    FirstsKept(gs, s, x, key);
    assert forall m :: 0 <= m < |gs| ==> gs'[m].key == gs[m].key;
    forall j | 0 <= j < |s'| ensures HasGroup(gs', key(s'[j])) {
      if j < |s| {
        assert s'[j] == s[j];
        var m :| 0 <= m < |gs| && gs[m].key == key(s[j]);
        assert gs'[m].key == gs[m].key;
      } else {
        assert gs'[i].key == key(x);
      }
    }
  }

  /** The grouping loop. */
  function GroupBy<T>(s: seq<T>, key: T -> string): (gs: seq<Group<T>>)
    ensures GroupsFaithful(gs, s, key)
  {
    if s == [] then []
    else
      var p := s[..|s| - 1];
      var last := s[|s| - 1];
      assert p + [last] == s;
      var gs := GroupBy(p, key);
      var i := GroupIndex(gs, key(last));
      if i < 0 then
        GroupsNew(gs, p, last, key);
        AddToGroup(gs, last, key)
      else
        GroupsExisting(gs, p, last, key, i);
        AddToGroup(gs, last, key)
  }

  lemma {:induction false} MembersAppend<T>(a: seq<T>, b: seq<T>, key: T -> string, k: string)
    ensures Members(a + b, key, k) == Members(a, key, k) + Members(b, key, k)
  {
    if b == [] {
      assert a + b == a;
    } else {
      var b' := b[..|b| - 1];
      assert (a + b)[..|a + b| - 1] == a + b';
      assert (a + b)[|a + b| - 1] == b[|b| - 1];
      MembersAppend(a, b', key, k);
    }
  }

  /** The entries with key k all have key k. */
  lemma {:induction false} MembersKeyed<T>(s: seq<T>, key: T -> string, k: string)
    ensures forall j :: 0 <= j < |Members(s, key, k)| ==> key(Members(s, key, k)[j]) == k
  {
    if s != [] {
      MembersKeyed(s[..|s| - 1], key, k);
    }
  }

  /** Entries that all share the key g keep everything under g and nothing
      under any other key. */
  lemma {:induction false} MembersUniform<T>(m: seq<T>, key: T -> string, g: string, k: string)
    requires forall j :: 0 <= j < |m| ==> key(m[j]) == g
    ensures Members(m, key, k) == if g == k then m else []
  {
    if m != [] {
      var p := m[..|m| - 1];
      assert forall j :: 0 <= j < |p| ==> p[j] == m[j];
      MembersUniform(p, key, g, k);
      assert p + [m[|m| - 1]] == m;
    }
  }
}
