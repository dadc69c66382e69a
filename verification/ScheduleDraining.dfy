/** Repeated claims at one instant (crates/patchhive-product-core/src/scheduling.rs). */
module ScheduleDraining {
  import opened Wrappers
  import opened Numbers
  import opened Scheduling

  ghost function Round(table: Table, product: string, action: string, limit: nat, now: Time): Table {
    ClaimedTable(table, Selected(table, product, action, now, limit), At(now))
  }

  ghost function Rounds(table: Table, product: string, action: string, limit: nat, now: Time, n: nat): Table {
    if n == 0 then table else Round(Rounds(table, product, action, limit, now, n - 1), product, action, limit, now)
  }

  /** The schedules taken, in the order they are taken. */
  ghost function Taken(table: Table, product: string, action: string, limit: nat, now: Time, n: nat): seq<Key> {
    if n == 0 then []
    else
      var before := Rounds(table, product, action, limit, now, n - 1);
      Taken(table, product, action, limit, now, n - 1) + Selected(before, product, action, now, limit)
  }

  ghost predicate SameRows(a: Table, b: Table, keys: set<Key>) {
    keys <= a.Keys && keys <= b.Keys && forall k :: k in keys ==> a[k] == b[k]
  }

  lemma {:induction false} InOrderFrame(a: Table, b: Table, keys: set<Key>)
    requires OneAction(a, keys) && SameRows(a, b, keys)
    ensures OneAction(b, keys) && InOrder(a, keys) == InOrder(b, keys)
    decreases |keys|
  {
    if keys == {} {
    } else {
      var first := FirstOf(a, keys);
      assert IsFirst(b, keys, first);
      hide IsFirst, Before;
      InOrderFirst(b, keys, first);
      FirstIsMember(a, keys, first);
      InOrderFrame(a, b, keys - {first});
    }
  }

  ghost function SetOf(keys: seq<Key>): set<Key> {
    set k | k in keys
  }

  lemma DropFirst(keys: set<Key>, first: Key, order: seq<Key>, n: nat)
    requires 0 < n <= |order| + 1
    ensures keys - SetOf(([first] + order)[..n]) == keys - {first} - SetOf(order[..n - 1])
    ensures ([first] + order)[n..] == order[n - 1..]
  {
    assert ([first] + order)[..n] == [first] + order[..n - 1];
  }

  /** Taking the first `n` away leaves the rest in order. */
  lemma {:induction false} InOrderDrop(table: Table, keys: set<Key>, n: nat)
    requires OneAction(table, keys) && n <= |keys|
    ensures OneAction(table, keys - SetOf(InOrder(table, keys)[..n]))
    ensures InOrder(table, keys - SetOf(InOrder(table, keys)[..n])) == InOrder(table, keys)[n..]
    decreases n
  {
    hide Before, IsFirst;
    var ordered := InOrder(table, keys);
    if n == 0 {
      assert keys - SetOf(ordered[..0]) == keys;
    } else {
      var first := FirstOf(table, keys);
      var rest := keys - {first};
      var order := InOrder(table, rest);
      InOrderDrop(table, rest, n - 1);
      assert ordered == [first] + order;
      hide InOrder, OneAction, FirstOf;
      DropFirst(keys, first, order, n);
    }
  }

  lemma DueAfter(table: Table, after: Table, keys: seq<Key>, product: string, action: string, now: Time)
    requires forall k :: k !in keys ==> Lookup(after, k) == Lookup(table, k)
    requires forall k :: k in keys ==> k in table && Lookup(after, k) == Some(ClaimedRow(table[k], now, now))
    ensures Due(after, product, action, now) == Due(table, product, action, now) - SetOf(keys)
  {
    forall k
      ensures k in Due(after, product, action, now) <==> k in Due(table, product, action, now) && k !in keys
    {
      assert Lookup(after, k) == Lookup(table, k) || k in keys;
    }
  }

  /** A round takes the first due schedules away and leaves every other row as it was. */
  lemma RoundLeaves(table: Table, product: string, action: string, limit: nat, now: Time)
    ensures var keys := Selected(table, product, action, now, limit);
      var after := Round(table, product, action, limit, now);
      && Due(after, product, action, now) == Due(table, product, action, now) - SetOf(keys)
      && (forall k :: k !in keys ==> Lookup(after, k) == Lookup(table, k))
      && forall k :: k in keys ==> k in table && Lookup(after, k) == Some(ClaimedRow(table[k], now, now))
  {
    var keys := Selected(table, product, action, now, limit);
    var after := Round(table, product, action, limit, now);
    SelectedClaimable(table, product, action, now, limit);
    hide Selected;
    forall k | k !in keys
      ensures Lookup(after, k) == Lookup(table, k)
    {
      OthersUnclaimed(table, keys, At(now), k);
    }
    forall k | k in keys
      ensures k in table && Lookup(after, k) == Some(ClaimedRow(table[k], now, now))
    {
      var i :| 0 <= i < |keys| && keys[i] == k;
      NthClaimed(table, keys, At(now), i);
    }
    hide Round;
    DueAfter(table, after, keys, product, action, now);
  }

  ghost function AllDue(table: Table, product: string, action: string, now: Time): seq<Key> {
    DueIsOneAction(table, product, action, now);
    InOrder(table, Due(table, product, action, now))
  }

  /** One round takes the first `limit` of the due schedules and leaves the rest in order. */
  lemma RoundTakesPrefix(table: Table, product: string, action: string, limit: nat, now: Time)
    ensures var due := AllDue(table, product, action, now);
      var n := Min(Max(limit, 1), |due|);
      && Selected(table, product, action, now, limit) == due[..n]
      && AllDue(Round(table, product, action, limit, now), product, action, now) == due[n..]
  {
    var due := Due(table, product, action, now);
    var after := Round(table, product, action, limit, now);
    DueIsOneAction(table, product, action, now);
    DueIsOneAction(after, product, action, now);
    var n := Min(Max(limit, 1), |due|);
    RoundLeaves(table, product, action, limit, now);
    InOrderDrop(table, due, n);
    var left := due - SetOf(InOrder(table, due)[..n]);
    hide Round, Before, InOrder;
    assert SameRows(table, after, left) by {
      forall k | k in left
        ensures k in table && k in after && table[k] == after[k]
      {
        assert Lookup(after, k) == Lookup(table, k);
      }
    }
    InOrderFrame(table, after, left);
  }

  lemma NextSlice(due: seq<Key>, limit: nat, start: nat)
    ensures var before, after := Min(start, |due|), Min(start + limit, |due|);
      && due[before..][..Min(limit, |due| - before)] == due[before..after]
      && due[..before] + due[before..after] == due[..after]
      && due[before..][Min(limit, |due| - before)..] == due[after..]
  {}

  /**
    Repeated claims at one instant take the due schedules in order, `limit` at a time and none twice,
    until none is left.
   */
  lemma {:induction false} RoundsDrain(table: Table, product: string, action: string, limit: nat, now: Time, n: nat)
    ensures var due := AllDue(table, product, action, now);
      var taken := Min(n * Max(limit, 1), |due|);
      && Taken(table, product, action, limit, now, n) == due[..taken]
      && AllDue(Rounds(table, product, action, limit, now, n), product, action, now) == due[taken..]
  {
    hide AllDue, Selected, Round;
    var due := AllDue(table, product, action, now);
    if n == 0 {
      assert n * Max(limit, 1) == 0;
    } else {
      RoundsDrain(table, product, action, limit, now, n - 1);
      var before := Rounds(table, product, action, limit, now, n - 1);
      RoundTakesPrefix(before, product, action, limit, now);
      assert n * Max(limit, 1) == (n - 1) * Max(limit, 1) + Max(limit, 1);
      NextSlice(due, Max(limit, 1), (n - 1) * Max(limit, 1));
    }
  }

  lemma {:induction false} InOrderMultiset(table: Table, keys: set<Key>)
    requires OneAction(table, keys)
    ensures multiset(InOrder(table, keys)) == multiset(keys)
    decreases |keys|
  {
    hide Before;
    if keys == {} {
    } else {
      var first := FirstOf(table, keys);
      InOrderMultiset(table, keys - {first});
      assert multiset(keys) == multiset{first} + multiset(keys - {first});
    }
  }

  lemma AllDueIsDue(table: Table, product: string, action: string, now: Time)
    ensures multiset(AllDue(table, product, action, now)) == multiset(Due(table, product, action, now))
  {
    DueIsOneAction(table, product, action, now);
    InOrderMultiset(table, Due(table, product, action, now));
  }

  /** Enough rounds leave nothing due. */
  lemma EnoughRoundsDrainAll(table: Table, product: string, action: string, limit: nat, now: Time, n: nat)
    requires n * Max(limit, 1) >= |Due(table, product, action, now)|
    ensures Due(Rounds(table, product, action, limit, now, n), product, action, now) == {}
    ensures multiset(Taken(table, product, action, limit, now, n)) == multiset(Due(table, product, action, now))
  {
    var after := Rounds(table, product, action, limit, now, n);
    var due := AllDue(table, product, action, now);
    RoundsDrain(table, product, action, limit, now, n);
    hide Rounds, Taken;
    assert due[..|due|] == due;
    DueIsOneAction(after, product, action, now);
    assert |AllDue(after, product, action, now)| == |Due(after, product, action, now)|;
    AllDueIsDue(table, product, action, now);
  }
}
