/**
  Debts as edges: an edge from the debtor to the creditor whose capacity is
  the amount owed. A person's balance is what they owe minus what they are
  owed, and it is the quantity that debt simplification must keep.
 */
module DebtBalance {
  import opened FlowNetwork

  /** What edge e adds to v's balance: its amount when v owes it, minus its
      amount when v is owed it. */
  function Contribution(e: Edge, v: int): int {
    (if e.from == v then e.capacity else 0) - (if e.to == v then e.capacity else 0)
  }

  /** v's net balance: the sum of the amounts v owes minus the sum of the
      amounts v is owed. */
  function Balance(list: seq<Edge>, v: int): int {
    if list == [] then 0
    else Balance(list[..|list| - 1], v) + Contribution(list[|list| - 1], v)
  }

  /** Debts between distinct people among n. */
  ghost predicate Between(list: seq<Edge>, n: nat) {
    forall k :: 0 <= k < |list| ==>
      0 <= list[k].from < n && 0 <= list[k].to < n && list[k].from != list[k].to
  }

  /** No amount is negative. */
  ghost predicate NonNegative(list: seq<Edge>) {
    forall k :: 0 <= k < |list| ==> list[k].capacity >= 0
  }

  /** Every amount is positive. */
  ghost predicate Positive(list: seq<Edge>) {
    forall k :: 0 <= k < |list| ==> list[k].capacity > 0
  }

  /** The balance of a concatenation is the sum of the balances. */
  lemma {:induction false} BalanceAppend(a: seq<Edge>, b: seq<Edge>, v: int)
    ensures Balance(a + b, v) == Balance(a, v) + Balance(b, v)
    decreases |b|
  {
    if b == [] {
      assert a + b == a;
    } else {
      assert (a + b)[..|a + b| - 1] == a + b[..|b| - 1];
      BalanceAppend(a, b[..|b| - 1], v);
    }
  }

  /** The balance depends on endpoints and amounts only, never on flows. */
  lemma {:induction false} BalanceSameShape(a: seq<Edge>, b: seq<Edge>, v: int)
    requires SameShape(a, b)
    ensures Balance(a, v) == Balance(b, v)
    decreases |a|
  {
    if a != [] {
      BalanceSameShape(a[..|a| - 1], b[..|b| - 1], v);
    }
  }

  /** A network built from no edges by adding a list of debts carries no
      flow yet, and its arena has the balances of the list: each residual
      edge has no amount and so changes no balance. */
  lemma {:induction false} BuiltFrom(n: nat, list: seq<Edge>, v: int)
    requires EndpointsIn(list, n)
    ensures Balance(WithEdges(Empty(n), list).arena, v) == Balance(list, v)
    ensures NetOut(WithEdges(Empty(n), list).arena, v) == 0
    decreases |list|
  {
    if list != [] {
      var init := list[..|list| - 1];
      var e := list[|list| - 1];
      assert EndpointsIn(init, n);
      BuiltFrom(n, init, v);
      var a := WithEdges(Empty(n), init).arena;
      var fwd := Edge(e.from, e.to, e.capacity, 0);
      var res := Edge(e.to, e.from, 0, 0);
      var b := a + [fwd, res];
      assert WithEdges(Empty(n), list).arena == b;
      BalanceAppend(a, [fwd, res], v);
      assert [fwd, res][..1] == [fwd] && [fwd][..0] == [];
      assert b[..|b| - 1] == a + [fwd] && (a + [fwd])[..|a|] == a;
    }
  }

  /** Building from debts between distinct people keeps every arena edge,
      forward or residual, between distinct people. */
  lemma {:induction false} BuiltBetween(n: nat, list: seq<Edge>)
    requires Between(list, n)
    ensures EndpointsIn(list, n)
    ensures Between(WithEdges(Empty(n), list).arena, n)
    decreases |list|
  {
    if list != [] {
      var init := list[..|list| - 1];
      assert Between(init, n);
      BuiltBetween(n, init);
    }
  }

  /** Between distinct people is a matter of endpoints only. */
  lemma BetweenSameShape(a: seq<Edge>, b: seq<Edge>, n: nat)
    requires SameShape(a, b) && Between(a, n)
    ensures Between(b, n)
  {
    forall k | 0 <= k < |b|
      ensures 0 <= b[k].from < n && 0 <= b[k].to < n && b[k].from != b[k].to
    {
      assert a[k].from == b[k].from && a[k].to == b[k].to;
    }
  }
}
