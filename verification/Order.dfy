/** The keys of a sorted container, in the order its iterator visits them. */
module Order {

  /** A numbering of `K` that gives its order. */
  ghost predicate IsOrder<K(!new)>(rank: K -> nat)
  {
    forall a, b {:trigger rank(a), rank(b)} :: rank(a) == rank(b) ==> a == b
  }

  ghost predicate IsLeast<K(!new)>(s: set<K>, rank: K -> nat, m: K)
  {
    m in s && forall x :: x in s ==> rank(m) <= rank(x)
  }

  lemma {:induction false} LeastExists<K(!new)>(s: set<K>, rank: K -> nat)
    requires s != {}
    ensures exists m :: IsLeast(s, rank, m)
    decreases |s|
  {
    var x :| x in s;
    if s == {x} {
      assert IsLeast(s, rank, x);
    } else {
      var rest := s - {x};
      assert rest + {x} == s;
      assert rest != {};
      LeastExists(rest, rank);
      var m :| IsLeast(rest, rank, m);
      assert IsLeast(s, rank, if rank(x) < rank(m) then x else m);
    }
  }

  ghost function Least<K(!new)>(s: set<K>, rank: K -> nat): (m: K)
    requires s != {}
    ensures IsLeast(s, rank, m)
  {
    LeastExists(s, rank);
    var m :| IsLeast(s, rank, m);
    m
  }

  /** All of `s`, lowest first. */
  ghost function Ascending<K(!new)>(s: set<K>, rank: K -> nat): (keys: seq<K>)
    ensures |keys| == |s|
    decreases |s|
  {
    if s == {} then [] else
      var m := Least(s, rank);
      [m] + Ascending(s - {m}, rank)
  }

  lemma {:induction false} AscendingHasAll<K(!new)>(s: set<K>, rank: K -> nat, x: K)
    ensures x in Ascending(s, rank) <==> x in s
    decreases |s|
  {
    if s != {} {
      AscendingHasAll(s - {Least(s, rank)}, rank, x);
    }
  }

  /** Strictly ascending, hence each once. */
  lemma {:induction false} AscendingIsSorted<K(!new)>(s: set<K>, rank: K -> nat, i: nat, j: nat)
    requires IsOrder(rank) && i < j < |s|
    ensures rank(Ascending(s, rank)[i]) < rank(Ascending(s, rank)[j])
    decreases |s|
  {
    var m := Least(s, rank);
    var rest := s - {m};
    if i > 0 {
      AscendingIsSorted(rest, rank, i - 1, j - 1);
    } else {
      var x := Ascending(rest, rank)[j - 1];
      AscendingHasAll(rest, rank, x);
      assert rank(x) == rank(m) ==> x == m;
    }
  }

  /** The visit of the lowest remaining key. */
  lemma NextVisited<K(!new)>(s: set<K>, rank: K -> nat, m: K)
    requires IsOrder(rank) && IsLeast(s, rank, m)
    ensures Ascending(s, rank) == [m] + Ascending(s - {m}, rank)
  {}

  method PickLeast<K(==,!new)>(s: set<K>, rank: K -> nat) returns (m: K)
    requires s != {}
    ensures IsLeast(s, rank, m)
  {
    m :| m in s;
    var rest := s - {m};
    while rest != {}
      invariant rest <= s && m in s && m !in rest
      invariant forall x :: x in s - rest ==> rank(m) <= rank(x)
      decreases |rest|
    {
      var x :| x in rest;
      rest := rest - {x};
      if rank(x) < rank(m) {
        m := x;
      }
    }
  }

  lemma NothingVisited<K(!new)>(rank: K -> nat)
    ensures Ascending({}, rank) == []
  {}

  /** Iteration over the sorted container. */
  method Visit<K(==,!new)>(s: set<K>, rank: K -> nat) returns (keys: seq<K>)
    requires IsOrder(rank)
    ensures keys == Ascending(s, rank)
  {
    hide IsOrder, Ascending;
    NothingVisited(rank);
    keys := [];
    var rest := s;
    assert keys + Ascending(rest, rank) == Ascending(s, rank);
    while rest != {}
      invariant keys + Ascending(rest, rank) == Ascending(s, rank)
      decreases |rest|
    {
      var m := PickLeast(rest, rank);
      NextVisited(rest, rank, m);
      assert keys + ([m] + Ascending(rest - {m}, rank)) == keys + [m] + Ascending(rest - {m}, rank);
      keys := keys + [m];
      rest := rest - {m};
    }
  }
}
