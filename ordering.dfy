/**
 * The rule order behind `sorted()` and `sortedDescending()`.
 *
 * The ordering of rules is defined outside the stylesheet, so it is a parameter here:
 * a rank function, required to be injective on the rules being sorted. Every strict
 * total order on a finite set of rules can be given this way.
 */
module Ordering {
  import opened Rules

  type Rank = Rule -> int

  ghost predicate InjectiveOn(rank: Rank, s: set<Rule>) {
    forall a, b :: a in s && b in s && rank(a) == rank(b) ==> a == b
  }

  ghost predicate Ascending(rs: seq<Rule>, rank: Rank) {
    forall i, j :: 0 <= i < j < |rs| ==> rank(rs[i]) < rank(rs[j])
  }

  ghost predicate Descending(rs: seq<Rule>, rank: Rank) {
    forall i, j :: 0 <= i < j < |rs| ==> rank(rs[i]) > rank(rs[j])
  }

  predicate IsLeast(m: Rule, s: set<Rule>, rank: Rank) {
    m in s && forall x :: x in s ==> rank(m) <= rank(x)
  }

  lemma {:induction false} LeastExists(s: set<Rule>, rank: Rank)
    requires s != {}
    ensures exists m :: IsLeast(m, s, rank)
  {
    var y :| y in s;
    if s != {y} {
      LeastExists(s - {y}, rank);
      var m :| IsLeast(m, s - {y}, rank);
      if rank(y) < rank(m) {
        assert IsLeast(y, s, rank);
      } else {
        assert IsLeast(m, s, rank);
      }
    } else {
      assert IsLeast(y, s, rank);
    }
  }

  lemma PrependAscending(m: Rule, rest: seq<Rule>, rank: Rank)
    requires Ascending(rest, rank)
    requires forall x :: x in rest ==> rank(m) < rank(x)
    ensures Ascending([m] + rest, rank)
  {
    var rs := [m] + rest;
    forall i, j | 0 <= i < j < |rs| ensures rank(rs[i]) < rank(rs[j]) {
      assert rs[j] == rest[j - 1];
      if i > 0 { assert rs[i] == rest[i - 1]; }
    }
  }

  /** Putting the least rule of `s` in front of the sorted rest sorts `s`. */
  lemma PrependLeast(m: Rule, s: set<Rule>, rest: seq<Rule>, rank: Rank)
    requires InjectiveOn(rank, s) && IsLeast(m, s, rank)
    requires |rest| == |s - {m}| && (forall x :: x in rest <==> x in s - {m}) && Ascending(rest, rank)
    ensures |[m] + rest| == |s| && (forall x :: x in [m] + rest <==> x in s) && Ascending([m] + rest, rank)
  {
    forall x | x in rest ensures rank(m) < rank(x) {
      assert x in s && x != m;
    }
    PrependAscending(m, rest, rank);
  }

  /** `s.sorted()`: every rule of `s` exactly once, in ascending rank. */
  function Sorted(s: set<Rule>, rank: Rank): (rs: seq<Rule>)
    requires InjectiveOn(rank, s)
    ensures |rs| == |s|
    ensures forall x :: x in rs <==> x in s
    ensures Ascending(rs, rank)
    decreases |s|
  {
    if s == {} then []
    else
      LeastExists(s, rank);
      var m :| IsLeast(m, s, rank);
      var rest := Sorted(s - {m}, rank);
      PrependLeast(m, s, rest, rank);
      [m] + rest
  }

  /** `s.sortedDescending()`: every rule of `s` exactly once, in descending rank. */
  function SortedDescending(s: set<Rule>, rank: Rank): (rs: seq<Rule>)
    requires InjectiveOn(rank, s)
    ensures |rs| == |s|
    ensures forall x :: x in rs <==> x in s
    ensures Descending(rs, rank)
  {
    var down := (r: Rule) => -rank(r);
    assert InjectiveOn(down, s);
    Sorted(s, down)
  }

  /** In a strictly ascending sequence, the rules before position `k` are exactly its rules of lower rank. */
  lemma AscendingPrefix(rs: seq<Rule>, rank: Rank, k: nat, x: Rule)
    requires Ascending(rs, rank) && k < |rs|
    ensures x in rs[..k] <==> x in rs && rank(x) < rank(rs[k])
  {
    if x in rs && rank(x) < rank(rs[k]) {
      var j :| 0 <= j < |rs| && rs[j] == x;
      assert j < k;
      assert rs[..k][j] == x;
    }
  }
}
