/** Following `next` links in an arena of half-edges.  When the links form a
    permutation, every walk returns to its start in fewer steps than there
    are half-edges; the face loops of the mesh rely on this to terminate. */
module Walk {

  /** Every link points into the arena. */
  ghost predicate Closed(nx: seq<nat>)
  {
    forall i :: 0 <= i < |nx| ==> nx[i] < |nx|
  }

  /** No two half-edges share a successor. */
  ghost predicate Injective(nx: seq<nat>)
  {
    forall i, j :: 0 <= i < |nx| && 0 <= j < |nx| && nx[i] == nx[j] ==> i == j
  }

  /** The half-edge reached from `e` after `i` steps. */
  ghost function Iter(nx: seq<nat>, e: nat, i: nat): (r: nat)
    requires Closed(nx) && e < |nx|
    ensures r < |nx|
  {
    if i == 0 then e else nx[Iter(nx, e, i - 1)]
  }

  /** Walks that meet after the same number of further steps met before. */
  lemma {:induction false} IterCancel(nx: seq<nat>, e: nat, i: nat, j: nat, m: nat)
    requires Closed(nx) && Injective(nx) && e < |nx|
    requires Iter(nx, e, i + m) == Iter(nx, e, j + m)
    ensures Iter(nx, e, i) == Iter(nx, e, j)
  {
    if m > 0 {
      assert Iter(nx, e, i + m) == nx[Iter(nx, e, i + m - 1)];
      assert Iter(nx, e, j + m) == nx[Iter(nx, e, j + m - 1)];
      IterCancel(nx, e, i, j, m - 1);
    }
  }

  /** The half-edges visited in steps 1..k. */
  ghost function Visited(nx: seq<nat>, e: nat, k: nat): set<nat>
    requires Closed(nx) && e < |nx|
  {
    if k == 0 then {} else Visited(nx, e, k - 1) + {Iter(nx, e, k)}
  }

  lemma {:induction false} VisitedFrom(nx: seq<nat>, e: nat, k: nat, x: nat)
    requires Closed(nx) && e < |nx|
    requires x in Visited(nx, e, k)
    ensures exists i :: 1 <= i <= k && Iter(nx, e, i) == x
  {
    if x != Iter(nx, e, k) {
      VisitedFrom(nx, e, k - 1, x);
    }
  }

  lemma {:induction false} VisitedCard(nx: seq<nat>, e: nat, k: nat)
    requires Closed(nx) && Injective(nx) && e < |nx|
    requires forall i :: 1 <= i <= k ==> Iter(nx, e, i) != e
    ensures |Visited(nx, e, k)| == k
    ensures e !in Visited(nx, e, k)
    ensures forall x :: x in Visited(nx, e, k) ==> x < |nx|
  {
    if k > 0 {
      VisitedCard(nx, e, k - 1);
      if Iter(nx, e, k) in Visited(nx, e, k - 1) {
        VisitedFrom(nx, e, k - 1, Iter(nx, e, k));
        var i :| 1 <= i <= k - 1 && Iter(nx, e, i) == Iter(nx, e, k);
        IterCancel(nx, e, 0, k - i, i);
        assert false;
      }
    }
  }

  /** The naturals below `n`. */
  ghost function Range(n: nat): set<nat>
  {
    if n == 0 then {} else Range(n - 1) + {n - 1}
  }

  lemma {:induction false} RangeFacts(n: nat)
    ensures |Range(n)| == n
    ensures forall x: nat :: x in Range(n) <==> x < n
  {
    if n > 0 {
      RangeFacts(n - 1);
    }
  }

  lemma SubsetCard(a: set<nat>, b: set<nat>)
    requires a <= b
    ensures |a| <= |b|
  {
    assert b == a + (b - a);
  }

  /** A walk that has not yet returned to its start has taken fewer steps
      than there are half-edges. */
  lemma WalkBound(nx: seq<nat>, e: nat, k: nat)
    requires Closed(nx) && Injective(nx) && e < |nx|
    requires forall i :: 1 <= i <= k ==> Iter(nx, e, i) != e
    ensures k < |nx|
  {
    VisitedCard(nx, e, k);
    RangeFacts(|nx|);
    SubsetCard(Visited(nx, e, k) + {e}, Range(|nx|));
  }
}
