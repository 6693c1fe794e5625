/** Choosing the lightest and the heaviest node from a list of loads that is sorted in place; among
    equally light nodes one is drawn by lot. */
module LoadChoice {

  datatype NodeLoad = NodeLoad(nodeID: nat, load: real)

  predicate Sorted(s: seq<NodeLoad>) {
    forall i, j :: 0 <= i <= j < |s| ==> s[i].load <= s[j].load
  }

  /** The same loads in another order. */
  ghost predicate Permutation(s: seq<NodeLoad>, t: seq<NodeLoad>) {
    multiset(s) == multiset(t)
  }

  function Swapped(s: seq<NodeLoad>, j: nat): seq<NodeLoad>
    requires 0 < j < |s|
  {
    s[j - 1 := s[j]][j := s[j - 1]]
  }

  lemma SwapPermutes(s: seq<NodeLoad>, j: nat, t: seq<NodeLoad>)
    requires 0 < j < |s| && Permutation(s, t)
    ensures Permutation(Swapped(s, j), t)
  {}

  lemma PermutationMembers(s: seq<NodeLoad>, t: seq<NodeLoad>, x: NodeLoad)
    requires Permutation(s, t)
    ensures x in s <==> x in t
  {
    assert x in s <==> x in multiset(s);
    assert x in t <==> x in multiset(t);
  }

  /** Stands for the library's sort: all that is used of it is this contract. */
  method Sort(a: array<NodeLoad>)
    modifies a
    ensures Sorted(a[..]) && Permutation(a[..], old(a[..]))
  {
    for i := 0 to a.Length
      invariant Sorted(a[..i]) && Permutation(a[..], old(a[..]))
    {
      Insert(a, i);
    }
    assert a[..a.Length] == a[..];
  }

  /** The first `n` are sorted but for the element at `j`, which may be too small for its place. */
  predicate SortedBut(s: seq<NodeLoad>, n: nat, j: nat) {
    && n <= |s|
    && (forall p, q :: 0 <= p < q < n && q != j ==> s[p].load <= s[q].load)
  }

  lemma SwapSorts(s: seq<NodeLoad>, n: nat, j: nat)
    requires SortedBut(s, n, j) && 0 < j < n && s[j].load < s[j - 1].load
    ensures SortedBut(Swapped(s, j), n, j - 1)
  {}

  lemma PlaceFound(s: seq<NodeLoad>, n: nat, j: nat)
    requires SortedBut(s, n, j) && j < n && (j == 0 || s[j - 1].load <= s[j].load)
    ensures Sorted(s[..n])
  {
    forall p, q | 0 <= p < q < n
      ensures s[p].load <= s[q].load
    {
      if q == j && p < j - 1 {
        assert s[p].load <= s[j - 1].load;
      }
    }
  }

  method SwapDown(a: array<NodeLoad>, j: nat)
    requires 0 < j < a.Length
    modifies a
    ensures a[..] == Swapped(old(a[..]), j)
  {
    a[j - 1], a[j] := a[j], a[j - 1];
  }

  method Insert(a: array<NodeLoad>, i: nat)
    requires i < a.Length && Sorted(a[..i])
    modifies a
    ensures Sorted(a[..i + 1]) && Permutation(a[..], old(a[..]))
  {
    ghost var s := a[..];
    var j := i;
    assert SortedBut(s, i + 1, i) by {
      assert forall k :: 0 <= k < i ==> a[..i][k] == s[k];
    }
    hide SortedBut, Permutation, Sorted, Swapped;
    while 0 < j && a[j].load < a[j - 1].load
      invariant 0 <= j <= i && s == a[..]
      invariant SortedBut(s, i + 1, j) && Permutation(s, old(a[..]))
    {
      SwapSorts(s, i + 1, j);
      SwapPermutes(s, j, old(a[..]));
      SwapDown(a, j);
      s := a[..];
      j := j - 1;
    }
    PlaceFound(s, i + 1, j);
    assert s[..i + 1] == a[..i + 1];
  }

  // ---------- the choice ----------

  predicate Lightest(s: seq<NodeLoad>, x: NodeLoad) {
    x in s && forall y :: y in s ==> x.load <= y.load
  }

  predicate Heaviest(s: seq<NodeLoad>, x: NodeLoad) {
    x in s && forall y :: y in s ==> y.load <= x.load
  }

  /** In a sorted list the nodes that tie with the first are exactly the lightest, and the last is a heaviest. */
  lemma TieIsLightest(s: seq<NodeLoad>, t: seq<NodeLoad>, ties: nat)
    requires s != [] && Sorted(s) && Permutation(s, t) && 0 < ties <= |s|
    requires forall i :: 0 <= i < ties ==> s[i].load == s[0].load
    requires ties < |s| ==> s[ties].load != s[0].load
    ensures forall i :: 0 <= i < |s| ==> (i < ties <==> Lightest(t, s[i]))
    ensures Heaviest(t, s[|s| - 1]) && s[0].load <= s[|s| - 1].load
  {
    forall x
      ensures x in s <==> x in t
    {
      PermutationMembers(s, t, x);
    }
    hide Permutation;
    forall x | x in t
      ensures s[0].load <= x.load <= s[|s| - 1].load
    {
      var i :| 0 <= i < |s| && s[i] == x;
    }
    forall i | 0 <= i < |s|
      ensures i < ties <==> Lightest(t, s[i])
    {
      assert s[i] in s && s[0] in s;
      if ties <= i {
        assert s[0].load < s[ties].load <= s[i].load;
      }
    }
  }

  class NodeProber {
    var lightNodeID: nat
    var heavyNodeID: nat
    var loadDiff: real

    /** `lot(n)` is the number below `n` that is drawn. There is always at least the node itself. The list
        is left sorted with the lightest nodes, and only these, in front; the lot decides among them. */
    method CalcNodeLoading(nodeLoads: array<NodeLoad>, lot: nat -> nat) returns (ties: nat)
      requires 0 < nodeLoads.Length && forall n :: 0 < n ==> lot(n) < n
      modifies this, nodeLoads
      ensures Sorted(nodeLoads[..]) && Permutation(nodeLoads[..], old(nodeLoads[..]))
      ensures 0 < ties <= nodeLoads.Length
      ensures forall i :: 0 <= i < nodeLoads.Length ==> (i < ties <==> Lightest(old(nodeLoads[..]), nodeLoads[i]))
      ensures lightNodeID == nodeLoads[lot(ties)].nodeID
      ensures exists heavy :: Heaviest(old(nodeLoads[..]), heavy) && heavyNodeID == heavy.nodeID
                              && loadDiff == heavy.load - nodeLoads[0].load && 0.0 <= loadDiff
    {
      hide Sorted, Permutation, Lightest, Heaviest;
      ghost var loads := nodeLoads[..];
      Sort(nodeLoads);
      var minLoad, maxLoad := nodeLoads[0].load, nodeLoads[nodeLoads.Length - 1].load;
      var sameLoadCount := 0;
      while sameLoadCount < nodeLoads.Length && nodeLoads[sameLoadCount].load == minLoad
        invariant 0 <= sameLoadCount <= nodeLoads.Length
        invariant forall i :: 0 <= i < sameLoadCount ==> nodeLoads[i].load == minLoad
      {
        sameLoadCount := sameLoadCount + 1;
      }
      ghost var sorted := nodeLoads[..];
      TieIsLightest(sorted, loads, sameLoadCount);
      lightNodeID := nodeLoads[lot(sameLoadCount)].nodeID;
      heavyNodeID := nodeLoads[nodeLoads.Length - 1].nodeID;
      loadDiff := maxLoad - minLoad;
      ties := sameLoadCount;
      assert Heaviest(loads, sorted[|sorted| - 1]);
    }
  }
}
