// Cluster chains in a table of FAT entries: what chains are, what allocating and freeing
// clusters does to them, and how many clusters are free.

module Chains {

  // Entries 0 and 1 are reserved; entry c >= 2 is that of cluster c. 0 marks a free cluster,
  // a value of at least |f| the last one of a chain.
  type Fat = seq<nat>

  predicate IsCluster(f: Fat, c: int) {
    2 <= c < |f|
  }

  // ----- Chains -----

  // A chain from its first cluster to its end; the empty sequence is the chain of an empty file.
  ghost predicate IsChain(f: Fat, cs: seq<nat>) {
    && (forall i | 0 <= i < |cs| :: IsCluster(f, cs[i]))
    && (forall i | 0 <= i < |cs| - 1 :: f[cs[i]] == cs[i + 1])
    && (cs != [] ==> |f| <= f[cs[|cs| - 1]])
  }

  // No chain comes back to a cluster it has left.
  lemma {:induction false} ChainsAreAcyclic(f: Fat, cs: seq<nat>, i: nat, j: nat)
    requires IsChain(f, cs) && i < j < |cs|
    ensures cs[i] != cs[j]
    decreases |cs| - j
  {
    assert f[cs[i]] == cs[i + 1];
    if cs[i] == cs[j] && j + 1 < |cs| {
      assert f[cs[j]] == cs[j + 1];
      ChainsAreAcyclic(f, cs, i + 1, j + 1);
    }
  }

  // The clusters of a chain are in use.
  lemma ChainInUse(f: Fat, cs: seq<nat>, i: nat)
    requires IsChain(f, cs) && i < |cs|
    ensures 2 <= f[cs[i]]
  {
    if i < |cs| - 1 {
      assert f[cs[i]] == cs[i + 1];
    }
  }

  // A chain is determined by its first cluster.
  lemma {:induction false} ChainUnique(f: Fat, cs: seq<nat>, ds: seq<nat>)
    requires IsChain(f, cs) && IsChain(f, ds) && cs != [] && ds != [] && cs[0] == ds[0]
    ensures cs == ds
  {
    assert |cs| > 1 ==> f[cs[0]] == cs[1];
    assert |ds| > 1 ==> f[ds[0]] == ds[1];
    if |cs| > 1 && |ds| > 1 {
      assert IsChain(f, cs[1..]) && IsChain(f, ds[1..]);
      ChainUnique(f, cs[1..], ds[1..]);
    }
    assert cs == [cs[0]] + cs[1..] && ds == [ds[0]] + ds[1..];
  }

  ghost predicate Apart(cs: seq<nat>, ds: seq<nat>) {
    forall i, j | 0 <= i < |cs| && 0 <= j < |ds| :: cs[i] != ds[j]
  }

  // The state of all files of a volume: their chains do not meet.
  ghost predicate AllChains(f: Fat, chains: seq<seq<nat>>) {
    && (forall k | 0 <= k < |chains| :: IsChain(f, chains[k]))
    && (forall k, l | 0 <= k < l < |chains| :: Apart(chains[k], chains[l]))
  }

  // ----- Allocating -----

  // create_chain took the free cluster ncl and linked it behind clst (0: behind nothing).
  function Linked(f: Fat, clst: nat, ncl: nat, endMark: nat): (r: Fat)
    requires IsCluster(f, ncl) && (clst == 0 || IsCluster(f, clst))
    ensures |r| == |f|
  {
    if clst == 0 then f[ncl := endMark] else f[ncl := endMark][clst := ncl]
  }

  // The chain grows by the cluster at its end ...
  lemma LinkedGrows(f: Fat, cs: seq<nat>, ncl: nat, endMark: nat)
    requires IsChain(f, cs) && IsCluster(f, ncl) && f[ncl] == 0 && |f| <= endMark
    ensures IsChain(Linked(f, if cs == [] then 0 else cs[|cs| - 1], ncl, endMark), cs + [ncl])
  {
  }

  // ... and a chain that did not meet it neither changes nor meets it now.
  lemma LinkedSpares(f: Fat, cs: seq<nat>, ds: seq<nat>, ncl: nat, endMark: nat)
    requires IsChain(f, cs) && IsChain(f, ds) && Apart(cs, ds) && IsCluster(f, ncl) && f[ncl] == 0
    ensures IsChain(Linked(f, if cs == [] then 0 else cs[|cs| - 1], ncl, endMark), ds)
    ensures Apart(cs + [ncl], ds)
  {
    forall i | 0 <= i < |ds|
      ensures ds[i] != ncl
    {
      ChainInUse(f, ds, i);
    }
  }

  // create_chain on the k-th of all chains (k == |chains|: a new one).
  lemma LinkedKeepsAll(f: Fat, chains: seq<seq<nat>>, k: nat, ncl: nat, endMark: nat)
    requires AllChains(f, chains) && k < |chains| && IsCluster(f, ncl) && f[ncl] == 0 && |f| <= endMark
    ensures var cs := chains[k];
      AllChains(Linked(f, if cs == [] then 0 else cs[|cs| - 1], ncl, endMark), chains[k := cs + [ncl]])
  {
    var cs := chains[k];
    LinkedGrows(f, cs, ncl, endMark);
    forall l | 0 <= l < |chains| && l != k
      ensures IsChain(Linked(f, if cs == [] then 0 else cs[|cs| - 1], ncl, endMark), chains[l])
      ensures Apart(cs + [ncl], chains[l]) && Apart(chains[l], cs + [ncl])
    {
      assert Apart(cs, chains[l]) by {
        if l < k { assert Apart(chains[l], chains[k]); }
      }
      LinkedSpares(f, cs, chains[l], ncl, endMark);
    }
  }

  // ----- Ends that look like links -----

  // The last link of the chain cannot be told from one to a next cluster: the chain ends in the
  // last cluster of the volume, and its end mark is the number behind that.
  ghost predicate EndsAmbiguously(f: Fat, cs: seq<nat>) {
    cs != [] && var last := cs[|cs| - 1]; IsCluster(f, last) && last + 1 == |f| && f[last] == last + 1
  }

  // There are such chains ...
  lemma AmbiguousEnd()
    ensures var f: Fat := [0xFF8, 0xFFF, 0, 4]; IsChain(f, [3]) && EndsAmbiguously(f, [3])
  {
  }

  // ... but create_chain makes none, as its end mark is larger.
  lemma LinkedEndsClearly(f: Fat, cs: seq<nat>, ncl: nat, endMark: nat)
    requires IsChain(f, cs) && IsCluster(f, ncl) && f[ncl] == 0 && |f| < endMark
    ensures !EndsAmbiguously(Linked(f, if cs == [] then 0 else cs[|cs| - 1], ncl, endMark), cs + [ncl])
  {
    if cs != [] { ChainInUse(f, cs, |cs| - 1); }
  }

  // ----- Searching -----

  // Whether c is met strictly before x when going up from s, past the top around to 2.
  predicate MetBefore(s: int, c: int, x: int) {
    if s < x then s < c < x else s < c || c < x
  }

  // x is the first free cluster met when going round from s; s itself comes last.
  ghost predicate FirstFreeAfter(f: Fat, s: int, x: int) {
    && IsCluster(f, x) && f[x] == 0
    && forall c | IsCluster(f, c) && MetBefore(s, c, x) :: f[c] != 0
  }

  ghost predicate NoneFree(f: Fat) {
    forall c | IsCluster(f, c) :: f[c] != 0
  }

  // What a search from s that stands at `at` knows: all it has met is in use.
  ghost predicate Searched(f: Fat, s: int, at: int, wrapped: bool) {
    forall c | IsCluster(f, c) && (if wrapped then s < c || c <= at else s < c <= at) :: f[c] != 0
  }

  lemma SearchedGrows(f: Fat, s: int, at: int, wrapped: bool)
    requires Searched(f, s, at, wrapped) && (IsCluster(f, at + 1) ==> f[at + 1] != 0)
    ensures Searched(f, s, at + 1, wrapped)
  {
  }

  lemma SearchedWraps(f: Fat, s: int)
    requires Searched(f, s, |f| - 1, false)
    ensures Searched(f, s, 1, true)
    ensures s < 2 ==> NoneFree(f)
  {
  }

  lemma SearchedAll(f: Fat, s: int)
    requires Searched(f, s, s, true)
    ensures NoneFree(f)
  {
  }

  lemma SearchedFinds(f: Fat, s: int, at: int, wrapped: bool, x: int)
    requires Searched(f, s, at, wrapped) && IsCluster(f, x) && f[x] == 0
    requires if wrapped then 2 <= x == at + 1 <= s else x == at + 1 && s <= at
    ensures FirstFreeAfter(f, s, x)
  {
  }

  // ----- Freeing -----

  // The clusters remove_chain frees when it starts at c, whatever the table holds: it stops
  // at a free cluster, at an entry 1, and after an end mark.
  ghost function Freed(f: Fat, c: nat): (r: set<nat>)
    requires IsCluster(f, c)
    ensures forall d | d in r :: IsCluster(f, d) && 2 <= f[d]
    decreases |f| - FreeCount(f, 0)
  {
    if f[c] < 2 then {}
    else if |f| <= f[c] then {c}
    else
      FreeCountOfUpdate(f, 0, c, 0);
      FreeCountBound(f[c := 0], 0);
      {c} + Freed(f[c := 0], f[c])
  }

  // Whether that walk ends without meeting an entry 1, which remove_chain reports.
  ghost predicate WalkEnds(f: Fat, c: nat)
    requires IsCluster(f, c)
    decreases |f| - FreeCount(f, 0)
  {
    if f[c] < 2 then f[c] == 0
    else if |f| <= f[c] then true
    else
      FreeCountOfUpdate(f, 0, c, 0);
      FreeCountBound(f[c := 0], 0);
      WalkEnds(f[c := 0], f[c])
  }

  ghost function Cleared(f: Fat, s: set<nat>): (r: Fat)
    ensures |r| == |f|
  {
    seq(|f|, d requires 0 <= d < |f| => if d in s then 0 else f[d])
  }

  // One step of the walk.
  lemma FreedStep(f: Fat, c: nat)
    requires IsCluster(f, c) && 2 <= f[c]
    ensures 0 <= |f| - FreeCount(f[c := 0], 0) < |f| - FreeCount(f, 0)
    ensures |f| <= f[c] ==> Freed(f, c) == {c} && WalkEnds(f, c) && Cleared(f, Freed(f, c)) == f[c := 0]
    ensures f[c] < |f| ==>
      && Freed(f, c) == {c} + Freed(f[c := 0], f[c])
      && WalkEnds(f, c) == WalkEnds(f[c := 0], f[c])
      && Cleared(f, Freed(f, c)) == Cleared(f[c := 0], Freed(f[c := 0], f[c]))
  {
    FreeCountOfUpdate(f, 0, c, 0);
    FreeCountBound(f[c := 0], 0);
  }

  // On a chain the walk from the i-th cluster frees exactly the rest of the chain.
  lemma {:induction false} FreedIsSuffix(f: Fat, cs: seq<nat>)
    requires IsChain(f, cs) && cs != []
    ensures WalkEnds(f, cs[0])
    ensures Freed(f, cs[0]) == set i | 0 <= i < |cs| :: cs[i]
    decreases |cs|
  {
    if |cs| > 1 {
      var g := f[cs[0] := 0];
      forall i | 1 <= i < |cs|
        ensures cs[i] != cs[0]
      {
        ChainsAreAcyclic(f, cs, 0, i);
      }
      var rest := cs[1..];
      assert IsChain(g, rest);
      FreedIsSuffix(g, rest);
      assert forall i | 1 <= i < |cs| :: cs[i] == rest[i - 1];
      assert forall d | d in Freed(g, rest[0]) :: exists i :: 1 <= i < |cs| && cs[i] == d;
    }
  }

  // What remove_chain(clst, pclst) leaves of the table.
  ghost function Cut(f: Fat, clst: nat, pclst: nat, endMark: nat): (r: Fat)
    requires IsCluster(f, clst) && (pclst == 0 || IsCluster(f, pclst))
    ensures |r| == |f|
  {
    var g := if pclst == 0 then f else f[pclst := endMark];
    Cleared(g, Freed(g, clst))
  }

  lemma CutFrees(f: Fat, cs: seq<nat>, k: nat, endMark: nat)
    requires IsChain(f, cs) && k < |cs| && |f| <= endMark
    ensures var r := Cut(f, cs[k], if k == 0 then 0 else cs[k - 1], endMark);
      forall d | 0 <= d < |f| :: r[d] == if d in cs[k..] then 0 else if k > 0 && d == cs[k - 1] then endMark else f[d]
    ensures WalkEnds(if k == 0 then f else f[cs[k - 1] := endMark], cs[k])
  {
    var g := if k == 0 then f else f[cs[k - 1] := endMark];
    var tail := cs[k..];
    SuffixIsChain(f, cs, k, endMark);
    FreedIsSuffix(g, tail);
    assert forall d :: d in tail <==> d in Freed(g, cs[k]);
  }

  lemma SuffixIsChain(f: Fat, cs: seq<nat>, k: nat, endMark: nat)
    requires IsChain(f, cs) && k < |cs|
    ensures IsChain(if k == 0 then f else f[cs[k - 1] := endMark], cs[k..])
    ensures k > 0 ==> cs[k - 1] !in cs[k..]
  {
    if k > 0 {
      forall i | k <= i < |cs|
        ensures cs[i] != cs[k - 1]
      {
        ChainsAreAcyclic(f, cs, k - 1, i);
      }
    }
    var tail := cs[k..];
    assert forall i | 0 <= i < |tail| :: tail[i] == cs[k + i];
  }

  // The chain is cut before its k-th cluster ...
  lemma CutShortens(f: Fat, cs: seq<nat>, k: nat, endMark: nat)
    requires IsChain(f, cs) && k < |cs| && |f| <= endMark
    ensures IsChain(Cut(f, cs[k], if k == 0 then 0 else cs[k - 1], endMark), cs[..k])
  {
    var r := Cut(f, cs[k], if k == 0 then 0 else cs[k - 1], endMark);
    CutFrees(f, cs, k, endMark);
    forall i | 0 <= i < k
      ensures cs[i] !in cs[k..] && (i < k - 1 ==> r[cs[i]] == f[cs[i]])
    {
      forall j | k <= j < |cs|
        ensures cs[i] != cs[j]
      {
        ChainsAreAcyclic(f, cs, i, j);
      }
      if i < k - 1 {
        ChainsAreAcyclic(f, cs, i, k - 1);
      }
    }
    assert k > 0 ==> r[cs[k - 1]] == endMark;
  }

  // ... and a chain that did not meet it is as it was.
  lemma CutSpares(f: Fat, cs: seq<nat>, ds: seq<nat>, k: nat, endMark: nat)
    requires IsChain(f, cs) && IsChain(f, ds) && Apart(cs, ds) && k < |cs| && |f| <= endMark
    ensures IsChain(Cut(f, cs[k], if k == 0 then 0 else cs[k - 1], endMark), ds)
  {
    CutFrees(f, cs, k, endMark);
    forall i | 0 <= i < |ds|
      ensures ds[i] !in cs[k..]
    {
    }
  }

  // remove_chain from the k-th cluster on of the m-th of all chains.
  lemma CutKeepsAll(f: Fat, chains: seq<seq<nat>>, m: nat, k: nat, endMark: nat)
    requires AllChains(f, chains) && m < |chains| && k < |chains[m]| && |f| <= endMark
    ensures var cs := chains[m];
      AllChains(Cut(f, cs[k], if k == 0 then 0 else cs[k - 1], endMark), chains[m := cs[..k]])
  {
    var cs := chains[m];
    CutShortens(f, cs, k, endMark);
    forall l | 0 <= l < |chains| && l != m
      ensures IsChain(Cut(f, cs[k], if k == 0 then 0 else cs[k - 1], endMark), chains[l])
      ensures Apart(cs[..k], chains[l]) && Apart(chains[l], cs[..k])
    {
      assert Apart(cs, chains[l]) by {
        if l < m { assert Apart(chains[l], chains[m]); }
      }
      CutSpares(f, cs, chains[l], k, endMark);
    }
  }

  // ----- Counting free clusters -----

  // The free entries from index `from` on.
  function FreeCount(f: Fat, from: nat): (n: nat)
    decreases |f| - from
  {
    if |f| <= from then 0 else (if f[from] == 0 then 1 else 0) + FreeCount(f, from + 1)
  }

  // It is the number of free clusters there are.
  lemma {:induction false} FreeCountIsSize(f: Fat, from: nat)
    requires from <= |f|
    ensures FreeCount(f, from) == |set c | from <= c < |f| && f[c] == 0|
    decreases |f| - from
  {
    var all := set c | from <= c < |f| && f[c] == 0;
    if from < |f| {
      FreeCountIsSize(f, from + 1);
      var rest := set c | from + 1 <= c < |f| && f[c] == 0;
      if f[from] == 0 {
        assert all == rest + {from};
      } else {
        assert all == rest;
      }
    }
  }

  lemma {:induction false} FreeCountBound(f: Fat, from: nat)
    requires from <= |f|
    ensures FreeCount(f, from) <= |f| - from
    decreases |f| - from
  {
    if from < |f| {
      FreeCountBound(f, from + 1);
    }
  }

  lemma {:induction false} FreeCountOfUpdate(f: Fat, from: nat, c: nat, v: nat)
    requires c < |f|
    ensures FreeCount(f[c := v], from) ==
      if c < from then FreeCount(f, from)
      else FreeCount(f, from) - (if f[c] == 0 then 1 else 0) + (if v == 0 then 1 else 0)
    decreases |f| - from
  {
    if from < |f| {
      FreeCountOfUpdate(f, from + 1, c, v);
    }
  }

  lemma {:induction false} FreeCountZero(f: Fat, from: nat)
    ensures FreeCount(f, from) == 0 <==> forall c | from <= c < |f| :: f[c] != 0
    decreases |f| - from
  {
    if from < |f| {
      FreeCountZero(f, from + 1);
    }
  }

  // A scan from index 0 also counts the reserved entries when they are zero.
  lemma FreeCountFromZero(f: Fat)
    requires 2 <= |f|
    ensures FreeCount(f, 0) == FreeCount(f, 2) + (if f[0] == 0 then 1 else 0) + (if f[1] == 0 then 1 else 0)
  {
  }

  // With a reserved entry that is zero it counts one cluster too many.
  lemma ReservedEntryCounted()
    ensures var f: Fat := [0, 0xFFFF, 0xFFFF, 0]; FreeCount(f, 2) == 1 && FreeCount(f, 0) == 2
  {
    var f: Fat := [0, 0xFFFF, 0xFFFF, 0];
    assert FreeCount(f, 4) == 0 && FreeCount(f, 3) == 1;
    FreeCountFromZero(f);
  }

  // ----- Conservation -----

  function Total(chains: seq<seq<nat>>): nat {
    if chains == [] then 0 else |chains[0]| + Total(chains[1..])
  }

  lemma {:induction false} TotalOfUpdate(chains: seq<seq<nat>>, k: nat, cs: seq<nat>)
    requires k < |chains|
    ensures Total(chains[k := cs]) == Total(chains) - |chains[k]| + |cs|
  {
    var after := chains[k := cs];
    if k == 0 {
      assert after[1..] == chains[1..];
    } else {
      assert after[1..] == chains[1..][k - 1 := cs];
      TotalOfUpdate(chains[1..], k - 1, cs);
    }
  }

  // Allocating takes one cluster from the free ones.
  lemma LinkedTakesOne(f: Fat, cs: seq<nat>, ncl: nat, endMark: nat)
    requires IsChain(f, cs) && IsCluster(f, ncl) && f[ncl] == 0 && |f| <= endMark
    ensures FreeCount(Linked(f, if cs == [] then 0 else cs[|cs| - 1], ncl, endMark), 2) == FreeCount(f, 2) - 1
  {
    FreeCountOfUpdate(f, 2, ncl, endMark);
    if cs != [] {
      ChainInUse(f, cs, |cs| - 1);
      FreeCountOfUpdate(f[ncl := endMark], 2, cs[|cs| - 1], ncl);
    }
  }

  // Cutting a chain gives back exactly the clusters that it loses.
  lemma CutGivesBack(f: Fat, cs: seq<nat>, k: nat, endMark: nat)
    requires IsChain(f, cs) && k < |cs| && |f| <= endMark
    ensures FreeCount(Cut(f, cs[k], if k == 0 then 0 else cs[k - 1], endMark), 2) == FreeCount(f, 2) + (|cs| - k)
  {
    var g := if k == 0 then f else f[cs[k - 1] := endMark];
    if k > 0 {
      ChainInUse(f, cs, k - 1);
      FreeCountOfUpdate(f, 2, cs[k - 1], endMark);
    }
    SuffixIsChain(f, cs, k, endMark);
    CutFrees(f, cs, k, endMark);
    ClearedOneByOne(g, cs[k..], Cut(f, cs[k], if k == 0 then 0 else cs[k - 1], endMark));
  }

  lemma {:induction false} ClearedOneByOne(f: Fat, tail: seq<nat>, r: Fat)
    requires |r| == |f| && forall d | 0 <= d < |f| :: r[d] == if d in tail then 0 else f[d]
    requires IsChain(f, tail)
    ensures FreeCount(r, 2) == FreeCount(f, 2) + |tail|
    decreases |tail|
  {
    if tail == [] {
      assert r == f;
    } else {
      var g, rest := f[tail[0] := 0], tail[1..];
      ChainInUse(f, tail, 0);
      FreeCountOfUpdate(f, 2, tail[0], 0);
      forall i | 0 <= i < |rest|
        ensures rest[i] != tail[0]
      {
        ChainsAreAcyclic(f, tail, 0, i + 1);
      }
      assert IsChain(g, rest);
      assert forall d | 0 <= d < |f| :: d in tail <==> d == tail[0] || d in rest;
      ClearedOneByOne(g, rest, r);
    }
  }
}
