// The cluster link map table of the fast seek: [items, length, top, length, top, ..., 0].

module LinkMap {

  // The clusters a fragment stands for.
  function Run(top: nat, n: nat): (r: seq<nat>)
    ensures |r| == n && forall k | 0 <= k < n :: r[k] == top + k
  {
    seq(n, k requires 0 <= k < n => top + k)
  }

  // The clusters that the table stands for from item i on.
  function Expand(tbl: seq<nat>, i: nat): (r: seq<nat>)
    decreases |tbl| - i
  {
    if |tbl| <= i + 1 || tbl[i] == 0 then [] else Run(tbl[i + 1], tbl[i]) + Expand(tbl, i + 2)
  }

  // Reading pairs from item i on, one meets the closing zero within the table.
  predicate Terminated(tbl: seq<nat>, i: nat)
    decreases |tbl| - i
  {
    i < |tbl| && (tbl[i] == 0 || (i + 1 < |tbl| && Terminated(tbl, i + 2)))
  }

  // Tables that agree from item i on are read alike from there on.
  lemma {:induction false} TailSame(tbl: seq<nat>, tbl': seq<nat>, i: nat)
    requires |tbl| == |tbl'| && forall j | i <= j < |tbl| :: tbl'[j] == tbl[j]
    ensures Terminated(tbl', i) == Terminated(tbl, i) && Expand(tbl', i) == Expand(tbl, i)
    decreases |tbl| - i
  {
    if i + 1 < |tbl| { TailSame(tbl, tbl', i + 2); }
  }

  // The pairs between items 1 and p stand for cs.
  ghost predicate Decodes(tbl: seq<nat>, p: nat, cs: seq<nat>) {
    if p <= 2 then p == 1 && cs == []
    else
      && p <= |tbl| && 0 < tbl[p - 2] <= |cs|
      && cs[|cs| - tbl[p - 2]..] == Run(tbl[p - 1], tbl[p - 2])
      && Decodes(tbl, p - 2, cs[..|cs| - tbl[p - 2]])
  }

  lemma NothingDecoded(tbl: seq<nat>)
    ensures Decodes(tbl, 1, []) && Fragments([]) == 0
  {
  }

  lemma {:induction false} DecodesExpands(tbl: seq<nat>, p: nat, cs: seq<nat>)
    requires Decodes(tbl, p, cs) && p < |tbl| && tbl[p] == 0
    ensures Terminated(tbl, 1) && Expand(tbl, 1) == cs
  {
    DecodesBefore(tbl, p, cs);
  }

  lemma {:induction false} DecodesBefore(tbl: seq<nat>, p: nat, cs: seq<nat>)
    requires Decodes(tbl, p, cs) && p <= |tbl|
    ensures Terminated(tbl, p) == Terminated(tbl, 1)
    ensures Expand(tbl, 1) == cs + Expand(tbl, p)
    decreases p
  {
    if p > 2 {
      var n := tbl[p - 2];
      var front := cs[..|cs| - n];
      DecodesBefore(tbl, p - 2, front);
      assert Expand(tbl, p - 2) == Run(tbl[p - 1], n) + Expand(tbl, p);
      assert cs == front + Run(tbl[p - 1], n);
    }
  }

  // Later items do not matter.
  lemma {:induction false} DecodesSame(tbl: seq<nat>, tbl': seq<nat>, p: nat, cs: seq<nat>)
    requires Decodes(tbl, p, cs) && p <= |tbl| && p <= |tbl'|
    requires forall i | 1 <= i < p :: tbl'[i] == tbl[i]
    ensures Decodes(tbl', p, cs)
    decreases p
  {
    if p > 2 {
      DecodesSame(tbl, tbl', p - 2, cs[..|cs| - tbl[p - 2]]);
    }
  }

  // How many runs of consecutive clusters a chain falls into.
  function Fragments(cs: seq<nat>): (n: nat) {
    if cs == [] then 0
    else Fragments(cs[..|cs| - 1]) + (if |cs| == 1 || cs[|cs| - 1] != cs[|cs| - 2] + 1 then 1 else 0)
  }

  lemma FragmentsStep(cs: seq<nat>, k: nat)
    requires k < |cs|
    ensures Fragments(cs[..k + 1]) == Fragments(cs[..k]) + (if k == 0 || cs[k] != cs[k - 1] + 1 then 1 else 0)
  {
    assert cs[..k + 1][..k] == cs[..k];
  }

  // Reading on along a run: the clusters from place k on are top, top + 1, ...
  ghost predicate InRun(cs: seq<nat>, k: nat, n: nat, top: nat) {
    k + n <= |cs| && forall i | k <= i < k + n :: cs[i] == top + (i - k)
  }

  // A run that ends where the chain ends or jumps is one fragment.
  lemma {:induction false} RunIsFragment(cs: seq<nat>, k: nat, n: nat, top: nat)
    requires 0 < n && InRun(cs, k, n, top)
    requires k > 0 ==> cs[k] != cs[k - 1] + 1
    ensures Fragments(cs[..k + n]) == Fragments(cs[..k]) + 1
  {
    FragmentsStep(cs, k + n - 1);
    if n > 1 {
      assert cs[k + n - 1] == cs[k + n - 2] + 1;
      RunIsFragment(cs, k, n - 1, top);
    }
  }

  // A pair stored behind the pairs for the first k clusters.
  lemma PairStored(before: seq<nat>, after: seq<nat>, t: nat, cs: seq<nat>, k: nat, n: nat, top: nat)
    requires 1 <= t && t + 2 <= |before| == |after| && k <= |cs| && Decodes(before, t, cs[..k])
    requires after == before[t := n][t + 1 := top] && 0 < n && InRun(cs, k, n, top)
    ensures Decodes(after, t + 2, cs[..k + n])
  {
    var cs' := cs[..k + n];
    DecodesSame(before, after, t, cs[..k]);
    assert cs'[..|cs'| - n] == cs[..k];
    assert cs'[|cs'| - n..] == Run(top, n);
  }

  // Where the pairs end that a table of tlen items has room for.
  function PairsEnd(tlen: nat): (t: nat)
    ensures 1 <= t && t % 2 == 1 && (2 <= tlen ==> t < tlen <= t + 2)
  {
    if tlen < 2 then 1 else 1 + 2 * ((tlen - 2) / 2)
  }

  // The first m clusters of a chain, which are whole fragments, are stored before item t; from there
  // on the table is as it was.
  ghost predicate Stored(was: seq<nat>, tbl: seq<nat>, t: nat, cs: seq<nat>, m: nat) {
    && m <= |cs| && (0 < m < |cs| ==> cs[m] != cs[m - 1] + 1)
    && t == 1 + 2 * Fragments(cs[..m]) && t <= |tbl| == |was| && Decodes(tbl, t, cs[..m])
    && forall i | t <= i < |was| :: tbl[i] == was[i]
  }

  lemma NothingStored(was: seq<nat>, cs: seq<nat>)
    requires 0 < |was|
    ensures Stored(was, was, 1, cs, 0)
  {
    NothingDecoded(was);
    assert cs[..0] == [];
  }

  // One more fragment is stored.
  lemma FragmentStored(was: seq<nat>, before: seq<nat>, after: seq<nat>, t: nat, cs: seq<nat>, m: nat, n: nat, top: nat)
    requires Stored(was, before, t, cs, m) && t + 2 <= |before|
    requires after == before[t := n][t + 1 := top] && 0 < n && InRun(cs, m, n, top)
    requires m + n < |cs| ==> cs[m + n] != cs[m + n - 1] + 1
    ensures Stored(was, after, t + 2, cs, m + n)
  {
    RunIsFragment(cs, m, n, top);
    PairStored(before, after, t, cs, m, n, top);
  }

  lemma StoredBehindFirst(was: seq<nat>, tbl: seq<nat>, t: nat, cs: seq<nat>, m: nat, first: nat)
    requires 0 < |tbl| && Stored(was, tbl, t, cs, m)
    ensures Stored(was, tbl[0 := first], t, cs, m)
  {
    DecodesSame(tbl, tbl[0 := first], t, cs[..m]);
  }

  // Without a closing zero of its own such a table goes on with what it held before: it is walked to
  // an end exactly if there is one in that.
  lemma StoredExpands(was: seq<nat>, tbl: seq<nat>, t: nat, cs: seq<nat>, m: nat)
    requires Stored(was, tbl, t, cs, m)
    ensures Terminated(tbl, 1) <==> Terminated(was, t)
    ensures Expand(tbl, 1) == cs[..m] + Expand(was, t)
  {
    DecodesBefore(tbl, t, cs[..m]);
    TailSame(was, tbl, t);
  }

  // Tables of four items of which two may be used, for a file that begins with cluster c: the first
  // one is closed, the second one cannot be walked to an end, and the third one leads elsewhere.
  lemma LeftOver(c: nat)
    ensures PairsEnd(2) == 1
    ensures Terminated([2, 0, 0, 0], 1) && Expand([2, 0, 0, 0], 1) == []
    ensures !Terminated([2, 1, 1, 1], 1)
    ensures Terminated([2, 1, c + 1, 0], 1) && Expand([2, 1, c + 1, 0], 1) == [c + 1]
  {
    var tbl := [2, 1, 1, 1];
    assert tbl[3] != 0 && !Terminated(tbl, 3);
    var elsewhere := [2, 1, c + 1, 0];
    assert elsewhere[3] == 0 && Terminated(elsewhere, 3) && Expand(elsewhere, 3) == [];
    assert Expand(elsewhere, 1) == Run(c + 1, 1) + Expand(elsewhere, 3);
  }

  // With one it stands for what is stored.
  lemma StoredAndClosed(was: seq<nat>, tbl: seq<nat>, t: nat, cs: seq<nat>, m: nat)
    requires Stored(was, tbl, t, cs, m) && t < |tbl|
    ensures Terminated(tbl[t := 0], 1) && Expand(tbl[t := 0], 1) == cs[..m]
  {
    DecodesSame(tbl, tbl[t := 0], t, cs[..m]);
    DecodesExpands(tbl[t := 0], t, cs[..m]);
  }
}
