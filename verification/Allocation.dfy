// Any run of allocations and releases on a volume.

module Allocation {
  import opened FatTypes
  import opened Geometry
  import opened FatEntry
  import opened FatVolume
  import C = Chains

  // On the k-th chain: it is stretched by a cluster (an empty one is begun), or cut before its
  // place `at`.
  datatype Step = Stretch(k: nat) | Cut(k: nat, at: nat)

  // Where a run has got: the table, the cached count of free clusters, and all chains.
  datatype Moment = Moment(f: seq<nat>, free: nat, chains: seq<seq<nat>>)

  // No cluster can be had: none is free, or none is by the cached count, or the search meets an
  // entry 1.
  ghost predicate NoRoom(m: Moment) {
    m.free == 0 || C.NoneFree(m.f) || exists c :: C.IsCluster(m.f, c) && m.f[c] == 1
  }

  // What a step makes of the chains. A stretched one is longer by a cluster that was free, unless
  // there is no room.
  ghost predicate Carried(m: Moment, step: Step, chains: seq<seq<nat>>) {
    if step.k >= |m.chains| then chains == m.chains
    else
      var cs := m.chains[step.k];
      match step
      case Stretch(k) =>
        (chains == m.chains && NoRoom(m))
        || exists ncl :: C.IsCluster(m.f, ncl) && m.f[ncl] == 0 && chains == m.chains[k := cs + [ncl]]
      case Cut(k, at) => chains == if at < |cs| then m.chains[k := cs[..at]] else m.chains
  }

  ghost function Now(fs: FatFs, chains: seq<seq<nat>>): Moment
    requires fs.Valid()
    reads fs
  {
    Moment(fs.Fat(), fs.freeClst, chains)
  }

  // Whatever is allocated and released in whatever order: each step does what it is to do, the
  // chains stay acyclic, apart and ended; every cluster is either free or in a chain as before; and
  // the cached count of free clusters, once exact, stays exact.
  method Run(fs: FatFs, steps: seq<Step>, before: seq<seq<nat>>)
    returns (ok: bool, chains: seq<seq<nat>>, ghost trace: seq<Moment>)
    requires fs.Valid() && C.AllChains(fs.Fat(), before)
    modifies fs
    ensures fs.Valid() && |chains| == |before|
    ensures !ok ==> old(fs.failures) < fs.failures
    ensures ok ==> |trace| == |steps| + 1 && trace[0] == old(Now(fs, before)) && trace[|steps|] == Now(fs, chains)
    ensures ok ==> forall i | 0 <= i < |steps| :: Carried(trace[i], steps[i], trace[i + 1].chains)
    ensures ok ==> forall i | 0 <= i < |trace| :: C.AllChains(trace[i].f, trace[i].chains)
    ensures ok ==> C.FreeCount(fs.Fat(), 2) + C.Total(chains) == old(C.FreeCount(fs.Fat(), 2)) + C.Total(before)
    ensures ok && old(fs.CountExact()) ==> fs.CountExact()
  {
    hide C.AllChains, C.FreeCount, C.Total, C.Cut, C.Linked, Carried, Entries, Area;
    chains, trace := before, [Now(fs, before)];
    for i := 0 to |steps|
      invariant fs.Valid() && |chains| == |before| && old(fs.failures) <= fs.failures
      invariant |trace| == i + 1 && trace[0] == old(Now(fs, before)) && trace[i] == Now(fs, chains)
      invariant forall k | 0 <= k < i :: Carried(trace[k], steps[k], trace[k + 1].chains)
      invariant forall k | 0 <= k <= i :: C.AllChains(trace[k].f, trace[k].chains)
      invariant C.FreeCount(fs.Fat(), 2) + C.Total(chains) == old(C.FreeCount(fs.Fat(), 2)) + C.Total(before)
      invariant old(fs.CountExact()) ==> fs.CountExact()
    {
      ok, chains := OneStep(fs, steps[i], chains);
      if !ok { return; }
      trace := trace + [Now(fs, chains)];
    }
    ok := true;
  }

  method OneStep(fs: FatFs, step: Step, before: seq<seq<nat>>) returns (ok: bool, chains: seq<seq<nat>>)
    requires fs.Valid() && C.AllChains(fs.Fat(), before)
    modifies fs
    ensures fs.Valid() && |chains| == |before| && old(fs.failures) <= fs.failures
    ensures !ok ==> old(fs.failures) < fs.failures
    ensures ok ==> C.AllChains(fs.Fat(), chains) && Carried(old(Now(fs, before)), step, chains)
    ensures ok ==> C.FreeCount(fs.Fat(), 2) + C.Total(chains) == old(C.FreeCount(fs.Fat(), 2)) + C.Total(before)
    ensures ok && old(fs.CountExact()) ==> fs.CountExact()
  {
    hide C.AllChains, C.FreeCount, C.Total, C.Cut, C.Linked, C.NoneFree;
    if step.k >= |before| { return true, before; }
    match step {
      case Stretch(k) => ok, chains := StretchStep(fs, k, before);
      case Cut(k, at) => ok, chains := CutStep(fs, k, at, before);
    }
  }

  method StretchStep(fs: FatFs, k: nat, before: seq<seq<nat>>) returns (ok: bool, chains: seq<seq<nat>>)
    requires fs.Valid() && k < |before| && C.AllChains(fs.Fat(), before)
    modifies fs
    ensures fs.Valid() && |chains| == |before| && old(fs.failures) <= fs.failures
    ensures !ok ==> old(fs.failures) < fs.failures
    ensures ok ==> C.AllChains(fs.Fat(), chains) && Carried(old(Now(fs, before)), Stretch(k), chains)
    ensures ok ==> C.FreeCount(fs.Fat(), 2) + C.Total(chains) == old(C.FreeCount(fs.Fat(), 2)) + C.Total(before)
    ensures ok && old(fs.CountExact()) ==> fs.CountExact()
  {
    hide C.FreeCount, C.Total, C.AllChains, C.NoneFree, Entries, Area;
    ok, chains := true, before;
    ghost var f := fs.Fat();
    EndMarkEndsChains(fs.geo);
    ChainOfAll(f, chains, k);
    var cs := chains[k];
    if cs != [] { C.ChainInUse(f, cs, |cs| - 1); }
    var last := if cs == [] then 0 else cs[|cs| - 1];
    var ncl := fs.CreateChain(last);
    if ncl == DISK_ERROR { return false, chains; }
    if 2 <= ncl {
      C.LinkedKeepsAll(f, chains, k, ncl, EndMark(fs.geo.kind));
      C.LinkedTakesOne(f, cs, ncl, EndMark(fs.geo.kind));
      C.TotalOfUpdate(chains, k, cs + [ncl]);
      chains := chains[k := cs + [ncl]];
    }
  }

  method CutStep(fs: FatFs, k: nat, at: nat, before: seq<seq<nat>>) returns (ok: bool, chains: seq<seq<nat>>)
    requires fs.Valid() && k < |before| && C.AllChains(fs.Fat(), before)
    modifies fs
    ensures fs.Valid() && |chains| == |before| && old(fs.failures) <= fs.failures
    ensures !ok ==> old(fs.failures) < fs.failures
    ensures ok ==> C.AllChains(fs.Fat(), chains) && Carried(old(Now(fs, before)), Cut(k, at), chains)
    ensures ok ==> C.FreeCount(fs.Fat(), 2) + C.Total(chains) == old(C.FreeCount(fs.Fat(), 2)) + C.Total(before)
    ensures ok && old(fs.CountExact()) ==> fs.CountExact()
  {
    hide C.FreeCount, C.Total, C.Cut, C.AllChains, C.NoneFree, Entries, Area;
    ok, chains := true, before;
    ghost var f := fs.Fat();
    EndMarkEndsChains(fs.geo);
    ChainOfAll(f, chains, k);
    var cs := chains[k];
    if at < |cs| {
      var pclst := if at == 0 then 0 else cs[at - 1];
      C.ChainInUse(f, cs, if at == 0 then 0 else at - 1);
      var res := fs.RemoveChain(cs[at], pclst);
      if res == FR_DISK_ERR { return false, chains; }
      C.CutKeepsAll(f, chains, k, at, EndMark(fs.geo.kind));
      C.CutGivesBack(f, cs, at, EndMark(fs.geo.kind));
      C.TotalOfUpdate(chains, k, cs[..at]);
      chains := chains[k := cs[..at]];
    }
  }

  lemma ChainOfAll(f: C.Fat, chains: seq<seq<nat>>, k: nat)
    requires C.AllChains(f, chains) && k < |chains|
    ensures C.IsChain(f, chains[k])
  {
  }
}
