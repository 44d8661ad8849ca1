// Other open files of the volume: what an operation on one file leaves to them.

module Bystanders {
  import opened FatTypes
  import opened Geometry
  import opened Window
  import opened FileModel
  import C = Chains

  // Another open file: it does not share a cluster with the file whose clusters are cs.
  ghost predicate Bystander(g: Geo, s: Snap, f: C.Fat, cs: seq<nat>, o: Handle) {
    Backed(g, s, f, o) && C.Apart(cs, o.chain)
  }

  // Every other open file keeps its clusters, its buffer and its content, and without failures the
  // second FAT goes on being a copy of the first.
  ghost predicate Spares(g: Geo, s0: Snap, f0: C.Fat, cs0: seq<nat>, s1: Snap, f1: C.Fat, cs1: seq<nat>) {
    && CopiesKept(g, s0, s1)
    && forall o: Handle | Bystander(g, s0, f0, cs0, o) ::
         Bystander(g, s1, f1, cs1, o) && Content(g, s1, f1, o) == Content(g, s0, f0, o)
  }

  lemma SparesKeepCopies(g: Geo, s0: Snap, f0: C.Fat, cs0: seq<nat>, s1: Snap, f1: C.Fat, cs1: seq<nat>)
    requires Spares(g, s0, f0, cs0, s1, f1, cs1)
    ensures CopiesKept(g, s0, s1)
  {
  }

  lemma SparesNothing(g: Geo, s: Snap, f: C.Fat, cs: seq<nat>)
    ensures Spares(g, s, f, cs, s, f, cs)
  {
  }

  lemma SparesBoth(g: Geo, s0: Snap, f0: C.Fat, cs0: seq<nat>, s1: Snap, f1: C.Fat, cs1: seq<nat>, s2: Snap,
    f2: C.Fat, cs2: seq<nat>)
    requires Spares(g, s0, f0, cs0, s1, f1, cs1) && Spares(g, s1, f1, cs1, s2, f2, cs2)
    ensures Spares(g, s0, f0, cs0, s2, f2, cs2)
  {
  }

  // An access to the FAT that leaves the table as it is.
  lemma LookSpares(g: Geo, s0: Snap, s1: Snap, f: C.Fat, cs: seq<nat>)
    requires Steady(g, s0, s1) && Coherent(g, s1)
    ensures Spares(g, s0, f, cs, s1, f, cs)
  {
    hide Steady, Coherent, WindowElsewhere, FileSectors, Bytes, C.IsChain, InChain, CopiesKept;
    SteadyKeepsCopies(g, s0, s1);
    forall o: Handle | Bystander(g, s0, f, cs, o)
      ensures Bystander(g, s1, f, cs, o)
      ensures Content(g, s1, f, o) == Content(g, s0, f, o)
    {
      LookKeeps(g, s0, s1, f, o);
    }
  }

  // A call of the drive that fails without an effect.
  lemma FailureSpares(g: Geo, s: Snap, f: C.Fat, cs: seq<nat>, failures1: nat)
    requires Coherent(g, s) && s.failures <= failures1
    ensures Spares(g, s, f, cs, s.(failures := failures1), f, cs)
  {
    hide Mirrored;
    LookSpares(g, s, s.(failures := failures1), f, cs);
  }

  // A free cluster comes to the end of the chain.
  lemma ExtendSpares(g: Geo, s0: Snap, s1: Snap, f0: C.Fat, f1: C.Fat, cs: seq<nat>, ncl: nat)
    requires Steady(g, s0, s1) && Coherent(g, s1) && Grown(g, f0, f1, cs, ncl)
    ensures Spares(g, s0, f0, cs, s1, f1, cs + [ncl])
  {
    forall o: Handle | Bystander(g, s0, f0, cs, o)
      ensures Bystander(g, s1, f1, cs + [ncl], o)
      ensures Content(g, s1, f1, o) == Content(g, s0, f0, o)
    {
      ExtendSparesOne(g, s0, s1, f0, f1, cs, ncl, o);
    }
  }

  // Its sectors are the same, so its content is.
  lemma ContentSpared(g: Geo, s0: Snap, s1: Snap, f0: C.Fat, f1: C.Fat, o: Handle)
    requires Steady(g, s0, s1) && Backed(g, s0, f0, o) && Backed(g, s1, f1, o)
    ensures Content(g, s1, f1, o) == Content(g, s0, f0, o)
  {
    hide Steady, WindowElsewhere, SectorOfFile, C.IsChain, Bytes;
    forall k | 0 <= k < SectorCount(g, o.chain)
      ensures SectorOfFile(g, s1.store, o, k) == SectorOfFile(g, s0.store, o, k)
    {
      SectorSurvives(g, s0, s1, f0, o, o, k);
    }
    assert FileSectors(g, s1.store, o) == FileSectors(g, s0.store, o);
  }

  lemma ExtendSparesOne(g: Geo, s0: Snap, s1: Snap, f0: C.Fat, f1: C.Fat, cs: seq<nat>, ncl: nat, o: Handle)
    requires Steady(g, s0, s1) && Coherent(g, s1) && Grown(g, f0, f1, cs, ncl) && Bystander(g, s0, f0, cs, o)
    ensures Bystander(g, s1, f1, cs + [ncl], o)
    ensures Content(g, s1, f1, o) == Content(g, s0, f0, o)
  {
    hide Steady, WindowElsewhere, SectorOfFile, C.IsChain;
    EndMarkEndsChains(g);
    C.LinkedSpares(f0, cs, o.chain, ncl, EndMark(g.kind));
    WindowStaysElsewhere(g, s0, s1, f0, f1, o.chain, o.chain);
    if o.sect != 0 { SectorSurvives(g, s0, s1, f0, o, o, o.at); }
    StoresMatch(g, s0, s1);
    assert Backed(g, s1, f1, o);
    ContentSpared(g, s0, s1, f0, f1, o);
  }

  // What a cluster allocation that failed half way leaves of the table: no entry in use has changed
  // but that of the chain's end.
  ghost predicate HalfLinked(f0: C.Fat, f1: C.Fat, cs: seq<nat>) {
    && |f1| == |f0|
    && forall d | C.IsCluster(f0, d) && f0[d] != 0 && d !in cs :: f1[d] == f0[d]
  }

  lemma HalfLinkedSpares(g: Geo, s0: Snap, s1: Snap, f0: C.Fat, f1: C.Fat, h: Handle)
    requires Steady(g, s0, s1) && Coherent(g, s1) && Backed(g, s0, f0, h) && HalfLinked(f0, f1, h.chain)
    ensures Spares(g, s0, f0, h.chain, s1, f1, h.chain)
  {
    forall o: Handle | Bystander(g, s0, f0, h.chain, o)
      ensures Bystander(g, s1, f1, h.chain, o)
      ensures Content(g, s1, f1, o) == Content(g, s0, f0, o)
    {
      HalfLinkedSparesOne(g, s0, s1, f0, f1, h, o);
    }
  }

  lemma HalfLinkedSparesOne(g: Geo, s0: Snap, s1: Snap, f0: C.Fat, f1: C.Fat, h: Handle, o: Handle)
    requires Steady(g, s0, s1) && Coherent(g, s1) && Backed(g, s0, f0, h) && HalfLinked(f0, f1, h.chain)
    requires Bystander(g, s0, f0, h.chain, o)
    ensures Bystander(g, s1, f1, h.chain, o)
    ensures Content(g, s1, f1, o) == Content(g, s0, f0, o)
  {
    hide Steady, SectorOfFile;
    ChainKept(f0, f1, h.chain, o.chain);
    WindowOffBoth(g, s0, f0, h, o);
    WindowStaysElsewhere(g, s0, s1, f0, f1, h.chain + o.chain, o.chain);
    if o.sect != 0 { SectorSurvives(g, s0, s1, f0, o, o, o.at); }
    StoresMatch(g, s0, s1);
    assert Backed(g, s1, f1, o);
    ContentSpared(g, s0, s1, f0, f1, o);
  }

  lemma ChainKept(f0: C.Fat, f1: C.Fat, cs: seq<nat>, ds: seq<nat>)
    requires HalfLinked(f0, f1, cs) && C.IsChain(f0, ds) && C.Apart(cs, ds)
    ensures C.IsChain(f1, ds)
  {
    forall i | 0 <= i < |ds|
      ensures f1[ds[i]] == f0[ds[i]]
    {
      C.ChainInUse(f0, ds, i);
    }
  }

  lemma WindowOffBoth(g: Geo, s: Snap, f: C.Fat, h: Handle, o: Handle)
    requires Backed(g, s, f, h) && Backed(g, s, f, o)
    ensures WindowElsewhere(g, s.winsect, f, h.chain + o.chain)
  {
    hide Coherent, C.IsChain, InChain;
  }

  lemma StoresMatch(g: Geo, s0: Snap, s1: Snap)
    requires Steady(g, s0, s1)
    ensures |s1.store| == |s0.store|
  {
  }

  lemma DataWriteKeepsCopies(
    g: Geo, s: Snap, store1: seq<Sector>, failures1: nat, cs: seq<nat>, first: nat, n: nat)
    requires Coherent(g, s.(store := store1)) && |store1| == |s.store| && InChain(g, cs) && s.failures <= failures1
    requires forall i | 0 <= i < |s.store| && !(first <= i < first + n) :: store1[i] == s.store[i]
    requires exists c | c in cs :: ClusterStart(g, c) <= first && first + n <= ClusterStart(g, c) + g.csize
    ensures CopiesKept(g, s, s.(store := store1, failures := failures1))
  {
    hide ClusterStart;
    var c :| c in cs && ClusterStart(g, c) <= first && first + n <= ClusterStart(g, c) + g.csize;
    ClustersApart(g, |s.store|, c, 0, c, 0);
    assert g.dataBase <= first;
  }

  // Sectors of the file's own clusters are written.
  lemma WriteSpares(g: Geo, s: Snap, f: C.Fat, cs: seq<nat>, store1: seq<Sector>, failures1: nat, first: nat, n: nat)
    requires Coherent(g, s.(store := store1, failures := failures1)) && |store1| == |s.store| && InChain(g, cs)
    requires s.failures <= failures1
    requires forall i | 0 <= i < |s.store| && !(first <= i < first + n) :: store1[i] == s.store[i]
    requires exists c | c in cs :: ClusterStart(g, c) <= first && first + n <= ClusterStart(g, c) + g.csize
    ensures Spares(g, s, f, cs, s.(store := store1, failures := failures1), f, cs)
  {
    var s1 := s.(store := store1, failures := failures1);
    hide CopiesKept;
    assert CopiesKept(g, s, s1) by { DataWriteKeepsCopies(g, s, store1, failures1, cs, first, n); }
    forall o: Handle | Bystander(g, s, f, cs, o)
      ensures Bystander(g, s1, f, cs, o)
      ensures Content(g, s1, f, o) == Content(g, s, f, o)
    {
      forall k | 0 <= k < SectorCount(g, o.chain)
        ensures ClusterOfSector(g, k) < |o.chain| && g.dataBase <= SectorAt(g, o.chain, k) < |s.store|
        ensures store1[SectorAt(g, o.chain, k)] == s.store[SectorAt(g, o.chain, k)]
        ensures SectorOfFile(g, store1, o, k) == SectorOfFile(g, s.store, o, k)
      {
        NotAmongOurs(g, s, f, cs, o, k, first, n);
      }
    }
  }

  lemma NotAmongOurs(g: Geo, s: Snap, f: C.Fat, cs: seq<nat>, o: Handle, k: nat, first: nat, n: nat)
    requires Bystander(g, s, f, cs, o) && InChain(g, cs) && k < SectorCount(g, o.chain)
    requires exists c | c in cs :: ClusterStart(g, c) <= first && first + n <= ClusterStart(g, c) + g.csize
    ensures ClusterOfSector(g, k) < |o.chain| && g.dataBase <= SectorAt(g, o.chain, k) < |s.store|
    ensures !(first <= SectorAt(g, o.chain, k) < first + n)
  {
    ClusterInChain(g, o.chain, k);
    SectorsApart(g, |s.store|, o.chain, k, k);
    var c :| c in cs && ClusterStart(g, c) <= first && first + n <= ClusterStart(g, c) + g.csize;
    var d := o.chain[ClusterOfSector(g, k)];
    var x := SectorAt(g, o.chain, k);
    if first <= x < first + n {
      ClustersApart(g, |s.store|, c, x - ClusterStart(g, c), d, k % g.csize);
    }
  }

  // The dirty buffer is written to its sector.
  lemma FlushSpares(g: Geo, s: Snap, f: C.Fat, h: Handle, store1: seq<Sector>, failures1: nat)
    requires Backed(g, s, f, h) && h.sect != 0 && |store1| == |s.store| && s.failures <= failures1
    requires forall i | 0 <= i < |s.store| && i != h.sect :: store1[i] == s.store[i]
    ensures Spares(g, s, f, h.chain, s.(store := store1, failures := failures1), f, h.chain)
  {
    WindowOffFile(g, s, f, h, h.at);
    var c := h.chain[ClusterOfSector(g, h.at)];
    assert c in h.chain && ClusterStart(g, c) <= h.sect && h.sect + 1 <= ClusterStart(g, c) + g.csize;
    WriteSpares(g, s, f, h.chain, store1, failures1, h.sect, 1);
  }

  // A run of sectors within a cluster is written.
  lemma RunSpares(g: Geo, s: Snap, f: C.Fat, h: Handle, store1: seq<Sector>, failures1: nat, k: nat, n: nat)
    requires Backed(g, s, f, h) && ClusterOfSector(g, k) < |h.chain| && k % g.csize + n <= g.csize
    requires |store1| == |s.store| && s.failures <= failures1
    requires var first := SectorAt(g, h.chain, k);
      forall i | 0 <= i < |s.store| && !(first <= i < first + n) :: store1[i] == s.store[i]
    ensures Spares(g, s, f, h.chain, s.(store := store1, failures := failures1), f, h.chain)
  {
    ClusterInChain(g, h.chain, k);
    WindowOffFile(g, s, f, h, k);
    var c := h.chain[ClusterOfSector(g, k)];
    assert c in h.chain && ClusterStart(g, c) + k % g.csize == SectorAt(g, h.chain, k);
    WriteSpares(g, s, f, h.chain, store1, failures1, SectorAt(g, h.chain, k), n);
  }
}
