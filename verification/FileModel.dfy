// What an open file is, as values: which sectors its chain gives it, the one sector it keeps
// in its own buffer, and the bytes all of that stands for.

module FileModel {
  import opened Basics
  import opened FatTypes
  import opened Geometry
  import opened Window
  import C = Chains

  // The largest file a FAT volume holds.
  const MAX_SIZE: int := 0xFFFF_FFFF

  datatype Handle = Handle(
    chain: seq<nat>,     // the clusters of the file, in order
    sclust: nat,         // first cluster, 0 for none
    objsize: nat,        // size of the file
    fptr: nat,           // read/write pointer
    clust: nat,          // current cluster
    sect: nat,           // sector in buf, 0 for none
    at: nat,             // which sector of the file that is
    dirty: bool,         // buf is newer than the disk
    buf: Sector,
    mapped: Option<seq<nat>>)  // what the link map, if one is set, stands for

  // ----- Where the sectors and bytes of a file are -----

  function SectorCount(g: Geo, chain: seq<nat>): nat {
    |chain| * g.csize
  }

  // The place in the chain of the cluster that holds sector k or byte i of the file.
  function ClusterOfSector(g: Geo, k: nat): nat
    requires WellFormed(g)
  {
    k / g.csize
  }

  function ClusterOfByte(g: Geo, i: nat): nat
    requires WellFormed(g)
  {
    ClusterOfSector(g, i / SS)
  }

  lemma ClusterInChain(g: Geo, chain: seq<nat>, k: nat)
    requires WellFormed(g)
    ensures k < SectorCount(g, chain) <==> ClusterOfSector(g, k) < |chain|
  {
  }

  // The disk sector of sector k of the file.
  function SectorAt(g: Geo, chain: seq<nat>, k: nat): int
    requires WellFormed(g) && ClusterOfSector(g, k) < |chain|
  {
    ClusterStart(g, chain[ClusterOfSector(g, k)]) + k % g.csize
  }

  ghost predicate InChain(g: Geo, chain: seq<nat>) {
    && (forall i | 0 <= i < |chain| :: IsCluster(g, chain[i]))
    && (forall i, j | 0 <= i < j < |chain| :: chain[i] != chain[j])
  }

  lemma ChainIsInChain(g: Geo, f: C.Fat, chain: seq<nat>)
    requires C.IsChain(f, chain) && |f| == g.nFatent
    ensures InChain(g, chain)
  {
    forall i, j | 0 <= i < j < |chain|
      ensures chain[i] != chain[j]
    {
      C.ChainsAreAcyclic(f, chain, i, j);
    }
  }

  // Different sectors of a file are different sectors of the data area.
  lemma SectorsApart(g: Geo, sectors: nat, chain: seq<nat>, k: nat, l: nat)
    requires FitsDrive(g, sectors) && InChain(g, chain)
    requires ClusterOfSector(g, k) < |chain| && ClusterOfSector(g, l) < |chain|
    ensures g.dataBase <= SectorAt(g, chain, k) < sectors
    ensures SectorAt(g, chain, k) == SectorAt(g, chain, l) <==> k == l
  {
    hide ClusterStart;
    var p, q := ClusterOfSector(g, k), ClusterOfSector(g, l);
    ClustersApart(g, sectors, chain[p], k % g.csize, chain[q], l % g.csize);
    assert k == p * g.csize + k % g.csize && l == q * g.csize + l % g.csize;
  }

  // Within a cluster they are in sequence.
  lemma SectorsInSequence(g: Geo, chain: seq<nat>, k: nat, n: nat)
    requires WellFormed(g) && ClusterOfSector(g, k) < |chain| && k % g.csize + n < g.csize
    ensures ClusterOfSector(g, k + n) == ClusterOfSector(g, k)
    ensures SectorAt(g, chain, k + n) == SectorAt(g, chain, k) + n
  {
  }

  // The next sector is in the same cluster, or it is the first of the next cluster.
  lemma NextSector(g: Geo, k: nat)
    requires WellFormed(g) && 0 < k
    ensures k % g.csize == 0 ==> ClusterOfSector(g, k) == ClusterOfSector(g, k - 1) + 1
    ensures k % g.csize != 0 ==> ClusterOfSector(g, k) == ClusterOfSector(g, k - 1)
  {
  }

  // ----- The content -----

  // Every sector of the file, the dirty one taken from the buffer.
  ghost function FileSectors(g: Geo, store: seq<Sector>, h: Handle): (r: seq<Sector>)
    requires FitsDrive(g, |store|) && InChain(g, h.chain)
    ensures |r| == SectorCount(g, h.chain)
  {
    seq(SectorCount(g, h.chain), k requires 0 <= k < SectorCount(g, h.chain) =>
      SectorOfFile(g, store, h, k))
  }

  ghost function SectorOfFile(g: Geo, store: seq<Sector>, h: Handle, k: nat): Sector
    requires FitsDrive(g, |store|) && InChain(g, h.chain) && k < SectorCount(g, h.chain)
  {
    ClusterInChain(g, h.chain, k);
    SectorsApart(g, |store|, h.chain, k, k);
    if h.dirty && SectorAt(g, h.chain, k) == h.sect then h.buf else store[SectorAt(g, h.chain, k)]
  }

  function Bytes(sectors: seq<Sector>, size: nat): (r: seq<byte>)
    requires size <= |sectors| * SS
    ensures |r| == size
    ensures forall i | 0 <= i < size :: r[i] == sectors[i / SS][i % SS]
  {
    seq(size, i requires 0 <= i < size => sectors[i / SS][i % SS])
  }

  lemma BytesOfPrefix(sectors: seq<Sector>, more: seq<Sector>, size: nat)
    requires sectors <= more && size <= |sectors| * SS
    ensures Bytes(more, size) == Bytes(sectors, size)
  {
  }

  lemma BytesLonger(sectors: seq<Sector>, size: nat, longer: nat)
    requires size <= longer <= |sectors| * SS
    ensures Bytes(sectors, size) <= Bytes(sectors, longer)
  {
  }

  // data put into content at offset p.
  function Splice(content: seq<byte>, p: nat, data: seq<byte>): (r: seq<byte>)
    requires p <= |content|
    ensures |r| == if p + |data| < |content| then |content| else p + |data|
  {
    content[..p] + data + if p + |data| < |content| then content[p + |data|..] else []
  }

  lemma SpliceNothing(content: seq<byte>, p: nat)
    requires p <= |content|
    ensures Splice(content, p, []) == content
  {
  }

  lemma SpliceTwice(content: seq<byte>, p: nat, d: seq<byte>, e: seq<byte>)
    requires p <= |content|
    ensures Splice(Splice(content, p, d), p + |d|, e) == Splice(content, p, d + e)
  {
  }

  lemma SpliceMore(content: seq<byte>, p: nat, data: seq<byte>, n: nat, m: nat)
    requires p <= |content| && n <= |data| && m <= |data| - n
    ensures Splice(Splice(content, p, data[..n]), p + n, data[n..][..m]) == Splice(content, p, data[..n + m])
  {
    SpliceTwice(content, p, data[..n], data[n..][..m]);
    assert data[..n] + data[n..][..m] == data[..n + m];
  }

  // ----- The invariant of an open file -----

  // Sectors of free clusters and of this file are not in the sector window.
  ghost predicate WindowElsewhere(g: Geo, winsect: nat, f: C.Fat, chain: seq<nat>) {
    forall c | IsCluster(g, c) && c < |f| && (c in chain || f[c] == 0) ::
      !(ClusterStart(g, c) <= winsect < ClusterStart(g, c) + g.csize)
  }

  // The file's chain is in the FAT, its size fits it, and its buffer holds a sector of it.
  ghost predicate Backed(g: Geo, s: Snap, f: C.Fat, h: Handle) {
    && Coherent(g, s) && |f| == g.nFatent
    && C.IsChain(f, h.chain) && InChain(g, h.chain)
    && h.sclust == (if h.chain == [] then 0 else h.chain[0])
    && h.objsize <= SectorCount(g, h.chain) * SS && h.objsize <= MAX_SIZE
    && (h.sect == 0 ==> !h.dirty)
    && (h.sect != 0 ==> h.at < SectorCount(g, h.chain) && h.sect == SectorAt(g, h.chain, h.at))
    && (h.sect != 0 && !h.dirty ==> h.sect < |s.store| && h.buf == s.store[h.sect])
    && WindowElsewhere(g, s.winsect, f, h.chain)
    && (h.mapped.Some? ==> h.mapped.value <= h.chain)
  }

  // The pointer is in the file and the current cluster and the buffer go with it.
  ghost predicate Positioned(g: Geo, h: Handle)
    requires WellFormed(g)
  {
    && h.fptr <= h.objsize <= SectorCount(g, h.chain) * SS
    && (h.fptr > 0 ==> ClusterOfByte(g, h.fptr - 1) < |h.chain| && h.clust == h.chain[ClusterOfByte(g, h.fptr - 1)])
    && (h.fptr % SS != 0 ==> h.sect != 0 && h.at == h.fptr / SS)
  }

  // However the pointer got there, the current cluster is the one a walk from the first cluster
  // ends at, and the buffer holds the sector the pointer is in.
  lemma PointerDeterminesPlace(g: Geo, s: Snap, f: C.Fat, h1: Handle, h2: Handle)
    requires Backed(g, s, f, h1) && Backed(g, s, f, h2) && Positioned(g, h1) && Positioned(g, h2)
    requires h1.sclust == h2.sclust && h1.fptr == h2.fptr
    ensures h1.chain == h2.chain
    ensures h1.fptr > 0 ==> h1.clust == h2.clust
    ensures h1.fptr % SS != 0 ==> h1.sect == h2.sect && h1.at == h2.at
  {
    if h1.sclust != 0 {
      C.ChainUnique(f, h1.chain, h2.chain);
    }
  }

  ghost function Content(g: Geo, s: Snap, f: C.Fat, h: Handle): (r: seq<byte>)
    requires Backed(g, s, f, h)
    ensures |r| == h.objsize
  {
    Bytes(FileSectors(g, s.store, h), h.objsize)
  }

  // ----- Where on the drive the content is -----

  // Byte i of a file is, unless it is in a dirty buffer, byte i % 512 of a sector of the drive: sector
  // i / 512 of the file, counted on in its cluster from where that begins.
  lemma ContentOnDrive(g: Geo, s: Snap, f: C.Fat, h: Handle, i: nat)
    requires Backed(g, s, f, h) && i < h.objsize
    ensures i / SS / g.csize < |h.chain|
    ensures var x := g.dataBase + g.csize * (h.chain[i / SS / g.csize] - 2) + i / SS % g.csize;
      && 0 <= x < |s.store|
      && Content(g, s, f, h)[i] == (if h.dirty && h.sect == x then h.buf else s.store[x])[i % SS]
  {
    hide C.IsChain, WindowElsewhere;
    ClusterInChain(g, h.chain, i / SS);
    SectorsApart(g, |s.store|, h.chain, i / SS, i / SS);
  }

  // The content of a file whose clusters follow on each other is an unbroken run of sectors of the
  // drive: from the start of the data area on when the first of them is cluster 2.
  lemma ContentIsRun(g: Geo, s: Snap, f: C.Fat, h: Handle, i: nat)
    requires Backed(g, s, f, h) && !h.dirty && i < h.objsize
    requires forall k | 0 < k < |h.chain| :: h.chain[k] == h.chain[k - 1] + 1
    ensures h.chain != [] && 0 <= ClusterStart(g, h.sclust) + i / SS < |s.store|
    ensures Content(g, s, f, h)[i] == s.store[ClusterStart(g, h.sclust) + i / SS][i % SS]
    ensures h.sclust == 2 ==> ClusterStart(g, h.sclust) == g.dataBase
  {
    hide C.IsChain, WindowElsewhere, ClusterStart, SectorAt;
    ClusterInChain(g, h.chain, i / SS);
    SectorsApart(g, |s.store|, h.chain, i / SS, i / SS);
    SectorInRow(g, h.chain, i / SS);
    ClustersFollow(g, 2);
  }

  lemma SectorInRow(g: Geo, chain: seq<nat>, k: nat)
    requires WellFormed(g) && ClusterOfSector(g, k) < |chain|
    requires forall i | 0 < i < |chain| :: chain[i] == chain[i - 1] + 1
    ensures SectorAt(g, chain, k) == ClusterStart(g, chain[0]) + k
  {
    hide ClusterStart;
    ChainInRow(chain, ClusterOfSector(g, k));
    ClustersFollowAll(g, chain[0], ClusterOfSector(g, k));
    assert k == g.csize * ClusterOfSector(g, k) + k % g.csize;
  }

  lemma {:induction false} ChainInRow(chain: seq<nat>, k: nat)
    requires k < |chain| && forall i | 0 < i < |chain| :: chain[i] == chain[i - 1] + 1
    ensures chain[k] == chain[0] + k
  {
    if k > 0 { ChainInRow(chain, k - 1); }
  }

  // ----- What the steps of reading, writing and seeking keep -----

  // No sector of the file is in the window.
  lemma WindowOffFile(g: Geo, s: Snap, f: C.Fat, h: Handle, k: nat)
    requires Backed(g, s, f, h) && k < SectorCount(g, h.chain)
    ensures ClusterOfSector(g, k) < |h.chain| && g.dataBase <= SectorAt(g, h.chain, k) < |s.store|
    ensures SectorAt(g, h.chain, k) != s.winsect
    ensures SectorAt(g, h.chain, k) + (g.csize - k % g.csize) <= s.winsect || s.winsect < SectorAt(g, h.chain, k)
  {
    ClusterInChain(g, h.chain, k);
    SectorsApart(g, |s.store|, h.chain, k, k);
    var c := h.chain[ClusterOfSector(g, k)];
    assert c in h.chain;
    assert !(ClusterStart(g, c) <= s.winsect < ClusterStart(g, c) + g.csize);
  }

  // An access to the FAT that leaves the table as it is.
  lemma LookKeeps(g: Geo, s0: Snap, s1: Snap, f: C.Fat, h: Handle)
    requires Backed(g, s0, f, h) && Steady(g, s0, s1) && Coherent(g, s1)
    ensures Backed(g, s1, f, h)
    ensures FileSectors(g, s1.store, h) == FileSectors(g, s0.store, h)
  {
    forall k | 0 <= k < SectorCount(g, h.chain)
      ensures ClusterOfSector(g, k) < |h.chain| && g.dataBase <= SectorAt(g, h.chain, k) < |s0.store|
      ensures s1.store[SectorAt(g, h.chain, k)] == s0.store[SectorAt(g, h.chain, k)]
      ensures SectorOfFile(g, s1.store, h, k) == SectorOfFile(g, s0.store, h, k)
    {
      WindowOffFile(g, s0, f, h, k);
    }
    WindowStaysElsewhere(g, s0, s1, f, f, h.chain, h.chain);
  }

  lemma WindowStaysElsewhere(g: Geo, s0: Snap, s1: Snap, f0: C.Fat, f1: C.Fat, chain0: seq<nat>, chain1: seq<nat>)
    requires WellFormed(g) && |f0| == |f1| == g.nFatent
    requires forall c | IsCluster(g, c) :: ClusterStart(g, c) + g.csize <= |s0.store|
    requires WindowElsewhere(g, s0.winsect, f0, chain0) && Steady(g, s0, s1)
    requires forall c | IsCluster(g, c) && (c in chain1 || f1[c] == 0) :: c in chain0 || f0[c] == 0
    ensures WindowElsewhere(g, s1.winsect, f1, chain1)
  {
  }

  lemma OneMore(n: nat, m: nat)
    ensures (n + 1) * m == n * m + m
  {
  }

  // The handle once the chain has grown by the cluster ncl.
  function Extended(h: Handle, ncl: nat): Handle {
    h.(chain := h.chain + [ncl], sclust := (h.chain + [ncl])[0])
  }

  // From table f0 to f1 the cluster ncl has come to the end of the chain.
  ghost predicate Grown(g: Geo, f0: C.Fat, f1: C.Fat, chain: seq<nat>, ncl: nat) {
    && |f0| == g.nFatent && IsCluster(g, ncl) && f0[ncl] == 0
    && C.IsChain(f0, chain)
    && f1 == C.Linked(f0, if chain == [] then 0 else chain[|chain| - 1], ncl, EndMark(g.kind))
  }

  // The chain grows by one cluster at its end.
  lemma ExtendKeeps(g: Geo, s0: Snap, s1: Snap, f0: C.Fat, f1: C.Fat, h: Handle, ncl: nat)
    requires Backed(g, s0, f0, h) && Steady(g, s0, s1) && Coherent(g, s1) && Grown(g, f0, f1, h.chain, ncl)
    ensures Backed(g, s1, f1, Extended(h, ncl))
  {
    var h1 := Extended(h, ncl);
    ExtendedChain(g, f0, f1, h.chain, ncl);
    WindowStaysElsewhere(g, s0, s1, f0, f1, h.chain, h1.chain);
    if h.sect != 0 {
      SectorSurvives(g, s0, s1, f0, h, h1, h.at);
    }
  }

  lemma ExtendSectors(g: Geo, s0: Snap, s1: Snap, f0: C.Fat, f1: C.Fat, h: Handle, ncl: nat)
    requires Backed(g, s0, f0, h) && Steady(g, s0, s1) && Coherent(g, s1) && Grown(g, f0, f1, h.chain, ncl)
    requires Backed(g, s1, f1, Extended(h, ncl))
    ensures SectorCount(g, Extended(h, ncl).chain) == SectorCount(g, h.chain) + g.csize
    ensures FileSectors(g, s0.store, h) <= FileSectors(g, s1.store, Extended(h, ncl))
  {
    var h1 := Extended(h, ncl);
    OneMore(|h.chain|, g.csize);
    forall k | 0 <= k < SectorCount(g, h.chain)
      ensures SectorOfFile(g, s1.store, h1, k) == SectorOfFile(g, s0.store, h, k)
    {
      SectorSurvives(g, s0, s1, f0, h, h1, k);
    }
  }

  lemma StretchKeeps(g: Geo, s0: Snap, s1: Snap, f0: C.Fat, f1: C.Fat, h: Handle, ncl: nat)
    requires Backed(g, s0, f0, h) && Steady(g, s0, s1) && Coherent(g, s1) && Grown(g, f0, f1, h.chain, ncl)
    ensures Backed(g, s1, f1, Extended(h, ncl))
    ensures Content(g, s1, f1, Extended(h, ncl)) == Content(g, s0, f0, h)
  {
    hide Steady, WindowElsewhere, C.IsChain, FileSectors, Bytes, InChain;
    ExtendKeeps(g, s0, s1, f0, f1, h, ncl);
    ExtendSectors(g, s0, s1, f0, f1, h, ncl);
    BytesOfPrefix(FileSectors(g, s0.store, h), FileSectors(g, s1.store, Extended(h, ncl)), h.objsize);
  }

  lemma ExtendedChain(g: Geo, f0: C.Fat, f1: C.Fat, chain: seq<nat>, ncl: nat)
    requires WellFormed(g) && Grown(g, f0, f1, chain, ncl)
    ensures C.IsChain(f1, chain + [ncl]) && InChain(g, chain + [ncl])
    ensures forall c | IsCluster(g, c) && (c in chain + [ncl] || f1[c] == 0) :: c in chain || f0[c] == 0
    ensures SectorCount(g, chain + [ncl]) == SectorCount(g, chain) + g.csize
  {
    EndMarkEndsChains(g);
    C.LinkedGrows(f0, chain, ncl, EndMark(g.kind));
    ChainIsInChain(g, f1, chain + [ncl]);
    OneMore(|chain|, g.csize);
  }

  lemma SectorSurvives(g: Geo, s0: Snap, s1: Snap, f0: C.Fat, h: Handle, h1: Handle, k: nat)
    requires Backed(g, s0, f0, h) && Steady(g, s0, s1) && Coherent(g, s1)
    requires h.chain <= h1.chain && InChain(g, h1.chain) && h1 == h.(chain := h1.chain, sclust := h1.sclust)
    requires k < SectorCount(g, h.chain) <= SectorCount(g, h1.chain)
    ensures ClusterOfSector(g, k) < |h.chain| && SectorAt(g, h1.chain, k) == SectorAt(g, h.chain, k)
    ensures g.dataBase <= SectorAt(g, h.chain, k) < |s0.store|
    ensures s1.store[SectorAt(g, h.chain, k)] == s0.store[SectorAt(g, h.chain, k)]
    ensures SectorOfFile(g, s1.store, h1, k) == SectorOfFile(g, s0.store, h, k)
  {
    WindowOffFile(g, s0, f0, h, k);
    ClusterInChain(g, h1.chain, k);
  }

  // Sector k of the file comes into the buffer; a dirty buffer has been written back before.
  lemma LoadKeeps(g: Geo, s: Snap, f: C.Fat, h: Handle, k: nat)
    requires Backed(g, s, f, h) && !h.dirty && k < SectorCount(g, h.chain)
    ensures ClusterOfSector(g, k) < |h.chain| && 0 < SectorAt(g, h.chain, k) < |s.store|
    ensures var sect := SectorAt(g, h.chain, k);
      var h1 := h.(sect := sect, at := k, buf := s.store[sect]);
      Backed(g, s, f, h1) && FileSectors(g, s.store, h1) == FileSectors(g, s.store, h)
  {
    WindowOffFile(g, s, f, h, k);
    var sect := SectorAt(g, h.chain, k);
    var h1 := h.(sect := sect, at := k, buf := s.store[sect]);
    forall l | 0 <= l < SectorCount(g, h.chain)
      ensures SectorOfFile(g, s.store, h1, l) == SectorOfFile(g, s.store, h, l)
    {
    }
  }

  // The buffer is filled with b as sector k of the file, to be written later.
  lemma BufferKeeps(g: Geo, s: Snap, f: C.Fat, h: Handle, k: nat, b: Sector)
    requires Backed(g, s, f, h) && k < SectorCount(g, h.chain) && (h.dirty ==> h.at == k)
    ensures ClusterOfSector(g, k) < |h.chain| && 0 < SectorAt(g, h.chain, k)
    ensures var h1 := h.(sect := SectorAt(g, h.chain, k), at := k, buf := b, dirty := true);
      Backed(g, s, f, h1) && FileSectors(g, s.store, h1) == FileSectors(g, s.store, h)[k := b]
  {
    WindowOffFile(g, s, f, h, k);
    var h1 := h.(sect := SectorAt(g, h.chain, k), at := k, buf := b, dirty := true);
    forall l | 0 <= l < SectorCount(g, h.chain)
      ensures SectorOfFile(g, s.store, h1, l) == if l == k then b else SectorOfFile(g, s.store, h, l)
    {
      ClusterInChain(g, h.chain, l);
      SectorsApart(g, |s.store|, h.chain, k, l);
    }
  }

  // The dirty buffer is written to its sector.
  lemma FlushKeeps(g: Geo, s: Snap, f: C.Fat, h: Handle, store1: seq<Sector>)
    requires Backed(g, s, f, h) && h.dirty && |store1| == |s.store|
    requires h.sect < |store1| && store1[h.sect] == h.buf
    requires forall i | 0 <= i < |s.store| && i != h.sect :: store1[i] == s.store[i]
    ensures var s1, h1 := s.(store := store1), h.(dirty := false);
      Backed(g, s1, f, h1) && FileSectors(g, store1, h1) == FileSectors(g, s.store, h)
  {
    var s1, h1 := s.(store := store1), h.(dirty := false);
    WindowOffFile(g, s, f, h, h.at);
    forall k | 0 <= k < SectorCount(g, h.chain)
      ensures SectorOfFile(g, store1, h1, k) == SectorOfFile(g, s.store, h, k)
    {
      ClusterInChain(g, h.chain, k);
      SectorsApart(g, |s.store|, h.chain, k, k);
    }
  }

  // A run of sectors that stays within a cluster stays within the file's sectors.
  lemma RunFits(g: Geo, chain: seq<nat>, k: nat, n: nat)
    requires WellFormed(g) && k < SectorCount(g, chain) && 0 < n && k % g.csize + n <= g.csize
    ensures ClusterOfSector(g, k) < |chain| && k + n <= SectorCount(g, chain)
  {
  }

  // On the disk, the run of n sectors from sector k on holds data, and nothing else has changed.
  ghost predicate RunWritten(g: Geo, store0: seq<Sector>, store1: seq<Sector>, chain: seq<nat>, k: nat,
    data: seq<Sector>)
    requires WellFormed(g) && ClusterOfSector(g, k) < |chain|
  {
    var first := SectorAt(g, chain, k);
    && |store1| == |store0|
    && (forall i | first <= i < first + |data| :: 0 <= i < |store0| && store1[i] == data[i - first])
    && (forall i | 0 <= i < |store0| && !(first <= i < first + |data|) :: store1[i] == store0[i])
  }

  // n sectors of the file, from sector k on and within one cluster, are written directly. The
  // buffer takes its share of them.
  lemma DirectWriteKeeps(g: Geo, s: Snap, f: C.Fat, h: Handle, store1: seq<Sector>, k: nat, data: seq<Sector>)
    requires Backed(g, s, f, h) && !h.dirty && 0 < |data|
    requires k < SectorCount(g, h.chain) && k % g.csize + |data| <= g.csize
    requires ClusterOfSector(g, k) < |h.chain| && RunWritten(g, s.store, store1, h.chain, k, data)
    ensures k + |data| <= SectorCount(g, h.chain)
    ensures var first := SectorAt(g, h.chain, k);
      var h1 := if first <= h.sect < first + |data| then h.(buf := data[h.sect - first]) else h;
      && Backed(g, s.(store := store1), f, h1)
      && FileSectors(g, store1, h1) == FileSectors(g, s.store, h)[..k] + data + FileSectors(g, s.store, h)[k + |data|..]
  {
    hide C.IsChain, WindowElsewhere, SectorAt;
    var n, first := |data|, SectorAt(g, h.chain, k);
    RunFits(g, h.chain, k, n);
    WindowOffFile(g, s, f, h, k);
    if h.sect != 0 {
      SectorInRun(g, s, f, h, k, n, h.at);
    }
    var h1 := if first <= h.sect < first + n then h.(buf := data[h.sect - first]) else h;
    forall l | 0 <= l < SectorCount(g, h.chain)
      ensures SectorOfFile(g, store1, h1, l) ==
      if k <= l < k + n then data[l - k] else SectorOfFile(g, s.store, h, l)
    {
      SectorWritten(g, s, f, h, h1, store1, k, data, l);
    }
    Replaced(FileSectors(g, s.store, h), FileSectors(g, store1, h1), k, data);
  }

  lemma Replaced<T>(a: seq<T>, b: seq<T>, k: nat, data: seq<T>)
    requires |a| == |b| && k + |data| <= |a|
    requires forall l | 0 <= l < |a| :: b[l] == if k <= l < k + |data| then data[l - k] else a[l]
    ensures b == a[..k] + data + a[k + |data|..]
  {
  }

  lemma SectorWritten(g: Geo, s: Snap, f: C.Fat, h: Handle, h1: Handle, store1: seq<Sector>, k: nat,
    data: seq<Sector>, l: nat)
    requires Backed(g, s, f, h) && !h.dirty && 0 < |data| && h1.chain == h.chain && !h1.dirty
    requires k < SectorCount(g, h.chain) && k % g.csize + |data| <= g.csize && l < SectorCount(g, h.chain)
    requires ClusterOfSector(g, k) < |h.chain| && RunWritten(g, s.store, store1, h.chain, k, data)
    ensures SectorOfFile(g, store1, h1, l) ==
      if k <= l < k + |data| then data[l - k] else SectorOfFile(g, s.store, h, l)
  {
    SectorInRun(g, s, f, h, k, |data|, l);
    SectorsApart(g, |s.store|, h.chain, l, l);
  }

  // The sectors of a run within a cluster, told by their place on the disk.
  lemma SectorInRun(g: Geo, s: Snap, f: C.Fat, h: Handle, k: nat, n: nat, l: nat)
    requires Backed(g, s, f, h) && k < SectorCount(g, h.chain) && 0 < n && k % g.csize + n <= g.csize
    requires l < SectorCount(g, h.chain)
    ensures ClusterOfSector(g, k) < |h.chain| && ClusterOfSector(g, l) < |h.chain|
    ensures var first, sect := SectorAt(g, h.chain, k), SectorAt(g, h.chain, l);
      && (first <= sect < first + n <==> k <= l < k + n)
      && (k <= l < k + n ==> sect - first == l - k)
  {
    ClusterInChain(g, h.chain, k);
    ClusterInChain(g, h.chain, l);
    if k <= l < k + n {
      SectorsInSequence(g, h.chain, k, l - k);
    } else {
      var sect := SectorAt(g, h.chain, l);
      var first := SectorAt(g, h.chain, k);
      if first <= sect < first + n {
        SectorsInSequence(g, h.chain, k, sect - first);
        SectorsApart(g, |s.store|, h.chain, k + (sect - first), l);
      }
    }
  }

  // ----- The pointer -----

  // At the start of a cluster other than the first, the current cluster is the one before.
  lemma PointerAtCluster(g: Geo, h: Handle)
    requires WellFormed(g) && Positioned(g, h) && h.fptr > 0 && h.fptr % SS == 0 && h.fptr / SS % g.csize == 0
    ensures ClusterOfByte(g, h.fptr) > 0
    ensures ClusterOfByte(g, h.fptr) - 1 < |h.chain| && h.clust == h.chain[ClusterOfByte(g, h.fptr) - 1]
  {
    assert (h.fptr - 1) / SS == h.fptr / SS - 1;
    NextSector(g, h.fptr / SS);
  }

  // At the start of a sector within a cluster the current cluster is the one of that sector.
  lemma PointerInCluster(g: Geo, h: Handle)
    requires WellFormed(g) && Positioned(g, h) && h.fptr % SS == 0 && h.fptr / SS % g.csize != 0
    ensures h.fptr > 0 && ClusterOfByte(g, h.fptr) < |h.chain| && h.clust == h.chain[ClusterOfByte(g, h.fptr)]
  {
    assert 0 % g.csize == 0;
    assert (h.fptr - 1) / SS == h.fptr / SS - 1;
    NextSector(g, h.fptr / SS);
  }

  // A byte of the file lies in a sector, and so in a cluster, of the file.
  lemma ByteInChain(g: Geo, h: Handle, i: nat)
    requires WellFormed(g) && h.objsize <= SectorCount(g, h.chain) * SS && i < h.objsize
    ensures i / SS < SectorCount(g, h.chain) && ClusterOfByte(g, i) < |h.chain|
  {
  }

  // Moving the pointer does not touch the file.
  lemma MoveKeeps(g: Geo, s: Snap, f: C.Fat, h: Handle, h1: Handle)
    requires Backed(g, s, f, h) && h1 == h.(fptr := h1.fptr, clust := h1.clust)
    ensures Backed(g, s, f, h1) && FileSectors(g, s.store, h1) == FileSectors(g, s.store, h)
  {
  }

  // The cluster a pointer before the end of the file is about to enter: where it is found
  // from the first cluster, from the current one, and from the link map.
  lemma ClusterAhead(g: Geo, s: Snap, f: C.Fat, h: Handle)
    requires Backed(g, s, f, h) && Positioned(g, h) && h.fptr < h.objsize
    requires h.fptr % SS == 0 && h.fptr / SS % g.csize == 0
    ensures ClusterOfByte(g, h.fptr) < |h.chain|
    ensures var c := h.chain[ClusterOfByte(g, h.fptr)];
      && IsCluster(g, c) && 2 <= c < DISK_ERROR
      && (h.fptr == 0 ==> h.sclust == c)
      && (h.fptr > 0 ==> IsCluster(g, h.clust) && f[h.clust] == c)
      && (h.mapped.Some? ==> var m, k := h.mapped.value, ClusterOfByte(g, h.fptr); k < |m| ==> m[k] == c)
  {
    ByteInChain(g, h, h.fptr);
    EndMarkEndsChains(g);
    if h.fptr == 0 {
      assert ClusterOfByte(g, 0) == 0;
    } else {
      PointerAtCluster(g, h);
    }
  }

  // ----- What is read -----

  // The buffer is the sector of the file it claims to be.
  lemma BufferIsSector(g: Geo, s: Snap, f: C.Fat, h: Handle)
    requires Backed(g, s, f, h) && h.sect != 0
    ensures FileSectors(g, s.store, h)[h.at] == h.buf
  {
  }

  lemma BytesOfBuffer(g: Geo, s: Snap, f: C.Fat, h: Handle, n: nat)
    requires Backed(g, s, f, h) && h.sect != 0 && h.at == h.fptr / SS
    requires h.fptr % SS + n <= SS && h.fptr + n <= h.objsize
    ensures h.buf[h.fptr % SS..h.fptr % SS + n] == Content(g, s, f, h)[h.fptr..h.fptr + n]
  {
    hide C.IsChain, InChain, FitsDrive, WindowElsewhere, FileSectors, SectorAt, Bytes;
    BufferIsSector(g, s, f, h);
    SliceOfSector(FileSectors(g, s.store, h), h.objsize, h.fptr, n);
  }

  // Bytes that lie within one sector.
  lemma SliceOfSector(sectors: seq<Sector>, size: nat, p: nat, n: nat)
    requires size <= |sectors| * SS && p % SS + n <= SS && p + n <= size && p / SS < |sectors|
    ensures sectors[p / SS][p % SS..p % SS + n] == Bytes(sectors, size)[p..p + n]
  {
  }

  // The first sector of the cluster the pointer is in, and from it the sector it is in.
  lemma SectorHere(g: Geo, s: Snap, f: C.Fat, h: Handle, c: nat)
    requires Backed(g, s, f, h) && ClusterOfByte(g, h.fptr) < |h.chain| && c == h.chain[ClusterOfByte(g, h.fptr)]
    ensures WellFormed(g) && 0 < ClusterToSector(g, c)
    ensures ClusterToSector(g, c) + h.fptr / SS % g.csize == SectorAt(g, h.chain, h.fptr / SS) < |s.store|
  {
    SectorsApart(g, |s.store|, h.chain, h.fptr / SS, h.fptr / SS);
    ClustersApart(g, |s.store|, c, 0, c, 0);
  }

  // What a direct read of n sectors from sector k on delivers, once the dirty sector is put in.
  lemma DirectReadDelivers(g: Geo, s: Snap, f: C.Fat, h: Handle, k: nat, data: seq<Sector>)
    requires Backed(g, s, f, h) && k < SectorCount(g, h.chain) && 0 < |data| && k % g.csize + |data| <= g.csize
    requires ClusterOfSector(g, k) < |h.chain|
    requires var first := SectorAt(g, h.chain, k);
      && 0 <= first && first + |data| <= |s.store|
      && forall i | 0 <= i < |data| :: data[i] == if h.dirty && first + i == h.sect then h.buf else s.store[first + i]
    ensures k + |data| <= SectorCount(g, h.chain)
    ensures FileSectors(g, s.store, h)[k..k + |data|] == data
  {
    hide WindowElsewhere, C.IsChain;
    RunFits(g, h.chain, k, |data|);
    forall i | 0 <= i < |data|
      ensures FileSectors(g, s.store, h)[k + i] == data[i]
    {
      SectorInRun(g, s, f, h, k, |data|, k + i);
      assert SectorOfFile(g, s.store, h, k + i) == data[i];
    }
  }

  // Bytes of a run of whole sectors.
  lemma BytesOfRun(sectors: seq<Sector>, size: nat, k: nat, n: nat)
    requires size <= |sectors| * SS && (k + n) * SS <= size
    ensures k + n <= |sectors|
    ensures Bytes(sectors[k..k + n], n * SS) == Bytes(sectors, size)[k * SS..(k + n) * SS]
  {
  }

  lemma DirectReadBytes(g: Geo, s: Snap, f: C.Fat, h: Handle, data: seq<Sector>)
    requires Backed(g, s, f, h) && h.fptr % SS == 0 && 0 < |data| && h.fptr + |data| * SS <= h.objsize
    requires h.fptr / SS % g.csize + |data| <= g.csize && ClusterOfByte(g, h.fptr) < |h.chain|
    requires var first := SectorAt(g, h.chain, h.fptr / SS);
      && 0 <= first && first + |data| <= |s.store|
      && forall i | 0 <= i < |data| :: data[i] == if h.dirty && first + i == h.sect then h.buf else s.store[first + i]
    ensures Bytes(data, |data| * SS) == Content(g, s, f, h)[h.fptr..h.fptr + |data| * SS]
  {
    hide SectorOfFile, C.IsChain, WindowElsewhere, ClusterStart, Bytes;
    var k := h.fptr / SS;
    assert h.fptr == k * SS;
    ByteInChain(g, h, h.fptr);
    DirectReadDelivers(g, s, f, h, k, data);
    BytesOfRun(FileSectors(g, s.store, h), h.objsize, k, |data|);
  }

  // The pointer moves on by n bytes of the sector it is in.
  lemma AdvanceInSector(g: Geo, h: Handle, n: nat)
    requires WellFormed(g) && h.objsize <= SectorCount(g, h.chain) * SS
    requires ClusterOfByte(g, h.fptr) < |h.chain| && h.clust == h.chain[ClusterOfByte(g, h.fptr)]
    requires 0 < n && h.fptr % SS + n <= SS && h.fptr + n <= h.objsize && h.sect != 0 && h.at == h.fptr / SS
    ensures Positioned(g, h.(fptr := h.fptr + n))
  {
  }

  // The pointer moves on by n whole sectors of the cluster it is in.
  lemma AdvanceInCluster(g: Geo, h: Handle, n: nat)
    requires WellFormed(g) && h.objsize <= SectorCount(g, h.chain) * SS
    requires ClusterOfByte(g, h.fptr) < |h.chain| && h.clust == h.chain[ClusterOfByte(g, h.fptr)]
    requires 0 < n && h.fptr % SS == 0 && h.fptr + n * SS <= h.objsize && h.fptr / SS % g.csize + n <= g.csize
    ensures Positioned(g, h.(fptr := h.fptr + n * SS))
  {
    var k := h.fptr / SS;
    assert h.fptr == k * SS;
    assert (h.fptr + n * SS - 1) / SS == k + n - 1;
    SectorsInSequence(g, h.chain, k, n - 1);
    assert (h.fptr + n * SS) % SS == 0;
  }

  // A pointer inside a sector is in the cluster of its last byte.
  lemma PointerInSector(g: Geo, h: Handle)
    requires WellFormed(g) && Positioned(g, h) && h.fptr % SS != 0
    ensures h.fptr > 0 && h.sect != 0 && h.at == h.fptr / SS
    ensures ClusterOfByte(g, h.fptr) < |h.chain| && h.clust == h.chain[ClusterOfByte(g, h.fptr)]
  {
  }

  // ----- What is written -----

  // The cluster a pointer at the start of a cluster is about to enter, when writing: the chain
  // has it, or the current cluster is the last one (the file has none at all).
  lemma ClusterAheadToWrite(g: Geo, s: Snap, f: C.Fat, h: Handle)
    requires Backed(g, s, f, h) && Positioned(g, h)
    requires h.fptr % SS == 0 && h.fptr / SS % g.csize == 0
    ensures ClusterOfByte(g, h.fptr) <= |h.chain|
    ensures ClusterOfByte(g, h.fptr) < |h.chain| ==>
      var c := h.chain[ClusterOfByte(g, h.fptr)];
      && IsCluster(g, c) && 2 <= c < DISK_ERROR
      && (h.fptr == 0 ==> h.sclust == c)
      && (h.fptr > 0 ==> IsCluster(g, h.clust) && f[h.clust] == c)
      && (h.mapped.Some? ==> var m, k := h.mapped.value, ClusterOfByte(g, h.fptr); k < |m| ==> m[k] == c)
    ensures ClusterOfByte(g, h.fptr) == |h.chain| ==>
      && (h.fptr == 0 ==> h.sclust == 0 && h.chain == [])
      && (h.fptr > 0 ==> h.chain != [] && h.clust == h.chain[|h.chain| - 1])
      && (h.fptr > 0 ==> IsCluster(g, h.clust) && g.nFatent <= f[h.clust])
      && (h.mapped.Some? ==> |h.mapped.value| <= ClusterOfByte(g, h.fptr))
  {
    EndMarkEndsChains(g);
    if h.fptr == 0 {
      assert ClusterOfByte(g, 0) == 0;
    } else {
      PointerAtCluster(g, h);
    }
  }

  // What follows the cluster before place i of the chain.
  lemma LinkAt(g: Geo, s: Snap, f: C.Fat, h: Handle, i: nat)
    requires Backed(g, s, f, h) && i <= |h.chain|
    ensures i > 0 ==> IsCluster(g, h.chain[i - 1]) && 2 <= f[h.chain[i - 1]]
    ensures i > 0 ==>
      if i < |h.chain| then f[h.chain[i - 1]] == h.chain[i] < g.nFatent else g.nFatent <= f[h.chain[i - 1]]
  {
    if i > 0 { C.ChainInUse(f, h.chain, i - 1); }
  }

  // The file has become longer, within its clusters.
  lemma LongerKeeps(g: Geo, s: Snap, f: C.Fat, h: Handle, h1: Handle)
    requires Backed(g, s, f, h) && h1 == h.(fptr := h1.fptr, objsize := h1.objsize)
    requires h1.objsize <= SectorCount(g, h.chain) * SS && h1.objsize <= MAX_SIZE
    ensures Backed(g, s, f, h1) && FileSectors(g, s.store, h1) == FileSectors(g, s.store, h)
  {
  }

  function Max(a: nat, b: nat): nat {
    if a < b then b else a
  }

  // Whole sectors of bytes.
  function ToSectors(data: seq<byte>, n: nat): (r: seq<Sector>)
    requires |data| == n * SS
    ensures |r| == n && forall i | 0 <= i < n :: r[i] == data[i * SS..i * SS + SS]
  {
    seq(n, i requires 0 <= i < n => data[i * SS..i * SS + SS])
  }

  // Whole sectors replaced.
  lemma BytesOfRunWritten(before: seq<Sector>, size: nat, k: nat, d: seq<Sector>)
    requires size <= |before| * SS && k + |d| <= |before| && k * SS <= size
    ensures Bytes(before[..k] + d + before[k + |d|..], Max(size, k * SS + |d| * SS)) ==
      Splice(Bytes(before, size), k * SS, Bytes(d, |d| * SS))
  {
  }

  // One sector replaced by one that differs, as far as the file goes, in the bytes of data.
  lemma BytesOfSectorWritten(before: seq<Sector>, size: nat, p: nat, b: Sector, data: seq<byte>)
    requires p <= size <= |before| * SS && p / SS < |before| && p % SS + |data| <= SS
    requires b[p % SS..p % SS + |data|] == data
    requires forall j | 0 <= j < SS && !(p % SS <= j < p % SS + |data|) && p / SS * SS + j < size ::
               b[j] == before[p / SS][j]
    ensures Max(size, p + |data|) <= |before| * SS
    ensures Bytes(before[p / SS := b], Max(size, p + |data|)) == Splice(Bytes(before, size), p, data)
  {
  }

  lemma ToSectorsAndBack(data: seq<byte>, n: nat)
    requires |data| == n * SS
    ensures Bytes(ToSectors(data, n), n * SS) == data
  {
  }

  // The handle after a round of f_write that wrote the sectors d from disk sector `first` on.
  function AfterDirect(h: Handle, first: nat, d: seq<Sector>): Handle {
    h.(buf := if first <= h.sect < first + |d| then d[h.sect - first] else h.buf,
       fptr := h.fptr + |d| * SS,
       objsize := Max(h.objsize, h.fptr + |d| * SS))
  }

  // What such a round starts from.
  ghost predicate CanWriteDirectly(g: Geo, s: Snap, f: C.Fat, h: Handle, store1: seq<Sector>, first: nat,
    d: seq<Sector>) {
    && WellFormed(g) && Backed(g, s, f, h) && !h.dirty && h.fptr % SS == 0 && h.fptr <= h.objsize
    && 0 < |d| && h.fptr + |d| * SS <= MAX_SIZE && h.fptr / SS % g.csize + |d| <= g.csize
    && ClusterOfByte(g, h.fptr) < |h.chain| && h.clust == h.chain[ClusterOfByte(g, h.fptr)]
    && first == SectorAt(g, h.chain, h.fptr / SS)
    && RunWritten(g, s.store, store1, h.chain, h.fptr / SS, d)
  }

  lemma WrittenDirectlyKeeps(g: Geo, s: Snap, f: C.Fat, h: Handle, store1: seq<Sector>, first: nat, d: seq<Sector>)
    requires CanWriteDirectly(g, s, f, h, store1, first, d)
    ensures Backed(g, s.(store := store1), f, AfterDirect(h, first, d))
    ensures Positioned(g, AfterDirect(h, first, d))
    ensures FileSectors(g, store1, AfterDirect(h, first, d)) ==
      FileSectors(g, store1, h.(buf := AfterDirect(h, first, d).buf))
  {
    hide FileSectors, C.IsChain, InChain, WindowElsewhere, ClusterStart, FitsDrive, SectorOfFile;
    var k, h1 := h.fptr / SS, AfterDirect(h, first, d);
    var h0 := h.(buf := h1.buf);
    assert h.fptr == k * SS;
    ClusterInChain(g, h.chain, k);
    DirectWriteKeeps(g, s, f, h, store1, k, d);
    LongerKeeps(g, s.(store := store1), f, h0, h1);
    AdvanceInCluster(g, h1.(fptr := h.fptr), |d|);
  }

  // A round of f_write that goes to the disk directly.
  lemma WrittenDirectly(g: Geo, s: Snap, f: C.Fat, h: Handle, store1: seq<Sector>, first: nat, d: seq<Sector>)
    requires CanWriteDirectly(g, s, f, h, store1, first, d)
    ensures Backed(g, s.(store := store1), f, AfterDirect(h, first, d)) && Positioned(g, AfterDirect(h, first, d))
    ensures Content(g, s.(store := store1), f, AfterDirect(h, first, d)) ==
      Splice(Content(g, s, f, h), h.fptr, Bytes(d, |d| * SS))
  {
    hide FileSectors, C.IsChain, WindowElsewhere, ClusterStart, SectorOfFile, Bytes, Splice;
    var k := h.fptr / SS;
    assert h.fptr == k * SS;
    ClusterInChain(g, h.chain, k);
    DirectWriteKeeps(g, s, f, h, store1, k, d);
    WrittenDirectlyKeeps(g, s, f, h, store1, first, d);
    BytesOfRunWritten(FileSectors(g, s.store, h), h.objsize, k, d);
  }

  // The handle after a round of f_write that put n bytes into the buffer, now b.
  function AfterBuffer(h: Handle, sector: nat, b: Sector, n: nat): Handle {
    h.(sect := sector, at := h.fptr / SS, buf := b, dirty := true,
       fptr := h.fptr + n, objsize := Max(h.objsize, h.fptr + n))
  }

  // A round of f_write that goes to the buffer.
  lemma WrittenToBuffer(g: Geo, s: Snap, f: C.Fat, h: Handle, b: Sector, data: seq<byte>)
    requires Backed(g, s, f, h) && h.fptr <= h.objsize && h.fptr / SS < SectorCount(g, h.chain)
    requires h.dirty ==> h.at == h.fptr / SS
    requires ClusterOfByte(g, h.fptr) < |h.chain| && h.clust == h.chain[ClusterOfByte(g, h.fptr)]
    requires 0 < |data| && h.fptr % SS + |data| <= SS && h.fptr + |data| <= MAX_SIZE
    requires b[h.fptr % SS..h.fptr % SS + |data|] == data
    requires forall j | 0 <= j < SS && !(h.fptr % SS <= j < h.fptr % SS + |data|) && h.fptr / SS * SS + j < h.objsize ::
      b[j] == FileSectors(g, s.store, h)[h.fptr / SS][j]
    ensures 0 < SectorAt(g, h.chain, h.fptr / SS)
    ensures var h1 := AfterBuffer(h, SectorAt(g, h.chain, h.fptr / SS), b, |data|);
      && Backed(g, s, f, h1) && Positioned(g, h1)
      && Content(g, s, f, h1) == Splice(Content(g, s, f, h), h.fptr, data)
  {
    hide WindowElsewhere, C.IsChain, Bytes, Splice, FileSectors;
    var k := h.fptr / SS;
    BufferKeeps(g, s, f, h, k, b);
    var h0 := h.(sect := SectorAt(g, h.chain, k), at := k, buf := b, dirty := true);
    var h1 := h0.(fptr := h.fptr + |data|, objsize := Max(h.objsize, h.fptr + |data|));
    BytesOfSectorWritten(FileSectors(g, s.store, h), h.objsize, h.fptr, b, data);
    LongerKeeps(g, s, f, h0, h1);
    AdvanceInSector(g, h1.(fptr := h.fptr), |data|);
  }

  // The buffer with bytes put into it from place o on.
  function Overlaid(buf: Sector, o: nat, data: seq<byte>): (b: Sector)
    requires o + |data| <= SS
    ensures b[o..o + |data|] == data
    ensures forall j | 0 <= j < SS && !(o <= j < o + |data|) :: b[j] == buf[j]
  {
    buf[..o] + data + buf[o + |data|..]
  }

  // They go over the content, when the buffer holds the sector or need not hold anything.
  lemma PutIntoBuffer(g: Geo, s: Snap, f: C.Fat, h: Handle, data: seq<byte>)
    requires Backed(g, s, f, h) && h.fptr <= h.objsize
    requires ClusterOfByte(g, h.fptr) < |h.chain| && h.clust == h.chain[ClusterOfByte(g, h.fptr)]
    requires (h.sect != 0 && h.at == h.fptr / SS) || (!h.dirty && h.fptr % SS == 0 && h.fptr == h.objsize)
    requires 0 < |data| && h.fptr % SS + |data| <= SS && h.fptr + |data| <= MAX_SIZE
    ensures 0 < SectorAt(g, h.chain, h.fptr / SS)
    ensures var b := Overlaid(h.buf, h.fptr % SS, data);
      var h1 := AfterBuffer(h, SectorAt(g, h.chain, h.fptr / SS), b, |data|);
      && Backed(g, s, f, h1) && Positioned(g, h1)
      && Content(g, s, f, h1) == Splice(Content(g, s, f, h), h.fptr, data)
  {
    hide C.IsChain, InChain, WindowElsewhere, FileSectors, SectorOfFile, SectorAt, Overlaid, Splice, Content,
      AfterBuffer;
    ClusterInChain(g, h.chain, h.fptr / SS);
    if h.sect != 0 { BufferIsSector(g, s, f, h); }
    WrittenToBuffer(g, s, f, h, Overlaid(h.buf, h.fptr % SS, data), data);
  }

  // ----- Seeking by clusters -----

  // Bytes per cluster.
  function Bcs(g: Geo): nat {
    g.csize * SS
  }

  // Where the j-th cluster of a file begins.
  function ClusterOffset(g: Geo, j: nat): nat {
    j * Bcs(g)
  }

  // What the following loop of f_lseek needs to know when it goes on from the j-th cluster.
  lemma OffsetStep(g: Geo, chain: seq<nat>, j: nat)
    requires WellFormed(g) && j < |chain|
    ensures ClusterOffset(g, j + 1) == ClusterOffset(g, j) + Bcs(g) <= SectorCount(g, chain) * SS
    ensures ClusterOffset(g, j + 1) % SS == 0 && 0 < ClusterOffset(g, j + 1)
    ensures ClusterOfByte(g, ClusterOffset(g, j + 1) - 1) == j
  {
    ClustersHold(g, chain, j);
    ByteOfCluster(g, j, Bcs(g) - 1);
    ByteOfCluster(g, j + 1, 0);
  }

  // Byte r of the j-th cluster, and its sector.
  lemma ByteOfCluster(g: Geo, j: nat, r: nat)
    requires WellFormed(g) && r < Bcs(g)
    ensures ClusterOfByte(g, j * Bcs(g) + r) == j
    ensures (j * Bcs(g) + r) / SS % g.csize == r / SS
    ensures (j * Bcs(g) + r) % SS == r % SS
  {
  }

  // i / bcs is the place in the chain of byte i's cluster.
  lemma ClusterByDivision(g: Geo, i: nat)
    requires WellFormed(g)
    ensures i / Bcs(g) == ClusterOfByte(g, i)
    ensures i / Bcs(g) * Bcs(g) <= i < i / Bcs(g) * Bcs(g) + Bcs(g)
  {
  }

  // Clusters of the chain and the capacity they give.
  lemma ClustersHold(g: Geo, chain: seq<nat>, j: nat)
    requires WellFormed(g) && j < |chain|
    ensures j * Bcs(g) + Bcs(g) <= SectorCount(g, chain) * SS
  {
  }

  // What lies before the end of the file lies in a cluster of its chain.
  lemma ClusterNeeded(g: Geo, h: Handle, j: nat, x: nat)
    requires WellFormed(g) && h.objsize <= SectorCount(g, h.chain) * SS && ClusterOffset(g, j) < x <= h.objsize
    ensures j < |h.chain|
  {
  }

  // A byte in the same cluster as byte i or in one behind it lies at or behind the start of
  // byte i's cluster.
  lemma SameOrFollowing(g: Geo, i: nat, t: nat)
    requires WellFormed(g) && i / Bcs(g) <= t / Bcs(g)
    ensures i / Bcs(g) == ClusterOfByte(g, i)
    ensures i / Bcs(g) * Bcs(g) == ClusterOffset(g, ClusterOfByte(g, i)) <= t
    ensures i / Bcs(g) * Bcs(g) <= i
  {
    ClusterByDivision(g, i);
    ClusterByDivision(g, t);
    var p, q := i / Bcs(g), t / Bcs(g);
    assert p * Bcs(g) <= q * Bcs(g);
  }

  // A target that is the ofs-th byte of the j-th cluster, 0 < ofs <= bcs: where the pointer
  // comes to stand and, inside a sector, which sector that is.
  lemma SeekTarget(g: Geo, s: Snap, f: C.Fat, h: Handle, j: nat, ofs: nat)
    requires Backed(g, s, f, h) && WellFormed(g) && j < |h.chain| && 0 < ofs <= Bcs(g)
    ensures var p := ClusterOffset(g, j) + ofs;
      && p <= SectorCount(g, h.chain) * SS
      && ClusterOfByte(g, p - 1) == j
      && p % SS == ofs % SS
      && (ofs % SS != 0 ==>
            (ClusterOfByte(g, p) == j && p / SS < SectorCount(g, h.chain)
             && 0 < ClusterToSector(g, h.chain[j]) + ofs / SS == SectorAt(g, h.chain, p / SS)))
  {
    hide C.IsChain, Coherent, Backed, ClusterToSector, SectorAt, SectorCount, ClusterOfByte;
    var p := ClusterOffset(g, j) + ofs;
    ClustersHold(g, h.chain, j);
    ByteOfCluster(g, j, ofs - 1);
    if ofs == Bcs(g) {
      ByteOfCluster(g, j + 1, 0);
      assert (j + 1) * Bcs(g) == p;
    } else {
      ByteOfCluster(g, j, ofs);
      SectorOfTarget(g, s, f, h, j, p, ofs);
    }
  }

  lemma SectorOfTarget(g: Geo, s: Snap, f: C.Fat, h: Handle, j: nat, p: nat, ofs: nat)
    requires Backed(g, s, f, h) && WellFormed(g) && j < |h.chain|
    requires ClusterOfByte(g, p) == j && p / SS % g.csize == ofs / SS
    ensures p / SS < SectorCount(g, h.chain)
    ensures 0 < ClusterToSector(g, h.chain[j]) + ofs / SS == SectorAt(g, h.chain, p / SS)
  {
    hide SectorCount, C.IsChain;
    ClusterInChain(g, h.chain, p / SS);
    SectorsApart(g, |s.store|, h.chain, p / SS, p / SS);
  }

  // A sector of the file is in the buffer only as itself.
  lemma SectorInBuffer(g: Geo, s: Snap, f: C.Fat, h: Handle, k: nat)
    requires Backed(g, s, f, h) && k < SectorCount(g, h.chain) && ClusterOfSector(g, k) < |h.chain|
    ensures 0 < SectorAt(g, h.chain, k)
    ensures h.sect == SectorAt(g, h.chain, k) ==> h.at == k
  {
    SectorsApart(g, |s.store|, h.chain, k, k);
    if h.sect == SectorAt(g, h.chain, k) {
      ClusterInChain(g, h.chain, h.at);
      SectorsApart(g, |s.store|, h.chain, h.at, k);
    }
  }

  // A target within the file, found through the link map.
  lemma FastTarget(g: Geo, s: Snap, f: C.Fat, h: Handle, p: nat)
    requires Backed(g, s, f, h) && 0 < p <= h.objsize && h.mapped.Some?
    ensures WellFormed(g) && ClusterOfByte(g, p - 1) < |h.chain|
    ensures ClusterToSector(g, 0) == 0
    ensures var i := ClusterOfByte(g, p - 1);
      && 0 < ClusterToSector(g, h.chain[i])
      && (i < |h.mapped.value| ==> h.mapped.value[i] == h.chain[i])
      && (p % SS != 0 ==>
            (ClusterOfByte(g, p) == i && p / SS < SectorCount(g, h.chain)
             && ClusterToSector(g, h.chain[i]) + (p - 1) / SS % g.csize == SectorAt(g, h.chain, p / SS)))
  {
    ByteInChain(g, h, p - 1);
    SectorsApart(g, |s.store|, h.chain, (p - 1) / SS, (p - 1) / SS);
    ClustersApart(g, |s.store|, h.chain[ClusterOfByte(g, p - 1)], 0, h.chain[ClusterOfByte(g, p - 1)], 0);
    if p % SS != 0 {
      assert p / SS == (p - 1) / SS;
    }
  }

  lemma StartOfChain(g: Geo, s: Snap, f: C.Fat, h: Handle)
    requires Backed(g, s, f, h)
    ensures h.sclust == (if h.chain == [] then 0 else h.chain[0])
    ensures h.sclust != 0 <==> h.chain != []
  {
  }

  lemma EmptyHasNoSize(g: Geo, s: Snap, f: C.Fat, h: Handle)
    requires Backed(g, s, f, h) && h.sclust == 0
    ensures h.chain == [] && h.objsize == 0
  {
  }

  // A link map is set.
  lemma MapKeeps(g: Geo, s: Snap, f: C.Fat, h: Handle, m: seq<nat>)
    requires Backed(g, s, f, h) && m <= h.chain
    ensures Backed(g, s, f, h.(mapped := Some(m)))
    ensures FileSectors(g, s.store, h.(mapped := Some(m))) == FileSectors(g, s.store, h)
  {
  }
}
