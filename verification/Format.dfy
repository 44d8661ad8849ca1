// The sizes f_mkfs settles on for a FAT volume, and how mount_volume reads them back.

module Format {
  import opened Basics
  import opened FatTypes
  import opened Geometry
  import opened FatEntry
  import C = Chains
  import Window
  import FatVolume

  const DWORD_MODULUS := 0x1_0000_0000
  const ENTRIES_PER_SECTOR := 16      // directory entries

  // Cluster size boundaries of the automatic choice, in units of 4096 sectors for FAT12/16 and
  // of 131072 sectors for FAT32; a zero ends each table.
  const CST: seq<nat> := [1, 4, 16, 64, 256, 512, 0]
  const CST32: seq<nat> := [1, 2, 4, 8, 16, 32, 0]

  // Sizes in sectors.
  datatype Layout = Layout(
    kind: FatKind,
    au: nat,     // cluster
    rsv: nat,    // reserved area
    fat: nat,    // one FAT
    dir: nat)    // root directory of FAT12 and FAT16

  // ----- f_mkfs -----

  // The parameters once f_mkfs has checked them: the volume is vol sectors from sector base on;
  // au is 0 when the cluster size is to be chosen.
  datatype Params = Params(vol: nat, base: nat, nFat: nat, nRoot: nat, blk: nat, au: nat, fat: bool, fat32: bool)

  predicate Checked(p: Params) {
    && 128 <= p.vol < DWORD_MODULUS
    && 1 <= p.nFat <= 2
    && 1 <= p.nRoot <= 32768 && p.nRoot % ENTRIES_PER_SECTOR == 0
    && 1 <= p.blk <= 0x8000
    && (p.au == 0 || IsClusterSize(p.au))
    && (p.fat || p.fat32)
  }

  // Bytes rounded up to sectors, by unsigned arithmetic.
  function SectorsFor(bytes: nat): nat {
    (bytes + SS - 1) % DWORD_MODULUS / SS
  }

  lemma RoundedUp(bytes: nat)
    ensures SectorsFor(bytes) <= bytes / SS + 1
    ensures 0 < bytes < DWORD_MODULUS - SS ==> bytes <= SectorsFor(bytes) * SS
  {
  }

  // The sizes that go with a cluster size, the data area not yet aligned. With FAT12 or FAT16
  // the number of clusters decides between the two.
  function Draft(p: Params, kind: FatKind, pau: nat): (l: Layout)
    requires Checked(p) && IsClusterSize(pau)
    ensures l.au == pau && (kind.FAT32? <==> l.kind.FAT32?)
    ensures l.kind.FAT12? ==> p.vol / pau <= MaxClusters(FAT12)
  {
    var n := p.vol / pau;
    if kind.FAT32? then Layout(FAT32, pau, 32, SectorsFor(n * 4 + 8), 0)
    else if n > MaxClusters(FAT12) then Layout(FAT16, pau, 1, SectorsFor(n * 2 + 4), p.nRoot / ENTRIES_PER_SECTOR)
    else Layout(FAT12, pau, 1, SectorsFor((n * 3 + 1) / 2 + 3), p.nRoot / ENTRIES_PER_SECTOR)
  }

  lemma DraftOfFat(p: Params, pau: nat)
    requires Checked(p) && IsClusterSize(pau)
    ensures Draft(p, FAT12, pau) == Draft(p, FAT16, pau)
  {
  }

  // Sectors before the data area.
  function Overhead(p: Params, l: Layout): nat {
    l.rsv + (if p.nFat == 2 then 2 * l.fat else l.fat) + l.dir
  }

  // What lies before the data area grows with the clusters, and slowly.
  lemma DraftTakes(p: Params, kind: FatKind, pau: nat)
    requires Checked(p) && IsClusterSize(pau)
    ensures Overhead(p, Draft(p, kind, pau)) <=
      34 + (p.vol / pau + 2) / 64 + (if kind.FAT32? then 0 else p.nRoot / ENTRIES_PER_SECTOR)
  {
    hide SectorsFor;
    FatTakes(p.vol / pau);
  }

  lemma FatTakes(n: nat)
    ensures 2 * SectorsFor(n * 4 + 8) <= (n + 2) / 64 + 2
    ensures 2 * SectorsFor(n * 2 + 4) <= (n + 2) / 64 + 2
    ensures 2 * SectorsFor((n * 3 + 1) / 2 + 3) <= (n + 2) / 64 + 2
  {
    hide SectorsFor;
    RoundedUp(n * 4 + 8);
    RoundedUp(n * 2 + 4);
    RoundedUp((n * 3 + 1) / 2 + 3);
  }

  // The data area is moved to the start of an erase block: FAT32 moves the FAT, the others
  // make it larger.
  function Aligned(p: Params, l: Layout): (r: Layout)
    requires Checked(p)
    ensures r.kind == l.kind && r.au == l.au && r.dir == l.dir
    ensures 0 <= Overhead(p, r) - Overhead(p, l) < p.blk
  {
    var off := (p.base + Overhead(p, l)) % p.blk;
    var n := if off == 0 then 0 else p.blk - off;
    if l.kind.FAT32? then l.(rsv := l.rsv + n)
    else if p.nFat == 2 then l.(rsv := l.rsv + n % 2, fat := l.fat + n / 2)
    else l.(fat := l.fat + n)
  }

  lemma DataAreaAligned(p: Params, l: Layout)
    requires Checked(p)
    ensures (p.base + Overhead(p, Aligned(p, l))) % p.blk == 0
  {
    NextMultiple(p.base + Overhead(p, l), p.blk);
  }

  lemma NextMultiple(x: nat, m: nat)
    requires m > 0
    ensures x % m != 0 ==> (x + (m - x % m)) % m == 0
  {
    assert x == x / m * m + x % m;
    assert (x / m + 1) * m == x / m * m + m;
    QuotientAndRemainder((x / m + 1) * m, m, x / m + 1, 0);
  }

  // The number of clusters, by unsigned arithmetic.
  function Clusters(p: Params, l: Layout): nat
    requires IsClusterSize(l.au)
  {
    (p.vol - Overhead(p, l)) % DWORD_MODULUS / l.au
  }

  // The choice from a table: 1, doubled for every boundary that n reaches.
  method AutoCluster(table: seq<nat>, n: nat) returns (pau: nat)
    requires table == CST || table == CST32
    ensures pau == AutoSize(table, n) && IsClusterSize(pau) && pau <= 64
  {
    var i := 0;
    pau := 1;
    while table[i] != 0 && table[i] <= n
      invariant 0 <= i <= 6 && pau == [1, 2, 4, 8, 16, 32, 64][i]
      invariant i > 0 ==> table[i - 1] <= n
      decreases 6 - i
    {
      i := i + 1;
      pau := pau * 2;
    }
  }

  function AutoSize(t: seq<nat>, n: nat): nat
    requires |t| == 7
  {
    if n < t[0] then 1 else if n < t[1] then 2 else if n < t[2] then 4 else if n < t[3] then 8
    else if n < t[4] then 16 else if n < t[5] then 32 else 64
  }

  // It doubles exactly at the boundaries of the tables.
  lemma AutoSizeDoubles(n: nat)
    ensures AutoSize(CST, n) ==
      if n == 0 then 1 else if 1 <= n <= 3 then 2 else if 4 <= n <= 15 then 4 else if 16 <= n <= 63 then 8
      else if 64 <= n <= 255 then 16 else if 256 <= n <= 511 then 32 else 64
    ensures AutoSize(CST32, n) ==
      if n == 0 then 1 else if n == 1 then 2 else if 2 <= n <= 3 then 4 else if 4 <= n <= 7 then 8
      else if 8 <= n <= 15 then 16 else if 16 <= n <= 31 then 32 else 64
  {
  }

  lemma QuotientBounds(x: int, m: nat, k: int)
    requires m > 0
    ensures x >= k * m ==> x / m >= k
    ensures x < k * m ==> x / m < k
    ensures x / m * m <= x
  {
    var q := x / m;
    assert x == q * m + x % m;
    ProductMonotone(q + 1, k, m);
    ProductMonotone(k, q, m);
    assert (q + 1) * m == q * m + m;
  }

  lemma ProductMonotone(a: int, b: int, m: nat)
    ensures a <= b ==> a * m <= b * m
  {
  }

  lemma ProductGrows(n: nat, m: nat)
    requires m > 0
    ensures n <= n * m
  {
  }

  lemma FewerSectorsFewerClusters(x: int, y: int, m: nat)
    requires m > 0
    ensures x <= y ==> x / m <= y / m
  {
    QuotientBounds(x, m, y / m + 1);
    QuotientBounds(y, m, y / m + 1);
  }

  // The clusters as a plain difference; below zero there would seem to be too many of them.
  lemma ClustersUnwrapped(p: Params, l: Layout)
    requires Checked(p) && IsClusterSize(l.au)
    ensures Overhead(p, l) <= p.vol ==> Clusters(p, l) == (p.vol - Overhead(p, l)) / l.au
    ensures p.vol < Overhead(p, l) <= p.vol + 0x8000 ==> Clusters(p, l) >= 0x1_0000
  {
  }

  // The parameters of a call without options, on a drive with small erase blocks.
  predicate Ordinary(p: Params) {
    Checked(p) && p.au == 0 && p.fat && p.fat32 && p.nRoot <= 512 && p.blk <= 16
  }

  // The file system takes little of an ordinary volume.
  lemma LittleOverhead(p: Params, kind: FatKind, pau: nat)
    requires Ordinary(p) && IsClusterSize(pau) && 120 <= p.vol / pau <= MaxClusters(FAT32)
    ensures var d := Draft(p, kind, pau); var l := Aligned(p, d); var n0 := p.vol / pau;
      && Overhead(p, d) + 16 * pau <= p.vol
      && n0 - 115 - n0 / 64 <= Clusters(p, l) <= n0
      && (!kind.FAT32? ==> (l.kind.FAT12? <==> n0 <= MaxClusters(FAT12)))
  {
    hide Draft, Aligned, Clusters, Overhead;
    var d := Draft(p, kind, pau);
    var l := Aligned(p, d);
    DraftKind(p, kind, pau);
    DraftTakes(p, kind, pau);
    SmallOverhead(p.vol, pau, p.vol / pau, Overhead(p, d), Overhead(p, l));
    ClustersUnwrapped(p, l);
  }

  lemma DraftKind(p: Params, kind: FatKind, pau: nat)
    requires Checked(p) && IsClusterSize(pau)
    ensures !kind.FAT32? ==> (Draft(p, kind, pau).kind.FAT12? <==> p.vol / pau <= MaxClusters(FAT12))
  {
  }

  lemma SmallOverhead(vol: nat, pau: nat, n0: nat, draft: nat, aligned: nat)
    requires 0 < pau && n0 == vol / pau && 120 <= n0 && draft <= 66 + (n0 + 2) / 64 && draft <= aligned < draft + 16
    ensures draft + 16 * pau <= vol
    ensures aligned <= vol && n0 - 115 - n0 / 64 <= (vol - aligned) / pau <= n0
  {
    RoomLeft(vol, pau, draft + 16);
    ProductGrows(draft, pau);
    assert (draft + 16) * pau == draft * pau + 16 * pau;
    RoomLeft(vol, pau, aligned);
  }

  // Taking off x sectors takes off at most x clusters.
  lemma RoomLeft(vol: nat, pau: nat, x: nat)
    requires 0 < pau && x <= vol / pau
    ensures x * pau <= vol && x <= vol && vol / pau - x <= (vol - x) / pau <= vol / pau
  {
    var n0 := vol / pau;
    QuotientBounds(vol, pau, 0);
    ProductMonotone(x, n0, pau);
    ProductGrows(x, pau);
    assert (n0 - x) * pau == n0 * pau - x * pau;
    QuotientBounds(vol - x, pau, n0 - x);
    FewerSectorsFewerClusters(vol - x, vol, pau);
  }

  // What the loop of f_mkfs has made sure of when it stops with a layout.
  predicate Settled(p: Params, l: Layout, n: nat) {
    && Checked(p) && IsClusterSize(l.au)
    && var d := Draft(p, l.kind, l.au);
    && d.kind == l.kind && l == Aligned(p, d) && n == Clusters(p, l)
    && Overhead(p, d) + 16 * l.au <= p.vol
    && match l.kind
       case FAT12 => n <= MaxClusters(FAT12)
       case FAT16 => MaxClusters(FAT12) < n <= MaxClusters(FAT16)
       case FAT32 => MaxClusters(FAT16) < n && MaxClusters(FAT16) < p.vol / l.au <= MaxClusters(FAT32)
  }

  // For an ordinary volume: why the cluster size now tried will do.
  predicate OnCourse(p: Params, kind: FatKind, szAu: nat)
    requires szAu == 0 || IsClusterSize(szAu)
  {
    if kind.FAT32? then 64 * MaxClusters(FAT16) < p.vol && (szAu == 0 || szAu == 32)
    else szAu == 0 || 120 <= p.vol / szAu <= MaxClusters(FAT12) || 4300 <= p.vol / szAu <= MaxClusters(FAT16)
  }

  function SizeTried(p: Params, kind: FatKind, szAu: nat): nat {
    if szAu != 0 then szAu else if kind.FAT32? then AutoSize(CST32, p.vol / 0x2_0000) else AutoSize(CST, p.vol / 0x1000)
  }

  lemma TrySucceeds(p: Params, kind: FatKind, szAu: nat)
    requires Ordinary(p) && (szAu == 0 || IsClusterSize(szAu)) && OnCourse(p, kind, szAu)
    ensures IsClusterSize(SizeTried(p, kind, szAu))
    ensures var n0 := p.vol / SizeTried(p, kind, szAu);
      120 <= n0 <= MaxClusters(FAT32) && (kind.FAT32? ==> MaxClusters(FAT16) < n0)
  {
  }

  lemma TryAgain(p: Params, kind: FatKind, szAu: nat, n: nat)
    requires Ordinary(p) && (szAu == 0 || IsClusterSize(szAu)) && OnCourse(p, kind, szAu)
    requires IsClusterSize(SizeTried(p, kind, szAu))
    requires var n0 := p.vol / SizeTried(p, kind, szAu); n0 - 115 - n0 / 64 <= n <= n0
    ensures kind.FAT32? && n <= MaxClusters(FAT16) ==>
      szAu == 0 && SizeTried(p, kind, szAu) == 64 && OnCourse(p, FAT32, 32)
    ensures !kind.FAT32? && n > MaxClusters(FAT16) ==> szAu == 0 && SizeTried(p, kind, szAu) <= 64
    ensures !kind.FAT32? && n <= MaxClusters(FAT12) < p.vol / SizeTried(p, kind, szAu) ==>
      szAu == 0 && SizeTried(p, kind, szAu) <= 64
  {
  }

  lemma LargerClusters(p: Params, n: nat)
    requires Ordinary(p)
    requires var n0 := p.vol / SizeTried(p, FAT16, 0); n0 - 115 - n0 / 64 <= n <= n0
    ensures var pau := SizeTried(p, FAT16, 0);
      && (n > MaxClusters(FAT16) ==> if pau * 2 <= 64 then OnCourse(p, FAT16, pau * 2) else OnCourse(p, FAT32, 0))
      && (n <= MaxClusters(FAT12) < p.vol / pau ==> OnCourse(p, FAT16, pau * 2))
  {
    hide SizeTried;
    var pau := SizeTried(p, FAT16, 0);
    FirstSizeTried(p);
    HalfAsMany(p.vol, pau);
    QuotientBounds(p.vol, pau, 0);
  }

  lemma FirstSizeTried(p: Params)
    ensures var pau := SizeTried(p, FAT16, 0);
      && (pau == 1 || pau == 2 || pau == 4 || pau == 8 || pau == 16 || pau == 32 || pau == 64)
      && (pau <= 32 ==> p.vol / pau <= 0x1_0000)
  {
    var n := p.vol / 0x1000;
    var bound := if n < 1 then 1 else if n < 4 then 4 else if n < 16 then 16 else if n < 64 then 64
                 else if n < 256 then 256 else 512;
    if n < 512 { assert p.vol < bound * 0x1000; }
  }

  lemma HalfAsMany(x: nat, m: nat)
    requires 0 < m
    ensures x / (m * 2) == x / m / 2
  {
    var q, r := x / m / 2, x / m % 2;
    assert x == x / m * m + x % m && x / m == 2 * q + r;
    assert (2 * q + r) * m == q * (m * 2) + r * m;
    ProductMonotone(r, 1, m);
    QuotientAndRemainder(x, m * 2, q, r * m + x % m);
  }

  // What a try leads to for an ordinary volume: a layout, or another try that will do.
  lemma StaysOnCourse(p: Params, kind: FatKind, szAu: nat)
    requires Ordinary(p) && (szAu == 0 || IsClusterSize(szAu)) && OnCourse(p, kind, szAu) && !kind.FAT12?
    ensures IsClusterSize(SizeTried(p, kind, szAu))
    ensures var pau := SizeTried(p, kind, szAu);
      var d := Draft(p, kind, pau); var l := Aligned(p, d); var n := Clusters(p, l);
      && (kind.FAT32? ==> MaxClusters(FAT16) < p.vol / pau <= MaxClusters(FAT32))
      && Overhead(p, d) + 16 * pau <= p.vol
      && (l.kind.FAT32? && n <= MaxClusters(FAT16) ==> szAu == 0 && pau / 2 != 0 && OnCourse(p, FAT32, pau / 2))
      && (l.kind.FAT16? && n > MaxClusters(FAT16) ==>
            szAu == 0 && if pau * 2 <= 64 then OnCourse(p, FAT16, pau * 2) else OnCourse(p, FAT32, 0))
      && (l.kind.FAT16? && n <= MaxClusters(FAT12) ==> szAu == 0 && pau * 2 <= 128 && OnCourse(p, FAT16, pau * 2))
      && (l.kind.FAT12? ==> n <= MaxClusters(FAT12))
  {
    hide Draft, Aligned, Clusters, Overhead, SizeTried, OnCourse;
    TrySucceeds(p, kind, szAu);
    var pau := SizeTried(p, kind, szAu);
    var n := Clusters(p, Aligned(p, Draft(p, kind, pau)));
    LittleOverhead(p, kind, pau);
    TryAgain(p, kind, szAu, n);
    if kind.FAT16? && szAu == 0 { LargerClusters(p, n); }
  }

  // The loop that looks for a cluster size.
  method ChooseLayout(p: Params) returns (r: Option<Layout>, n: nat)
    requires Checked(p)
    ensures r.Some? ==> Settled(p, r.value, n)
    ensures r.Some? && p.au != 0 ==> r.value.au == p.au
    ensures r.Some? ==> if r.value.kind.FAT32? then p.fat32 else p.fat
    ensures Ordinary(p) ==> r.Some?
  {
    hide Draft, Aligned, Clusters, Overhead, AutoSize, MaxClusters;
    var kind := if p.fat then FAT16 else FAT32;
    var szAu := p.au;
    r, n := None, 0;
    while true
      invariant kind == FAT16 || kind == FAT32
      invariant if kind.FAT32? then p.fat32 else p.fat
      invariant szAu == 0 || IsClusterSize(szAu)
      invariant p.au != 0 ==> szAu == p.au
      invariant Ordinary(p) ==> OnCourse(p, kind, szAu)
      decreases if kind.FAT16? then 1 else 0, if szAu == 0 then 1 else 0
    {
      var pau := szAu;
      if pau == 0 {
        if kind.FAT32? {
          pau := AutoCluster(CST32, p.vol / 0x2_0000);
        } else {
          pau := AutoCluster(CST, p.vol / 0x1000);
        }
      }
      if Ordinary(p) { StaysOnCourse(p, kind, szAu); }
      var l := Draft(p, kind, pau);
      if kind.FAT32? && (p.vol / pau <= MaxClusters(FAT16) || p.vol / pau > MaxClusters(FAT32)) { return; }
      DraftOfFat(p, pau);
      var data := Overhead(p, l);
      l := Aligned(p, l);
      if p.vol < data + 16 * pau { return; }      // too small a volume
      n := Clusters(p, l);
      if l.kind.FAT32? && n <= MaxClusters(FAT16) {
        if szAu == 0 && pau / 2 != 0 { szAu := pau / 2; continue; }
        return;
      }
      if l.kind.FAT16? && n > MaxClusters(FAT16) {
        if szAu == 0 && pau * 2 <= 64 { szAu := pau * 2; continue; }
        if p.fat32 { kind := FAT32; continue; }
        if szAu == 0 && pau * 2 <= 128 { szAu := pau * 2; continue; }
        return;
      }
      if l.kind.FAT16? && n <= MaxClusters(FAT12) {
        if szAu == 0 && pau * 2 <= 128 { szAu := pau * 2; continue; }
        return;
      }
      if l.kind.FAT12? && n > MaxClusters(FAT12) { return; }
      r := Some(l);
      return;
    }
  }

  // ----- The volume boot record -----

  datatype Bpb = Bpb(
    secPerClus: nat, rsvdSecCnt: nat, numFats: nat, rootEntCnt: nat,
    totSec16: nat, totSec32: nat, fatSz16: nat, fatSz32: nat)

  // What f_mkfs stores, each field cut to its width. On FAT12 and FAT16 the bytes of fatSz32
  // hold other things (`shared`).
  function BootRecord(p: Params, l: Layout, shared: nat): Bpb {
    Bpb(l.au % 0x100, l.rsv % 0x1_0000, p.nFat % 0x100, (if l.kind.FAT32? then 0 else p.nRoot) % 0x1_0000,
        if p.vol < 0x1_0000 then p.vol else 0,
        if p.vol < 0x1_0000 then 0 else p.vol,
        if l.kind.FAT32? then 0 else l.fat % 0x1_0000,
        if l.kind.FAT32? then l.fat % DWORD_MODULUS else shared)
  }

  // The size of a FAT of n entries.
  function TableBytes(kind: FatKind, n: nat): nat {
    match kind
    case FAT32 => n * 4
    case FAT16 => n * 2
    case FAT12 => n * 3 / 2 + n % 2
  }

  lemma EnoughSectors(kind: FatKind, n: nat, fsize: nat)
    ensures (TableBytes(kind, n) + SS - 1) / SS <= fsize <==> TableFits(kind, n, fsize * SS)
  {
    hide TableBytes, TableFits;
    BytesFit(kind, n, fsize * SS);
    WholeSectors(TableBytes(kind, n), fsize);
  }

  lemma BytesFit(kind: FatKind, n: nat, bytes: nat)
    ensures TableBytes(kind, n) <= bytes <==> TableFits(kind, n, bytes)
  {
    var h := n / 2;
    if n == 2 * h {
      assert n * 3 / 2 == 3 * h;
    } else {
      assert n == 2 * h + 1 && n * 3 / 2 == 3 * h + 1;
    }
  }

  lemma WholeSectors(bytes: nat, sectors: nat)
    ensures (bytes + SS - 1) / SS <= sectors <==> bytes <= sectors * SS
  {
  }

  // What mount_volume makes of a boot record at sector bsect.
  function Mount(b: Bpb, bsect: nat): (r: Option<Geo>) {
    var fsize := if b.fatSz16 != 0 then b.fatSz16 else b.fatSz32;
    if b.numFats != 1 && b.numFats != 2 then None else
    var fasize := (if b.numFats == 2 then 2 * fsize else fsize) % DWORD_MODULUS;
    if !IsClusterSize(b.secPerClus) || b.rootEntCnt % ENTRIES_PER_SECTOR != 0 || b.rsvdSecCnt == 0 then None else
    var tsect := if b.totSec16 != 0 then b.totSec16 else b.totSec32;
    var sysect := (b.rsvdSecCnt + fasize + b.rootEntCnt / ENTRIES_PER_SECTOR) % DWORD_MODULUS;
    if tsect < sysect then None else
    var nclst := (tsect - sysect) / b.secPerClus;
    var kind := FatType(nclst);
    if kind.None? || kind.value.FAT32? != (b.rootEntCnt == 0) then None else
    if fsize < (TableBytes(kind.value, nclst + 2) + SS - 1) / SS then None else
    Some(Geo(kind.value, b.numFats, b.secPerClus, nclst + 2, fsize, bsect + b.rsvdSecCnt, bsect + sysect))
  }

  // The FAT type goes by the number of clusters alone.
  function FatType(nclst: nat): Option<FatKind> {
    if nclst == 0 then None
    else if nclst <= MaxClusters(FAT12) then Some(FAT12)
    else if nclst <= MaxClusters(FAT16) then Some(FAT16)
    else if nclst <= MaxClusters(FAT32) then Some(FAT32)
    else None
  }

  // What becomes of a card of 32 GB with one FAT and erase blocks of 128 sectors, and of a volume of
  // 2 GB with two FATs.
  lemma CardLayout()
    ensures SizeTried(Params(62_333_952, 0, 1, 512, 128, 0, true, true), FAT32, 0) == 64
    ensures Settled(Params(62_333_952, 0, 1, 512, 128, 0, true, true), Layout(FAT32, 64, 70, 7610, 0), 973848)
  {
    var p, d := Params(62_333_952, 0, 1, 512, 128, 0, true, true), Layout(FAT32, 64, 32, 7610, 0);
    assert p.vol / 64 == 973_968;
    assert Draft(p, FAT32, 64) == d;
    assert Overhead(p, d) == 7642 && Aligned(p, d) == d.(rsv := 70);
  }

  lemma SmallCardLayout()
    ensures SizeTried(Params(4_000_000, 0, 2, 512, 1, 0, true, true), FAT16, 0) == 64
    ensures Settled(Params(4_000_000, 0, 2, 512, 1, 0, true, true), Layout(FAT16, 64, 1, 245, 32), 62491)
  {
    var p, l := Params(4_000_000, 0, 2, 512, 1, 0, true, true), Layout(FAT16, 64, 1, 245, 32);
    assert p.vol / 64 == 62_500;
    assert Draft(p, FAT16, 64) == l;
    assert Overhead(p, l) == 523 && Aligned(p, l) == l;
  }

  // The number of clusters at which one type ends and the next one begins.
  lemma TypesByClusters()
    ensures FatType(0) == None && FatType(1) == FatType(4085) == Some(FAT12)
    ensures FatType(4086) == FatType(65525) == Some(FAT16)
    ensures FatType(65526) == FatType(0xFFF_FFF5) == Some(FAT32) && FatType(0xFFF_FFF6) == None
  {
  }

  // ----- What f_mkfs makes is what mount_volume finds -----

  // A FAT16 volume with far too many clusters still has too many once the FAT, whose size may
  // have been cut to 32 bits, is taken off.
  lemma LongFatLeavesRoom(p: Params, l: Layout, n0: nat)
    requires Checked(p) && IsClusterSize(l.au) && n0 == p.vol / l.au && 0x2_0000 <= n0
    requires Draft(p, FAT16, l.au).kind.FAT16? && l == Aligned(p, Draft(p, FAT16, l.au))
    ensures Overhead(p, l) <= p.vol ==> (p.vol - Overhead(p, l)) / l.au > MaxClusters(FAT16)
  {
    hide Draft, Aligned, Overhead;
    DraftTakes(p, FAT16, l.au);
    RoomLeft(p.vol, l.au, Overhead(p, l));
  }

  lemma MovedFatLeavesRoom(p: Params, l: Layout, n0: nat)
    requires Checked(p) && IsClusterSize(l.au) && n0 == p.vol / l.au && MaxClusters(FAT16) < n0 <= MaxClusters(FAT32)
    requires l == Aligned(p, Draft(p, FAT32, l.au))
    ensures Overhead(p, l) <= n0
  {
    hide Draft, Aligned, Overhead;
    DraftTakes(p, FAT32, l.au);
  }

  // The space left never wraps around below zero.
  lemma NothingWraps(p: Params, l: Layout, n: nat)
    requires Settled(p, l, n)
    ensures Overhead(p, l) <= p.vol && n == (p.vol - Overhead(p, l)) / l.au <= p.vol / l.au
    ensures !l.kind.FAT32? ==> p.vol / l.au < 0x2_0000
  {
    hide Draft, Aligned, Clusters, Overhead;
    var n0 := p.vol / l.au;
    QuotientBounds(p.vol, l.au, 0);
    ClustersUnwrapped(p, l);
    if l.kind.FAT32? {
      ProductGrows(n0, l.au);
      MovedFatLeavesRoom(p, l, n0);
    }
    FewerSectorsFewerClusters(p.vol - Overhead(p, l), p.vol, l.au);
    if l.kind.FAT16? && 0x2_0000 <= n0 {
      LongFatLeavesRoom(p, l, n0);
    }
  }

  // The volume f_mkfs settles on.
  function Made(p: Params, l: Layout, n: nat): Geo {
    Geo(l.kind, p.nFat, l.au, n + 2, l.fat, p.base + l.rsv, p.base + Overhead(p, l))
  }

  lemma FieldsRead(p: Params, l: Layout, n: nat, shared: nat)
    requires Settled(p, l, n)
    ensures var b := BootRecord(p, l, shared);
      && b.rsvdSecCnt == l.rsv && b.numFats == p.nFat && b.secPerClus == l.au
      && b.rootEntCnt / ENTRIES_PER_SECTOR == l.dir && b.rootEntCnt % ENTRIES_PER_SECTOR == 0
      && (b.rootEntCnt == 0 <==> l.kind.FAT32?)
      && (if b.totSec16 != 0 then b.totSec16 else b.totSec32) == p.vol
      && (if b.fatSz16 != 0 then b.fatSz16 else b.fatSz32) == l.fat
    ensures FatType(n) == if n == 0 then None else Some(l.kind)
  {
    hide Draft, Aligned, Clusters, TableFits;
    NothingWraps(p, l, n);
    FieldsFit(p, l, n);
  }

  // mount_volume accepts it with the same FAT type and clusters, unless what lies before the aligned
  // data area leaves no room for a cluster.
  lemma FormatThenMount(p: Params, l: Layout, n: nat, shared: nat)
    requires Settled(p, l, n)
    ensures Mount(BootRecord(p, l, shared), p.base) ==
      if p.vol < Overhead(p, l) + l.au then None else Some(Made(p, l, n))
  {
    hide Draft, Aligned, Clusters, TableFits, Mount, BootRecord;
    NothingWraps(p, l, n);
    QuotientBounds(p.vol - Overhead(p, l), l.au, 1);
    FieldsFit(p, l, n);
    FieldsRead(p, l, n, shared);
    MountOf(BootRecord(p, l, shared), p.base, l.kind, n, l.fat, p.vol, Overhead(p, l));
  }

  lemma SmallRemainder(x: nat, m: nat)
    requires x < m
    ensures x % m == x
  {
  }

  // mount_volume on a boot record whose fields are consistent.
  lemma MountOf(b: Bpb, bsect: nat, kind: FatKind, n: nat, fsize: nat, tsect: nat, sysect: nat)
    requires 1 <= b.numFats <= 2 && IsClusterSize(b.secPerClus) && b.rsvdSecCnt != 0
    requires b.rootEntCnt % ENTRIES_PER_SECTOR == 0 && (b.rootEntCnt == 0 <==> kind.FAT32?)
    requires fsize == if b.fatSz16 != 0 then b.fatSz16 else b.fatSz32
    requires tsect == if b.totSec16 != 0 then b.totSec16 else b.totSec32
    requires sysect == b.rsvdSecCnt + (if b.numFats == 2 then 2 * fsize else fsize) + b.rootEntCnt / ENTRIES_PER_SECTOR
    requires sysect <= tsect < DWORD_MODULUS && n == (tsect - sysect) / b.secPerClus
    requires TableFits(kind, n + 2, fsize * SS)
    requires FatType(n) == if n == 0 then None else Some(kind)
    ensures Mount(b, bsect) == if n == 0 then None else
      Some(Geo(kind, b.numFats, b.secPerClus, n + 2, fsize, bsect + b.rsvdSecCnt, bsect + sysect))
  {
    hide TableBytes, TableFits, FatType;
    var fasize := if b.numFats == 2 then 2 * fsize else fsize;
    SmallRemainder(fasize, DWORD_MODULUS);
    SmallRemainder(sysect, DWORD_MODULUS);
    EnoughSectors(kind, n + 2, fsize);
  }

  // The boot record of a FAT16 volume: where its parts are.
  lemma MountedExample()
    ensures Mount(Bpb(4, 6, 2, 512, 0, 200_000, 195, 0), 63)
      == Some(Geo(FAT16, 2, 4, 49_895, 195, 69, 491))
  {
    hide Mount;
    MountOf(Bpb(4, 6, 2, 512, 0, 200_000, 195, 0), 63, FAT16, 49_893, 195, 200_000, 428);
  }

  // Every field fits its place in the boot record, and the FAT holds an entry for every cluster.
  lemma FieldsFit(p: Params, l: Layout, n: nat)
    requires Settled(p, l, n)
    ensures l.rsv < 0x1_0000 && 0 < l.rsv && 0 < l.fat && (l.kind.FAT32? ==> l.dir == 0)
    ensures !l.kind.FAT32? ==> l.fat < 0x1_0000 && l.dir == p.nRoot / ENTRIES_PER_SECTOR
    ensures TableFits(l.kind, n + 2, l.fat * SS)
  {
    hide Clusters, Overhead, Draft;
    NothingWraps(p, l, n);
    DraftFits(p, l.kind, l.au);
  }

  lemma DraftFits(p: Params, kind: FatKind, pau: nat)
    requires Checked(p) && IsClusterSize(pau)
    requires kind.FAT32? ==> 0 < p.vol / pau <= MaxClusters(FAT32)
    requires !kind.FAT32? ==> p.vol / pau < 0x2_0000
    ensures var d := Draft(p, kind, pau);
      && d.rsv == (if d.kind.FAT32? then 32 else 1)
      && d.dir == (if d.kind.FAT32? then 0 else p.nRoot / ENTRIES_PER_SECTOR)
      && 0 < d.fat && (d.kind.FAT32? || d.fat < 0x2000)
      && TableFits(d.kind, p.vol / pau + 2, d.fat * SS)
  {
    hide SectorsFor;
    var n := p.vol / pau;
    if kind.FAT32? {
      RoundedUp(n * 4 + 8);
    } else if n > MaxClusters(FAT12) {
      RoundedUp(n * 2 + 4);
    } else {
      RoundedUp((n * 3 + 1) / 2 + 3);
    }
  }

  // With erase blocks that are not much larger than 15 clusters a cluster is always left.
  lemma SmallBlocksMount(p: Params, l: Layout, n: nat, shared: nat)
    requires Settled(p, l, n) && p.blk <= 15 * l.au + 1
    ensures 0 < n && Mount(BootRecord(p, l, shared), p.base) == Some(Made(p, l, n))
  {
    NothingWraps(p, l, n);
    QuotientBounds(p.vol - Overhead(p, l), l.au, 1);
    FormatThenMount(p, l, n, shared);
  }

  // With erase blocks of 128 sectors the data area of a volume of 128 sectors is moved to the
  // end of the volume: f_mkfs makes a volume that mount_volume refuses.
  lemma AlignmentCanTakeAll(shared: nat)
    ensures var p := Params(128, 0, 1, 512, 128, 0, true, true);
      var l := Layout(FAT12, 1, 1, 95, 32);
      Settled(p, l, 0) && Mount(BootRecord(p, l, shared), 0) == None
  {
    var p := Params(128, 0, 1, 512, 128, 0, true, true);
    var d, l := Layout(FAT12, 1, 1, 1, 32), Layout(FAT12, 1, 1, 95, 32);
    assert Draft(p, FAT12, 1) == d;
    assert Overhead(p, d) == 34 && Aligned(p, d) == l;
    assert Overhead(p, l) == 128 && Clusters(p, l) == 0;
    FormatThenMount(p, l, 0, shared);
  }

  // Every volume mount_volume accepts has the geometry the rest of the code counts on, provided
  // the sizes of the FATs and of what lies before them can be added up in 32 bits.
  lemma MountedIsWellFormed(b: Bpb, bsect: nat)
    requires Mount(b, bsect).Some? && 0 < bsect + b.rsvdSecCnt
    requires b.rsvdSecCnt < 0x1_0000 && b.rootEntCnt < 0x1_0000 && b.fatSz16 < 0x1_0000 && b.fatSz32 < DWORD_MODULUS
    ensures var g := Mount(b, bsect).value;
      WellFormed(g) <==>
        b.rsvdSecCnt + (if g.nFats == 2 then 2 * g.fsize else g.fsize) + b.rootEntCnt / ENTRIES_PER_SECTOR
          < DWORD_MODULUS
  {
    hide TableBytes, TableFits;
    var g := Mount(b, bsect).value;
    EnoughSectors(g.kind, g.nFatent, g.fsize);
    assert TableFits(g.kind, g.nFatent, g.fsize * SS);
    SumWraps(b.rsvdSecCnt, if g.nFats == 2 then 2 * g.fsize else g.fsize, b.rootEntCnt / ENTRIES_PER_SECTOR);
  }

  // Two FATs of 2^31 sectors each add up to nothing: such a volume is mounted, although its FATs
  // reach beyond where its data area is taken to begin.
  lemma MountWraps()
    ensures var b := Bpb(1, 32, 2, 0, 0, 0x20_0000, 0, 0x8000_0000);
      Mount(b, 63) == Some(Geo(FAT32, 2, 1, 0x20_0000 - 30, 0x8000_0000, 95, 95)) && !WellFormed(Mount(b, 63).value)
  {
  }

  lemma SumWraps(x: nat, y: nat, z: nat)
    requires x < 0x1_0000 && z < 0x1_0000 && y < 2 * DWORD_MODULUS
    ensures var sum := (x + y % DWORD_MODULUS + z) % DWORD_MODULUS;
      if x + y + z < DWORD_MODULUS then sum == x + y + z else sum < x + y
  {
  }

  // Its clusters lie within the sectors the boot record counts.
  lemma MountedFits(b: Bpb, bsect: nat, sectors: nat)
    requires Mount(b, bsect).Some? && WellFormed(Mount(b, bsect).value)
    requires bsect + (if b.totSec16 != 0 then b.totSec16 else b.totSec32) <= sectors < NO_SECTOR
    ensures FitsDrive(Mount(b, bsect).value, sectors)
  {
    var g := Mount(b, bsect).value;
    var tsect := if b.totSec16 != 0 then b.totSec16 else b.totSec32;
    QuotientBounds(bsect + tsect - g.dataBase, g.csize, 0);
    assert (g.nFatent - 2) * g.csize <= bsect + tsect - g.dataBase;
    forall c | IsCluster(g, c)
      ensures ClusterStart(g, c) + g.csize <= sectors
    {
      ProductMonotone(c - 1, g.nFatent - 2, g.csize);
      assert (c - 1) * g.csize == g.csize * (c - 2) + g.csize;
    }
    ProductGrows(g.nFatent - 2, g.csize);
  }

  // ----- The FATs of a new volume -----

  // The first sector of a new FAT: the two reserved entries and, on FAT32, that of the root
  // directory, which is cluster 2.
  function FirstSector(kind: FatKind): Sector {
    Padded(match kind
           case FAT12 => [0xF8, 0xFF, 0xFF]
           case FAT16 => [0xF8, 0xFF, 0xFF, 0xFF]
           case FAT32 => [0xF8, 0xFF, 0xFF, 0xFF, 0xFF, 0xFF, 0xFF, 0xFF, 0xFF, 0xFF, 0xFF, 0x0F])
  }

  function Padded(bytes: seq<byte>): (s: Sector)
    requires |bytes| <= SS
  {
    bytes + seq(SS - |bytes|, _ => 0)
  }

  const BLANK: Sector := Padded([])

  // Sector s as f_mkfs leaves it: a new FAT, or one of the blank sectors behind the FATs.
  function NewSector(kind: FatKind, bFat: nat, nFat: nat, szFat: nat, s: nat): Sector
    requires 0 < szFat && bFat <= s
  {
    if s == bFat || (nFat == 2 && s == bFat + szFat) then FirstSector(kind) else BLANK
  }

  // f_mkfs, once the boot record is written: the FATs and the root directory, through a buffer of
  // szBuf sectors. Exactly a failed write ends it early.
  method FillVolume(drive: FatVolume.FatFs, kind: FatKind, bFat: nat, nFat: nat, szFat: nat, szDir: nat, szBuf: nat)
    returns (ok: bool)
    requires 1 <= nFat <= 2 && 0 < szFat && 0 < szBuf && 0 < szDir
    modifies drive`store, drive`failures
    ensures old(drive.failures) <= drive.failures && (ok <==> drive.failures == old(drive.failures))
    ensures |drive.store| == |old(drive.store)|
    ensures forall s | 0 <= s < |drive.store| && !(bFat <= s < bFat + nFat * szFat + szDir) ::
              drive.store[s] == old(drive.store)[s]
    ensures ok ==> bFat + nFat * szFat + szDir <= |drive.store|
    ensures ok ==> forall s | bFat <= s < bFat + nFat * szFat + szDir ::
              drive.store[s] == NewSector(kind, bFat, nFat, szFat, s)
  {
    ghost var failed, before := drive.failures, drive.store;
    var buf := seq(szBuf, _ => BLANK);
    var sect := bFat;
    var i := 0;
    while i < nFat
      invariant 0 <= i <= nFat && sect == bFat + i * szFat && buf == seq(szBuf, _ => BLANK)
      invariant drive.failures == failed && |drive.store| == |before| && (i == 0 || sect <= |drive.store|)
      invariant forall s | 0 <= s < |before| && !(bFat <= s < sect) :: drive.store[s] == before[s]
      invariant forall s | bFat <= s < sect :: drive.store[s] == NewSector(kind, bFat, nFat, szFat, s)
    {
      buf := buf[0 := FirstSector(kind)];
      ok := Fill(drive, buf, sect, szFat);
      if !ok { return; }
      buf := buf[0 := BLANK];
      sect := sect + szFat;
      i := i + 1;
    }
    ok := Fill(drive, buf, sect, szDir);
  }

  // The loop that fills nsect sectors from sect on: after the first round only blank sectors
  // are left in the buffer.
  method Fill(drive: FatVolume.FatFs, buf0: seq<Sector>, sect0: nat, nsect0: nat) returns (ok: bool)
    requires 0 < |buf0| && 0 < nsect0
    requires forall k | 1 <= k < |buf0| :: buf0[k] == BLANK
    modifies drive`store, drive`failures
    ensures old(drive.failures) <= drive.failures && (ok <==> drive.failures == old(drive.failures))
    ensures |drive.store| == |old(drive.store)|
    ensures forall s | 0 <= s < |drive.store| && !(sect0 <= s < sect0 + nsect0) ::
              drive.store[s] == old(drive.store)[s]
    ensures ok ==> sect0 + nsect0 <= |drive.store|
    ensures ok ==> forall s | sect0 <= s < sect0 + nsect0 ::
              drive.store[s] == if s == sect0 then buf0[0] else BLANK
  {
    hide Padded;
    ghost var failed, before := drive.failures, drive.store;
    var buf, sect, nsect := buf0, sect0, nsect0;
    while nsect != 0
      invariant 0 <= nsect <= nsect0 && sect == sect0 + (nsect0 - nsect) && |buf| == |buf0|
      invariant drive.failures == failed && |drive.store| == |before| && (nsect < nsect0 ==> sect <= |drive.store|)
      invariant buf[0] == if nsect == nsect0 then buf0[0] else BLANK
      invariant forall k | 1 <= k < |buf| :: buf[k] == BLANK
      invariant forall s | 0 <= s < |before| && !(sect0 <= s < sect) :: drive.store[s] == before[s]
      invariant forall s | sect0 <= s < sect :: drive.store[s] == if s == sect0 then buf0[0] else BLANK
      decreases nsect
    {
      var n := if nsect > |buf| then |buf| else nsect;
      ghost var data: seq<Sector> := buf[..n];
      ok := drive.DiskWrite(sect, buf[..n]);
      if !ok { return; }
      forall s | sect <= s < sect + n
        ensures drive.store[s] == if s == sect0 then buf0[0] else BLANK
      {
        assert drive.store[s] == data[s - sect];
      }
      buf := buf[0 := BLANK];
      sect, nsect := sect + n, nsect - n;
    }
    ok := true;
  }

  lemma NewEntries(kind: FatKind, a: seq<byte>, n: nat)
    requires Holds(kind, a, n) && 3 <= n && SS <= |a|
    requires a[..SS] == FirstSector(kind) && forall i | SS <= i < |a| :: a[i] == 0
    ensures Entry(kind, a, 0) > 1 && Entry(kind, a, 1) > 1
    ensures Entry(kind, a, 2) == if kind.FAT32? then EndMark(FAT32) else 0
    ensures forall c | 3 <= c < n :: Entry(kind, a, c) == 0
  {
    assert forall i | 0 <= i < SS :: a[i] == FirstSector(kind)[i];
    match kind
    case FAT12 => NewEntries12(a, n);
    case FAT16 => NewEntries16(a, n);
    case FAT32 => NewEntries32(a, n);
  }

  lemma NewEntries16(a: seq<byte>, n: nat)
    requires Holds(FAT16, a, n) && 3 <= n
    requires a[0] == 0xF8 && a[1] == a[2] == a[3] == 0xFF && forall i | 4 <= i < |a| :: a[i] == 0
    ensures Entry(FAT16, a, 0) > 1 && Entry(FAT16, a, 1) > 1
    ensures forall c | 2 <= c < n :: Entry(FAT16, a, c) == 0
  {
  }

  lemma NewEntries32(a: seq<byte>, n: nat)
    requires Holds(FAT32, a, n) && 3 <= n
    requires a[0] == 0xF8 && a[11] == 0x0F && forall i | 1 <= i < 11 :: a[i] == 0xFF
    requires forall i | 12 <= i < |a| :: a[i] == 0
    ensures Entry(FAT32, a, 0) > 1 && Entry(FAT32, a, 1) > 1 && Entry(FAT32, a, 2) == EndMark(FAT32)
    ensures forall c | 3 <= c < n :: Entry(FAT32, a, c) == 0
  {
  }

  lemma NewEntries12(a: seq<byte>, n: nat)
    requires Holds(FAT12, a, n) && 3 <= n
    requires a[0] == 0xF8 && a[1] == a[2] == 0xFF && forall i | 3 <= i < |a| :: a[i] == 0
    ensures Entry(FAT12, a, 0) > 1 && Entry(FAT12, a, 1) > 1
    ensures forall c | 2 <= c < n :: Entry(FAT12, a, c) == 0
  {
  }

  // The two reserved entries: the media byte with all higher bits set, and an end mark.
  lemma ReservedEntries(kind: FatKind, a: seq<byte>, n: nat)
    requires Holds(kind, a, n) && 3 <= n && SS <= |a| && a[..SS] == FirstSector(kind)
    ensures Entry(kind, a, 0) == EndMark(kind) - 7 && Entry(kind, a, 1) == EndMark(kind)
  {
    assert forall i | 0 <= i < SS :: a[i] == FirstSector(kind)[i];
  }

  // A new FAT shows every cluster free, save the root directory of a FAT32 volume, which is a
  // chain of its own.
  lemma NewTable(kind: FatKind, a: seq<byte>, n: nat)
    requires Holds(kind, a, n) && 3 <= n <= MaxClusters(kind) + 2 && SS <= |a|
    requires a[..SS] == FirstSector(kind) && forall i | SS <= i < |a| :: a[i] == 0
    ensures var f := Entries(kind, a, n);
      && f[0] == EndMark(kind) - 7 && f[1] == EndMark(kind)
      && (forall c | 3 <= c < n :: f[c] == 0)
      && (if kind.FAT32? then C.IsChain(f, [2]) else f[2] == 0)
      && C.FreeCount(f, 0) == n - (if kind.FAT32? then 3 else 2)
  {
    forall c | 0 <= c < n
      ensures Entries(kind, a, n)[c] == Entry(kind, a, c)
    {
      EntriesAt(kind, a, n, c);
    }
    NewEntries(kind, a, n);
    ReservedEntries(kind, a, n);
    var f := Entries(kind, a, n);
    AllFree(f, 3);
    assert C.FreeCount(f, 2) == C.FreeCount(f, 3) + if f[2] == 0 then 1 else 0;
    assert C.FreeCount(f, 0) == C.FreeCount(f, 1) == C.FreeCount(f, 2);
  }

  lemma {:induction false} AllFree(f: C.Fat, from: nat)
    requires from <= |f| && forall c | from <= c < |f| :: f[c] == 0
    ensures C.FreeCount(f, from) == |f| - from
    decreases |f| - from
  {
    if from < |f| {
      AllFree(f, from + 1);
    }
  }

  // The FATs of a new volume: the copies agree, and as many clusters are free as FSINFO is told
  // (one less than there are on FAT32).
  lemma NewVolume(g: Geo, store: seq<Sector>)
    requires WellFormed(g) && g.dataBase <= |store|
    requires forall s | g.fatBase <= s < g.dataBase :: store[s] == NewSector(g.kind, g.fatBase, g.nFats, g.fsize, s)
    ensures Window.Mirrored(g, store)
    ensures Holds(g.kind, Area(g, store), g.nFatent)
    ensures var f := Entries(g.kind, Area(g, store), g.nFatent);
      && C.FreeCount(f, 0) == g.nFatent - 2 - (if g.kind.FAT32? then 1 else 0)
      && (if g.kind.FAT32? then C.IsChain(f, [2]) else f[2] == 0)
      && (forall c | 3 <= c < g.nFatent :: f[c] == 0)
      && f[0] == EndMark(g.kind) - 7 && f[1] == EndMark(g.kind)
  {
    var a := Area(g, store);
    forall i | 0 <= i < SS
      ensures a[i] == FirstSector(g.kind)[i]
    {
      assert a[i] == store[g.fatBase][i];
    }
    forall i | SS <= i < |a|
      ensures a[i] == 0
    {
      assert a[i] == store[g.fatBase + i / SS][i % SS];
    }
    NewTable(g.kind, a, g.nFatent);
  }

  // The root directory of a new FAT32 volume is cluster 2, which is the area behind the FATs that is
  // blanked.
  lemma NewRootIsBlank(p: Params, l: Layout, n: nat, store: seq<Sector>, i: nat)
    requires Settled(p, l, n) && l.kind.FAT32? && i < l.au
    requires var end := p.base + l.rsv + (if p.nFat == 2 then 2 * l.fat else l.fat) + l.au;
      && 0 < l.fat && end <= |store|
      && forall s | p.base + l.rsv <= s < end :: store[s] == NewSector(FAT32, p.base + l.rsv, p.nFat, l.fat, s)
    ensures 0 <= ClusterStart(Made(p, l, n), 2) + i < |store|
    ensures store[ClusterStart(Made(p, l, n), 2) + i] == BLANK
  {
    hide ClusterStart, Clusters, Aligned, Padded;
    ClustersFollow(Made(p, l, n), 2);
    FieldsFit(p, l, n);
  }
}
