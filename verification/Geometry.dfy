// Where the parts of a FAT volume lie, as mount_volume leaves them in the file system object.

module Geometry {
  import opened FatTypes

  datatype FatKind = FAT12 | FAT16 | FAT32

  // The cluster limits of the code; they differ from the published specification.
  function MaxClusters(kind: FatKind): nat {
    match kind
    case FAT12 => 0xFF5
    case FAT16 => 0xFFF5
    case FAT32 => 0x0FFF_FFF5
  }

  // One more than the largest value an entry holds.
  function EntryModulus(kind: FatKind): nat {
    match kind
    case FAT12 => 0x1000
    case FAT16 => 0x1_0000
    case FAT32 => 0x1000_0000
  }

  // What an entry holds after 0xFFFFFFFF was put into it.
  function EndMark(kind: FatKind): nat {
    EntryModulus(kind) - 1
  }

  // Whether n entries fit so many bytes: 12 bits each (rounded up to a whole byte in all),
  // 16 bits or 32 bits.
  predicate TableFits(kind: FatKind, n: nat, bytes: int) {
    match kind
    case FAT12 => 3 * n <= 2 * bytes
    case FAT16 => 2 * n <= bytes
    case FAT32 => 4 * n <= bytes
  }

  datatype Geo = Geo(
    kind: FatKind,
    nFats: nat,      // copies of the FAT
    csize: nat,      // sectors per cluster
    nFatent: nat,    // clusters + 2
    fsize: nat,      // sectors per FAT
    fatBase: nat,    // first sector of the first FAT
    dataBase: nat)   // first sector of cluster 2

  predicate IsClusterSize(n: int) {
    n == 1 || n == 2 || n == 4 || n == 8 || n == 16 || n == 32 || n == 64 || n == 128
  }

  // What mount_volume checks of a volume.
  predicate WellFormed(g: Geo) {
    && 1 <= g.nFats <= 2
    && IsClusterSize(g.csize)
    && 3 <= g.nFatent <= MaxClusters(g.kind) + 2
    && TableFits(g.kind, g.nFatent, g.fsize * SS)
    && 0 < g.fatBase
    && g.fatBase + (if g.nFats == 2 then 2 * g.fsize else g.fsize) <= g.dataBase
  }

  predicate IsCluster(g: Geo, c: int) {
    2 <= c < g.nFatent
  }

  predicate InFat(g: Geo, s: int) {
    g.fatBase <= s < g.fatBase + g.fsize
  }

  // The second copy of the FAT, which is only ever written.
  predicate InMirror(g: Geo, s: int) {
    g.nFats == 2 && g.fatBase + g.fsize <= s < g.fatBase + 2 * g.fsize
  }

  // The first sector of cluster c.
  function ClusterStart(g: Geo, c: int): int {
    g.dataBase + g.csize * (c - 2)
  }

  // ... and that its clusters lie on the drive, which mount_volume leaves to the drive.
  ghost predicate FitsDrive(g: Geo, sectors: nat) {
    && WellFormed(g)
    && g.dataBase < sectors < NO_SECTOR
    && forall c | IsCluster(g, c) :: ClusterStart(g, c) + g.csize <= sectors
  }

  // clst2sect: 0 unless c is the number of a cluster.
  function ClusterToSector(g: Geo, c: nat): int {
    if IsCluster(g, c) then ClusterStart(g, c) else 0
  }

  // The data area begins with cluster 2, and the clusters follow on each other in their order.
  lemma ClustersFollow(g: Geo, c: nat)
    ensures ClusterStart(g, 2) == g.dataBase
    ensures ClusterStart(g, c + 1) == ClusterStart(g, c) + g.csize
  {
  }

  lemma {:induction false} ClustersFollowAll(g: Geo, c: nat, n: nat)
    ensures ClusterStart(g, c + n) == ClusterStart(g, c) + g.csize * n
  {
    hide ClusterStart;
    if n > 0 {
      ClustersFollowAll(g, c, n - 1);
      ClustersFollow(g, c + n - 1);
    }
  }

  lemma RowsApart(m: nat, a: nat, b: nat)
    requires a < b
    ensures m * a + m <= m * b
  {
    var d: nat := b - a - 1;
    assert m * b == m * a + m * 1 + m * d;
  }

  // The sectors of different clusters are different, and all lie in the data area of the drive.
  lemma ClustersApart(g: Geo, sectors: nat, c: nat, i: nat, d: nat, j: nat)
    requires FitsDrive(g, sectors) && IsCluster(g, c) && IsCluster(g, d)
    requires i < g.csize && j < g.csize
    ensures g.dataBase <= ClusterStart(g, c) + i < sectors
    ensures ClusterStart(g, c) + i == ClusterStart(g, d) + j <==> c == d && i == j
  {
    if c < d {
      RowsApart(g.csize, c - 2, d - 2);
    } else if d < c {
      RowsApart(g.csize, d - 2, c - 2);
    }
  }

  lemma EndMarkEndsChains(g: Geo)
    requires WellFormed(g)
    ensures g.nFatent <= EndMark(g.kind) < EntryModulus(g.kind) <= DISK_ERROR
  {
  }

  // What an entry keeps of a value put into it.
  function Masked(kind: FatKind, val: nat): (r: nat)
    ensures r < EntryModulus(kind)
  {
    match kind
    case FAT12 => val % 0x1000
    case FAT16 => val % 0x1_0000
    case FAT32 => val % 0x1000_0000
  }

  lemma MaskedFacts(g: Geo, c: nat)
    requires WellFormed(g) && c < g.nFatent
    ensures Masked(g.kind, 0) == 0
    ensures Masked(g.kind, DISK_ERROR) == EndMark(g.kind)
    ensures Masked(g.kind, c) == c
  {
  }
}
