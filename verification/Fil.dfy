// An open file: f_read, f_write and f_lseek on FAT volumes.

module OpenFile {
  import opened Basics
  import opened FatTypes
  import opened Geometry
  import opened Window
  import opened FileModel
  import opened Bystanders
  import opened LinkMap
  import C = Chains
  import opened FatVolume
  import opened FatEntry

  class Fil {
    const fs: FatFs
    const canRead: bool          // FA_READ
    const canWrite: bool         // FA_WRITE
    var sclust: nat
    var objsize: nat
    var fptr: nat
    var clust: nat
    var sect: nat
    var buf: Sector
    var dirty: bool              // FA_DIRTY
    var modified: bool           // FA_MODIFIED
    var err: FResult             // the abort flag
    var cltbl: array?<nat>       // link map table set by the application
    ghost var chain: seq<nat>    // the clusters of the file
    ghost var at: nat            // which sector of the file is in buf

    ghost function H(): Handle
      reads this, cltbl
    {
      Handle(chain, sclust, objsize, fptr, clust, sect, at, dirty, buf,
             if cltbl == null then None else Some(Expand(cltbl[..], 1)))
    }

    // The file's sectors are where its chain and its buffer say.
    ghost predicate Ready()
      reads this, fs, cltbl
    {
      && fs.Valid()
      && Backed(fs.geo, fs.S(), fs.Fat(), H())
      && (cltbl != null ==> Terminated(cltbl[..], 1))
    }

    // ... and so is the read/write pointer.
    ghost predicate Open()
      reads this, fs, cltbl
    {
      Ready() && Positioned(fs.geo, H())
    }

    // The file as it is when its link map is not looked at.
    ghost function Bare(): Handle
      reads this
    {
      Handle(chain, sclust, objsize, fptr, clust, sect, at, dirty, buf, None)
    }

    // Everything is in order but, possibly, the table that cltbl points to.
    ghost predicate OpenButMap()
      reads this, fs
    {
      fs.Valid() && Backed(fs.geo, fs.S(), fs.Fat(), Bare()) && Positioned(fs.geo, Bare())
    }

    // The bytes of the file then.
    ghost function BareText(): (r: seq<byte>)
      requires OpenButMap()
      reads this, fs
      ensures |r| == objsize
    {
      Content(fs.geo, fs.S(), fs.Fat(), Bare())
    }

    // The bytes of the file.
    ghost function Text(): (r: seq<byte>)
      requires Ready()
      reads this, fs, cltbl
      ensures |r| == objsize
    {
      Content(fs.geo, fs.S(), fs.Fat(), H())
    }

    // How the bytes of the file lie on the drive when its clusters follow on each other from 2 on.
    lemma TextIsRun(i: nat)
      requires Ready() && !dirty && sclust == 2 && i < objsize
      requires forall k | 0 < k < |chain| :: chain[k] == chain[k - 1] + 1
      ensures fs.geo.dataBase + i / SS < |fs.store| && Text()[i] == fs.store[fs.geo.dataBase + i / SS][i % SS]
    {
      hide Backed, Content, ClusterStart;
      ContentIsRun(fs.geo, fs.S(), fs.Fat(), H(), i);
    }

    // The handle f_open leaves for a file whose directory entry gives a first cluster and a
    // size, when it does not seek to the end.
    constructor (volume: FatFs, read: bool, write: bool, cluster: nat, size: nat, ghost cs: seq<nat>)
      requires volume.Valid() && C.IsChain(volume.Fat(), cs)
      requires cluster == if cs == [] then 0 else cs[0]
      requires size <= SectorCount(volume.geo, cs) * SS && size <= MAX_SIZE
      requires WindowElsewhere(volume.geo, volume.winsect, volume.Fat(), cs)
      ensures Open() && fs == volume && chain == cs && canRead == read && canWrite == write
      ensures err == FR_OK && fptr == 0 && objsize == size && cltbl == null
    {
      fs := volume;
      canRead, canWrite := read, write;
      sclust, objsize, fptr, clust, sect := cluster, size, 0, 0, 0;
      buf := seq(SS, _ => 0);
      dirty, modified := false, false;
      err := FR_OK;
      cltbl := null;
      chain, at := cs, 0;
      new;
      ChainIsInChain(fs.geo, fs.Fat(), cs);
    }

    // clmt_clust: the cluster the link map gives for a byte offset, 0 beyond its end.
    method ClmtClust(ofs: nat) returns (cluster: nat)
      requires Ready() && cltbl != null
      ensures var m := Expand(cltbl[..], 1);
        cluster == if ClusterOfByte(fs.geo, ofs) < |m| then m[ClusterOfByte(fs.geo, ofs)] else 0
    {
      hide Entries, Area, Logical, FileSectors, Bytes, C.IsChain, WindowElsewhere, ClusterStart, SectorCount, SectorAt,
        Backed, Run;
      ghost var m := Expand(cltbl[..], 1);
      ghost var k := ClusterOfByte(fs.geo, ofs);
      var tbl := 1;
      var cl := ofs / SS / fs.geo.csize;
      while true
        invariant Terminated(cltbl[..], tbl)
        invariant 0 <= cl <= k && k - cl <= |m| && m[k - cl..] == Expand(cltbl[..], tbl)
        decreases cltbl.Length - tbl
      {
        ghost var rest := Expand(cltbl[..], tbl);
        var ncl := cltbl[tbl];
        tbl := tbl + 1;
        if ncl == 0 { return 0; }
        assert rest == Run(cltbl[tbl], ncl) + Expand(cltbl[..], tbl + 1);
        if cl < ncl {
          assert m[k] == rest[cl];
          return cl + cltbl[tbl];
        }
        cl := cl - ncl;
        tbl := tbl + 1;
        assert m[k - cl..] == rest[ncl..];
      }
    }

    // Since the start of the operation the other open files of the volume have kept what they have.
    twostate predicate Spared()
      requires old(fs.Valid()) && fs.Valid()
      reads this, fs
    {
      Spares(fs.geo, old(fs.S()), old(fs.Fat()), old(chain), fs.S(), fs.Fat(), chain)
    }

    // ----- Moving between the buffer and the disk -----

    // Write-back of a dirty buffer.
    method Flush() returns (ok: bool)
      requires Ready()
      modifies this`dirty, fs`store, fs`failures
      ensures old(fs.failures) <= fs.failures && (ok <==> fs.failures == old(fs.failures))
      ensures ok ==> Ready() && !dirty && Text() == old(Text())
      ensures fs.Valid() && fs.Fat() == old(fs.Fat()) && Spared()
    {
      hide Entries, Area, Logical, FileSectors, Bytes, Coherent, C.IsChain, InChain, Expand, Terminated,
        WindowElsewhere, Spares;
      ok := true;
      SparesNothing(fs.geo, fs.S(), fs.Fat(), chain);
      if !dirty { return; }
      ghost var s, f, h := fs.S(), fs.Fat(), H();
      WindowOffFile(fs.geo, s, f, h, at);
      ok := fs.WriteData(sect, [buf]);
      FlushSpares(fs.geo, s, f, h, fs.store, fs.failures);
      assert fs.S() == s.(store := fs.store, failures := fs.failures);
      if ok {
        FlushKeeps(fs.geo, s, f, h, fs.store);
        dirty := false;
        assert fs.S() == s.(store := fs.store) && H() == h.(dirty := false);
      }
    }

    // Sector k of the file, which is disk sector `sector`, comes into the buffer.
    method Load(sector: nat, ghost k: nat) returns (ok: bool)
      requires Ready() && !dirty && k < SectorCount(fs.geo, chain)
      requires ClusterOfSector(fs.geo, k) < |chain| && sector == SectorAt(fs.geo, chain, k)
      modifies this`sect, this`at, this`buf, fs`failures
      ensures old(fs.failures) <= fs.failures && (ok <==> fs.failures == old(fs.failures))
      ensures ok ==> Ready() && sect == sector && at == k && sect != 0 && Text() == old(Text()) && fs.S() == old(fs.S())
      ensures fs.Valid() && fs.Fat() == old(fs.Fat()) && Spared()
    {
      hide Entries, Area, Logical, FileSectors, Bytes, Coherent, C.IsChain, InChain, Expand, Terminated,
        WindowElsewhere, Spares;
      ghost var s, f, h := fs.S(), fs.Fat(), H();
      LoadKeeps(fs.geo, s, f, h, k);
      var data;
      ok, data := fs.ReadData(sector, 1);
      FailureSpares(fs.geo, s, f, chain, fs.failures);
      if ok {
        buf := data[0];
        sect, at := sector, k;
        assert fs.S() == s && H() == h.(sect := sector, at := k, buf := s.store[sector]);
      }
    }

    // ----- f_read -----

    // The cluster of a pointer at the start of a cluster.
    method NextClusterToRead() returns (res: FResult)
      requires Open() && err == FR_OK && fptr < objsize && fptr % SS == 0 && fptr / SS % fs.geo.csize == 0
      modifies this`clust, this`err, fs
      ensures fs.Valid() && fs.Fat() == old(fs.Fat()) && old(fs.failures) <= fs.failures
      ensures res == err
      ensures res == FR_OK || res == FR_DISK_ERR || res == FR_INT_ERR
      ensures res == FR_DISK_ERR ==> old(fs.failures) < fs.failures
      ensures res == FR_INT_ERR ==> MapEnds() && fptr < objsize
      ensures res == FR_OK ==> Ready() && Text() == old(Text())
      ensures Spared()
      ensures res == FR_OK ==> ClusterOfByte(fs.geo, fptr) < |chain| && clust == chain[ClusterOfByte(fs.geo, fptr)]
    {
      hide Entries, Area, Logical, FileSectors, Bytes, Coherent, C.IsChain, InChain, Expand, Terminated,
        WindowElsewhere, Spares;
      ghost var s, f, h := fs.S(), fs.Fat(), H();
      ClusterAhead(fs.geo, s, f, h);
      SparesNothing(fs.geo, s, f, chain);
      var cluster;
      if fptr == 0 {
        cluster := sclust;
      } else if cltbl != null {
        cluster := ClmtClust(fptr);
      } else {
        cluster := fs.GetFat(clust);
        LookKeeps(fs.geo, s, fs.S(), f, h);
        LookSpares(fs.geo, s, fs.S(), f, chain);
      }
      if cluster < 2 { err := FR_INT_ERR; return err; }
      if cluster == DISK_ERROR { err := FR_DISK_ERR; return err; }
      MoveKeeps(fs.geo, fs.S(), f, h, h.(clust := cluster));
      clust := cluster;
      res := FR_OK;
    }

    // The sector the pointer is about to enter.
    method SectorToRead() returns (res: FResult, sector: nat)
      requires Open() && err == FR_OK && fptr < objsize && fptr % SS == 0
      modifies this`clust, this`err, fs
      ensures fs.Valid() && fs.Fat() == old(fs.Fat()) && old(fs.failures) <= fs.failures
      ensures res == err
      ensures res == FR_OK || res == FR_DISK_ERR || res == FR_INT_ERR
      ensures res == FR_DISK_ERR ==> old(fs.failures) < fs.failures
      ensures res == FR_INT_ERR ==> MapEnds() && fptr < objsize
      ensures res == FR_OK ==> Ready() && Text() == old(Text())
      ensures Spared()
      ensures res == FR_OK ==> ClusterOfByte(fs.geo, fptr) < |chain| && clust == chain[ClusterOfByte(fs.geo, fptr)]
      ensures res == FR_OK ==> sector == SectorAt(fs.geo, chain, fptr / SS)
    {
      hide Entries, Area, Logical, FileSectors, Bytes, C.IsChain, Expand, Terminated, WindowElsewhere, ClusterStart,
        SectorAt, ClusterToSector, Spares;
      sector := 0;
      res := FR_OK;
      var csect := fptr / SS % fs.geo.csize;
      if csect == 0 {
        res := NextClusterToRead();
        if res != FR_OK { return; }
      } else {
        PointerInCluster(fs.geo, H());
        SparesNothing(fs.geo, fs.S(), fs.Fat(), chain);
      }
      SectorHere(fs.geo, fs.S(), fs.Fat(), H(), clust);
      // so clst2sect does not report an invalid cluster here
      sector := ClusterToSector(fs.geo, clust) + csect;
    }

    // The cached dirty sector replaces the one read, if it is among those read.
    method Overlay(first: nat, read: seq<Sector>) returns (data: seq<Sector>)
      requires |read| < LBA_MODULUS && first < LBA_MODULUS && sect < LBA_MODULUS && first + |read| <= LBA_MODULUS
      ensures |data| == |read|
      ensures forall i | 0 <= i < |data| :: data[i] == if dirty && first + i == sect then buf else read[i]
    {
      data := read;
      // fp->sect - sect < cc in unsigned arithmetic
      UnsignedDifference(sect, first, |read|);
      if dirty && (sect - first) % LBA_MODULUS < |read| {
        data := data[sect - first := buf];
      }
    }

    // Whole sectors, read past the buffer.
    method ReadDirect(sector: nat, cc: nat) returns (res: FResult, chunk: seq<byte>)
      requires Ready() && err == FR_OK && fptr % SS == 0 && 0 < cc && fptr + cc * SS <= objsize
      requires ClusterOfByte(fs.geo, fptr) < |chain| && sector == SectorAt(fs.geo, chain, fptr / SS)
      requires fptr / SS % fs.geo.csize + cc <= fs.geo.csize
      modifies this`err, fs`failures
      ensures fs.Valid() && fs.Fat() == old(fs.Fat()) && old(fs.failures) <= fs.failures
      ensures res == err && (res == FR_OK || (res == FR_DISK_ERR && old(fs.failures) < fs.failures))
      ensures Spared()
      ensures res == FR_OK ==> Ready() && fs.S() == old(fs.S())
      ensures res == FR_OK ==> Text() == old(Text()) && chunk == Text()[fptr..fptr + cc * SS]
    {
      hide Entries, Area, Logical, Bytes, C.IsChain, Expand, Terminated, WindowElsewhere, FileSectors, ClusterStart,
        Spares;
      ghost var s, f, h := fs.S(), fs.Fat(), H();
      chunk := [];
      var ok, data := fs.ReadData(sector, cc);
      FailureSpares(fs.geo, s, f, chain, fs.failures);
      if !ok { err := FR_DISK_ERR; return err, chunk; }
      assert fs.S() == s;
      if sect != 0 { WindowOffFile(fs.geo, s, f, h, at); }
      data := Overlay(sector, data);
      DirectReadBytes(fs.geo, s, f, h, data);
      chunk := Bytes(data, cc * SS);
      res := FR_OK;
    }

    // The sector the pointer is about to enter comes into the buffer, unless it is there.
    method FillBuffer(sector: nat) returns (res: FResult)
      requires Ready() && err == FR_OK && fptr / SS < SectorCount(fs.geo, chain)
      requires ClusterOfByte(fs.geo, fptr) < |chain| && sector == SectorAt(fs.geo, chain, fptr / SS)
      modifies this`sect, this`at, this`buf, this`dirty, this`err, fs`store, fs`failures
      ensures fs.Valid() && fs.Fat() == old(fs.Fat()) && old(fs.failures) <= fs.failures
      ensures res == err && (res == FR_OK || (res == FR_DISK_ERR && old(fs.failures) < fs.failures))
      ensures Spared()
      ensures res == FR_OK ==> Ready() && Text() == old(Text()) && sect == sector && sect != 0 && at == fptr / SS
    {
      hide Entries, Area, Logical, Bytes, C.IsChain, Expand, Terminated, WindowElsewhere, FileSectors, ClusterStart,
        SectorAt, Spares;
      res := FR_OK;
      SparesNothing(fs.geo, fs.S(), fs.Fat(), chain);
      SectorInBuffer(fs.geo, fs.S(), fs.Fat(), H(), fptr / SS);
      if sect != sector {
        var ok := Flush();
        if ok {
          ghost var s := fs.S();
          ok := Load(sector, fptr / SS);
          SparesBoth(fs.geo, old(fs.S()), old(fs.Fat()), chain, s, fs.Fat(), chain, fs.S(), fs.Fat(), chain);
        }
        if !ok { err := FR_DISK_ERR; return err; }
      }
    }

    // As many bytes of the buffer as are wanted, up to the end of the sector.
    method TakeBuffered(btr: nat) returns (chunk: seq<byte>)
      requires Ready() && 0 < btr <= objsize - fptr && sect != 0 && at == fptr / SS
      requires ClusterOfByte(fs.geo, fptr) < |chain| && clust == chain[ClusterOfByte(fs.geo, fptr)]
      modifies this`fptr
      ensures Open() && Text() == old(Text())
      ensures 0 < |chunk| <= btr && fptr == old(fptr) + |chunk| && chunk == Text()[old(fptr)..fptr]
    {
      hide Entries, Area, Logical, Bytes, C.IsChain, Expand, Terminated, WindowElsewhere, FileSectors, ClusterStart,
        SectorAt;
      var rcnt := SS - fptr % SS;
      if btr < rcnt { rcnt := btr; }
      chunk := buf[fptr % SS..fptr % SS + rcnt];
      ghost var h := H();
      BytesOfBuffer(fs.geo, fs.S(), fs.Fat(), h, rcnt);
      AdvanceInSector(fs.geo, h, rcnt);
      MoveOn(rcnt);
    }

    // The pointer moves on.
    method MoveOn(n: nat)
      requires Ready()
      modifies this`fptr
      ensures Ready() && Text() == old(Text()) && H() == old(H()).(fptr := old(fptr) + n)
    {
      hide Entries, Area, Logical, FileSectors, Bytes, C.IsChain, InChain, Expand, Terminated, WindowElsewhere;
      ghost var h := H();
      MoveKeeps(fs.geo, fs.S(), fs.Fat(), h, h.(fptr := fptr + n));
      fptr := fptr + n;
    }

    // As many whole sectors as are wanted, up to the end of the cluster.
    method TakeSectors(sector: nat, wanted: nat) returns (res: FResult, chunk: seq<byte>)
      requires Ready() && err == FR_OK && fptr % SS == 0 && 0 < wanted && fptr + wanted * SS <= objsize
      requires ClusterOfByte(fs.geo, fptr) < |chain| && clust == chain[ClusterOfByte(fs.geo, fptr)]
      requires sector == SectorAt(fs.geo, chain, fptr / SS)
      modifies this`fptr, this`err, fs`failures
      ensures fs.Valid() && fs.Fat() == old(fs.Fat()) && old(fs.failures) <= fs.failures
      ensures res == err && (res == FR_OK || (res == FR_DISK_ERR && old(fs.failures) < fs.failures))
      ensures Spared()
      ensures res == FR_OK ==> Open() && Text() == old(Text()) && fs.S() == old(fs.S())
      ensures res == FR_OK ==>
        0 < |chunk| <= wanted * SS && fptr == old(fptr) + |chunk| && chunk == Text()[old(fptr)..fptr]
    {
      hide Entries, Area, Logical, Bytes, C.IsChain, Expand, Terminated, WindowElsewhere, FileSectors, ClusterStart,
        SectorAt, WellFormed, Spares;
      var cc := wanted;
      var csect := fptr / SS % fs.geo.csize;
      if fs.geo.csize < csect + cc { cc := fs.geo.csize - csect; }
      res, chunk := ReadDirect(sector, cc);
      if res != FR_OK { return; }
      ghost var h := H();
      AdvanceInCluster(fs.geo, h, cc);
      MoveKeeps(fs.geo, fs.S(), fs.Fat(), h, h.(fptr := fptr + cc * SS));
      fptr := fptr + cc * SS;
    }

    // One round of the loop of f_read: as many bytes as come from whole sectors of one cluster
    // or from the rest of one sector.
    method ReadChunk(btr: nat) returns (res: FResult, chunk: seq<byte>)
      requires Open() && err == FR_OK && 0 < btr <= objsize - fptr
      modifies this`fptr, this`clust, this`sect, this`at, this`buf, this`dirty, this`err, fs
      ensures fs.Valid() && fs.Fat() == old(fs.Fat()) && old(fs.failures) <= fs.failures
      ensures res == err
      ensures res == FR_OK || res == FR_DISK_ERR || res == FR_INT_ERR
      ensures res == FR_DISK_ERR ==> old(fs.failures) < fs.failures
      ensures res == FR_INT_ERR ==> MapEnds() && fptr < objsize
      ensures res == FR_OK ==> Open() && Text() == old(Text())
      ensures Spared()
      ensures res == FR_OK ==> 0 < |chunk| <= btr && fptr == old(fptr) + |chunk| && chunk == Text()[old(fptr)..fptr]
    {
      hide Entries, Area, Logical, Bytes, C.IsChain, Expand, Terminated, WindowElsewhere, FileSectors, ClusterStart,
        SectorAt, Spares;
      chunk := [];
      if fptr % SS == 0 {
        var sector;
        res, sector := SectorToRead();
        if res != FR_OK { return; }
        var cc := btr / SS;
        ghost var s := fs.S();
        if cc > 0 {
          res, chunk := TakeSectors(sector, cc);
          SparesBoth(fs.geo, old(fs.S()), old(fs.Fat()), old(chain), s, old(fs.Fat()), chain, fs.S(), fs.Fat(), chain);
          return;
        }
        ByteInChain(fs.geo, H(), fptr);
        res := FillBuffer(sector);
        SparesBoth(fs.geo, old(fs.S()), old(fs.Fat()), old(chain), s, old(fs.Fat()), chain, fs.S(), fs.Fat(), chain);
        if res != FR_OK { return; }
      } else {
        SparesNothing(fs.geo, fs.S(), fs.Fat(), chain);
        res := FR_OK;
        PointerInSector(fs.geo, H());
      }
      chunk := TakeBuffered(btr);
    }

    // f_read
    method Read(btr: nat) returns (res: FResult, data: seq<byte>)
      requires err == FR_OK ==> Open()
      modifies this`fptr, this`clust, this`sect, this`at, this`buf, this`dirty, this`err, fs
      ensures old(err) != FR_OK ==> res == old(err) && data == [] && unchanged(this) && unchanged(fs)
      ensures old(err) == FR_OK && !canRead ==> res == FR_DENIED && data == [] && unchanged(this) && unchanged(fs)
      ensures old(err) == FR_OK ==> fs.Valid() && fs.Fat() == old(fs.Fat()) && Spared()
      ensures res == FR_OK ==> old(err) == FR_OK && Open() && Text() == old(Text())
      ensures res == FR_OK ==> |data| == (if btr < objsize - old(fptr) then btr else objsize - old(fptr))
      ensures res == FR_OK ==> fptr == old(fptr) + |data| && data == Text()[old(fptr)..fptr]
      ensures old(err) == FR_OK && canRead ==> res == err
      ensures old(err) == FR_OK && canRead ==>
        res == FR_OK || (res == FR_DISK_ERR && old(fs.failures) < fs.failures)
        || (res == FR_INT_ERR && MapEnds() && fptr < objsize)
    {
      hide Entries, Area, Logical, Bytes, C.IsChain, Expand, Terminated, WindowElsewhere, FileSectors, ClusterStart,
        SectorAt, Coherent, Spares, Backed;
      data := [];
      res := err;
      if err != FR_OK { return; }
      SparesNothing(fs.geo, fs.S(), fs.Fat(), chain);
      if !canRead { return FR_DENIED, data; }
      var remain := objsize - fptr;
      res, data := ReadAll(if remain < btr then remain else btr);
    }

    // The loop of f_read.
    method ReadAll(total: nat) returns (res: FResult, data: seq<byte>)
      requires Open() && err == FR_OK && fptr + total <= objsize
      modifies this`fptr, this`clust, this`sect, this`at, this`buf, this`dirty, this`err, fs
      ensures fs.Valid() && fs.Fat() == old(fs.Fat()) && Spared() && res == err
      ensures res == FR_OK ==> Open() && Text() == old(Text()) && |data| == total
      ensures res == FR_OK ==> fptr == old(fptr) + total && data == Text()[old(fptr)..fptr]
      ensures res == FR_OK || (res == FR_DISK_ERR && old(fs.failures) < fs.failures)
        || (res == FR_INT_ERR && MapEnds() && fptr < objsize)
    {
      hide Entries, Area, Logical, Bytes, C.IsChain, Expand, Terminated, WindowElsewhere, FileSectors, ClusterStart,
        SectorAt, Coherent, Spares, Backed, Content, Positioned;
      data := [];
      res := err;
      SparesNothing(fs.geo, fs.S(), fs.Fat(), chain);
      ghost var text, p := Text(), fptr;
      var left := total;
      while left > 0
        invariant 0 <= left <= total && total <= |text| - p
        invariant Open() && err == FR_OK && res == FR_OK && Text() == text && Spared()
        invariant fs.Fat() == old(fs.Fat()) && old(fs.failures) <= fs.failures
        invariant |data| == total - left && fptr == p + |data| && data == text[p..fptr]
      {
        var chunk;
        ghost var s := fs.S();
        res, chunk := ReadChunk(left);
        SparesBoth(fs.geo, old(fs.S()), old(fs.Fat()), old(chain), s, old(fs.Fat()), chain, fs.S(), fs.Fat(), chain);
        if res != FR_OK { return; }
        data := data + chunk;
        left := left - |chunk|;
      }
    }

    // ----- f_write -----

    // The link map, if one is set, gives no cluster for the pointer.
    ghost predicate MapEnds()
      requires fs.Valid()
      reads this, fs, cltbl
    {
      cltbl != null && |Expand(cltbl[..], 1)| <= ClusterOfByte(fs.geo, fptr)
    }

    // No cluster could be had: none is free (or none is by the cached count), or the link map
    // ends here.
    ghost predicate NoRoom()
      requires fs.Valid()
      reads this, fs, cltbl
    {
      fs.freeClst == 0 || C.NoneFree(fs.Fat()) || MapEnds()
    }

    // create_chain on this file: it follows the link to place i of the chain, or takes a cluster
    // (`grown`), or changes nothing but after a failure.
    method CallCreateChain(last: nat, ghost i: nat) returns (cluster: nat, ghost grown: bool)
      requires Ready() && i <= |chain|
      requires if i == 0 then last == 0 && chain == [] else last == chain[i - 1]
      modifies fs
      ensures fs.Valid() && Steady(fs.geo, old(fs.S()), fs.S())
      ensures cluster == DISK_ERROR ==> old(fs.failures) < fs.failures && !grown
      ensures cluster == 0 ==> i == |chain| && (fs.freeClst == 0 || C.NoneFree(fs.Fat()))
      ensures cluster == 1 ==> exists c :: IsCluster(fs.geo, c) && fs.Fat()[c] == 1
      ensures cluster != DISK_ERROR && !grown ==> fs.Fat() == old(fs.Fat())
      ensures 2 <= cluster && cluster != DISK_ERROR && !grown ==> i < |chain| && chain[i] == cluster
      ensures grown ==> 2 <= cluster && i == |chain| && Grown(fs.geo, old(fs.Fat()), fs.Fat(), chain, cluster)
      ensures Spares(fs.geo, old(fs.S()), old(fs.Fat()), chain,
                     fs.S(), fs.Fat(), if grown then chain + [cluster] else chain)
    {
      hide Entries, Area, Logical, Bytes, Expand, Terminated, WindowElsewhere, FileSectors, ClusterStart, SectorAt,
        WellFormed, FitsDrive, Spares, Steady;
      ghost var s, f, h := fs.S(), fs.Fat(), H();
      LinkAt(fs.geo, s, f, h, i);
      cluster := fs.CreateChain(last);
      ghost var s1, f1 := fs.S(), fs.Fat();
      grown := cluster != DISK_ERROR && f1 != f;
      if cluster == DISK_ERROR {
        assert last == 0 || last in chain;
        HalfLinkedSpares(fs.geo, s, s1, f, f1, h);
      } else if !grown {
        LookSpares(fs.geo, s, s1, f, chain);
        assert i == |chain| ==> cluster < 2;
      } else {
        ExtendSpares(fs.geo, s, s1, f, f1, chain, cluster);
      }
    }

    // The cluster at place i of the chain, which is stretched if need be.
    method FollowOrStretch(last: nat, ghost i: nat) returns (cluster: nat)
      requires Ready() && i <= |chain|
      requires if i == 0 then last == 0 && chain == [] else last == chain[i - 1]
      modifies this`chain, this`sclust, fs
      ensures fs.Valid() && old(fs.failures) <= fs.failures && Spared()
      ensures cluster == DISK_ERROR ==> old(fs.failures) < fs.failures
      ensures cluster != DISK_ERROR ==> Ready() && Text() == old(Text()) && old(chain) <= chain
      ensures cluster == 0 || cluster == 1 ==> chain == old(chain) && fs.Fat() == old(fs.Fat()) && sclust == old(sclust)
      ensures cluster == 0 ==> i == |chain| && (fs.freeClst == 0 || C.NoneFree(fs.Fat()))
      ensures cluster == 1 ==> exists c :: IsCluster(fs.geo, c) && fs.Fat()[c] == 1
      ensures 2 <= cluster && cluster != DISK_ERROR ==>
        chain == (if i < |old(chain)| then old(chain) else old(chain) + [cluster]) && chain[i] == cluster
    {
      hide Entries, Area, Logical, Bytes, C.IsChain, Expand, Terminated, WindowElsewhere, FileSectors, ClusterStart,
        SectorAt, WellFormed, FitsDrive, Spares, Grown;
      ghost var s, f, h := fs.S(), fs.Fat(), H();
      ghost var grown;
      cluster, grown := CallCreateChain(last, i);
      if cluster == DISK_ERROR { return; }
      if grown {
        StretchKeeps(fs.geo, s, fs.S(), f, fs.Fat(), h, cluster);
        chain := chain + [cluster];
      } else {
        LookKeeps(fs.geo, s, fs.S(), f, h);
      }
      // fp->obj.sclust is set when the file had no cluster
      if sclust == 0 && 2 <= cluster { sclust := cluster; }
    }

    // The cluster a pointer at the start of a cluster is to be in: the first one, the one the
    // link map gives, or the one create_chain gives.
    method ClusterToWrite() returns (cluster: nat)
      requires Open() && fptr % SS == 0 && fptr / SS % fs.geo.csize == 0
      modifies this`chain, this`sclust, fs
      ensures fs.Valid() && old(fs.failures) <= fs.failures
      ensures cluster == DISK_ERROR ==> old(fs.failures) < fs.failures
      ensures cluster != DISK_ERROR ==> Ready() && Text() == old(Text()) && old(chain) <= chain
      ensures Spared()
      ensures cluster == 0 ==> Open() && NoRoom()
      ensures cluster == 1 ==> exists c :: IsCluster(fs.geo, c) && fs.Fat()[c] == 1
      ensures 2 <= cluster && cluster != DISK_ERROR ==>
        ClusterOfByte(fs.geo, fptr) < |chain| && chain[ClusterOfByte(fs.geo, fptr)] == cluster
    {
      hide Entries, Area, Logical, Bytes, C.IsChain, Expand, Terminated, WindowElsewhere, FileSectors, ClusterStart,
        SectorAt, Spares, SectorCount, Backed;
      ClusterAheadToWrite(fs.geo, fs.S(), fs.Fat(), H());
      SparesNothing(fs.geo, fs.S(), fs.Fat(), chain);
      ghost var i := ClusterOfByte(fs.geo, fptr);
      if fptr == 0 {
        cluster := sclust;
        if cluster == 0 {
          cluster := FollowOrStretch(0, 0);
        }
      } else if cltbl != null {
        cluster := ClmtClust(fptr);
      } else {
        cluster := FollowOrStretch(clust, i);
      }
    }

    // The pointer enters the next cluster; `full` when there is none to be had.
    method NextClusterToWrite() returns (res: FResult, full: bool)
      requires Open() && err == FR_OK && fptr % SS == 0 && fptr / SS % fs.geo.csize == 0
      modifies this`chain, this`sclust, this`clust, this`err, fs
      ensures fs.Valid() && old(fs.failures) <= fs.failures
      ensures res == err && (res == FR_OK || (res == FR_DISK_ERR && old(fs.failures) < fs.failures)
        || (res == FR_INT_ERR && exists c :: IsCluster(fs.geo, c) && fs.Fat()[c] == 1))
      ensures res == FR_OK ==> Ready() && Text() == old(Text()) && old(chain) <= chain
      ensures Spared()
      ensures res == FR_OK && full ==> Open() && NoRoom()
      ensures res == FR_OK && !full ==>
        ClusterOfByte(fs.geo, fptr) < |chain| && clust == chain[ClusterOfByte(fs.geo, fptr)]
    {
      hide Entries, Area, Logical, Bytes, C.IsChain, Expand, Terminated, WindowElsewhere, FileSectors, ClusterStart,
        SectorAt, Coherent, Spares;
      full := false;
      res := FR_OK;
      var cluster := ClusterToWrite();
      if cluster == 0 { return res, true; }
      if cluster == 1 { err := FR_INT_ERR; return err, full; }
      if cluster == DISK_ERROR { err := FR_DISK_ERR; return err, full; }
      ghost var h := H();
      MoveKeeps(fs.geo, fs.S(), fs.Fat(), h, h.(clust := cluster));
      clust := cluster;
    }

    // What every step of writing within the file's clusters leaves: `done` bytes of wbuff are
    // in the file at the place the pointer was.
    twostate predicate Wrote(wbuff: seq<byte>, done: nat)
      requires old(Ready()) && old(fptr) <= old(objsize)
      reads this, fs, cltbl
    {
      && Open() && done <= |wbuff| && fptr == old(fptr) + done
      && Text() == Splice(old(Text()), old(fptr), wbuff[..done])
    }

    // Whole sectors, written past the buffer.
    method WriteSectors(sector: nat, wbuff: seq<byte>) returns (res: FResult, wcnt: nat)
      requires Ready() && err == FR_OK && !dirty && fptr % SS == 0 && fptr <= objsize && fptr + |wbuff| <= MAX_SIZE
      requires ClusterOfByte(fs.geo, fptr) < |chain| && clust == chain[ClusterOfByte(fs.geo, fptr)]
      requires sector == SectorAt(fs.geo, chain, fptr / SS) && SS <= |wbuff|
      modifies this`buf, this`fptr, this`objsize, this`err, fs`store, fs`failures
      ensures fs.Valid() && fs.Fat() == old(fs.Fat()) && old(fs.failures) <= fs.failures
      ensures res == err && (res == FR_OK || (res == FR_DISK_ERR && old(fs.failures) < fs.failures))
      ensures Spared()
      ensures res == FR_OK ==> 0 < wcnt && Wrote(wbuff, wcnt)
    {
      hide Entries, Area, Logical, Bytes, C.IsChain, Expand, Terminated, WindowElsewhere, FileSectors, SectorOfFile,
        ClusterStart, Splice, Spares;
      var csect := fptr / SS % fs.geo.csize;
      var cc := |wbuff| / SS;
      if fs.geo.csize < csect + cc { cc := fs.geo.csize - csect; }
      wcnt := cc * SS;
      var data := ToSectors(wbuff[..wcnt], cc);
      ToSectorsAndBack(wbuff[..wcnt], cc);
      res := WriteRun(sector, data);
    }

    // Sectors of the cluster, from the pointer on, are written.
    method WriteRun(sector: nat, data: seq<Sector>) returns (res: FResult)
      requires Ready() && err == FR_OK && !dirty && fptr % SS == 0 && fptr <= objsize && data != []
      requires fptr + |data| * SS <= MAX_SIZE && fptr / SS % fs.geo.csize + |data| <= fs.geo.csize
      requires ClusterOfByte(fs.geo, fptr) < |chain| && clust == chain[ClusterOfByte(fs.geo, fptr)]
      requires sector == SectorAt(fs.geo, chain, fptr / SS)
      modifies this`buf, this`fptr, this`objsize, this`err, fs`store, fs`failures
      ensures fs.Valid() && fs.Fat() == old(fs.Fat()) && old(fs.failures) <= fs.failures
      ensures res == err && (res == FR_OK || (res == FR_DISK_ERR && old(fs.failures) < fs.failures))
      ensures Spared()
      ensures res == FR_OK ==> Open() && fptr == old(fptr) + |data| * SS
      ensures res == FR_OK ==> Text() == Splice(old(Text()), old(fptr), Bytes(data, |data| * SS))
    {
      hide Entries, Area, Logical, Bytes, C.IsChain, Expand, Terminated, WindowElsewhere, FileSectors, SectorOfFile,
        ClusterStart, Splice, Spares;
      ghost var s, f, h := fs.S(), fs.Fat(), H();
      SectorsToWrite(sector, |data|);
      var ok := fs.WriteData(sector, data);
      RunSpares(fs.geo, s, f, h, fs.store, fs.failures, fptr / SS, |data|);
      assert fs.S() == s.(store := fs.store, failures := fs.failures);
      if !ok { err := FR_DISK_ERR; return err; }
      assert CanWriteDirectly(fs.geo, s, f, h, fs.store, sector, data);
      WrittenDirectly(fs.geo, s, f, h, fs.store, sector, data);
      NoteSectors(sector, data);
      res := FR_OK;
    }

    // The buffer takes its sector from those that have just been written, if it is among
    // them; the pointer moves on and the file may have become longer.
    method NoteSectors(first: nat, data: seq<Sector>)
      requires sect < LBA_MODULUS && first + |data| <= LBA_MODULUS
      modifies this`buf, this`fptr, this`objsize
      ensures H() == AfterDirect(old(H()), first, data)
    {
      // fp->sect - sect < cc in unsigned arithmetic
      UnsignedDifference(sect, first, |data|);
      if (sect - first) % LBA_MODULUS < |data| {
        buf := data[sect - first];
      }
      fptr := fptr + |data| * SS;
      objsize := if fptr > objsize then fptr else objsize;
    }

    // The sectors of a direct write are data sectors that are not in the window.
    lemma SectorsToWrite(sector: nat, cc: nat)
      requires Ready() && ClusterOfByte(fs.geo, fptr) < |chain| && sector == SectorAt(fs.geo, chain, fptr / SS)
      requires fptr / SS % fs.geo.csize + cc <= fs.geo.csize
      ensures fs.geo.dataBase <= sector && !(sector <= fs.winsect < sector + cc)
      ensures sector + cc <= |fs.store| < LBA_MODULUS && sect < |fs.store|
    {
      ClusterInChain(fs.geo, chain, fptr / SS);
      WindowOffFile(fs.geo, fs.S(), fs.Fat(), H(), fptr / SS);
      if sect != 0 { WindowOffFile(fs.geo, fs.S(), fs.Fat(), H(), at); }
      SectorsApart(fs.geo, |fs.store|, chain, fptr / SS, fptr / SS);
      assert ClusterStart(fs.geo, chain[ClusterOfByte(fs.geo, fptr)]) + fs.geo.csize <= |fs.store|;
    }

    // The sector the pointer is about to enter, for writing; `full` when there is none.
    method SectorToWrite() returns (res: FResult, full: bool, sector: nat)
      requires Open() && err == FR_OK && fptr % SS == 0
      modifies this`chain, this`sclust, this`clust, this`dirty, this`err, fs
      ensures fs.Valid() && old(fs.failures) <= fs.failures
      ensures res == err && (res == FR_OK || (res == FR_DISK_ERR && old(fs.failures) < fs.failures)
        || (res == FR_INT_ERR && exists c :: IsCluster(fs.geo, c) && fs.Fat()[c] == 1))
      ensures res == FR_OK ==> Ready() && Text() == old(Text()) && old(chain) <= chain
      ensures Spared()
      ensures res == FR_OK && full ==> Open() && NoRoom()
      ensures res == FR_OK && !full ==>
        !dirty && ClusterOfByte(fs.geo, fptr) < |chain| && clust == chain[ClusterOfByte(fs.geo, fptr)]
      ensures res == FR_OK && !full ==> sector == SectorAt(fs.geo, chain, fptr / SS)
    {
      hide Entries, Area, Logical, FileSectors, Bytes, C.IsChain, Expand, Terminated, WindowElsewhere, ClusterStart,
        SectorAt, ClusterToSector, Spares, Backed, Content;
      res, full, sector := FR_OK, false, 0;
      var csect := fptr / SS % fs.geo.csize;
      if csect == 0 {
        res, full := NextClusterToWrite();
        if res != FR_OK || full { return; }
      } else {
        PointerInCluster(fs.geo, H());
        SparesNothing(fs.geo, fs.S(), fs.Fat(), chain);
      }
      ghost var s, f, cs := fs.S(), fs.Fat(), chain;
      var ok := Flush();
      SparesBoth(fs.geo, old(fs.S()), old(fs.Fat()), old(chain), s, f, cs, fs.S(), fs.Fat(), chain);
      if !ok { err := FR_DISK_ERR; return err, full, sector; }
      SectorHere(fs.geo, fs.S(), fs.Fat(), H(), clust);
      // so clst2sect does not report an invalid cluster here
      sector := ClusterToSector(fs.geo, clust) + csect;
    }

    // The buffer is ready to take bytes at the pointer: it holds the sector, or the pointer is
    // at the end of the file and at the start of the sector, so that nothing need be in it.
    ghost predicate BufferFits(sector: nat)
      requires Ready()
      reads this, fs, cltbl
    {
      && ClusterOfByte(fs.geo, fptr) < |chain| && clust == chain[ClusterOfByte(fs.geo, fptr)]
      && sector == SectorAt(fs.geo, chain, fptr / SS)
      && fptr <= objsize
      && ((sect != 0 && at == fptr / SS) || (!dirty && fptr % SS == 0 && fptr == objsize))
    }

    // The sector cache is filled with file data, if the sector has any.
    method FillToWrite(sector: nat) returns (res: FResult)
      requires Ready() && err == FR_OK && !dirty && fptr % SS == 0 && fptr <= objsize
      requires ClusterOfByte(fs.geo, fptr) < |chain| && clust == chain[ClusterOfByte(fs.geo, fptr)]
      requires sector == SectorAt(fs.geo, chain, fptr / SS)
      modifies this`sect, this`at, this`buf, this`err, fs`failures
      ensures fs.Valid() && fs.Fat() == old(fs.Fat()) && old(fs.failures) <= fs.failures
      ensures res == err && (res == FR_OK || (res == FR_DISK_ERR && old(fs.failures) < fs.failures))
      ensures Spared()
      ensures res == FR_OK ==> fs.S() == old(fs.S())
      ensures res == FR_OK ==> Ready() && Text() == old(Text()) && BufferFits(sector)
    {
      hide Entries, Area, Logical, Bytes, C.IsChain, Expand, Terminated, WindowElsewhere, FileSectors, ClusterStart,
        SectorAt, Spares;
      res := FR_OK;
      SparesNothing(fs.geo, fs.S(), fs.Fat(), chain);
      if fptr < objsize {
        ByteInChain(fs.geo, H(), fptr);
        SectorInBuffer(fs.geo, fs.S(), fs.Fat(), H(), fptr / SS);
      }
      if sect != sector && fptr < objsize {
        var ok := Load(sector, fptr / SS);
        if !ok { err := FR_DISK_ERR; return err; }
      }
    }

    // As many bytes as go into the rest of the sector are put into the buffer.
    method PutBuffered(sector: nat, wbuff: seq<byte>) returns (wcnt: nat)
      requires Ready() && BufferFits(sector) && wbuff != [] && fptr + |wbuff| <= MAX_SIZE
      modifies this`sect, this`at, this`buf, this`dirty, this`fptr, this`objsize
      ensures 0 < wcnt && Wrote(wbuff, wcnt)
    {
      hide Entries, Area, Logical, Bytes, C.IsChain, Expand, Terminated, WindowElsewhere, FileSectors, ClusterStart,
        SectorOfFile, Splice, Overlaid;
      ghost var s, f, h := fs.S(), fs.Fat(), H();
      wcnt := SS - fptr % SS;
      if |wbuff| < wcnt { wcnt := |wbuff|; }
      PutIntoBuffer(fs.geo, s, f, h, wbuff[..wcnt]);
      var b := Overlaid(buf, fptr % SS, wbuff[..wcnt]);
      NoteBytes(sector, b, wcnt);
    }

    // The buffer is b, a dirty sector; the pointer moves on and the file may have become longer.
    method NoteBytes(sector: nat, b: Sector, wcnt: nat)
      modifies this`sect, this`at, this`buf, this`dirty, this`fptr, this`objsize
      ensures H() == AfterBuffer(old(H()), sector, b, wcnt)
    {
      sect, at := sector, fptr / SS;
      buf := b;
      dirty := true;
      fptr := fptr + wcnt;
      objsize := if fptr > objsize then fptr else objsize;
    }

    // What a round of the loop does first when the pointer is on a sector boundary: it is `done` when
    // there is no cluster, or when whole sectors could be written; otherwise the buffer is ready.
    method OnSectorBoundary(wbuff: seq<byte>) returns (res: FResult, done: bool, sector: nat, wcnt: nat)
      requires Open() && err == FR_OK && fptr % SS == 0 && wbuff != [] && fptr + |wbuff| <= MAX_SIZE
      modifies this`chain, this`sclust, this`clust, this`sect, this`at, this`buf, this`dirty, this`fptr, this`objsize,
        this`err, fs
      ensures fs.Valid() && old(fs.failures) <= fs.failures
      ensures res == err && (res == FR_OK || (res == FR_DISK_ERR && old(fs.failures) < fs.failures)
        || (res == FR_INT_ERR && exists c :: IsCluster(fs.geo, c) && fs.Fat()[c] == 1))
      ensures Spared()
      ensures res == FR_OK ==> old(chain) <= chain
      ensures res == FR_OK && done ==> Wrote(wbuff, wcnt) && (wcnt == 0 ==> NoRoom())
      ensures res == FR_OK && !done ==>
        Ready() && Text() == old(Text()) && BufferFits(sector) && fptr == old(fptr) && wcnt == 0
    {
      hide Entries, Area, Logical, Bytes, C.IsChain, Expand, Terminated, WindowElsewhere, FileSectors, ClusterStart,
        SectorAt, SectorCount, Spares;
      wcnt := 0;
      res, done, sector := SectorToWrite();
      if res != FR_OK || done { return; }
      ghost var s, f, cs := fs.S(), fs.Fat(), chain;
      if SS <= |wbuff| {
        res, wcnt := WriteSectors(sector, wbuff);
        done := true;
      } else {
        res := FillToWrite(sector);
      }
      SparesBoth(fs.geo, old(fs.S()), old(fs.Fat()), old(chain), s, f, cs, fs.S(), fs.Fat(), chain);
    }

    // One round of the loop of f_write; no byte goes when the volume is full.
    method WriteChunk(wbuff: seq<byte>) returns (res: FResult, wcnt: nat)
      requires Open() && err == FR_OK && wbuff != [] && fptr + |wbuff| <= MAX_SIZE
      modifies this`chain, this`sclust, this`clust, this`sect, this`at, this`buf, this`dirty, this`fptr, this`objsize,
        this`err, fs
      ensures fs.Valid() && old(fs.failures) <= fs.failures
      ensures res == err && (res == FR_OK || (res == FR_DISK_ERR && old(fs.failures) < fs.failures)
        || (res == FR_INT_ERR && exists c :: IsCluster(fs.geo, c) && fs.Fat()[c] == 1))
      ensures res == FR_OK ==> Wrote(wbuff, wcnt) && old(chain) <= chain
      ensures Spared()
      ensures res == FR_OK && wcnt == 0 ==> NoRoom()
    {
      hide Entries, Area, Logical, Bytes, C.IsChain, Expand, Terminated, WindowElsewhere, FileSectors, ClusterStart,
        SectorAt, SectorCount, Spares;
      var sector := sect;
      wcnt := 0;
      if fptr % SS == 0 {
        var done;
        res, done, sector, wcnt := OnSectorBoundary(wbuff);
        if res != FR_OK || done { return; }
      } else {
        res := FR_OK;
        SparesNothing(fs.geo, fs.S(), fs.Fat(), chain);
        PointerInSector(fs.geo, H());
      }
      wcnt := PutBuffered(sector, wbuff);
    }

    // The loop of f_write.
    method WriteAll(wbuff: seq<byte>) returns (res: FResult, bw: nat)
      requires Open() && err == FR_OK && fptr + |wbuff| <= MAX_SIZE
      modifies this`chain, this`sclust, this`clust, this`sect, this`at, this`buf, this`dirty, this`fptr, this`objsize,
        this`err, fs
      ensures fs.Valid() && old(fs.failures) <= fs.failures
      ensures res == err && (res == FR_OK || (res == FR_DISK_ERR && old(fs.failures) < fs.failures)
        || (res == FR_INT_ERR && exists c :: IsCluster(fs.geo, c) && fs.Fat()[c] == 1))
      ensures res == FR_OK ==> Wrote(wbuff, bw) && old(chain) <= chain
      ensures Spared()
      ensures res == FR_OK && bw < |wbuff| ==> NoRoom()
    {
      hide Entries, Area, Logical, Bytes, C.IsChain, Expand, Terminated, WindowElsewhere, FileSectors, ClusterStart,
        SectorAt, Coherent, Splice, Backed, Spares;
      bw := 0;
      res := FR_OK;
      ghost var text, p := Text(), fptr;
      SpliceNothing(text, p);
      SparesNothing(fs.geo, fs.S(), fs.Fat(), chain);
      while bw < |wbuff|
        invariant 0 <= bw <= |wbuff| && p + |wbuff| <= MAX_SIZE
        invariant Open() && err == FR_OK && res == FR_OK && old(chain) <= chain
        invariant fptr == p + bw && Text() == Splice(text, p, wbuff[..bw])
        invariant old(fs.failures) <= fs.failures && Spared()
      {
        var wcnt;
        ghost var s, f, cs := fs.S(), fs.Fat(), chain;
        res, wcnt := WriteChunk(wbuff[bw..]);
        SparesBoth(fs.geo, old(fs.S()), old(fs.Fat()), old(chain), s, f, cs, fs.S(), fs.Fat(), chain);
        if res != FR_OK { return; }
        SpliceMore(text, p, wbuff, bw, wcnt);
        if wcnt == 0 { return; }
        bw := bw + wcnt;
      }
    }

    // f_write
    method Write(wbuff: seq<byte>) returns (res: FResult, bw: nat)
      requires err == FR_OK ==> Open()
      requires |wbuff| <= MAX_SIZE
      modifies this`chain, this`sclust, this`clust, this`sect, this`at, this`buf, this`dirty, this`modified,
        this`fptr, this`objsize, this`err, fs
      ensures old(err) != FR_OK ==> res == old(err) && bw == 0 && unchanged(this) && unchanged(fs)
      ensures old(err) == FR_OK && !canWrite ==> res == FR_DENIED && bw == 0 && unchanged(this) && unchanged(fs)
      ensures res == FR_OK ==> old(err) == FR_OK && Wrote(wbuff, bw) && old(chain) <= chain && modified
      ensures old(err) == FR_OK ==> fs.Valid() && Spared()
      // it stops short only for want of a cluster, or at 4 GiB - 1
      ensures res == FR_OK && bw < |wbuff| ==> NoRoom() || fptr == MAX_SIZE
      ensures old(err) == FR_OK && canWrite ==> res == err
      ensures old(err) == FR_OK && canWrite ==>
        (res == FR_OK || (res == FR_DISK_ERR && old(fs.failures) < fs.failures)
         || (res == FR_INT_ERR && exists c :: IsCluster(fs.geo, c) && fs.Fat()[c] == 1))
    {
      hide Entries, Area, Logical, Bytes, C.IsChain, Expand, Terminated, WindowElsewhere, FileSectors, ClusterStart,
        SectorAt, Coherent, Splice, Spares, SectorCount, C.NoneFree, ClusterOfByte;
      bw := 0;
      res := err;
      if err != FR_OK { return; }
      SparesNothing(fs.geo, fs.S(), fs.Fat(), chain);
      if !canWrite { return FR_DENIED, bw; }
      var btw := |wbuff|;
      // (DWORD)(fptr + btw) < (DWORD)fptr
      if (fptr + btw) % 0x1_0000_0000 < fptr {
        btw := MAX_SIZE - fptr;
      }
      res, bw := WriteAll(wbuff[..btw]);
      if res != FR_OK { return; }
      assert wbuff[..btw][..bw] == wbuff[..bw];
      modified := true;
    }

    // ----- f_lseek -----

    // The pointer stands at the start of the j-th cluster, which is the current one.
    ghost predicate AtCluster(j: nat)
      reads this, fs, cltbl
    {
      Ready() && j < |chain| && clust == chain[j] && fptr == ClusterOffset(fs.geo, j)
    }

    // The file becomes as long as the pointer has gone; what is between is unspecified.
    method NoteSize()
      requires Ready() && fptr <= SectorCount(fs.geo, chain) * SS && fptr <= MAX_SIZE
      modifies this`objsize, this`modified
      ensures Ready() && old(Text()) <= Text()
      ensures objsize == Max(old(objsize), fptr) && modified == (old(modified) || old(objsize) < fptr)
    {
      hide Entries, Area, Logical, FileSectors, Bytes, C.IsChain, InChain, Expand, Terminated, WindowElsewhere;
      ghost var s, f, h := fs.S(), fs.Fat(), H();
      if fptr > objsize {
        LongerKeeps(fs.geo, s, f, h, h.(objsize := fptr));
        BytesLonger(FileSectors(fs.geo, s.store, h), objsize, fptr);
        objsize := fptr;
        modified := true;
      }
    }

    // Where the walk begins: at the current cluster if the target is in it or behind it, or
    // else at the first cluster, which is allocated if there is none.
    method StartSeek(target: nat) returns (res: FResult, clst: nat, ofs: nat, ghost j: nat)
      requires Open() && err == FR_OK && 0 < target
      modifies this`chain, this`sclust, this`clust, this`fptr, this`err, fs
      ensures fs.Valid() && old(fs.failures) <= fs.failures
      ensures res == err && (res == FR_OK || (res == FR_DISK_ERR && old(fs.failures) < fs.failures)
        || (res == FR_INT_ERR && exists c :: IsCluster(fs.geo, c) && fs.Fat()[c] == 1))
      ensures res == FR_OK ==> Ready() && Text() == old(Text()) && old(chain) <= chain
      ensures Spared()
      ensures res == FR_OK && clst != 0 ==>
        AtCluster(j) && clst == clust && 0 < ofs && fptr + ofs == target && fptr <= objsize
      ensures res == FR_OK && clst == 0 ==> Open() && fptr == objsize == 0 && (fs.freeClst == 0 || C.NoneFree(fs.Fat()))
    {
      hide Entries, Area, Logical, FileSectors, Bytes, C.IsChain, Expand, Terminated, WindowElsewhere, ClusterStart,
        ClusterOfSector, SectorCount, Spares;
      res, ofs, j := FR_OK, target, 0;
      SparesNothing(fs.geo, fs.S(), fs.Fat(), chain);
      var bcs := fs.geo.csize * SS;
      if fptr > 0 && (fptr - 1) / bcs <= (target - 1) / bcs {
        SameOrFollowing(fs.geo, fptr - 1, target - 1);
        j := ClusterOfByte(fs.geo, fptr - 1);
        // (ifptr - 1) & ~(bcs - 1)
        var start := (fptr - 1) / bcs * bcs;
        ofs := target - start;
        clst := clust;
        SetPointer(start, clst);
      } else {
        clst := sclust;
        if clst == 0 {
          EmptyHasNoSize(fs.geo, fs.S(), fs.Fat(), H());
          clst := FollowOrStretch(0, 0);
          if clst == 1 { err := FR_INT_ERR; return err, clst, ofs, j; }
          if clst == DISK_ERROR { err := FR_DISK_ERR; return err, clst, ofs, j; }
        }
        SetPointer(0, clst);
      }
    }

    // The file pointer and the current cluster are set.
    method SetPointer(pointer: nat, cluster: nat)
      requires Ready()
      modifies this`fptr, this`clust
      ensures Ready() && Text() == old(Text()) && fptr == pointer && clust == cluster
    {
      hide Entries, Area, Logical, FileSectors, Bytes, C.IsChain, InChain, Expand, Terminated, WindowElsewhere;
      ghost var h := H();
      MoveKeeps(fs.geo, fs.S(), fs.Fat(), h, h.(fptr := pointer, clust := cluster));
      fptr, clust := pointer, cluster;
    }

    // The pointer passes the j-th cluster; when writing, the file is at least that long then.
    method PassCluster(ghost j: nat)
      requires AtCluster(j) && fptr + Bcs(fs.geo) <= MAX_SIZE && (canWrite || fptr + Bcs(fs.geo) < objsize)
      modifies this`fptr, this`clust, this`objsize, this`modified
      ensures Open() && old(Text()) <= Text() && clust == old(clust)
      ensures fptr == old(fptr) + Bcs(fs.geo) == ClusterOffset(fs.geo, j + 1)
      ensures objsize == if canWrite then Max(old(objsize), fptr) else old(objsize)
      ensures old(modified) ==> modified
    {
      hide Entries, Area, Logical, FileSectors, Bytes, C.IsChain, Expand, Terminated, WindowElsewhere, ClusterStart,
        ClusterOffset, ClusterOfSector, SectorCount;
      OffsetStep(fs.geo, chain, j);
      SetPointer(fptr + fs.geo.csize * SS, clust);
      if canWrite {
        NoteSize();
      }
    }

    // One step of the cluster following loop; `full` when the chain can be stretched no more.
    method StepCluster(clst: nat, ghost j: nat) returns (res: FResult, next: nat, full: bool)
      requires AtCluster(j) && clst == clust && err == FR_OK
      requires fptr + Bcs(fs.geo) <= MAX_SIZE && (canWrite || fptr + Bcs(fs.geo) < objsize)
      modifies this`chain, this`sclust, this`clust, this`fptr, this`objsize, this`modified, this`err, fs
      ensures fs.Valid() && old(fs.failures) <= fs.failures
      ensures res == err && (res == FR_OK || (res == FR_DISK_ERR && old(fs.failures) < fs.failures)
        || (res == FR_INT_ERR && canWrite && exists c :: IsCluster(fs.geo, c) && fs.Fat()[c] == 1))
      ensures res == FR_OK ==>
        Ready() && old(Text()) <= Text() && old(chain) <= chain && fptr == old(fptr) + Bcs(fs.geo)
      ensures res == FR_OK ==> objsize == if canWrite then Max(old(objsize), fptr) else old(objsize)
      ensures res == FR_OK && old(modified) ==> modified
      ensures Spared()
      ensures res == FR_OK && !full ==> AtCluster(j + 1) && next == clust
      ensures res == FR_OK && full ==>
        canWrite && Open() && objsize <= fptr && (fs.freeClst == 0 || C.NoneFree(fs.Fat()))
    {
      hide Entries, Area, Logical, FileSectors, Bytes, C.IsChain, Expand, Terminated, WindowElsewhere, ClusterStart,
        ClusterOffset, ClusterOfSector, SectorCount, Spares, WellFormed;
      PassCluster(j);
      res, next, full := NextOf(clst, j);
      if res != FR_OK || full { return; }
      // next is a cluster, so the test against n_fatent does not abort
      SetPointer(fptr, next);
    }

    // The cluster behind the j-th one, which the pointer has passed.
    method NextOf(clst: nat, ghost j: nat) returns (res: FResult, next: nat, full: bool)
      requires Open() && err == FR_OK && j < |chain| && clst == chain[j]
      requires fptr == ClusterOffset(fs.geo, j + 1) && (canWrite || fptr < objsize)
      modifies this`chain, this`sclust, this`err, fs
      ensures fs.Valid() && old(fs.failures) <= fs.failures
      ensures res == err && (res == FR_OK || (res == FR_DISK_ERR && old(fs.failures) < fs.failures)
        || (res == FR_INT_ERR && canWrite && exists c :: IsCluster(fs.geo, c) && fs.Fat()[c] == 1))
      ensures res == FR_OK ==> Ready() && Text() == old(Text()) && old(chain) <= chain
      ensures Spared()
      ensures res == FR_OK && !full ==> j + 1 < |chain| && next == chain[j + 1]
      ensures res == FR_OK && full ==>
        canWrite && Open() && objsize <= fptr && (fs.freeClst == 0 || C.NoneFree(fs.Fat()))
    {
      hide Entries, Area, Logical, FileSectors, Bytes, C.IsChain, Expand, Terminated, WindowElsewhere, ClusterStart,
        ClusterOffset, ClusterOfSector, SectorCount, Spares, WellFormed;
      res, full := FR_OK, false;
      if canWrite {
        next := FollowOrStretch(clst, j + 1);
        if next == 0 {
          if fptr < objsize { ClusterNeeded(fs.geo, H(), j + 1, objsize); }
          full := true;
          return;
        }
      } else {
        ClusterNeeded(fs.geo, H(), j + 1, objsize);
        next := LinkOf(clst, j);
      }
      if next == DISK_ERROR { err := FR_DISK_ERR; return err, next, full; }
      if next <= 1 { err := FR_INT_ERR; return err, next, full; }
    }

    // get_fat on the i-th cluster of the chain.
    method LinkOf(clst: nat, ghost i: nat) returns (next: nat)
      requires Ready() && i < |chain| && clst == chain[i]
      modifies fs
      ensures fs.Valid() && fs.Fat() == old(fs.Fat()) && old(fs.failures) <= fs.failures
      ensures next == DISK_ERROR ==> old(fs.failures) < fs.failures
      ensures next != DISK_ERROR ==> Ready() && Text() == old(Text()) && next == fs.Fat()[clst] && 2 <= next
      ensures Spared()
      ensures next != DISK_ERROR ==> if i + 1 < |chain| then next == chain[i + 1] else fs.geo.nFatent <= next
    {
      hide Entries, Area, Logical, FileSectors, Bytes, Expand, Terminated, WindowElsewhere, ClusterStart, Spares;
      ghost var s, f, h := fs.S(), fs.Fat(), H();
      LinkAt(fs.geo, s, f, h, i + 1);
      next := fs.GetFat(clst);
      LookKeeps(fs.geo, s, fs.S(), f, h);
      LookSpares(fs.geo, s, fs.S(), f, chain);
    }

    // The cluster following loop. When it ends for want of a cluster nothing is left to go.
    method FollowClusters(clst0: nat, ofs0: nat, ghost j0: nat, ghost target: nat)
      returns (res: FResult, clst: nat, ofs: nat, ghost j: nat)
      requires AtCluster(j0) && clst0 == clust && err == FR_OK && 0 < ofs0 && fptr + ofs0 == target
      requires target <= MAX_SIZE && (canWrite || target <= objsize) && fptr <= objsize
      modifies this`chain, this`sclust, this`clust, this`fptr, this`objsize, this`modified, this`err, fs
      ensures fs.Valid() && old(fs.failures) <= fs.failures
      ensures res == err && (res == FR_OK || (res == FR_DISK_ERR && old(fs.failures) < fs.failures)
        || (res == FR_INT_ERR && canWrite && exists c :: IsCluster(fs.geo, c) && fs.Fat()[c] == 1))
      ensures res == FR_OK ==> Ready() && old(Text()) <= Text() && old(chain) <= chain
      ensures res == FR_OK ==> objsize == if canWrite then Max(old(objsize), fptr) else old(objsize)
      ensures Spared()
      ensures res == FR_OK && ofs != 0 ==> AtCluster(j) && clst == clust && ofs <= Bcs(fs.geo) && fptr + ofs == target
      ensures res == FR_OK && ofs == 0 ==>
        canWrite && Open() && objsize <= fptr < target && (fs.freeClst == 0 || C.NoneFree(fs.Fat()))
    {
      hide Entries, Area, Logical, FileSectors, Bytes, C.IsChain, Expand, Terminated, WindowElsewhere, ClusterStart,
        ClusterOffset, ClusterOfSector, SectorCount, Backed, Spares;
      res, clst, ofs, j := FR_OK, clst0, ofs0, j0;
      ghost var text := Text();
      SparesNothing(fs.geo, fs.S(), fs.Fat(), chain);
      var bcs := fs.geo.csize * SS;
      while ofs > bcs
        invariant fs.Valid() && res == err == FR_OK && old(fs.failures) <= fs.failures
        invariant AtCluster(j) && clst == clust && 0 < ofs && fptr + ofs == target
        invariant text <= Text() && old(chain) <= chain && Spared()
        invariant objsize == if canWrite then Max(old(objsize), fptr) else old(objsize)
        invariant canWrite || target <= objsize
      {
        ofs := ofs - bcs;
        var full;
        ghost var s, f, cs := fs.S(), fs.Fat(), chain;
        res, clst, full := StepCluster(clst, j);
        SparesBoth(fs.geo, old(fs.S()), old(fs.Fat()), old(chain), s, f, cs, fs.S(), fs.Fat(), chain);
        if res != FR_OK { return; }
        if full {
          ofs := 0;
          return;
        }
        j := j + 1;
      }
    }

    // The last part of a seek that has found the cluster of its target.
    method ArriveAt(clst: nat, ofs: nat, ghost j: nat) returns (res: FResult)
      requires AtCluster(j) && clst == clust && err == FR_OK && 0 < ofs <= Bcs(fs.geo)
      requires fptr + ofs <= MAX_SIZE
      modifies this`fptr, this`clust, this`objsize, this`modified, this`sect, this`at, this`buf, this`dirty, this`err,
        fs`store, fs`failures
      ensures fs.Valid() && old(fs.failures) <= fs.failures
      ensures res == err && (res == FR_OK || (res == FR_DISK_ERR && old(fs.failures) < fs.failures))
      ensures res == FR_OK ==> Open() && old(Text()) <= Text() && fptr == old(fptr) + ofs
      ensures Spared()
      ensures res == FR_OK ==> objsize == Max(old(objsize), fptr)
    {
      hide Entries, Area, Logical, FileSectors, Bytes, C.IsChain, Expand, Terminated, WindowElsewhere, ClusterStart,
        ClusterOffset, SectorCount, SectorAt, ClusterToSector, ClusterOfSector, Spares, WellFormed;
      res := FR_OK;
      SparesNothing(fs.geo, fs.S(), fs.Fat(), chain);
      SeekTarget(fs.geo, fs.S(), fs.Fat(), H(), j, ofs);
      SetPointer(fptr + ofs, clst);
      var nsect := 0;
      if ofs % SS != 0 {
        // clst is a cluster, so clst2sect does not report an invalid one
        nsect := ClusterToSector(fs.geo, clst) + ofs / SS;
      }
      NoteSize();
      if fptr % SS != 0 {
        res := FillBuffer(nsect);
      }
    }

    // From where the walk begins to the target.
    method SeekOn(clst0: nat, ofs0: nat, ghost j0: nat, ghost target: nat) returns (res: FResult)
      requires AtCluster(j0) && clst0 == clust && err == FR_OK && 0 < ofs0 && fptr + ofs0 == target
      requires target <= MAX_SIZE && (canWrite || target <= objsize) && fptr <= objsize
      modifies this`chain, this`sclust, this`clust, this`fptr, this`objsize, this`modified, this`sect, this`at,
        this`buf, this`dirty, this`err, fs
      ensures fs.Valid() && old(fs.failures) <= fs.failures
      ensures res == err && (res == FR_OK || (res == FR_DISK_ERR && old(fs.failures) < fs.failures)
        || (res == FR_INT_ERR && canWrite && exists c :: IsCluster(fs.geo, c) && fs.Fat()[c] == 1))
      ensures res == FR_OK ==>
        Open() && old(Text()) <= Text() && old(chain) <= chain && objsize == Max(old(objsize), fptr)
      ensures Spared()
      ensures res == FR_OK ==>
        (fptr == target || (canWrite && objsize <= fptr < target && (fs.freeClst == 0 || C.NoneFree(fs.Fat()))))
    {
      hide Entries, Area, Logical, FileSectors, Bytes, C.IsChain, Expand, Terminated, WindowElsewhere, ClusterStart,
        ClusterOffset, SectorCount, SectorAt, ClusterOfSector, Coherent, Spares, Backed;
      var clst, ofs;
      ghost var j;
      res, clst, ofs, j := FollowClusters(clst0, ofs0, j0, target);
      if res != FR_OK || ofs == 0 { return; }
      ghost var s, f, cs := fs.S(), fs.Fat(), chain;
      res := ArriveAt(clst, ofs, j);
      SparesBoth(fs.geo, old(fs.S()), old(fs.Fat()), old(chain), s, f, cs, fs.S(), fs.Fat(), chain);
    }

    // f_lseek without a link map, and not to make one.
    method NormalSeek(ofs: nat) returns (res: FResult)
      requires Open() && err == FR_OK
      modifies this`chain, this`sclust, this`clust, this`fptr, this`objsize, this`modified, this`sect, this`at,
        this`buf, this`dirty, this`err, fs
      ensures fs.Valid() && old(fs.failures) <= fs.failures
      ensures res == err && (res == FR_OK || (res == FR_DISK_ERR && old(fs.failures) < fs.failures)
        || (res == FR_INT_ERR && exists c :: IsCluster(fs.geo, c) && fs.Fat()[c] == 1))
      ensures res == FR_OK ==> Open() && old(Text()) <= Text() && old(chain) <= chain
      ensures Spared()
      ensures res == FR_OK ==> objsize == Max(old(objsize), fptr)
      ensures res == FR_OK ==>
        (fptr == SeekGoal(ofs, old(objsize))
         || (canWrite && objsize <= fptr < SeekGoal(ofs, old(objsize)) && (fs.freeClst == 0 || C.NoneFree(fs.Fat()))))
    {
      hide Entries, Area, Logical, FileSectors, Bytes, C.IsChain, Expand, Terminated, WindowElsewhere, ClusterStart,
        ClusterOffset, SectorCount, SectorAt, ClusterOfSector, Coherent, Spares, Backed;
      var target := if ofs >= 0x1_0000_0000 then MAX_SIZE else ofs;
      if target > objsize && !canWrite {
        target := objsize;
      }
      SparesNothing(fs.geo, fs.S(), fs.Fat(), chain);
      if target == 0 {
        SetPointer(0, clust);
        return FR_OK;
      }
      var clst, rest;
      ghost var j;
      res, clst, rest, j := StartSeek(target);
      if res != FR_OK || clst == 0 { return; }
      ghost var s, f, cs := fs.S(), fs.Fat(), chain;
      res := SeekOn(clst, rest, j, target);
      SparesBoth(fs.geo, old(fs.S()), old(fs.Fat()), old(chain), s, f, cs, fs.S(), fs.Fat(), chain);
    }

    // Where f_lseek is to go: no further than 4 GiB - 1, and to the end of the file when that
    // may not grow.
    function SeekGoal(ofs: nat, size: nat): nat {
      var x := if ofs >= 0x1_0000_0000 then MAX_SIZE else ofs;
      if x > size && !canWrite then size else x
    }

    // f_lseek with a link map.
    method FastSeek(offset: nat) returns (res: FResult)
      requires Open() && err == FR_OK && cltbl != null
      modifies this`clust, this`fptr, this`sect, this`at, this`buf, this`dirty, this`err, fs`store, fs`failures
      ensures fs.Valid() && old(fs.failures) <= fs.failures
      ensures res == err
      ensures (res == FR_OK || (res == FR_DISK_ERR && old(fs.failures) < fs.failures) || res == FR_INT_ERR)
      ensures res == FR_OK ==> Open() && Text() == old(Text())
      ensures Spared()
      ensures res == FR_OK ==> fptr == if offset > objsize then objsize else offset
      // it fails exactly when the map ends before the target
      ensures res == FR_INT_ERR <==>
        var p := if offset > objsize then objsize else offset;
        p > 0 && |Expand(cltbl[..], 1)| <= ClusterOfByte(fs.geo, p - 1)
    {
      hide Entries, Area, Logical, FileSectors, Bytes, C.IsChain, Terminated, WindowElsewhere, ClusterStart,
        SectorCount, SectorAt, ClusterToSector, Backed, Expand, ClusterOfSector, Spares;
      var ofs := if offset > objsize then objsize else offset;
      if ofs == 0 {
        SparesNothing(fs.geo, fs.S(), fs.Fat(), chain);
        SetPointer(0, clust);
        res := FR_OK;
      } else {
        res := FastSeekTo(ofs);
      }
    }

    method FastSeekTo(ofs: nat) returns (res: FResult)
      requires Open() && err == FR_OK && cltbl != null && 0 < ofs <= objsize
      modifies this`clust, this`fptr, this`sect, this`at, this`buf, this`dirty, this`err, fs`store, fs`failures
      ensures fs.Valid() && old(fs.failures) <= fs.failures && Spared()
      ensures res == err
      ensures (res == FR_OK || (res == FR_DISK_ERR && old(fs.failures) < fs.failures) || res == FR_INT_ERR)
      ensures res == FR_OK ==> Open() && Text() == old(Text()) && fptr == ofs
      ensures res == FR_INT_ERR <==> |Expand(cltbl[..], 1)| <= ClusterOfByte(fs.geo, ofs - 1)
    {
      hide Entries, Area, Logical, FileSectors, Bytes, C.IsChain, Terminated, WindowElsewhere, ClusterStart,
        SectorCount, SectorAt, ClusterToSector, Backed, Expand, ClusterOfSector, Spares;
      res := FR_OK;
      SparesNothing(fs.geo, fs.S(), fs.Fat(), chain);
      var cluster := ClmtClust(ofs - 1);
      FastTarget(fs.geo, fs.S(), fs.Fat(), H(), ofs);
      SetPointer(ofs, cluster);
      var dsc := ClusterToSector(fs.geo, clust);
      if dsc == 0 { err := FR_INT_ERR; return err; }
      dsc := dsc + (ofs - 1) / SS % fs.geo.csize;
      if fptr % SS != 0 {
        res := FillBuffer(dsc);
      }
    }

    // f_lseek with a file offset
    method Seek(ofs: nat) returns (res: FResult)
      requires err == FR_OK ==> Open()
      modifies this`chain, this`sclust, this`clust, this`fptr, this`objsize, this`modified, this`sect, this`at,
        this`buf, this`dirty, this`err, fs
      ensures old(err) != FR_OK ==> res == old(err) && unchanged(this) && unchanged(fs)
      ensures old(err) == FR_OK ==> fs.Valid() && Spared() && res == err
      ensures res == FR_OK ==>
        Open() && old(Text()) <= Text() && old(chain) <= chain && objsize == Max(old(objsize), fptr)
      ensures res == FR_OK && ofs <= old(objsize) && ofs <= MAX_SIZE ==> fptr == ofs
      ensures res == FR_OK && cltbl == null ==>
        (fptr == SeekGoal(ofs, old(objsize))
         || (canWrite && objsize <= fptr < SeekGoal(ofs, old(objsize)) && (fs.freeClst == 0 || C.NoneFree(fs.Fat()))))
      ensures res == FR_OK && cltbl != null ==>
        fptr == (if ofs > objsize then objsize else ofs) && Text() == old(Text())
      ensures old(err) == FR_OK ==>
        res == FR_OK || res == FR_INT_ERR || (res == FR_DISK_ERR && old(fs.failures) < fs.failures)
      ensures old(err) == FR_OK && res == FR_INT_ERR && cltbl == null ==>
        exists c :: IsCluster(fs.geo, c) && fs.Fat()[c] == 1
      ensures old(err) == FR_OK && res == FR_INT_ERR && cltbl != null ==>
        var p := if ofs > old(objsize) then old(objsize) else ofs;
        p > 0 && |Expand(cltbl[..], 1)| <= ClusterOfByte(fs.geo, p - 1)
    {
      hide Entries, Area, Logical, FileSectors, Bytes, C.IsChain, Expand, Terminated, WindowElsewhere, ClusterStart,
        SectorCount, SectorAt, Backed, Coherent, ClusterOfSector, Spares;
      if err != FR_OK { return err; }
      if cltbl != null {
        res := FastSeek(ofs);
      } else {
        res := NormalSeek(ofs);
      }
    }

    // ----- f_lseek(CREATE_LINKMAP) -----

    // get_fat in the loop that looks for the end of a fragment: on the i-th cluster of the chain, or
    // on the number one past the last cluster of the volume, which is an error.
    method LinkInRun(clst: nat, ghost i: nat) returns (res: FResult, next: nat)
      requires Ready() && err == FR_OK && if i < |chain| then clst == chain[i] else clst == fs.geo.nFatent
      modifies this`err, fs
      ensures fs.Valid() && fs.Fat() == old(fs.Fat()) && old(fs.failures) <= fs.failures
      ensures res == err && (res == FR_OK || res == FR_DISK_ERR || res == FR_INT_ERR)
      ensures res == FR_DISK_ERR ==> old(fs.failures) < fs.failures
      ensures res != FR_DISK_ERR ==> (res == FR_INT_ERR <==> |chain| <= i)
      ensures res == FR_OK ==> Ready() && Text() == old(Text()) && next == fs.Fat()[clst]
      ensures res == FR_OK ==> if i + 1 < |chain| then next == chain[i + 1] else fs.geo.nFatent <= next
    {
      hide Entries, Area, Logical, FileSectors, Bytes, Expand, Terminated, WindowElsewhere, ClusterStart, Backed;
      ghost var known := i < |chain|;
      if known { LinkAt(fs.geo, fs.S(), fs.Fat(), H(), i + 1); }
      ghost var s, f, h := fs.S(), fs.Fat(), H();
      res := FR_OK;
      next := fs.GetFat(clst);
      if known { LookKeeps(fs.geo, s, fs.S(), f, h); }
      if next <= 1 { err := FR_INT_ERR; return err, next; }
      if next == DISK_ERROR { err := FR_DISK_ERR; return err, next; }
    }

    // One fragment: the run of clusters from `top` on, and what the last of them links to.
    method Fragment(top: nat, ghost k: nat) returns (res: FResult, ncl: nat, cl: nat)
      requires Ready() && err == FR_OK && k < |chain| && top == chain[k]
      modifies this`err, fs
      ensures fs.Valid() && fs.Fat() == old(fs.Fat()) && old(fs.failures) <= fs.failures
      ensures res == err
      ensures res == FR_OK || res == FR_DISK_ERR || res == FR_INT_ERR
      ensures res == FR_DISK_ERR ==> old(fs.failures) < fs.failures
      ensures res == FR_INT_ERR ==> old(C.EndsAmbiguously(fs.Fat(), chain))
      ensures res == FR_OK ==> Ready() && Text() == old(Text()) && 0 < ncl && InRun(chain, k, ncl, top)
      ensures res == FR_OK && k + ncl < |chain| ==>
        cl == chain[k + ncl] != chain[k + ncl - 1] + 1 && cl < fs.geo.nFatent
      ensures res == FR_OK && k + ncl == |chain| ==> fs.geo.nFatent <= cl && !C.EndsAmbiguously(fs.Fat(), chain)
    {
      hide Entries, Area, Logical, FileSectors, Bytes, C.IsChain, Expand, Terminated, WindowElsewhere, ClusterStart,
        SectorCount, SectorAt, Content;
      res, ncl, cl := FR_OK, 0, top;
      ghost var text := Text();
      while true
        invariant fs.Valid() && fs.Fat() == old(fs.Fat()) && old(fs.failures) <= fs.failures
        invariant Ready() && Text() == text && err == res == FR_OK
        invariant InRun(chain, k, ncl, top)
        invariant k + ncl < |chain| ==> cl == chain[k + ncl] == top + ncl
        invariant k + ncl == |chain| ==> C.EndsAmbiguously(fs.Fat(), chain) && cl == fs.geo.nFatent
        decreases |chain| - k - ncl
      {
        var pcl := cl;
        res, cl := LinkInRun(cl, k + ncl);
        if res != FR_OK { return; }
        ncl := ncl + 1;
        if cl != pcl + 1 { return; }
      }
    }

    method StorePair(tbl: array<nat>, t: nat, ncl: nat, tcl: nat, ghost was: seq<nat>, ghost k: nat) returns (next: nat)
      requires t + 2 <= tbl.Length && Stored(was, tbl[..], t, chain, k)
      requires 0 < ncl && InRun(chain, k, ncl, tcl)
      requires k + ncl < |chain| ==> chain[k + ncl] != chain[k + ncl - 1] + 1
      modifies tbl
      ensures next == t + 2 && Stored(was, tbl[..], next, chain, k + ncl)
    {
      hide Stored, Fragments;
      ghost var before: seq<nat> := tbl[..];
      tbl[t] := ncl;
      tbl[t + 1] := tcl;
      assert tbl[..] == before[t := ncl][t + 1 := tcl];
      FragmentStored(was, before, tbl[..], t, chain, k, ncl, tcl);
      next := t + 2;
    }

    // One turn of the loop over the fragments: the fragment at place k, whose top is `top`, is
    // counted, and stored while it fits. The next one starts with cluster `cl`.
    method NextFragment(
        tbl: array<nat>, tlen: nat, top: nat, used: nat, t: nat, ghost was: seq<nat>, ghost k: nat, ghost m: nat)
      returns (res: FResult, ulen: nat, next: nat, cl: nat, ncl: nat, ghost stored: nat)
      requires Ready() && err == FR_OK && k < |chain| && top == chain[k] && (k > 0 ==> top != chain[k - 1] + 1)
      requires 0 < tbl.Length && tlen <= tbl.Length && cltbl == null
      requires used == 2 + 2 * Fragments(chain[..k]) && Stored(was, tbl[..], t, chain, m)
      requires if used <= tlen then m == k && t == used - 1 else t == PairsEnd(tlen)
      modifies tbl, this`err, fs
      ensures fs.Valid() && fs.Fat() == old(fs.Fat()) && old(fs.failures) <= fs.failures
      ensures res == err
      ensures res == FR_OK || res == FR_DISK_ERR || res == FR_INT_ERR
      ensures res == FR_DISK_ERR ==> old(fs.failures) < fs.failures
      ensures res == FR_INT_ERR ==> old(C.EndsAmbiguously(fs.Fat(), chain))
      ensures res == FR_OK ==> Ready() && Text() == old(Text()) && 0 < ncl && k + ncl <= |chain|
      ensures res == FR_OK ==> ulen == 2 + 2 * Fragments(chain[..k + ncl]) && Stored(was, tbl[..], next, chain, stored)
      ensures res == FR_OK ==>
        if ulen <= tlen then stored == k + ncl && next == ulen - 1 else next == PairsEnd(tlen)
      ensures res == FR_OK && k + ncl < |chain| ==>
        cl == chain[k + ncl] != chain[k + ncl - 1] + 1 && cl < fs.geo.nFatent
      ensures res == FR_OK && k + ncl == |chain| ==> fs.geo.nFatent <= cl && !C.EndsAmbiguously(fs.Fat(), chain)
    {
      hide Entries, Area, Logical, FileSectors, Bytes, Expand, Terminated, WindowElsewhere, ClusterStart, SectorCount,
        SectorAt, Coherent, C.IsChain, Backed, Stored, Fragments;
      ulen, next, stored := used + 2, t, m;
      res, ncl, cl := Fragment(top, k);
      if res != FR_OK { return; }
      RunIsFragment(chain, k, ncl, top);
      if ulen <= tlen {
        next := StorePair(tbl, t, ncl, top, was, k);
        stored := k + ncl;
      }
    }

    // The loop over the fragments: the number of items needed, the place behind the last pair stored
    // and, as a ghost, how many clusters the pairs stored stand for.
    method StoreFragments(tbl: array<nat>, tlen: nat) returns (res: FResult, ulen: nat, t: nat, ghost m: nat)
      requires Open() && err == FR_OK && cltbl == null
      requires 0 < tbl.Length && tlen <= tbl.Length
      modifies tbl, this`err, fs
      ensures fs.Valid() && fs.Fat() == old(fs.Fat()) && old(fs.failures) <= fs.failures
      ensures res == err
      ensures res == FR_OK || res == FR_DISK_ERR || res == FR_INT_ERR
      ensures res == FR_DISK_ERR ==> old(fs.failures) < fs.failures
      ensures res == FR_INT_ERR ==> old(C.EndsAmbiguously(fs.Fat(), chain))
      ensures res == FR_OK ==> Ready() && Text() == old(Text()) && !C.EndsAmbiguously(fs.Fat(), chain)
      ensures res == FR_OK ==> ulen == 2 + 2 * Fragments(chain) && Stored(old(tbl[..]), tbl[..], t, chain, m)
      ensures res == FR_OK ==> if ulen <= tlen then m == |chain| && t == ulen - 1 else t == PairsEnd(tlen)
    {
      hide Entries, Area, Logical, FileSectors, Bytes, Expand, Terminated, WindowElsewhere, ClusterStart, SectorCount,
        SectorAt, Coherent, C.IsChain, Backed, Content, Decodes, Stored, Positioned;
      StartOfChain(fs.geo, fs.S(), fs.Fat(), H());
      ghost var was: seq<nat> := tbl[..];
      NothingStored(was, chain);
      res, ulen, t, m := FR_OK, 2, 1, 0;
      ghost var text, amb := Text(), C.EndsAmbiguously(fs.Fat(), chain);
      var cl := sclust;
      if cl == 0 { return; }
      ghost var k := 0;
      assert chain[..0] == [];
      while true
        invariant fs.Valid() && fs.Fat() == old(fs.Fat()) && old(fs.failures) <= fs.failures
        invariant Ready() && Text() == text && err == res == FR_OK && C.EndsAmbiguously(fs.Fat(), chain) == amb
        invariant k < |chain| && cl == chain[k] && (k > 0 ==> cl != chain[k - 1] + 1)
        invariant ulen == 2 + 2 * Fragments(chain[..k]) && Stored(was, tbl[..], t, chain, m)
        invariant if ulen <= tlen then m == k && t == ulen - 1 else t == PairsEnd(tlen)
        decreases |chain| - k
      {
        var ncl;
        res, ulen, t, cl, ncl, m := NextFragment(tbl, tlen, cl, ulen, t, was, k, m);
        if res != FR_OK { return; }
        k := k + ncl;
        if fs.geo.nFatent <= cl { break; }
      }
      assert chain[..k] == chain;
    }

    // The map is put to use.
    method UseMap(tbl: array<nat>)
      requires Open() && cltbl == null
      modifies this`cltbl
      ensures cltbl == tbl && OpenButMap() && BareText() == old(Text())
      ensures Open() <==> Terminated(tbl[..], 1) && Expand(tbl[..], 1) <= chain
      ensures Open() ==> Text() == old(Text())
    {
      hide Entries, Area, Logical, FileSectors, Bytes, Expand, Terminated, WindowElsewhere, ClusterStart, SectorCount,
        SectorAt, C.IsChain,
        Coherent, InChain;
      ghost var h, m := H(), Expand(tbl[..], 1);
      if m <= chain { MapKeeps(fs.geo, fs.S(), fs.Fat(), h, m); }
      cltbl := tbl;
      assert H() == h.(mapped := Some(m)) && Bare() == h;
    }

    // f_lseek(CREATE_LINKMAP): the application has pointed cltbl at a table, the first item of which
    // is the number of items that may be used. When they are too few the table stays in use without
    // a closing zero behind the pairs stored, which stand for the first m clusters. The file can be
    // worked with exactly if what the table held before goes on, behind the last pair that fits, with
    // pairs up to a closing zero that stand for clusters that come next in the chain.
    method CreateLinkMap() returns (res: FResult, ghost m: nat)
      requires OpenButMap() && err == FR_OK
      requires cltbl != null && 0 < cltbl.Length && cltbl[0] <= cltbl.Length
      modifies cltbl, this`cltbl, this`err, fs
      ensures fs.Valid() && fs.Fat() == old(fs.Fat()) && old(fs.failures) <= fs.failures && cltbl == old(cltbl)
      ensures res == FR_OK || res == FR_NOT_ENOUGH_CORE ==>
        err == FR_OK && OpenButMap() && BareText() == old(BareText())
      ensures res == FR_OK || res == FR_NOT_ENOUGH_CORE ==> cltbl[0] == 2 + 2 * Fragments(chain)
      ensures res == FR_OK ==>
        cltbl[0] <= old(cltbl[0]) && Open() && Expand(cltbl[..], 1) == chain && Text() == BareText()
      ensures res == FR_NOT_ENOUGH_CORE ==>
        && old(cltbl[0]) < cltbl[0] && Stored(old(cltbl[..]), cltbl[..], PairsEnd(old(cltbl[0])), chain, m)
        && (Terminated(cltbl[..], 1) <==> Terminated(old(cltbl[..]), PairsEnd(old(cltbl[0]))))
        && var rest := Expand(old(cltbl[..]), PairsEnd(old(cltbl[0])));
           Expand(cltbl[..], 1) == chain[..m] + rest
           && (Open() <==> Terminated(old(cltbl[..]), PairsEnd(old(cltbl[0]))) && chain[..m] + rest <= chain)
      ensures res == FR_INT_ERR ==> old(C.EndsAmbiguously(fs.Fat(), chain))
      ensures old(C.EndsAmbiguously(fs.Fat(), chain)) ==> res == FR_INT_ERR || res == FR_DISK_ERR
      ensures res == FR_OK || res == FR_NOT_ENOUGH_CORE || res == FR_INT_ERR || res == FR_DISK_ERR
      ensures res == FR_DISK_ERR ==> old(fs.failures) < fs.failures
    {
      hide Entries, Area, Logical, FileSectors, Bytes, C.IsChain, Expand, Terminated, WindowElsewhere, ClusterStart,
        SectorCount, SectorAt, Stored, Fragments, PairsEnd;
      var tbl := cltbl;
      // the loop below does not look at cltbl, nor does the invariant of the file while it is null
      cltbl := null;
      res, m := BuildMap(tbl);
      if res == FR_OK || res == FR_NOT_ENOUGH_CORE {
        UseMap(tbl);
      } else {
        cltbl := tbl;
      }
    }

    method BuildMap(tbl: array<nat>) returns (res: FResult, ghost m: nat)
      requires Open() && err == FR_OK && cltbl == null
      requires 0 < tbl.Length && tbl[0] <= tbl.Length
      modifies tbl, this`err, fs
      ensures fs.Valid() && fs.Fat() == old(fs.Fat()) && old(fs.failures) <= fs.failures
      ensures res == FR_OK || res == FR_NOT_ENOUGH_CORE ==> err == FR_OK && Open() && Text() == old(Text())
      ensures res == FR_OK || res == FR_NOT_ENOUGH_CORE ==> tbl[0] == 2 + 2 * Fragments(chain)
      ensures res == FR_OK ==> Terminated(tbl[..], 1) && Expand(tbl[..], 1) == chain && tbl[0] <= old(tbl[0])
      ensures res == FR_NOT_ENOUGH_CORE ==>
        && old(tbl[0]) < tbl[0] && Stored(old(tbl[..]), tbl[..], PairsEnd(old(tbl[0])), chain, m)
        && (Terminated(tbl[..], 1) <==> Terminated(old(tbl[..]), PairsEnd(old(tbl[0]))))
        && Expand(tbl[..], 1) == chain[..m] + Expand(old(tbl[..]), PairsEnd(old(tbl[0])))
      ensures res == FR_INT_ERR ==> old(C.EndsAmbiguously(fs.Fat(), chain))
      ensures old(C.EndsAmbiguously(fs.Fat(), chain)) ==> res == FR_INT_ERR || res == FR_DISK_ERR
      ensures res == FR_OK || res == FR_NOT_ENOUGH_CORE || res == FR_INT_ERR || res == FR_DISK_ERR
      ensures res == FR_DISK_ERR ==> old(fs.failures) < fs.failures
    {
      hide Entries, Area, Logical, FileSectors, Bytes, C.IsChain, Expand, Terminated, WindowElsewhere, ClusterStart,
        SectorCount, SectorAt, Stored, Fragments;
      var tlen := tbl[0];
      ghost var was: seq<nat> := tbl[..];
      var ulen, t;
      res, ulen, t, m := StoreFragments(tbl, tlen);
      if res != FR_OK { return; }
      ghost var items: seq<nat> := tbl[..];
      tbl[0] := ulen;
      assert tbl[..] == items[0 := ulen];
      StoredBehindFirst(was, items, t, chain, m, ulen);
      if ulen <= tlen {
        StoredAndClosed(was, tbl[..], t, chain, m);
        assert chain[..m] == chain;
        items := tbl[..];
        tbl[t] := 0;
        assert tbl[..] == items[t := 0];
      } else {
        res := FR_NOT_ENOUGH_CORE;
        StoredExpands(was, tbl[..], t, chain, m);
      }
    }
  }
}
