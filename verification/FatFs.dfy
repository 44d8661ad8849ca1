// The file system object and the drive it is mounted on: the sector window, and the FAT
// behind it.

module FatVolume {
  import opened Basics
  import opened FatTypes
  import opened Geometry
  import opened FatEntry
  import opened Window
  import C = Chains

  class FatFs {
    const geo: Geo
    // The drive, and how many of its calls have failed so far.
    var store: seq<Sector>
    var failures: nat
    // The disk access window, the sector it shows, and whether it is dirty.
    var win: Sector
    var winsect: nat
    var wflag: bool
    var freeClst: nat            // number of free clusters, above nFatent - 2 when unknown
    var lastClst: nat            // last allocated cluster
    var fsiDirty: bool           // b0 of fsi_flag

    ghost predicate Valid()
      reads this
    {
      Coherent(geo, S()) && freeClst <= DISK_ERROR && lastClst <= DISK_ERROR
    }

    // The drive together with the window.
    ghost function S(): Snap
      reads this
    {
      Snap(store, failures, win, winsect, wflag)
    }

    // The bytes of the FAT, as any reader of it will see them.
    ghost function FatArea(): (a: seq<byte>)
      requires Valid()
      reads this
      ensures |a| == geo.fsize * SS
    {
      Area(geo, Logical(geo, S()))
    }

    // The entries of the FAT.
    ghost function Fat(): (t: seq<nat>)
      requires Valid()
      reads this
      ensures |t| == geo.nFatent && forall c | 0 <= c < |t| :: t[c] < EntryModulus(geo.kind)
    {
      Entries(geo.kind, FatArea(), geo.nFatent)
    }

    constructor (g: Geo, image: seq<Sector>)
      requires FitsDrive(g, |image|)
      ensures Valid() && geo == g && store == image
      ensures winsect == NO_SECTOR && !wflag
    {
      geo := g;
      store := image;
      failures := 0;
      win := seq(SS, _ => 0);
      winsect := NO_SECTOR;
      wflag := false;
      freeClst := DISK_ERROR;
      lastClst := DISK_ERROR;
      fsiDirty := false;
    }

    // disk_read: a failed read yields anything.
    method DiskRead(sect: nat, count: nat) returns (ok: bool, data: seq<Sector>)
      modifies this`failures
      ensures old(failures) <= failures && (ok <==> failures == old(failures))
      ensures |data| == count
      ensures ok ==> sect + count <= |store| && data == store[sect..sect + count]
    {
      var fault: bool := *;
      ok := !fault && sect + count <= |store|;
      if ok {
        data := store[sect..sect + count];
      } else {
        data := Noise(count);
        failures := failures + 1;
      }
    }

    // disk_write: a failed write leaves anything in the addressed sectors, and only there.
    method DiskWrite(sect: nat, data: seq<Sector>) returns (ok: bool)
      modifies this`store, this`failures
      ensures old(failures) <= failures && (ok <==> failures == old(failures))
      ensures |store| == |old(store)|
      ensures ok ==> sect + |data| <= |store|
      ensures ok ==> forall s | sect <= s < sect + |data| :: store[s] == data[s - sect]
      ensures forall s | 0 <= s < |store| && !(sect <= s < sect + |data|) :: store[s] == old(store)[s]
    {
      var fault: bool := *;
      ok := !fault && sect + |data| <= |store|;
      var now, before := data, store;
      if !ok {
        now := Noise(|data|);
        failures := failures + 1;
      }
      store := seq(|before|, s requires 0 <= s < |before| =>
        if sect <= s < sect + |data| then now[s - sect] else before[s]);
    }

    // The two writes of sync_window. A failure of the one to the second FAT is ignored, as in
    // the source.
    method WriteBack() returns (written: bool)
      requires Valid() && winsect < |store|
      modifies this`store, this`failures
      ensures WroteBack(geo, old(S()), store, failures, written)
    {
      written := DiskWrite(winsect, [win]);
      if !written { return; }
      // winsect - fatbase < fsize in unsigned arithmetic
      if (winsect - geo.fatBase) % LBA_MODULUS < geo.fsize {
        assert InFat(geo, winsect);
        if geo.nFats == 2 {
          var _ := DiskWrite(winsect + geo.fsize, [win]);
        }
      }
    }

    // sync_window: writes a dirty window back.
    method SyncWindow() returns (res: FResult)
      requires Valid()
      modifies this`wflag, this`store, this`failures
      ensures Valid() && Quiet(geo, old(S()), S())
      ensures res == FR_OK || (res == FR_DISK_ERR && old(failures) < failures)
      ensures res == FR_OK ==> !wflag
    {
      res := FR_OK;
      if wflag {
        ghost var s0 := S();
        var written := WriteBack();
        WriteBackIsQuiet(geo, s0, store, failures, written);
        if written {
          wflag := false;
        } else {
          res := FR_DISK_ERR;
        }
      }
    }

    // move_window: makes sector `sect` appear in the window. Whatever happens, the logical
    // sectors are as they were.
    method MoveWindow(sect: nat) returns (res: FResult)
      requires Valid() && !InMirror(geo, sect) && sect < |store|
      modifies this`wflag, this`winsect, this`win, this`store, this`failures
      ensures Valid() && Logical(geo, S()) == Logical(geo, old(S()))
      ensures sect < geo.dataBase ==> Quiet(geo, old(S()), S())
      ensures res == FR_OK || (res == FR_DISK_ERR && old(failures) < failures)
      ensures res == FR_OK ==> winsect == sect && win == Logical(geo, S())[sect]
      ensures old(failures) <= failures
      ensures failures == old(failures) && Mirrored(geo, old(store)) ==> Mirrored(geo, store)
    {
      hide Logical;
      res := FR_OK;
      ghost var s0 := S();
      QuietReflexive(geo, s0);
      if sect != winsect {
        res := SyncWindow();
        if res == FR_OK {
          ghost var s1 := S();
          var ok, data := DiskRead(sect, 1);
          win := data[0];
          if ok {
            winsect := sect;
          } else {
            winsect := NO_SECTOR;
            res := FR_DISK_ERR;
          }
          WindowMoved(geo, s1, win, failures, sect, ok);
          if sect < geo.dataBase { QuietTransitive(geo, s0, s1, S()); }
        }
      } else {
        WindowShown(geo, s0);
      }
    }

    // The window on the sector that holds byte i of the FAT.
    method MoveToFatByte(i: nat) returns (res: FResult)
      requires Valid() && i < geo.fsize * SS
      modifies this`wflag, this`winsect, this`win, this`store, this`failures
      ensures Valid() && Quiet(geo, old(S()), S()) && FatArea() == old(FatArea())
      ensures res == FR_OK || (res == FR_DISK_ERR && old(failures) < failures)
      ensures res == FR_OK ==> winsect == geo.fatBase + i / SS && Shows(win, FatArea(), i)
    {
      res := MoveWindow(geo.fatBase + i / SS);
    }

    // One byte of the FAT, through the window.
    method LoadFatByte(i: nat) returns (res: FResult, b: byte)
      requires Valid() && i < geo.fsize * SS
      modifies this`wflag, this`winsect, this`win, this`store, this`failures
      ensures Valid() && Quiet(geo, old(S()), S()) && FatArea() == old(FatArea())
      ensures res == FR_OK || (res == FR_DISK_ERR && old(failures) < failures)
      ensures res == FR_OK ==> winsect == geo.fatBase + i / SS && b == FatArea()[i]
    {
      res := MoveToFatByte(i);
      b := win[i % SS];
    }

    // get_fat: 1 for a number that is no cluster, 0xFFFFFFFF for a disk error.
    method GetFat(clst: nat) returns (val: nat)
      requires Valid()
      modifies this`wflag, this`winsect, this`win, this`store, this`failures
      ensures Valid() && Quiet(geo, old(S()), S()) && Fat() == old(Fat())
      ensures !IsCluster(geo, clst) ==> val == 1
      ensures IsCluster(geo, clst) ==> val == Fat()[clst] || (val == DISK_ERROR && old(failures) < failures)
    {
      if !IsCluster(geo, clst) {
        return 1;
      }
      EntriesAt(geo.kind, FatArea(), geo.nFatent, clst);
      val := DISK_ERROR;
      match geo.kind
      case FAT12 => val := GetFat12(clst);
      case FAT16 => val := GetFat16(clst);
      case FAT32 => val := GetFat32(clst);
    }

    method GetFat12(clst: nat) returns (val: nat)
      requires Valid() && geo.kind == FAT12 && IsCluster(geo, clst)
      modifies this`wflag, this`winsect, this`win, this`store, this`failures
      ensures Valid() && Quiet(geo, old(S()), S()) && FatArea() == old(FatArea())
      ensures val == Entry(FAT12, FatArea(), clst) || (val == DISK_ERROR && old(failures) < failures)
    {
      ghost var s0, a := S(), FatArea();
      val := DISK_ERROR;
      var bc := clst + clst / 2;
      var res, first := LoadFatByte(bc);
      if res != FR_OK { return; }
      bc := bc + 1;
      ghost var s1 := S();
      var second;
      res, second := LoadFatByte(bc);
      QuietTransitive(geo, s0, s1, S());
      if res != FR_OK { return; }
      val := Unpack12(clst, first, second);
    }

    method GetFat16(clst: nat) returns (val: nat)
      requires Valid() && geo.kind == FAT16 && IsCluster(geo, clst)
      modifies this`wflag, this`winsect, this`win, this`store, this`failures
      ensures Valid() && Quiet(geo, old(S()), S()) && FatArea() == old(FatArea())
      ensures val == Entry(FAT16, FatArea(), clst) || (val == DISK_ERROR && old(failures) < failures)
    {
      val := DISK_ERROR;
      var res := MoveToFatByte(2 * clst);
      if res != FR_OK { return; }
      EntryInSector16(win, FatArea(), clst);
      var i := 2 * clst % SS;
      val := Word(win[i], win[i + 1]);
    }

    method GetFat32(clst: nat) returns (val: nat)
      requires Valid() && geo.kind == FAT32 && IsCluster(geo, clst)
      modifies this`wflag, this`winsect, this`win, this`store, this`failures
      ensures Valid() && Quiet(geo, old(S()), S()) && FatArea() == old(FatArea())
      ensures val == Entry(FAT32, FatArea(), clst) || (val == DISK_ERROR && old(failures) < failures)
    {
      val := DISK_ERROR;
      var res := MoveToFatByte(4 * clst);
      if res != FR_OK { return; }
      EntryInSector32(win, FatArea(), clst);
      var i := 4 * clst % SS;
      val := Dword(win[i], win[i + 1], win[i + 2], win[i + 3]) % 0x1000_0000;
    }

    // A store into the window while it shows the sector of the FAT with byte i.
    method StoreFatByte(i: nat, v: byte)
      requires Valid() && i < geo.fsize * SS && winsect == geo.fatBase + i / SS
      modifies this`wflag, this`win
      ensures Valid() && Steady(geo, old(S()), S())
      ensures FatArea() == old(FatArea())[i := v]
    {
      EditShows(geo, S(), i % SS, v);
      AreaOfSetByte(geo, Logical(geo, S()), i, v);
      win := win[i % SS := v];
      wflag := true;
    }

    // st_word
    method StoreFatWord(i: nat, lo: byte, hi: byte)
      requires Valid() && i + 1 < geo.fsize * SS && winsect == geo.fatBase + i / SS && (i + 1) / SS == i / SS
      modifies this`wflag, this`win
      ensures Valid() && Steady(geo, old(S()), S())
      ensures FatArea() == SetWord(old(FatArea()), i, lo, hi)
    {
      ghost var s0 := S();
      StoreFatByte(i, lo);
      ghost var s1 := S();
      StoreFatByte(i + 1, hi);
      SteadyTransitive(geo, s0, s1, S());
    }

    // put_fat
    method PutFat(clst: nat, val: nat) returns (res: FResult)
      requires Valid()
      modifies this`wflag, this`winsect, this`win, this`store, this`failures
      ensures Valid() && Steady(geo, old(S()), S())
      ensures !IsCluster(geo, clst) ==> res == FR_INT_ERR && S() == old(S())
      ensures IsCluster(geo, clst) ==> res == FR_OK || (res == FR_DISK_ERR && old(failures) < failures)
      ensures res == FR_OK ==> Fat() == old(Fat())[clst := Masked(geo.kind, val)]
      ensures res == FR_DISK_ERR ==> Fat() == old(Fat())[clst := Fat()[clst]]
    {
      hide Steady, Logical, Area, PutEntry, Entries;
      QuietReflexive(geo, S());
      if !IsCluster(geo, clst) {
        return FR_INT_ERR;
      }
      ghost var a := FatArea();
      match geo.kind
      case FAT12 =>
        res := PutFat12(clst, val);
        EntriesOfHalfPut(a, geo.nFatent, clst, val);
        EntriesOfPut(FAT12, a, geo.nFatent, clst, val);
      case FAT16 =>
        res := PutFat16(clst, val);
        EntriesOfPut(FAT16, a, geo.nFatent, clst, val);
      case FAT32 =>
        res := PutFat32(clst, val);
        EntriesOfPut(FAT32, a, geo.nFatent, clst, val);
    }

    method PutFat12(clst: nat, val: nat) returns (res: FResult)
      requires Valid() && geo.kind == FAT12 && IsCluster(geo, clst)
      modifies this`wflag, this`winsect, this`win, this`store, this`failures
      ensures Valid() && Steady(geo, old(S()), S())
      ensures res == FR_OK || (res == FR_DISK_ERR && old(failures) < failures)
      ensures res == FR_OK ==> FatArea() == PutEntry(FAT12, old(FatArea()), clst, val)
      ensures res != FR_OK ==> FatArea() == old(FatArea()) || FatArea() == PutFirst12(old(FatArea()), clst, val)
    {
      ghost var s0 := S();
      res := PutFirstByte12(clst, val);
      if res != FR_OK { return; }
      ghost var s1 := S();
      res := PutSecondByte12(clst, val);
      SteadyTransitive(geo, s0, s1, S());
    }

    method PutFirstByte12(clst: nat, val: nat) returns (res: FResult)
      requires Valid() && geo.kind == FAT12 && IsCluster(geo, clst)
      modifies this`wflag, this`winsect, this`win, this`store, this`failures
      ensures Valid() && Steady(geo, old(S()), S())
      ensures res == FR_OK || (res == FR_DISK_ERR && old(failures) < failures)
      ensures FatArea() == if res == FR_OK then PutFirst12(old(FatArea()), clst, val) else old(FatArea())
    {
      hide Steady, Logical, Area, FirstByte12;
      var bc := clst + clst / 2;
      ghost var s0 := S();
      var b0;
      res, b0 := LoadFatByte(bc);
      if res != FR_OK { return; }
      ghost var s1 := S();
      StoreFatByte(bc, FirstByte12(clst, b0, val));
      SteadyTransitive(geo, s0, s1, S());
    }

    method PutSecondByte12(clst: nat, val: nat) returns (res: FResult)
      requires Valid() && geo.kind == FAT12 && IsCluster(geo, clst)
      modifies this`wflag, this`winsect, this`win, this`store, this`failures
      ensures Valid() && Steady(geo, old(S()), S())
      ensures res == FR_OK || (res == FR_DISK_ERR && old(failures) < failures)
      ensures FatArea() == if res == FR_OK then PutSecond12(old(FatArea()), clst, val) else old(FatArea())
    {
      hide Steady, Logical, Area, SecondByte12;
      var bc := clst + clst / 2 + 1;
      ghost var s0 := S();
      var b1;
      res, b1 := LoadFatByte(bc);
      if res != FR_OK { return; }
      ghost var s1 := S();
      StoreFatByte(bc, SecondByte12(clst, b1, val));
      SteadyTransitive(geo, s0, s1, S());
    }

    method PutFat16(clst: nat, val: nat) returns (res: FResult)
      requires Valid() && geo.kind == FAT16 && IsCluster(geo, clst)
      modifies this`wflag, this`winsect, this`win, this`store, this`failures
      ensures Valid() && Steady(geo, old(S()), S())
      ensures res == FR_OK || (res == FR_DISK_ERR && old(failures) < failures)
      ensures res == FR_OK ==> FatArea() == PutEntry(FAT16, old(FatArea()), clst, val)
      ensures res != FR_OK ==> FatArea() == old(FatArea())
    {
      hide Steady, Logical, Area, Quiet, Shows;
      var b := 2 * clst;
      ghost var s0 := S();
      res := MoveToFatByte(b);
      if res != FR_OK { return; }
      ghost var s1 := S();
      StoreFatWord(b, val % 0x100, val / 0x100 % 0x100);
      SteadyTransitive(geo, s0, s1, S());
    }

    method PutFat32(clst: nat, val: nat) returns (res: FResult)
      requires Valid() && geo.kind == FAT32 && IsCluster(geo, clst)
      modifies this`wflag, this`winsect, this`win, this`store, this`failures
      ensures Valid() && Steady(geo, old(S()), S())
      ensures res == FR_OK || (res == FR_DISK_ERR && old(failures) < failures)
      ensures res == FR_OK ==> FatArea() == PutEntry(FAT32, old(FatArea()), clst, val)
      ensures res != FR_OK ==> FatArea() == old(FatArea())
    {
      hide Steady, Logical, Area;
      var b := 4 * clst;
      ghost var s0, a := S(), FatArea();
      Within4(clst, 1); Within4(clst, 2); Within4(clst, 3);
      res := MoveToFatByte(b);
      if res != FR_OK { return; }
      EntryInSector32(win, a, clst);
      var top := win[b % SS + 3];
      ghost var s1 := S();
      StoreFatWord(b, val % 0x100, val / 0x100 % 0x100);
      SteadyTransitive(geo, s0, s1, S());
      ghost var s2 := S();
      StoreFatWord(b + 2, val / 0x1_0000 % 0x100, LastByte32(top, val));
      SteadyTransitive(geo, s0, s2, S());
    }

    // The cached count of free clusters is the number of free entries.
    ghost predicate CountExact()
      requires Valid()
      reads this
    {
      freeClst == C.FreeCount(Fat(), 2)
    }

    // What one loop iteration of remove_chain does to cluster c once its entry is known.
    method FreeCluster(c: nat) returns (res: FResult)
      requires Valid() && IsCluster(geo, c) && 2 <= Fat()[c]
      modifies this`wflag, this`winsect, this`win, this`store, this`failures, this`freeClst, this`fsiDirty
      ensures Valid() && Steady(geo, old(S()), S())
      ensures res == FR_OK || (res == FR_DISK_ERR && old(failures) < failures)
      ensures res == FR_OK ==> Fat() == old(Fat())[c := 0]
      ensures res != FR_OK ==> Fat() == old(Fat())[c := Fat()[c]]
      ensures res == FR_OK && old(CountExact()) ==> CountExact()
      ensures geo.nFatent - 2 < old(freeClst) ==> freeClst == old(freeClst)
    {
      hide Entries, Area, Logical, Steady;
      C.FreeCountOfUpdate(Fat(), 2, c, 0);
      C.FreeCountBound(Fat()[c := 0], 2);
      MaskedFacts(geo, 0);
      res := PutFat(c, 0);
      if res != FR_OK { return; }
      if freeClst < geo.nFatent - 2 {
        freeClst := freeClst + 1;
        fsiDirty := true;
      }
    }

    // The loop of remove_chain. It terminates for every content of the FAT, cyclic chains
    // included: each iteration that continues turns a non-zero entry into zero.
    method FreeFrom(clst: nat) returns (res: FResult)
      requires Valid() && IsCluster(geo, clst)
      modifies this`wflag, this`winsect, this`win, this`store, this`failures, this`freeClst, this`fsiDirty
      ensures Valid() && Steady(geo, old(S()), S())
      ensures res == FR_OK || res == FR_INT_ERR || (res == FR_DISK_ERR && old(failures) < failures)
      ensures res != FR_DISK_ERR ==> Fat() == C.Cleared(old(Fat()), C.Freed(old(Fat()), clst))
      ensures res != FR_DISK_ERR ==> (res == FR_OK <==> C.WalkEnds(old(Fat()), clst))
      ensures forall d | 0 <= d < geo.nFatent && d !in C.Freed(old(Fat()), clst) :: Fat()[d] == old(Fat())[d]
      ensures res != FR_DISK_ERR && old(CountExact()) ==> CountExact()
      ensures geo.nFatent - 2 < old(freeClst) ==> freeClst == old(freeClst)
    {
      hide Entries, Area, Logical, Steady, WellFormed, Coherent, C.FreeCount;
      QuietReflexive(geo, S());
      ghost var f1, s0 := Fat(), S();
      ghost var freed := C.Freed(f1, clst);
      var c := clst;
      while true
        invariant Valid() && Steady(geo, s0, S()) && IsCluster(geo, c)
        invariant C.Cleared(Fat(), C.Freed(Fat(), c)) == C.Cleared(f1, freed)
        invariant C.WalkEnds(Fat(), c) == C.WalkEnds(f1, clst)
        invariant C.Freed(Fat(), c) <= freed
        invariant forall d | 0 <= d < geo.nFatent && d !in freed :: Fat()[d] == f1[d]
        invariant old(CountExact()) ==> CountExact()
        invariant geo.nFatent - 2 < old(freeClst) ==> freeClst == old(freeClst)
        decreases geo.nFatent - C.FreeCount(Fat(), 0)
      {
        ghost var s1, f := S(), Fat();
        var nxt := GetFat(c);
        SteadyTransitive(geo, s0, s1, S());
        if nxt == DISK_ERROR { return FR_DISK_ERR; }
        if nxt == 0 { return FR_OK; }
        if nxt == 1 { return FR_INT_ERR; }
        C.FreedStep(f, c);
        ghost var s2 := S();
        res := FreeCluster(c);
        SteadyTransitive(geo, s0, s2, S());
        if res != FR_OK { return; }
        if geo.nFatent <= nxt { return; }
        c := nxt;
      }
    }

    // remove_chain: frees what is reached from clst, after making pclst (unless 0) the end of
    // its chain.
    method RemoveChain(clst: nat, pclst: nat) returns (res: FResult)
      requires Valid()
      modifies this`wflag, this`winsect, this`win, this`store, this`failures, this`freeClst, this`fsiDirty
      ensures Valid() && Steady(geo, old(S()), S())
      ensures res == FR_OK || res == FR_INT_ERR || (res == FR_DISK_ERR && old(failures) < failures)
      ensures !IsCluster(geo, clst) || (pclst != 0 && !IsCluster(geo, pclst)) ==>
        res == FR_INT_ERR && Fat() == old(Fat())
      ensures IsCluster(geo, clst) && (pclst == 0 || IsCluster(geo, pclst)) ==>
        var f1 := if pclst == 0 then old(Fat()) else old(Fat())[pclst := EndMark(geo.kind)];
        && (res != FR_DISK_ERR ==> Fat() == C.Cut(old(Fat()), clst, pclst, EndMark(geo.kind)))
        && (res != FR_DISK_ERR ==> (res == FR_OK <==> C.WalkEnds(f1, clst)))
        && forall d | 0 <= d < geo.nFatent && d != pclst && d !in C.Freed(f1, clst) :: Fat()[d] == old(Fat())[d]
      ensures res != FR_DISK_ERR && old(CountExact()) ==>
        (pclst == 0 || (IsCluster(geo, pclst) && old(Fat())[pclst] != 0)) ==> CountExact()
      ensures geo.nFatent - 2 < old(freeClst) ==> freeClst == old(freeClst)
    {
      hide Entries, Area, Logical;
      if !IsCluster(geo, clst) {
        return FR_INT_ERR;
      }
      ghost var s0 := S();
      if pclst != 0 {
        if IsCluster(geo, pclst) { C.FreeCountOfUpdate(Fat(), 2, pclst, EndMark(geo.kind)); }
        MaskedFacts(geo, 0);
        res := PutFat(pclst, DISK_ERROR);
        if res != FR_OK { return; }
      }
      ghost var s1 := S();
      res := FreeFrom(clst);
      SteadyTransitive(geo, s0, s1, S());
    }

    // The search of create_chain: 0 when no cluster is free, 1 when it meets an entry 1.
    method FindFree(scl: nat) returns (ncl: nat)
      requires Valid() && 1 <= scl < geo.nFatent
      modifies this`wflag, this`winsect, this`win, this`store, this`failures
      ensures Valid() && Quiet(geo, old(S()), S()) && Fat() == old(Fat())
      ensures ncl == 0 ==> C.NoneFree(Fat())
      ensures ncl == 1 ==> exists c :: IsCluster(geo, c) && Fat()[c] == 1
      ensures ncl == DISK_ERROR ==> old(failures) < failures
      ensures ncl != 0 && ncl != 1 && ncl != DISK_ERROR ==> C.FirstFreeAfter(Fat(), scl, ncl)
    {
      hide Entries, Area, Logical, Steady;
      QuietReflexive(geo, S());
      ghost var s0, f := S(), Fat();
      ghost var wrapped := false;
      ncl := scl;
      while true
        invariant Valid() && Quiet(geo, s0, S()) && Fat() == f
        invariant if wrapped then 2 <= ncl < scl else scl <= ncl < geo.nFatent
        invariant C.Searched(f, scl, ncl, wrapped)
        decreases !wrapped, geo.nFatent - ncl
      {
        ghost var at := ncl;
        ncl := ncl + 1;
        if geo.nFatent <= ncl {
          C.SearchedWraps(f, scl);
          ncl := 2;
          wrapped, at := true, 1;
          if scl < ncl { return 0; }
        }
        ghost var s1 := S();
        var cs := GetFat(ncl);
        QuietTransitive(geo, s0, s1, S());
        if cs == 0 {
          C.SearchedFinds(f, scl, at, wrapped, ncl);
          return;
        }
        if cs == 1 || cs == DISK_ERROR { return cs; }
        C.SearchedGrows(f, scl, at, wrapped);
        if ncl == scl {
          C.SearchedAll(f, scl);
          return 0;
        }
      }
    }

    // The choice of create_chain: the cluster after the one to stretch if that is free, or
    // else the first free one after the suggested cluster.
    method PickCluster(clst: nat, suggested: nat) returns (ncl: nat)
      requires Valid() && 1 <= suggested < geo.nFatent && (clst != 0 ==> suggested == clst)
      modifies this`wflag, this`winsect, this`win, this`store, this`failures
      ensures Valid() && Quiet(geo, old(S()), S()) && Fat() == old(Fat())
      ensures ncl == 0 ==> C.NoneFree(Fat())
      ensures ncl == 1 ==> exists c :: IsCluster(geo, c) && Fat()[c] == 1
      ensures ncl == DISK_ERROR ==> old(failures) < failures
      ensures ncl != 0 && ncl != 1 && ncl != DISK_ERROR ==>
        exists s :: 1 <= s < geo.nFatent && C.FirstFreeAfter(Fat(), s, ncl) && (s == suggested || s == lastClst)
      ensures ncl != 0 && ncl != 1 && ncl != DISK_ERROR && clst == 0 ==> C.FirstFreeAfter(Fat(), suggested, ncl)
      ensures ncl != 0 && ncl != 1 && ncl != DISK_ERROR && clst != 0 ==>
        var next := if clst + 1 < geo.nFatent then clst + 1 else 2;
        Fat()[next] != 0 ==> C.FirstFreeAfter(Fat(), if 2 <= lastClst < geo.nFatent then lastClst else clst, ncl)
      ensures clst != 0 && ncl != DISK_ERROR ==>
        var next := if clst + 1 < geo.nFatent then clst + 1 else 2; Fat()[next] == 0 ==> ncl == next
    {
      hide Entries, Area, Logical, Steady;
      ghost var s0 := S();
      EndMarkEndsChains(geo);
      var scl := suggested;
      ncl := 0;
      if scl == clst {
        ncl := scl + 1;
        if geo.nFatent <= ncl { ncl := 2; }
        var cs := GetFat(ncl);
        if cs == 1 || cs == DISK_ERROR { return cs; }
        if cs != 0 {
          cs := lastClst;
          if 2 <= cs < geo.nFatent { scl := cs; }
          ncl := 0;
        } else {
          assert C.FirstFreeAfter(Fat(), suggested, ncl);
        }
      }
      if ncl == 0 {
        ghost var s1 := S();
        ncl := FindFree(scl);
        QuietTransitive(geo, s0, s1, S());
      }
    }

    // What create_chain gives back when it neither follows a link nor fails: the cluster ncl,
    // free before, is the end of the chain of clst (0: is a chain of its own).
    ghost predicate Took(f0: seq<nat>, clst: nat, ncl: nat)
      requires Valid()
      reads this
    {
      && |f0| == geo.nFatent && IsCluster(geo, ncl) && (clst == 0 || IsCluster(geo, clst))
      && f0[ncl] == 0
      && Fat() == C.Linked(f0, clst, ncl, EndMark(geo.kind))
    }

    // The last part of create_chain: ncl is marked, linked and accounted for.
    method TakeCluster(clst: nat, cluster: nat) returns (ncl: nat)
      requires Valid() && IsCluster(geo, cluster) && Fat()[cluster] == 0
      requires clst == 0 || (IsCluster(geo, clst) && Fat()[clst] != 0)
      requires freeClst != 0
      modifies this`wflag, this`winsect, this`win, this`store, this`failures, this`freeClst, this`lastClst,
        this`fsiDirty
      ensures Valid() && Steady(geo, old(S()), S())
      ensures ncl == cluster || (ncl == DISK_ERROR && old(failures) < failures)
      ensures ncl == cluster ==> Took(old(Fat()), clst, ncl) && lastClst == ncl && fsiDirty
      ensures forall d | 0 <= d < geo.nFatent && d != clst && old(Fat())[d] != 0 :: Fat()[d] == old(Fat())[d]
      ensures ncl == cluster && old(CountExact()) ==> CountExact()
      ensures geo.nFatent - 2 < old(freeClst) ==> freeClst == old(freeClst)
    {
      hide Entries, Area, Logical, Steady, WellFormed, C.FreeCount;
      ghost var s0, f := S(), Fat();
      MaskedFacts(geo, cluster);
      C.FreeCountOfUpdate(f, 2, cluster, EndMark(geo.kind));
      C.FreeCountBound(f, 2);
      if clst != 0 { C.FreeCountOfUpdate(f[cluster := EndMark(geo.kind)], 2, clst, cluster); }
      ncl := cluster;
      var res := PutFat(ncl, DISK_ERROR);
      if res == FR_OK && clst != 0 {
        ghost var s1 := S();
        res := PutFat(clst, ncl);
        SteadyTransitive(geo, s0, s1, S());
      }
      if res == FR_OK {
        lastClst := ncl;
        if freeClst <= geo.nFatent - 2 {
          freeClst := freeClst - 1;
        }
        fsiDirty := true;
      } else {
        // the only failure left is that of the disk
        assert res == FR_DISK_ERR;
        ncl := DISK_ERROR;
      }
    }

    // create_chain is not given a link to follow.
    ghost predicate Allocates(f: seq<nat>, clst: nat)
      requires |f| == geo.nFatent
    {
      clst == 0 || (IsCluster(geo, clst) && geo.nFatent <= f[clst])
    }

    // create_chain: 0 for no free cluster, 1 for an internal error, 0xFFFFFFFF for a disk error.
    method CreateChain(clst: nat) returns (ncl: nat)
      requires Valid()
      modifies this`wflag, this`winsect, this`win, this`store, this`failures, this`freeClst, this`lastClst,
        this`fsiDirty
      ensures Valid() && Steady(geo, old(S()), S())
      ensures ncl == DISK_ERROR ==> old(failures) < failures
      ensures ncl == DISK_ERROR ==>
        forall d | 0 <= d < geo.nFatent && d != clst && old(Fat())[d] != 0 :: Fat()[d] == old(Fat())[d]
      // what it was asked to stretch is no cluster in use
      ensures clst != 0 && !(IsCluster(geo, clst) && 2 <= old(Fat())[clst]) ==> ncl == 1 || ncl == DISK_ERROR
      ensures ncl == 0 || ncl == 1 ==> Fat() == old(Fat()) && freeClst == old(freeClst) && lastClst == old(lastClst)
      // it follows a link
      ensures clst != 0 && IsCluster(geo, clst) && 2 <= old(Fat())[clst] < geo.nFatent && ncl != DISK_ERROR ==>
        ncl == old(Fat())[clst] && Fat() == old(Fat()) && freeClst == old(freeClst)
      // it allocates
      ensures Allocates(old(Fat()), clst) && 2 <= ncl && ncl != DISK_ERROR ==>
        Took(old(Fat()), clst, ncl) && lastClst == ncl
      // the cluster behind if that is free, or else the first free one met from clst or from the
      // last one allocated
      ensures Allocates(old(Fat()), clst) && 2 <= ncl && ncl != DISK_ERROR ==>
        exists s :: C.FirstFreeAfter(old(Fat()), s, ncl)
                    && (s == clst != 0 || s == old(lastClst) || (clst == 0 && s == 1))
      ensures clst == 0 && 2 <= ncl && ncl != DISK_ERROR ==>
        var last := old(lastClst);
        C.FirstFreeAfter(old(Fat()), if last == 0 || geo.nFatent <= last then 1 else last, ncl)
      ensures IsCluster(geo, clst) && geo.nFatent <= old(Fat())[clst] && 2 <= ncl && ncl != DISK_ERROR ==>
        var next := if clst + 1 < geo.nFatent then clst + 1 else 2;
        old(Fat())[next] != 0 ==>
          C.FirstFreeAfter(old(Fat()), if 2 <= old(lastClst) < geo.nFatent then old(lastClst) else clst, ncl)
      ensures IsCluster(geo, clst) && geo.nFatent <= old(Fat())[clst] && 2 <= ncl && ncl != DISK_ERROR ==>
        var next := if clst + 1 < geo.nFatent then clst + 1 else 2; old(Fat())[next] == 0 ==> ncl == next
      // it gives up exactly when no cluster is free, or none is by the cached count
      ensures Allocates(old(Fat()), clst) && old(freeClst) == 0 ==> ncl == 0 || ncl == DISK_ERROR
      ensures ncl == 0 ==> old(freeClst) == 0 || C.NoneFree(old(Fat()))
      ensures ncl == 1 && (clst == 0 || (IsCluster(geo, clst) && 2 <= old(Fat())[clst])) ==>
        exists c :: IsCluster(geo, c) && old(Fat())[c] == 1
      ensures ncl != DISK_ERROR && old(CountExact()) ==> CountExact()
      ensures geo.nFatent - 2 < old(freeClst) ==> freeClst == old(freeClst)
    {
      hide Entries, Area, Logical, Steady;
      QuietReflexive(geo, S());
      ghost var s0 := S();
      EndMarkEndsChains(geo);
      var scl;
      if clst == 0 {
        scl := lastClst;
        if scl == 0 || geo.nFatent <= scl { scl := 1; }
      } else {
        var cs := GetFat(clst);
        if cs < 2 { return 1; }
        if cs == DISK_ERROR { return cs; }
        if cs < geo.nFatent { return cs; }
        scl := clst;
      }
      if freeClst == 0 { return 0; }
      ghost var s1 := S();
      ncl := PickCluster(clst, scl);
      SteadyTransitive(geo, s0, s1, S());
      if ncl == 0 || ncl == 1 || ncl == DISK_ERROR { return; }
      ghost var s2 := S();
      ncl := TakeCluster(clst, ncl);
      SteadyTransitive(geo, s0, s2, S());
    }

    // f_getfree: the cached count when it is valid, or else a scan of the FAT. On FAT12 the
    // scan starts at cluster 2; on FAT16 and FAT32 it takes in entries 0 and 1 as well.
    method GetFree() returns (res: FResult, nclst: nat)
      requires Valid()
      modifies this`wflag, this`winsect, this`win, this`store, this`failures, this`freeClst, this`fsiDirty
      ensures Valid() && Quiet(geo, old(S()), S()) && Fat() == old(Fat())
      ensures res == FR_DISK_ERR ==> old(failures) < failures
      ensures res == FR_INT_ERR ==> geo.kind == FAT12 && exists c :: IsCluster(geo, c) && Fat()[c] == 1
      ensures res == FR_OK || res == FR_DISK_ERR || res == FR_INT_ERR
      ensures res == FR_OK ==> nclst == freeClst
      ensures old(freeClst) <= geo.nFatent - 2 ==> res == FR_OK && freeClst == old(freeClst)
      ensures res == FR_OK && geo.nFatent - 2 < old(freeClst) ==>
        (CountExact() <==> geo.kind == FAT12 || (Fat()[0] != 0 && Fat()[1] != 0))
    {
      hide Entries, Area, Logical, Steady;
      QuietReflexive(geo, S());
      if freeClst <= geo.nFatent - 2 {
        return FR_OK, freeClst;
      }
      C.FreeCountFromZero(Fat());
      C.FreeCountBound(Fat(), 0);
      if geo.kind == FAT12 {
        res, nclst := ScanByCluster();
      } else {
        res, nclst := ScanBySector();
      }
      if res == FR_OK {
        freeClst := nclst;
        fsiDirty := true;
      }
    }

    method ScanByCluster() returns (res: FResult, nfree: nat)
      requires Valid()
      modifies this`wflag, this`winsect, this`win, this`store, this`failures
      ensures Valid() && Quiet(geo, old(S()), S()) && Fat() == old(Fat())
      ensures res == FR_DISK_ERR ==> old(failures) < failures
      ensures res == FR_INT_ERR ==> exists c :: IsCluster(geo, c) && Fat()[c] == 1
      ensures res == FR_OK || res == FR_DISK_ERR || res == FR_INT_ERR
      ensures res == FR_OK ==> nfree == C.FreeCount(Fat(), 2)
    {
      hide Entries, Area, Logical, Steady;
      QuietReflexive(geo, S());
      ghost var s0, f := S(), Fat();
      nfree := 0;
      var clst := 2;
      while clst < geo.nFatent
        invariant Valid() && Quiet(geo, s0, S()) && Fat() == f
        invariant 2 <= clst <= geo.nFatent
        invariant nfree + C.FreeCount(f, clst) == C.FreeCount(f, 2)
      {
        ghost var s1 := S();
        var stat := GetFat(clst);
        QuietTransitive(geo, s0, s1, S());
        if stat == DISK_ERROR { return FR_DISK_ERR, nfree; }
        if stat == 1 { return FR_INT_ERR, nfree; }
        if stat == 0 { nfree := nfree + 1; }
        clst := clst + 1;
      }
      res := FR_OK;
    }

    // Whether the entry at offset i of the window is zero.
    method EntryIsFree(i: nat, ghost c: nat) returns (free: bool)
      requires Valid() && geo.kind != FAT12 && c < geo.nFatent
      requires i == EntryOffset(geo.kind, c) % SS && winsect == geo.fatBase + EntryOffset(geo.kind, c) / SS
      ensures free <==> Fat()[c] == 0
    {
      ghost var a := FatArea();
      EntriesAt(geo.kind, a, geo.nFatent, c);
      hide Entries;
      WindowShows(EntryOffset(geo.kind, c));
      if geo.kind == FAT16 {
        EntryInSector16(win, a, c);
        free := Word(win[i], win[i + 1]) == 0;
      } else {
        EntryInSector32(win, a, c);
        free := Dword(win[i], win[i + 1], win[i + 2], win[i + 3]) % 0x1000_0000 == 0;
      }
    }

    lemma WindowShows(b: nat)
      requires Valid() && b < geo.fsize * SS && winsect == geo.fatBase + b / SS
      ensures Shows(win, FatArea(), b)
    {
    }

    // One entry of the scan: the next sector is read when the offset in the sector is 0.
    method ScanEntry(sect0: nat, i: nat, ghost c: nat) returns (res: FResult, free: bool, sect: nat)
      requires Valid() && geo.kind != FAT12 && c < geo.nFatent && i == EntryOffset(geo.kind, c) % SS
      requires var at := geo.fatBase + EntryOffset(geo.kind, c) / SS;
        if i == 0 then sect0 == at else winsect == at && sect0 == at + 1
      modifies this`wflag, this`winsect, this`win, this`store, this`failures
      ensures Valid() && Quiet(geo, old(S()), S()) && Fat() == old(Fat())
      ensures res == FR_OK || (res == FR_DISK_ERR && old(failures) < failures)
      ensures res == FR_OK ==>
        && winsect == geo.fatBase + EntryOffset(geo.kind, c) / SS && sect == winsect + 1
        && (free <==> Fat()[c] == 0)
    {
      hide Entries, Area, Logical, Steady;
      QuietReflexive(geo, S());
      EntryOffsetWithin(geo, c);
      res, free, sect := FR_OK, false, sect0;
      if i == 0 {
        res := MoveToFatByte((sect - geo.fatBase) * SS);
        sect := sect + 1;
        if res != FR_OK { return; }
      }
      free := EntryIsFree(i, c);
    }

    method ScanBySector() returns (res: FResult, nfree: nat)
      requires Valid() && geo.kind != FAT12
      modifies this`wflag, this`winsect, this`win, this`store, this`failures
      ensures Valid() && Quiet(geo, old(S()), S()) && Fat() == old(Fat())
      ensures res == FR_OK || (res == FR_DISK_ERR && old(failures) < failures)
      ensures res == FR_OK ==> nfree == C.FreeCount(Fat(), 0)
    {
      hide Entries, Area, Logical, Steady, Quiet, WellFormed, EntryOffset;
      QuietReflexive(geo, S());
      ghost var s0, f := S(), Fat();
      var clst := geo.nFatent;
      var sect, i := geo.fatBase, 0;
      nfree := 0;
      while clst != 0
        invariant Valid() && Quiet(geo, s0, S()) && Fat() == f
        invariant 0 <= clst <= geo.nFatent
        invariant var b := EntryOffset(geo.kind, geo.nFatent - clst);
          && i == b % SS
          && if i == 0 then sect == geo.fatBase + b / SS else winsect + 1 == sect == geo.fatBase + b / SS + 1
        invariant nfree + C.FreeCount(f, geo.nFatent - clst) == C.FreeCount(f, 0)
      {
        ghost var c := geo.nFatent - clst;
        EntryOffsetStep(geo.kind, c);
        ghost var s1 := S();
        var free;
        res, free, sect := ScanEntry(sect, i, c);
        QuietTransitive(geo, s0, s1, S());
        if res != FR_OK { return; }
        if free { nfree := nfree + 1; }
        i := (i + if geo.kind == FAT16 then 2 else 4) % SS;
        clst := clst - 1;
      }
      res := FR_OK;
    }

    // disk_read of file data
    method ReadData(sect: nat, count: nat) returns (ok: bool, data: seq<Sector>)
      requires Valid()
      modifies this`failures
      ensures Valid() && Fat() == old(Fat())
      ensures old(failures) <= failures && (ok <==> failures == old(failures))
      ensures |data| == count
      ensures ok ==> sect + count <= |store| && data == store[sect..sect + count]
    {
      ghost var s := S();
      ok, data := DiskRead(sect, count);
      assert Logical(geo, S()) == Logical(geo, s);
    }

    // disk_write of file data: sectors of the data area that are not in the window.
    method WriteData(sect: nat, data: seq<Sector>) returns (ok: bool)
      requires Valid() && geo.dataBase <= sect && !(sect <= winsect < sect + |data|)
      modifies this`store, this`failures
      ensures Valid() && Fat() == old(Fat())
      ensures old(failures) <= failures && (ok <==> failures == old(failures))
      ensures |store| == |old(store)|
      ensures ok ==> sect + |data| <= |store|
      ensures ok ==> forall s | sect <= s < sect + |data| :: store[s] == data[s - sect]
      ensures forall s | 0 <= s < |store| && !(sect <= s < sect + |data|) :: store[s] == old(store)[s]
    {
      ghost var s0, l0 := S(), Logical(geo, S());
      ok := DiskWrite(sect, data);
      DataWriteIsOutsideFat(geo, s0, store, failures, sect, |data|);
      AreaOfSame(geo, l0, Logical(geo, S()));
    }
  }

  // What a failed read leaves behind.
  method Noise(n: nat) returns (data: seq<Sector>)
    ensures |data| == n
  {
    data := [];
    while |data| < n
      invariant |data| <= n
    {
      var next: Sector := *;
      data := data + [next];
    }
  }
}
