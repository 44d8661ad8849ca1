// The sector window over the disk, as values: what a disk image together with the one
// cached (and perhaps dirty) sector stands for.

module Window {
  import opened Basics
  import opened FatTypes
  import opened Geometry

  datatype Snap = Snap(store: seq<Sector>, failures: nat, win: Sector, winsect: nat, dirty: bool)

  // The window shows a sector of the disk other than a mirror sector, or nothing; a clean
  // window agrees with the disk.
  ghost predicate Coherent(g: Geo, s: Snap) {
    && FitsDrive(g, |s.store|)
    && s.winsect <= NO_SECTOR
    && !InMirror(g, s.winsect)
    && (s.dirty ==> s.winsect < |s.store|)
    && (!s.dirty && s.winsect < |s.store| ==> s.win == s.store[s.winsect])
  }

  // What the sectors hold once the window is counted in. The mirror of the FAT is not part
  // of it: it shows as a blank.
  function Logical(g: Geo, s: Snap): (r: seq<Sector>)
    ensures |r| == |s.store|
  {
    seq(|s.store|, i requires 0 <= i < |s.store| =>
      if InMirror(g, i) then seq(SS, _ => 0) else if i == s.winsect then s.win else s.store[i])
  }

  // The on-disk second FAT equals the on-disk first FAT.
  ghost predicate Mirrored(g: Geo, store: seq<Sector>) {
    g.nFats == 2 ==> forall i | InFat(g, i) && i + g.fsize < |store| :: store[i + g.fsize] == store[i]
  }

  // As long as no call of the drive fails, copies of the FAT that are equal stay equal.
  ghost predicate CopiesKept(g: Geo, s0: Snap, s1: Snap) {
    && s0.failures <= s1.failures
    && (s0.failures == s1.failures && Mirrored(g, s0.store) ==> Mirrored(g, s1.store))
  }

  // What every access to the FAT keeps. No logical sector outside the FAT has changed. On the
  // disk the data area is as it was, save perhaps the sector that the window held; the window
  // has not moved into the data area; and while no call of the disk fails the second FAT
  // follows the first.
  ghost predicate Steady(g: Geo, s0: Snap, s1: Snap) {
    && |s1.store| == |s0.store|
    && (forall i | g.dataBase <= i < |s0.store| && i != s0.winsect :: s1.store[i] == s0.store[i])
    && (s1.winsect == s0.winsect || s1.winsect < g.dataBase || |s0.store| <= s1.winsect)
    && (forall i | 0 <= i < |s0.store| && !InFat(g, i) :: Logical(g, s1)[i] == Logical(g, s0)[i])
    && CopiesKept(g, s0, s1)
  }

  lemma SteadyKeepsCopies(g: Geo, s0: Snap, s1: Snap)
    requires Steady(g, s0, s1)
    ensures CopiesKept(g, s0, s1)
  {
  }

  // What every access that only looks keeps.
  ghost predicate Quiet(g: Geo, s0: Snap, s1: Snap) {
    Steady(g, s0, s1) && Logical(g, s1) == Logical(g, s0)
  }

  lemma QuietReflexive(g: Geo, s: Snap)
    ensures Quiet(g, s, s)
  {
  }

  lemma SteadyTransitive(g: Geo, s0: Snap, s1: Snap, s2: Snap)
    requires Steady(g, s0, s1) && Steady(g, s1, s2)
    ensures Steady(g, s0, s2) && s0.failures <= s1.failures <= s2.failures
  {
  }

  lemma QuietTransitive(g: Geo, s0: Snap, s1: Snap, s2: Snap)
    requires Quiet(g, s0, s1) && Quiet(g, s1, s2)
    ensures Quiet(g, s0, s2) && s0.failures <= s1.failures <= s2.failures
  {
  }

  // Changing a byte of the window changes that byte of the sector it shows.
  lemma EditShows(g: Geo, s: Snap, i: nat, v: byte)
    requires Coherent(g, s) && InFat(g, s.winsect) && i < SS
    ensures var t := s.(win := s.win[i := v], dirty := true);
      && Coherent(g, t) && Steady(g, s, t)
      && Logical(g, t) == Logical(g, s)[s.winsect := Logical(g, s)[s.winsect][i := v]]
  {
  }

  // What one attempt to write the window back, and through to the second FAT, does to the
  // disk; `written` tells whether the first of the two writes succeeded.
  ghost predicate WroteBack(g: Geo, s0: Snap, store1: seq<Sector>, failures1: nat, written: bool) {
    && Coherent(g, s0) && s0.winsect < |s0.store| && |store1| == |s0.store|
    && (forall i | 0 <= i < |s0.store| && i != s0.winsect && (i != s0.winsect + g.fsize || !InMirror(g, i)) ::
          store1[i] == s0.store[i])
    && s0.failures <= failures1
    && (written ==> store1[s0.winsect] == s0.win)
    && (!written ==> s0.failures < failures1)
    && (failures1 == s0.failures && g.nFats == 2 && InFat(g, s0.winsect) ==> store1[s0.winsect + g.fsize] == s0.win)
  }

  lemma WriteBackIsQuiet(g: Geo, s0: Snap, store1: seq<Sector>, failures1: nat, written: bool)
    requires WroteBack(g, s0, store1, failures1, written) && s0.dirty
    ensures var s1 := s0.(store := store1, failures := failures1, dirty := !written);
      Coherent(g, s1) && Quiet(g, s0, s1)
  {
    var s1 := s0.(store := store1, failures := failures1, dirty := !written);
    assert Logical(g, s1) == Logical(g, s0);
    if failures1 == s0.failures && Mirrored(g, s0.store) {
      WriteThroughMirrors(g, s0, store1);
    }
  }

  // When the write to the second FAT fails, whatever it leaves there, sync_window succeeds all the
  // same, and the copies differ.
  lemma FailedCopyUnnoticed(g: Geo, s0: Snap, garbage: Sector)
    requires Coherent(g, s0) && s0.dirty && g.nFats == 2 && InFat(g, s0.winsect) && garbage != s0.win
    ensures 0 <= s0.winsect < s0.winsect + g.fsize < |s0.store|
    ensures var store1 := s0.store[s0.winsect := s0.win][s0.winsect + g.fsize := garbage];
      WroteBack(g, s0, store1, s0.failures + 1, true) && !Mirrored(g, store1)
  {
    var store1 := s0.store[s0.winsect := s0.win][s0.winsect + g.fsize := garbage];
    assert store1[s0.winsect + g.fsize] != store1[s0.winsect];
  }

  // The write to the second FAT.
  lemma WriteThroughMirrors(g: Geo, s0: Snap, store1: seq<Sector>)
    requires WroteBack(g, s0, store1, s0.failures, true) && Mirrored(g, s0.store)
    ensures Mirrored(g, store1)
  {
  }

  // Another sector comes into a clean window or, when reading it fails, none.
  lemma WindowMoved(g: Geo, s: Snap, win: Sector, failures1: nat, sect: nat, ok: bool)
    requires Coherent(g, s) && !s.dirty && sect < |s.store| && !InMirror(g, sect) && s.failures <= failures1
    requires ok ==> win == s.store[sect]
    ensures var s1 := s.(win := win, winsect := if ok then sect else NO_SECTOR, failures := failures1);
      && Coherent(g, s1) && Logical(g, s1) == Logical(g, s) && (ok ==> win == Logical(g, s1)[sect])
      && (sect < g.dataBase ==> Quiet(g, s, s1))
  {
  }

  lemma WindowShown(g: Geo, s: Snap)
    requires Coherent(g, s)
    ensures s.winsect < |s.store| ==> s.win == Logical(g, s)[s.winsect]
  {
  }

  // The FAT as the logical sectors show it is untouched by writes to data sectors that are
  // not in the window.
  lemma DataWriteIsOutsideFat(g: Geo, s: Snap, store1: seq<Sector>, failures1: nat, first: nat, n: nat)
    requires Coherent(g, s) && |store1| == |s.store| && g.dataBase <= first
    requires !(first <= s.winsect < first + n)
    requires forall i | 0 <= i < |s.store| && !(first <= i < first + n) :: store1[i] == s.store[i]
    ensures var t := s.(store := store1, failures := failures1);
      && Coherent(g, t)
      && forall i | 0 <= i < g.dataBase :: Logical(g, t)[i] == Logical(g, s)[i]
  {
  }
}
