// Any run of f_read, f_write and f_lseek on files that are open at the same time.

module FileRuns {
  import opened Basics
  import opened FatTypes
  import opened Geometry
  import opened Window
  import opened FileModel
  import opened Bystanders
  import opened FatEntry
  import opened LinkMap
  import opened FatVolume
  import opened OpenFile
  import C = Chains

  datatype Call = DoRead(file: nat, btr: nat) | DoWrite(file: nat, wbuff: seq<byte>) | DoSeek(file: nat, ofs: nat)

  // What a call did: bytes read or written from place `pos` on, the place the pointer went to, a
  // refusal for want of access, or an error, after which the file is of no more use.
  datatype Event =
    | DidRead(file: nat, pos: nat, data: seq<byte>)
    | DidWrite(file: nat, pos: nat, data: seq<byte>)
    | DidSeek(file: nat, pos: nat)
    | WasDenied(file: nat)
    | Failed(file: nat)

  // What a user can tell of a file without reading it: its size, its pointer, whether it has met no
  // error, the access it was opened for, and the link map it uses.
  datatype Status = Status(size: nat, ptr: nat, sound: bool, canRead: bool, canWrite: bool, mapped: Option<seq<nat>>)

  datatype View = View(text: seq<byte>, status: Status)

  // The volume: its table, the cached count of free clusters, and how many drive calls have failed.
  datatype Volume = Volume(f: seq<nat>, free: nat, failures: nat)

  // ----- What the events so far say of the files -----

  // The byte that file k is known to have at x: the one written there last, or the one it had
  // at the start. Nothing is known of a gap that f_lseek opened.
  ghost function Latest(start: seq<View>, events: seq<Event>, k: nat, x: nat): Option<byte>
    requires k < |start|
  {
    if events == [] then if x < |start[k].text| then Some(start[k].text[x]) else None
    else
      var e := events[|events| - 1];
      if e.DidWrite? && e.file == k && e.pos <= x < e.pos + |e.data| then Some(e.data[x - e.pos])
      else Latest(start, events[..|events| - 1], k, x)
  }

  function After(st: Status, e: Event): Status {
    match e
    case DidRead(_, pos, data) => st.(ptr := pos + |data|)
    case DidWrite(_, pos, data) => st.(ptr := pos + |data|, size := Max(st.size, pos + |data|))
    case DidSeek(_, pos) => st.(ptr := pos, size := Max(st.size, pos))
    case WasDenied(_) => st
    case Failed(_) => st.(sound := false)
  }

  ghost function StatusAt(start: seq<View>, events: seq<Event>, k: nat): Status
    requires k < |start|
  {
    if events == [] then start[k].status
    else
      var before, e := events[..|events| - 1], events[|events| - 1];
      if e.file == k then After(StatusAt(start, before, k), e) else StatusAt(start, before, k)
  }

  // ----- What a call may do -----

  function Min(a: int, b: int): int {
    if a < b then a else b
  }

  // Where f_lseek is to go: no further than 4 GiB - 1, and to the end of the file when that may
  // not grow or a link map is used.
  function Goal(st: Status, ofs: nat): nat {
    if st.mapped.Some? then Min(ofs, st.size)
    else
      var x := if ofs >= 0x1_0000_0000 then MAX_SIZE else ofs;
      if st.canWrite then x else Min(x, st.size)
  }

  ghost predicate NoCluster(v: Volume) {
    v.free == 0 || C.NoneFree(v.f)
  }

  // The link map gives no cluster for a pointer at p.
  predicate MapEndsAt(g: Geo, st: Status, p: nat)
    requires WellFormed(g)
  {
    st.mapped.Some? && |st.mapped.value| <= ClusterOfByte(g, p)
  }

  // What a call can fail for: the drive, an entry 1 in the table, or a link map too short for the
  // file.
  ghost predicate Hurt(g: Geo, st: Status, v: Volume, v': Volume)
    requires WellFormed(g)
  {
    || v.failures < v'.failures
    || (exists c :: C.IsCluster(v'.f, c) && v'.f[c] == 1)
    || (exists p | 0 <= p < st.size :: MapEndsAt(g, st, p))
  }

  lemma MapHurts(g: Geo, st: Status, v: Volume, v': Volume, p: nat)
    requires WellFormed(g) && p < st.size && MapEndsAt(g, st, p)
    ensures Hurt(g, st, v, v')
  {
  }

  // The event is of the call, on a file of this status. A read delivers as many bytes as there are
  // up to the number asked for; a write stops short, and so does a seek, only for want of a cluster
  // (or at 4 GiB - 1).
  ghost predicate Answers(g: Geo, c: Call, e: Event, st: Status, v: Volume, v': Volume)
    requires WellFormed(g)
  {
    && c.file == e.file
    && if !st.sound then e.Failed?
       else if (c.DoRead? && !st.canRead) || (c.DoWrite? && !st.canWrite) then e.WasDenied?
       else if e.Failed? then Hurt(g, st, v, v')
       else match c {
         case DoRead(_, btr) => e.DidRead? && e.pos == st.ptr <= st.size && |e.data| == Min(btr, st.size - e.pos)
         case DoWrite(_, wbuff) => e.DidWrite? && e.pos == st.ptr && Wrote(g, st, v', wbuff, e.pos, e.data)
         case DoSeek(_, ofs) => e.DidSeek? && (e.pos == Goal(st, ofs) || SeeksShort(st, v', ofs, e.pos))
       }
  }

  ghost predicate Wrote(g: Geo, st: Status, v: Volume, wbuff: seq<byte>, pos: nat, data: seq<byte>)
    requires WellFormed(g)
  {
    data <= wbuff
    && (data != wbuff ==> NoCluster(v) || MapEndsAt(g, st, pos + |data|) || pos + |data| == MAX_SIZE)
  }

  ghost predicate SeeksShort(st: Status, v: Volume, ofs: nat, pos: nat) {
    st.canWrite && st.mapped.None? && st.size <= pos < Goal(st, ofs) && NoCluster(v)
  }

  // Every event answers its call, and every byte read was the latest one.
  ghost predicate Truthful(g: Geo, start: seq<View>, calls: seq<Call>, events: seq<Event>, vols: seq<Volume>)
    requires WellFormed(g)
  {
    && |events| <= |calls| && |vols| == |events| + 1
    && forall i | 0 <= i < |events| ::
         && events[i].file < |start|
         && Answers(g, calls[i], events[i], StatusAt(start, events[..i], events[i].file), vols[i], vols[i + 1])
         && ReadsLatest(start, events[..i], events[i])
  }

  ghost predicate ReadsLatest(start: seq<View>, before: seq<Event>, e: Event)
    requires e.file < |start|
  {
    e.DidRead? ==> forall i | 0 <= i < |e.data| ::
      var known := Latest(start, before, e.file, e.pos + i); known.Some? ==> known.value == e.data[i]
  }

  // The files are what the events say; of a file that met an error nothing is said.
  ghost predicate Agrees(start: seq<View>, events: seq<Event>, now: seq<View>) {
    && |now| == |start|
    && (forall k | 0 <= k < |now| :: now[k].status == StatusAt(start, events, k))
    && forall k | 0 <= k < |now| && now[k].status.sound :: TextAgrees(start, events, k, now[k].text)
  }

  ghost predicate TextAgrees(start: seq<View>, events: seq<Event>, k: nat, text: seq<byte>)
    requires k < |start|
  {
    && |text| == StatusAt(start, events, k).size
    && forall x | 0 <= x && Latest(start, events, k, x).Some? ::
         x < |text| && text[x] == Latest(start, events, k, x).value
  }

  predicate Holds(text: seq<byte>, pos: nat, data: seq<byte>) {
    pos + |data| <= |text| && data == text[pos..pos + |data|]
  }

  // What one event makes of the file it is about.
  ghost predicate Made(before: View, e: Event, after: View) {
    && after.status == After(before.status, e)
    && (after.status.sound ==>
          && |before.text| == before.status.size
          && match e
             case DidRead(_, pos, data) => after.text == before.text && Holds(before.text, pos, data)
             case DidWrite(_, pos, data) => pos <= |before.text| && after.text == Splice(before.text, pos, data)
             case DidSeek(_, pos) => before.text <= after.text && |after.text| == Max(|before.text|, pos)
             case WasDenied(_) => after.text == before.text
             case Failed(_) => false)
  }

  lemma StartAgrees(g: Geo, start: seq<View>, calls: seq<Call>, v: Volume)
    requires WellFormed(g)
    requires forall k | 0 <= k < |start| && start[k].status.sound :: |start[k].text| == start[k].status.size
    ensures Truthful(g, start, calls, [], [v]) && Agrees(start, [], start)
  {
  }

  // One more event keeps the account true.
  lemma EventAgrees(g: Geo, start: seq<View>, calls: seq<Call>, events: seq<Event>, vols: seq<Volume>, now: seq<View>,
    e: Event, after: View, v: Volume)
    requires WellFormed(g) && Agrees(start, events, now) && Truthful(g, start, calls, events, vols)
    requires |events| < |calls|
    requires e.file < |now| && Made(now[e.file], e, after)
    requires Answers(g, calls[|events|], e, now[e.file].status, vols[|events|], v)
    ensures Agrees(start, events + [e], now[e.file := after]) && Truthful(g, start, calls, events + [e], vols + [v])
  {
    hide Made, Answers, ReadsLatest, TextAgrees;
    var events', now' := events + [e], now[e.file := after];
    assert events'[..|events|] == events;
    forall i | 0 <= i < |events|
      ensures events'[..i] == events[..i]
    {
    }
    ReadAgrees(g, start, calls[|events|], events, now, e, after, vols[|events|], v);
    forall k | 0 <= k < |now|
      ensures now'[k].status == StatusAt(start, events', k)
      ensures now'[k].status.sound ==> TextAgrees(start, events', k, now'[k].text)
    {
      FileAgrees(start, events, now, e, after, k);
    }
  }

  lemma ReadAgrees(g: Geo, start: seq<View>, c: Call, events: seq<Event>, now: seq<View>, e: Event, after: View,
    v: Volume, v': Volume)
    requires WellFormed(g) && Agrees(start, events, now) && e.file < |now| && Made(now[e.file], e, after)
    requires Answers(g, c, e, now[e.file].status, v, v')
    ensures ReadsLatest(start, events, e)
  {
  }

  lemma FileAgrees(start: seq<View>, events: seq<Event>, now: seq<View>, e: Event, after: View, k: nat)
    requires Agrees(start, events, now) && e.file < |now| && Made(now[e.file], e, after) && k < |now|
    ensures var now' := now[e.file := after];
      && now'[k].status == StatusAt(start, events + [e], k)
      && (now'[k].status.sound ==> TextAgrees(start, events + [e], k, now'[k].text))
  {
    var events' := events + [e];
    assert events'[..|events'| - 1] == events;
  }

  // ----- The files -----

  ghost predicate IsOpen(fs: FatFs, file: Fil, v: View)
    reads fs, file, file.cltbl
  {
    && file.fs == fs && v.status.canRead == file.canRead && v.status.canWrite == file.canWrite
    && (v.status.sound <==> file.err == FR_OK)
    && (v.status.sound ==>
          && file.Open() && v.text == file.Text()
          && v.status.size == file.objsize && v.status.ptr == file.fptr && v.status.mapped == file.H().mapped)
  }

  // Different files, open on the volume; the chains of those that met no error do not meet.
  ghost predicate AllOpen(fs: FatFs, files: seq<Fil>, now: seq<View>)
    reads fs, files, set f | f in files && f.cltbl != null :: f.cltbl
  {
    && fs.Valid() && |now| == |files|
    && (forall i | 0 <= i < |files| :: IsOpen(fs, files[i], now[i]))
    && (forall i, j | 0 <= i < |files| && 0 <= j < |files| && i != j ::
          && files[i] != files[j]
          && (now[i].status.sound && now[j].status.sound ==> C.Apart(files[i].chain, files[j].chain)))
  }

  ghost function VolumeOf(fs: FatFs): Volume
    requires fs.Valid()
    reads fs
  {
    Volume(fs.Fat(), fs.freeClst, fs.failures)
  }

  lemma SparedOne(g: Geo, s0: Snap, f0: C.Fat, cs0: seq<nat>, s1: Snap, f1: C.Fat, cs1: seq<nat>, o: Handle)
    requires Spares(g, s0, f0, cs0, s1, f1, cs1) && Backed(g, s0, f0, o) && C.Apart(cs0, o.chain)
    ensures Backed(g, s1, f1, o) && C.Apart(cs1, o.chain) && C.Apart(o.chain, cs1)
    ensures Content(g, s1, f1, o) == Content(g, s0, f0, o)
  {
    hide Backed, Content;
    assert Bystander(g, s0, f0, cs0, o);
    assert Bystander(g, s1, f1, cs1, o);
  }

  // ----- The run -----

  method ReadCall(fs: FatFs, file: Fil, c: Call, ghost before: View) returns (e: Event, ghost after: View)
    requires IsOpen(fs, file, before) && before.status.sound && c.DoRead?
    modifies file`fptr, file`clust, file`sect, file`at, file`buf, file`dirty, file`err, fs
    ensures IsOpen(fs, file, after) && Made(before, e, after)
    ensures fs.Valid() && file.Spared() && Answers(fs.geo, c, e, before.status, old(VolumeOf(fs)), VolumeOf(fs))
  {
    hide Entries, Area, Logical, FileSectors, Bytes, C.IsChain, InChain, Expand, Terminated, WindowElsewhere, Spares,
      Backed;
    var p := file.fptr;
    SizeIsInRange(fs, file);
    var res, data := file.Read(c.btr);
    if file.err == FR_INT_ERR {
      MapHurts(fs.geo, before.status, old(VolumeOf(fs)), VolumeOf(fs), file.fptr);
    }
    e := if res == FR_OK then DidRead(c.file, p, data)
         else if res == FR_DENIED then WasDenied(c.file) else Failed(c.file);
    after := View(before.text, After(before.status, e));
  }

  lemma SizeIsInRange(fs: FatFs, file: Fil)
    requires file.fs == fs && file.Open()
    ensures file.fptr <= file.objsize <= MAX_SIZE
  {
  }

  method WriteCall(fs: FatFs, file: Fil, c: Call, ghost before: View) returns (e: Event, ghost after: View)
    requires IsOpen(fs, file, before) && before.status.sound && c.DoWrite? && |c.wbuff| <= MAX_SIZE
    modifies file`chain, file`sclust, file`clust, file`sect, file`at, file`buf, file`dirty, file`modified,
      file`fptr, file`objsize, file`err, fs
    ensures IsOpen(fs, file, after) && Made(before, e, after)
    ensures fs.Valid() && file.Spared() && Answers(fs.geo, c, e, before.status, old(VolumeOf(fs)), VolumeOf(fs))
  {
    hide Entries, Area, Logical, FileSectors, Bytes, C.IsChain, InChain, Expand, Terminated, WindowElsewhere, Spares,
      Backed, Splice, C.NoneFree, SectorCount, Content;
    var p := file.fptr;
    var res, bw := file.Write(c.wbuff);
    e := if res == FR_OK then DidWrite(c.file, p, c.wbuff[..bw])
         else if res == FR_DENIED then WasDenied(c.file) else Failed(c.file);
    after := View(if res == FR_OK then file.Text() else before.text, After(before.status, e));
  }

  method SeekCall(fs: FatFs, file: Fil, c: Call, ghost before: View) returns (e: Event, ghost after: View)
    requires IsOpen(fs, file, before) && before.status.sound && c.DoSeek?
    modifies file`chain, file`sclust, file`clust, file`sect, file`at, file`buf, file`dirty, file`modified,
      file`fptr, file`objsize, file`err, fs
    ensures IsOpen(fs, file, after) && Made(before, e, after)
    ensures fs.Valid() && file.Spared() && Answers(fs.geo, c, e, before.status, old(VolumeOf(fs)), VolumeOf(fs))
  {
    hide Entries, Area, Logical, FileSectors, Bytes, C.IsChain, InChain, Expand, Terminated, WindowElsewhere, Spares,
      Backed;
    SizeIsInRange(fs, file);
    var res := file.Seek(c.ofs);
    if file.err == FR_INT_ERR && file.cltbl != null {
      MapHurts(fs.geo, before.status, old(VolumeOf(fs)), VolumeOf(fs), Min(c.ofs, before.status.size) - 1);
    }
    e := if res == FR_OK then DidSeek(c.file, file.fptr) else Failed(c.file);
    after := View(if res == FR_OK then file.Text() else before.text, After(before.status, e));
  }

  method OneCall(fs: FatFs, file: Fil, c: Call, ghost before: View) returns (e: Event, ghost after: View)
    requires fs.Valid() && IsOpen(fs, file, before) && (c.DoWrite? ==> |c.wbuff| <= MAX_SIZE)
    modifies file, fs
    ensures IsOpen(fs, file, after) && Made(before, e, after) && fs.Valid() && file.cltbl == old(file.cltbl)
    ensures before.status.sound ==> file.Spared()
    ensures CopiesKept(fs.geo, old(fs.S()), fs.S())
    ensures !before.status.sound ==> unchanged(fs)
    ensures Answers(fs.geo, c, e, before.status, old(VolumeOf(fs)), VolumeOf(fs))
  {
    hide Entries, Area, Logical, Spares, Made, Backed;
    if file.err != FR_OK {
      e, after := RefusedCall(fs, file, c, before);
    } else if c.DoRead? {
      e, after := ReadCall(fs, file, c, before);
    } else if c.DoWrite? {
      e, after := WriteCall(fs, file, c, before);
    } else {
      e, after := SeekCall(fs, file, c, before);
    }
    if before.status.sound {
      SparesKeepCopies(fs.geo, old(fs.S()), old(fs.Fat()), old(file.chain), fs.S(), fs.Fat(), file.chain);
    }
  }

  // A call on a file that has met an error.
  method RefusedCall(fs: FatFs, file: Fil, c: Call, ghost before: View) returns (e: Event, ghost after: View)
    requires fs.Valid() && IsOpen(fs, file, before) && !before.status.sound && (c.DoWrite? ==> |c.wbuff| <= MAX_SIZE)
    modifies file, fs
    ensures unchanged(file) && unchanged(fs) && fs.Valid()
    ensures IsOpen(fs, file, after) && Made(before, e, after)
    ensures Answers(fs.geo, c, e, before.status, old(VolumeOf(fs)), VolumeOf(fs))
  {
    hide Entries, Area, Logical, Spares, Backed;
    e, after := Failed(c.file), before;
    match c {
      case DoRead(_, btr) => var _, _ := file.Read(btr);
      case DoWrite(_, wbuff) => var _, _ := file.Write(wbuff);
      case DoSeek(_, ofs) => var _ := file.Seek(ofs);
    }
  }

  // A call on one file; the other files do not notice, not even when it fails.
  method Step(fs: FatFs, files: seq<Fil>, c: Call, ghost now: seq<View>) returns (e: Event, ghost after: seq<View>)
    requires c.file < |files| && AllOpen(fs, files, now) && (c.DoWrite? ==> |c.wbuff| <= MAX_SIZE)
    modifies fs, files
    ensures fs.Valid() && e.file == c.file && AllOpen(fs, files, after)
    ensures Answers(fs.geo, c, e, now[c.file].status, old(VolumeOf(fs)), VolumeOf(fs))
    ensures Made(now[c.file], e, after[c.file]) && after == now[c.file := after[c.file]]
    ensures forall f | f in files :: f.cltbl == old(f.cltbl)
    ensures CopiesKept(fs.geo, old(fs.S()), fs.S())
  {
    hide Made, Spares, Content, Backed, Entries, Area, Logical, FileSectors, Bytes, C.IsChain, InChain, Expand,
      Terminated, WindowElsewhere, C.Apart, Positioned;
    var file := files[c.file];
    ghost var v;
    e, v := OneCall(fs, file, c, now[c.file]);
    after := now[c.file := v];
    StaysUnsound(now[c.file], e, v);
    forall i | 0 <= i < |files| && i != c.file
      ensures IsOpen(fs, files[i], now[i])
      ensures v.status.sound && now[i].status.sound ==>
        C.Apart(file.chain, files[i].chain) && C.Apart(files[i].chain, file.chain)
    {
      var o := files[i];
      assert o.H() == old(o.H()) && (o.cltbl != null ==> o.cltbl[..] == old(o.cltbl[..]));
      if now[i].status.sound && now[c.file].status.sound {
        SparedOne(fs.geo, old(fs.S()), old(fs.Fat()), old(file.chain), fs.S(), fs.Fat(), file.chain, o.H());
        assert o.Ready() && o.Open();
        assert o.Text() == now[i].text;
      }
    }
  }

  lemma StaysUnsound(before: View, e: Event, after: View)
    requires Made(before, e, after)
    ensures after.status.sound ==> before.status.sound
  {
  }

  // Any calls on any files, in any order: each is answered as it should be, each byte read is the
  // byte that was last written to that place of that file, or the one that was there before all
  // calls, and at the end the files hold just that. An error only ends the use of the file that
  // meets it: of all the others everything goes on to hold.
  method Run(fs: FatFs, files: seq<Fil>, calls: seq<Call>, ghost start: seq<View>)
    returns (events: seq<Event>, ghost now: seq<View>, ghost vols: seq<Volume>)
    requires |start| == |files| && AllOpen(fs, files, start)
    requires forall c | c in calls :: c.file < |files| && (c.DoWrite? ==> |c.wbuff| <= MAX_SIZE)
    modifies fs, files
    ensures fs.Valid() && |events| == |calls| && AllOpen(fs, files, now)
    ensures Truthful(fs.geo, start, calls, events, vols) && Agrees(start, events, now)
    ensures vols[0] == old(VolumeOf(fs)) && vols[|calls|] == VolumeOf(fs)
    ensures CopiesKept(fs.geo, old(fs.S()), fs.S())
  {
    hide AllOpen, Truthful, Agrees, Made, Answers, Entries, Area, Logical, Coherent;
    ValidIsWellFormed(fs, files, start);
    events, now, vols := [], start, [VolumeOf(fs)];
    StartAgrees(fs.geo, start, calls, vols[0]);
    while |events| < |calls|
      invariant |events| <= |calls| && |now| == |files| && fs.Valid() && AllOpen(fs, files, now)
      invariant forall f | f in files :: f.cltbl == old(f.cltbl)
      invariant Truthful(fs.geo, start, calls, events, vols) && Agrees(start, events, now)
      invariant CopiesKept(fs.geo, old(fs.S()), fs.S())
      invariant |vols| == |events| + 1 && vols[0] == old(VolumeOf(fs)) && vols[|events|] == VolumeOf(fs)
      decreases |calls| - |events|
    {
      var e;
      ghost var after;
      e, after := Step(fs, files, calls[|events|], now);
      EventAgrees(fs.geo, start, calls, events, vols, now, e, after[e.file], VolumeOf(fs));
      events, now, vols := events + [e], after, vols + [VolumeOf(fs)];
    }
  }

  lemma ValidIsWellFormed(fs: FatFs, files: seq<Fil>, now: seq<View>)
    requires AllOpen(fs, files, now)
    ensures fs.Valid() && WellFormed(fs.geo)
    ensures forall k | 0 <= k < |now| && now[k].status.sound :: |now[k].text| == now[k].status.size
  {
    hide Entries, Area, Logical, Backed, FileSectors;
    forall k | 0 <= k < |now| && now[k].status.sound
      ensures |now[k].text| == now[k].status.size
    {
      assert IsOpen(fs, files[k], now[k]);
    }
  }
}
