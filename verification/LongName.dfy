// Long file names in directories of FAT volumes: how a name is split over directory entries and
// how it is put together again. A directory is the sequence of its 32-byte entries.

module LongName {
  import opened Basics

  type word = x: int | 0 <= x < 0x1_0000
  type Entry = e: seq<byte> | |e| == 32 witness seq(32, _ => 0)

  const ATTR := 11                  // DIR_Attr and LDIR_Attr
  const NTRES := 12                 // DIR_NTres and LDIR_Type
  const CHKSUM := 13                // LDIR_Chksum
  const CLUSTER := 26               // LDIR_FstClusLO
  const LAST: byte := 0x40          // LLEF: set in the order byte of the last part, which comes first
  const DELETED: byte := 0xE5       // DDEM
  const DOT: byte := 0x2E
  const AM_LFN: byte := 0x0F
  const MAX_LFN := 255
  const NO_ORDER: byte := 0xFF

  const BLANK: Entry := Zeros(32)

  function Zeros(n: nat): (z: seq<byte>)
    ensures |z| == n && forall i | 0 <= i < n :: z[i] == 0
  {
    seq(n, _ => 0)
  }

  // ----- Parts of a name -----

  // LfnOfs: where in an entry character s of its part is.
  function Place(s: nat): (o: nat) {
    if s < 5 then 1 + 2 * s else if s < 11 then 14 + 2 * (s - 5) else 28 + 2 * (s - 11)
  }

  function Unit(e: Entry, s: nat): word
    requires s < 13
  {
    Word(e[Place(s)], e[Place(s) + 1])
  }

  // Byte k of an entry belongs to a character.
  ghost predicate InCharacter(k: nat) {
    exists s | 0 <= s < 13 :: Place(s) <= k <= Place(s) + 1
  }

  // The characters of a part are in their order, do not overlap, and fill three areas of the entry
  // and nothing else.
  lemma PlacesIncrease(s: nat, t: nat)
    requires s < t < 13
    ensures Place(s) + 1 < Place(t)
  {
  }

  lemma PlacesFill(k: nat)
    ensures InCharacter(k) <==> 1 <= k <= 10 || 14 <= k <= 25 || 28 <= k <= 31
  {
    if 1 <= k <= 10 || 14 <= k <= 25 || 28 <= k <= 31 {
      var s := if k <= 10 then (k - 1) / 2 else if k <= 25 then 5 + (k - 14) / 2 else 11 + (k - 28) / 2;
      assert Place(s) <= k <= Place(s) + 1;
    }
  }

  // Character i of a stored name: behind the name a 0, and filler behind that.
  function Stored(name: seq<word>, i: nat): word {
    if i < |name| then name[i] else if i == |name| then 0 else 0xFFFF
  }

  // Whether the part number ord is the last of a name.
  predicate IsLast(name: seq<word>, ord: nat) {
    |name| <= 13 * ord
  }

  // The entry of part number ord.
  ghost predicate IsPart(e: Entry, name: seq<word>, ord: nat, sum: byte) {
    && 0 < ord < LAST
    && e[0] == (if IsLast(name, ord) then ord + LAST else ord)
    && e[ATTR] == AM_LFN && e[NTRES] == 0 && e[CHKSUM] == sum && e[CLUSTER] == e[CLUSTER + 1] == 0
    && forall s | 0 <= s < 13 :: Unit(e, s) == Stored(name, 13 * (ord - 1) + s)
  }

  // No byte of the entry is left open.
  lemma PartIsUnique(e: Entry, e': Entry, name: seq<word>, ord: nat, sum: byte)
    requires IsPart(e, name, ord, sum) && IsPart(e', name, ord, sum)
    ensures e == e'
  {
    forall k | 0 <= k < 32
      ensures e[k] == e'[k]
    {
      PlacesFill(k);
      if InCharacter(k) { SameInCharacter(e, e', name, ord, sum, k); }
    }
  }

  lemma SameInCharacter(e: Entry, e': Entry, name: seq<word>, ord: nat, sum: byte, k: nat)
    requires IsPart(e, name, ord, sum) && IsPart(e', name, ord, sum) && k < 32 && InCharacter(k)
    ensures e[k] == e'[k]
  {
    var s :| 0 <= s < 13 && Place(s) <= k <= Place(s) + 1;
    assert Unit(e, s) == Unit(e', s);
  }

  // The only part of the name "abcde", byte by byte.
  lemma PartOfAbcde(e: Entry, sum: byte)
    requires e[0] == 0x41 && e[11] == 0x0F && e[12] == 0 && e[13] == sum && e[26] == e[27] == 0
    requires e[1] == 0x61 && e[3] == 0x62 && e[5] == 0x63 && e[7] == 0x64 && e[9] == 0x65
    requires e[2] == e[4] == e[6] == e[8] == e[10] == e[14] == e[15] == 0
    requires forall k | 16 <= k < 26 || 28 <= k < 32 :: e[k] == 0xFF
    ensures IsPart(e, [0x61, 0x62, 0x63, 0x64, 0x65], 1, sum)
  {
  }

  // The names that can be stored: 1 to 255 characters, none of them 0 or 0xFFFF.
  predicate IsName(name: seq<word>) {
    0 < |name| <= MAX_LFN && forall i | 0 <= i < |name| :: name[i] != 0 && name[i] != 0xFFFF
  }

  // st_word at the place of character s.
  function SetUnit(e: Entry, s: nat, v: word): (r: Entry)
    requires s < 13
    ensures Unit(r, s) == v
    ensures forall t | 0 <= t < 13 && t != s :: Unit(r, t) == Unit(e, t)
    ensures forall k | k == 0 || 11 <= k <= 13 || 26 <= k <= 27 :: r[k] == e[k]
  {
    e[Place(s) := v % 0x100][Place(s) + 1 := v / 0x100]
  }

  lemma OrderAside(e: Entry, o: byte)
    ensures forall t | 0 <= t < 13 :: Unit(e[0 := o], t) == Unit(e, t)
  {
  }

  // put_lfn: lfn is the buffer that holds the name and a 0 behind it.
  method PutLfn(lfn: array<word>, dir: Entry, ord: nat, sum: byte, ghost name: seq<word>) returns (e: Entry)
    requires IsName(name) && |name| < lfn.Length && lfn[..|name|] == name && lfn[|name|] == 0
    requires 0 < ord && 13 * (ord - 1) < |name|
    ensures IsPart(e, name, ord, sum)
  {
    e := dir[CHKSUM := sum][ATTR := AM_LFN][NTRES := 0][CLUSTER := 0][CLUSTER + 1 := 0];
    var i := (ord - 1) * 13;
    var s := 0;
    var wc: word := 0;
    while s == 0 || s < 13
      invariant 0 <= s <= 13 && 13 * (ord - 1) <= i <= |name| + 1
      invariant i == (if 13 * (ord - 1) + s <= |name| + 1 then 13 * (ord - 1) + s else |name| + 1)
      invariant if i <= |name| then wc != 0xFFFF else wc == 0xFFFF
      invariant e[ATTR] == AM_LFN && e[NTRES] == 0 && e[CHKSUM] == sum && e[CLUSTER] == e[CLUSTER + 1] == 0
      invariant forall t | 0 <= t < s :: Unit(e, t) == Stored(name, 13 * (ord - 1) + t)
      decreases 13 - s
    {
      if wc != 0xFFFF {
        assert i < |name| ==> lfn[i] == name[i];
        wc := lfn[i];
        i := i + 1;
      }
      e := SetUnit(e, s, wc);
      if wc == 0 { wc := 0xFFFF; }
      s := s + 1;
    }
    var o := ord;
    if wc == 0xFFFF || lfn[i] == 0 { o := o + LAST; }
    ghost var body := e;
    e := e[0 := o];
    assert forall t | 0 <= t < 13 :: Unit(e, t) == Unit(body, t) by { OrderAside(body, o); }
  }

  // ----- Picking a part up again -----

  // The order byte without the mark of the last part.
  function Order(e: Entry): nat {
    if Marked(e) then e[0] - LAST else e[0]
  }

  predicate Marked(e: Entry) {
    e[0] / LAST % 2 == 1
  }

  // The first of the characters from s on that is 0.
  function ZeroFrom(e: Entry, s: nat): (z: nat)
    requires s <= 13
    ensures s <= z <= 13 && (z < 13 ==> Unit(e, z) == 0) && forall t | s <= t < z :: Unit(e, t) != 0
    decreases 13 - s
  {
    if s == 13 || Unit(e, s) == 0 then s else ZeroFrom(e, s + 1)
  }

  // How many characters of a part are kept, the 0 included.
  function Kept(e: Entry): (n: nat)
    ensures 0 < n <= 13
  {
    if ZeroFrom(e, 0) < 13 then ZeroFrom(e, 0) + 1 else 13
  }

  // The characters kept fit the buffer from `base` on, and behind them there is only filler.
  predicate UnitsOk(e: Entry, base: nat) {
    base + Kept(e) <= MAX_LFN + 1 && forall s | Kept(e) <= s < 13 :: Unit(e, s) == 0xFFFF
  }

  // An acceptable part: it fits the buffer (with a 0 behind it, when it is the last one and
  // holds none), and behind its 0 there is only filler.
  predicate PartOk(e: Entry) {
    && e[CLUSTER] == e[CLUSTER + 1] == 0 && 0 < Order(e)
    && UnitsOk(e, 13 * (Order(e) - 1))
    && (Marked(e) && ZeroFrom(e, 0) == 13 ==> 13 * Order(e) <= MAX_LFN)
  }

  // Whether buf becomes r when an acceptable part goes into it.
  ghost predicate Picked(buf: seq<word>, e: Entry, r: seq<word>) {
    var i := 13 * (Order(e) - 1);
    && |r| == |buf|
    && (forall k | 0 <= k < |r| && i <= k < i + Kept(e) :: r[k] == Unit(e, k - i))
    && (forall k | 0 <= k < |r| && !(i <= k < i + Kept(e)) && k != i + 13 :: r[k] == buf[k])
    && (i + 13 < |r| ==> r[i + 13] == if Marked(e) && ZeroFrom(e, 0) == 13 then 0 else buf[i + 13])
  }

  lemma PickedAll(buf: seq<word>, e: Entry, base: nat, r: seq<word>)
    requires |buf| == |r| == MAX_LFN + 1 && 0 < Order(e) && base == 13 * (Order(e) - 1)
    requires forall k | 0 <= k < |r| ::
               r[k] == (if base <= k < base + Kept(e) then Unit(e, k - base)
                        else if k == base + 13 && Marked(e) && ZeroFrom(e, 0) == 13 then 0
                        else buf[k])
    ensures Picked(buf, e, r)
  {
    hide Order, Kept, Marked, ZeroFrom, Unit;
  }

  // The characters of a part go into the buffer from `base` on, up to the 0 or all of them; `wc` is
  // the last one.
  method PickUnits(lfnbuf: array<word>, dir: Entry, base: nat) returns (ok: bool, i: nat, wc: word)
    requires lfnbuf.Length == MAX_LFN + 1
    modifies lfnbuf
    ensures ok <==> UnitsOk(dir, base)
    ensures ok ==> i == base + Kept(dir) <= MAX_LFN + 1 && (wc != 0 <==> ZeroFrom(dir, 0) == 13)
    ensures ok ==> forall k | 0 <= k < MAX_LFN + 1 ::
              lfnbuf[k] == if base <= k < i then Unit(dir, k - base) else old(lfnbuf[k])
  {
    hide Unit, ZeroFrom;
    i, wc := base, 1;
    var s := 0;
    ok := true;
    while s < 13
      invariant 0 <= s <= 13 && (wc != 0 <==> s <= ZeroFrom(dir, 0))
      invariant i == base + (if s < Kept(dir) then s else Kept(dir)) && (0 < s ==> i <= MAX_LFN + 1)
      invariant forall t | Kept(dir) <= t < s :: Unit(dir, t) == 0xFFFF
      invariant forall k | 0 <= k < MAX_LFN + 1 ::
                  lfnbuf[k] == if base <= k < i then Unit(dir, k - base) else old(lfnbuf[k])
    {
      var uc := Unit(dir, s);
      if wc != 0 {
        if i >= MAX_LFN + 1 { return false, i, wc; }
        wc := uc;
        lfnbuf[i] := uc;
        i := i + 1;
      } else if uc != 0xFFFF {
        return false, i, wc;
      }
      s := s + 1;
    }
  }

  // pick_lfn
  method PickLfn(lfnbuf: array<word>, dir: Entry) returns (ok: bool)
    requires lfnbuf.Length == MAX_LFN + 1
    modifies lfnbuf
    ensures ok <==> PartOk(dir)
    ensures ok ==> Picked(old(lfnbuf[..]), dir, lfnbuf[..])
  {
    hide Unit, Marked, ZeroFrom, Kept, Order, Picked, UnitsOk;
    if Word(dir[CLUSTER], dir[CLUSTER + 1]) != 0 { return false; }
    var base := (Order(dir) - 1) * 13;
    // an order of 0 makes the unsigned offset exceed the buffer
    if base < 0 { return false; }
    var i, wc;
    ghost var before: seq<word> := lfnbuf[..];
    ok, i, wc := PickUnits(lfnbuf, dir, base);
    if !ok { return; }
    KeptAll(dir);
    ghost var after: seq<word> := lfnbuf[..];
    if Marked(dir) && wc != 0 {
      if i >= MAX_LFN + 1 { return false; }
      lfnbuf[i] := 0;
      after := after[i := 0];
    }
    PickedAll(before, dir, base, after);
  }

  lemma KeptAll(e: Entry)
    ensures ZeroFrom(e, 0) == 13 ==> Kept(e) == 13
  {
  }

  // Part number ord of the name is in the buffer r, and nothing behind it has changed; the last
  // part brings the 0 with it.
  ghost predicate TakenUp(name: seq<word>, ord: nat, buf: seq<word>, r: seq<word>) {
    && 0 < ord && |name| < |r| == |buf|
    && (forall i | 13 * (ord - 1) <= i < 13 * ord && i <= |name| :: r[i] == Stored(name, i))
    && (if IsLast(name, ord) then r[|name|] == 0 else forall i | 13 * ord <= i < |r| :: r[i] == buf[i])
  }

  // A part of a name is acceptable, and what goes into the buffer is that part of the name: all
  // of it, with the 0, when it is the last part.
  lemma PartIsOk(e: Entry, name: seq<word>, ord: nat, sum: byte)
    requires IsName(name) && IsPart(e, name, ord, sum) && 13 * (ord - 1) < |name|
    ensures PartOk(e) && Order(e) == ord && (Marked(e) <==> IsLast(name, ord))
    ensures ZeroFrom(e, 0) == if IsLast(name, ord) then |name| - 13 * (ord - 1) else 13
  {
    hide Unit;
    var left := |name| - 13 * (ord - 1);
    forall s | 0 <= s < 13
      ensures Unit(e, s) == if s < left then name[13 * (ord - 1) + s] else if s == left then 0 else 0xFFFF
    {
      assert Unit(e, s) == Stored(name, 13 * (ord - 1) + s);
    }
    ZeroIsAt(e, if left < 13 then left else 13);
    assert Order(e) == ord && (Marked(e) <==> IsLast(name, ord));
  }

  lemma ZeroIsAt(e: Entry, z: nat)
    requires z <= 13 && (forall s | 0 <= s < z :: Unit(e, s) != 0) && (z < 13 ==> Unit(e, z) == 0)
    ensures ZeroFrom(e, 0) == z
  {
  }

  lemma PartRoundTrip(e: Entry, name: seq<word>, ord: nat, sum: byte, buf: seq<word>, r: seq<word>)
    requires IsName(name) && IsPart(e, name, ord, sum) && 13 * (ord - 1) < |name|
    requires |buf| == MAX_LFN + 1 && Picked(buf, e, r)
    ensures TakenUp(name, ord, buf, r)
  {
    hide Unit, Marked, Order, ZeroFrom, PartOk;
    PartIsOk(e, name, ord, sum);
    assert forall s | 0 <= s < 13 :: Unit(e, s) == Stored(name, 13 * (ord - 1) + s);
  }

  // ----- The checksum of the short name -----

  function SumOf(sfn: seq<byte>): byte {
    if sfn == [] then 0
    else var sum := SumOf(sfn[..|sfn| - 1]); (sum / 2 + sum * 0x80 + sfn[|sfn| - 1]) % 0x100
  }

  // Each byte is added to the sum rotated to the right by one bit.
  lemma SumRotates(sfn: seq<byte>, b: byte)
    ensures SumOf(sfn + [b]) == (SumOf(sfn) / 2 + (if SumOf(sfn) % 2 == 1 then 0x80 else 0) + b) % 0x100
    ensures SumOf([]) == 0
  {
    var sum := SumOf(sfn);
    assert (sfn + [b])[..|sfn|] == sfn && (sfn + [b])[|sfn|] == b;
    assert SumOf(sfn + [b]) == (sum / 2 + sum * 0x80 + b) % 0x100;
    LowBitUp(sum, sum / 2 + b);
  }

  lemma LowBitUp(sum: byte, rest: nat)
    ensures (rest + sum * 0x80) % 0x100 == (rest + (if sum % 2 == 1 then 0x80 else 0)) % 0x100
  {
    assert sum == 2 * (sum / 2) + sum % 2;
    assert sum * 0x80 == (sum / 2) * 0x100 + (sum % 2) * 0x80;
  }

  // sum_sfn
  method SumSfn(dir: seq<byte>) returns (sum: byte)
    requires 11 <= |dir|
    ensures sum == SumOf(dir[..11])
  {
    sum := 0;
    var k := 0;
    while k == 0 || k < 11
      invariant 0 <= k <= 11 && sum == SumOf(dir[..k])
      decreases 11 - k
    {
      assert dir[..k + 1][..k] == dir[..k];
      sum := (sum / 2 + sum * 0x80 + dir[k]) % 0x100;
      k := k + 1;
    }
  }

  // ----- Scanning a directory -----

  predicate Free(e: Entry) {
    e[0] == DELETED || e[0] == 0
  }

  // Deleted, a dot entry or a volume label.
  predicate Skipped(e: Entry) {
    e[0] == DELETED || e[0] == DOT || e[ATTR] % 0x20 == 8
  }

  predicate IsLfn(e: Entry) {
    e[ATTR] % 0x40 == AM_LFN
  }

  // An object of the directory: where its short entry is and, when it has a long name, where the
  // first entry of that is.
  datatype Item = Item(block: Option<nat>, at: nat)

  // The state of dir_read: the order and checksum of the next part expected, and where the parts
  // began.
  datatype Scan = Scan(ord: byte, sum: byte, block: Option<nat>)

  const FRESH := Scan(NO_ORDER, 0xFF, None)

  // A part is met in entry i.
  function Met(st: Scan, e: Entry, i: nat): Scan {
    var st1 := if Marked(e) then Scan(Order(e), e[CHKSUM], Some(i)) else st;
    st1.(ord := if Order(e) == st1.ord && st1.sum == e[CHKSUM] && PartOk(e) then st1.ord - 1 else NO_ORDER)
  }

  function Next(t: seq<Entry>, i: nat, st: Scan): (r: Option<Item>)
    ensures r.Some? ==> i <= r.value.at < |t|
    decreases |t| - i
  {
    if |t| <= i || t[i][0] == 0 then None
    else if Skipped(t[i]) then Next(t, i + 1, st.(ord := NO_ORDER))
    else if IsLfn(t[i]) then Next(t, i + 1, Met(st, t[i], i))
    else Some(Item(if st.ord == 0 && st.sum == SumOf(t[i][..11]) then st.block else None, i))
  }

  // The short entry of a file or directory, which is not deleted (0xE5), no dot entry (0x2E), no volume
  // label (attribute 0x08) and no part of a long name (attributes 0x0F).
  predicate IsObject(e: Entry) {
    e[0] != 0 && e[0] != 0xE5 && e[0] != 0x2E && e[11] % 0x20 != 0x08 && e[11] % 0x40 != 0x0F
  }

  // What a scan comes to is the first such entry before any that was never used.
  lemma {:induction false} NextIsFirstObject(t: seq<Entry>, i: nat, st: Scan, j: nat)
    requires i <= j < |t|
    requires forall k | i <= k < j :: t[k][0] != 0 && !IsObject(t[k])
    requires t[j][0] == 0 || IsObject(t[j])
    ensures if t[j][0] == 0 then Next(t, i, st) == None else Next(t, i, st).Some? && Next(t, i, st).value.at == j
    decreases j - i
  {
    hide Met;
    if i < j {
      if Skipped(t[i]) {
        NextIsFirstObject(t, i + 1, st.(ord := NO_ORDER), j);
      } else {
        NextIsFirstObject(t, i + 1, Met(st, t[i], i), j);
      }
    }
  }

  // All objects from entry i on.
  function Listing(t: seq<Entry>, i: nat): seq<Item>
    decreases |t| - i
  {
    match Next(t, i, FRESH)
    case None => []
    case Some(item) => [item] + Listing(t, item.at + 1)
  }

  lemma ListingGoesOn(t: seq<Entry>, i: nat)
    ensures Listing(t, i) ==
      match Next(t, i, FRESH)
      case None => []
      case Some(item) => [item] + Listing(t, item.at + 1)
  {
    hide Next;
  }

  // The number of parts of a name.
  function Parts(name: seq<word>): nat {
    (|name| + 12) / 13
  }

  // The entries from s on hold a name: its parts, the last one first, and the short entry.
  ghost predicate Encodes(t: seq<Entry>, s: nat, name: seq<word>, sfn: Entry) {
    var n := Parts(name);
    && IsName(name) && s + n < |t|
    && (forall j | s <= j < s + n :: IsPart(t[j], name, n - (j - s), SumOf(sfn[..11])))
    && t[s + n] == sfn && IsObject(sfn)
  }

  // ----- A new name in the listing -----

  // Whatever state the scan is in, the first entry of a name sets it right, and the scan goes
  // through to the short entry.
  lemma ScanMeetsName(t: seq<Entry>, s: nat, name: seq<word>, sfn: Entry, st: Scan)
    requires Encodes(t, s, name, sfn)
    ensures Next(t, s, st) == Some(Item(Some(s), s + Parts(name)))
  {
    var n, sum := Parts(name), SumOf(sfn[..11]);
    PartIsMet(t[s], name, n, sum);
    ScanWithinName(t, s, name, sfn, 1);
  }

  lemma PartIsMet(e: Entry, name: seq<word>, ord: nat, sum: byte)
    requires IsName(name) && IsPart(e, name, ord, sum) && 13 * (ord - 1) < |name|
    ensures e[0] != 0 && !Skipped(e) && IsLfn(e) && PartOk(e) && Order(e) == ord
    ensures Marked(e) <==> ord == Parts(name)
  {
  }

  lemma {:induction false} ScanWithinName(t: seq<Entry>, s: nat, name: seq<word>, sfn: Entry, k: nat)
    requires Encodes(t, s, name, sfn) && 0 < k <= Parts(name)
    ensures Next(t, s + k, Scan(Parts(name) - k, SumOf(sfn[..11]), Some(s))) == Some(Item(Some(s), s + Parts(name)))
    decreases Parts(name) - k
  {
    if k < Parts(name) {
      PartIsMet(t[s + k], name, Parts(name) - k, SumOf(sfn[..11]));
      ScanWithinName(t, s, name, sfn, k + 1);
    }
  }

  // A scan that expects no part goes on like a new one.
  lemma {:induction false} ScanForgets(t: seq<Entry>, i: nat, st: Scan)
    requires st.ord == NO_ORDER
    ensures Next(t, i, st) == Next(t, i, FRESH)
    decreases |t| - i
  {
    if i < |t| && t[i][0] != 0 {
      if Skipped(t[i]) {
        ScanForgets(t, i + 1, st);
      } else if IsLfn(t[i]) && !Marked(t[i]) {
        assert Order(t[i]) != NO_ORDER;
        ScanForgets(t, i + 1, st);
      }
    }
  }

  // What lies behind does not depend on what lies before.
  lemma {:induction false} NextSame(t: seq<Entry>, t': seq<Entry>, i: nat, st: Scan)
    requires |t| == |t'| && forall j | i <= j < |t| :: t'[j] == t[j]
    ensures Next(t', i, st) == Next(t, i, st)
    decreases |t| - i
  {
    if i < |t| && t[i][0] != 0 {
      if Skipped(t[i]) {
        NextSame(t, t', i + 1, st.(ord := NO_ORDER));
      } else if IsLfn(t[i]) {
        NextSame(t, t', i + 1, Met(st, t[i], i));
      }
    }
  }

  lemma {:induction false} ListingSame(t: seq<Entry>, t': seq<Entry>, i: nat)
    requires |t| == |t'| && forall j | i <= j < |t| :: t'[j] == t[j]
    ensures Listing(t', i) == Listing(t, i)
    decreases |t| - i
  {
    NextSame(t, t', i, FRESH);
    match Next(t, i, FRESH)
    case None =>
    case Some(item) => ListingSame(t, t', item.at + 1);
  }

  // Behind an entry that was never used no entry was ever used.
  predicate Tidy(t: seq<Entry>) {
    forall i, j | 0 <= i < j < |t| :: t[i][0] == 0 ==> t[j][0] == 0
  }

  predicate FreeRun(t: seq<Entry>, s: nat, m: nat) {
    s + m <= |t| && forall j | s <= j < s + m :: Free(t[j])
  }

  // Entries s to s + m - 1 are replaced.
  ghost predicate Replaced(t: seq<Entry>, t': seq<Entry>, s: nat, m: nat) {
    |t'| == |t| && s + m <= |t| && forall j | 0 <= j < |t| && !(s <= j < s + m) :: t'[j] == t[j]
  }

  // A scan of the old directory that finds nothing before the free entries finds what lies behind
  // them.
  lemma {:induction false} ScanPassesFree(t: seq<Entry>, i: nat, s: nat, m: nat, st: Scan)
    requires Tidy(t) && FreeRun(t, s, m) && 0 < m && i <= s + m
    requires Next(t, i, st).Some? ==> s <= Next(t, i, st).value.at
    requires forall j | i <= j < s :: t[j][0] != 0
    requires i == s + m ==> st.ord == NO_ORDER
    ensures Next(t, i, st) == Next(t, s + m, FRESH)
    decreases s + m - i
  {
    if i == s + m {
      ScanForgets(t, i, st);
    } else if t[i][0] == 0 {
      assert s + m < |t| ==> t[s + m][0] == 0;
    } else if Skipped(t[i]) {
      ScanPassesFree(t, i + 1, s, m, st.(ord := NO_ORDER));
    } else if IsLfn(t[i]) {
      ScanPassesFree(t, i + 1, s, m, Met(st, t[i], i));
    }
  }

  // A scan of the new directory finds what the old one holds before the name, or else the name.
  lemma {:induction false} ScanFindsName(t: seq<Entry>, t': seq<Entry>, i: nat, s: nat, name: seq<word>, sfn: Entry,
    st: Scan)
    requires Encodes(t', s, name, sfn) && Replaced(t, t', s, Parts(name) + 1) && i <= s
    requires forall j | i <= j < s :: t[j][0] != 0
    ensures Next(t', i, st) ==
      if Next(t, i, st).Some? && Next(t, i, st).value.at < s then Next(t, i, st)
      else Some(Item(Some(s), s + Parts(name)))
    decreases s - i
  {
    if i == s {
      ScanMeetsName(t', s, name, sfn, st);
    } else if Skipped(t[i]) {
      ScanFindsName(t, t', i + 1, s, name, sfn, st.(ord := NO_ORDER));
    } else if IsLfn(t[i]) {
      ScanFindsName(t, t', i + 1, s, name, sfn, Met(st, t[i], i));
    }
  }

  // Putting a name into free entries adds it to the listing and leaves every other object, with
  // its long name or without, as it was.
  lemma {:induction false} NameIsListed(t: seq<Entry>, t': seq<Entry>, i: nat, s: nat, name: seq<word>, sfn: Entry)
    returns (c: nat)
    requires Tidy(t) && FreeRun(t, s, Parts(name) + 1) && Replaced(t, t', s, Parts(name) + 1)
    requires Encodes(t', s, name, sfn)
    requires i <= s && forall j | i <= j < s :: t[j][0] != 0
    ensures c <= |Listing(t, i)|
    ensures Listing(t', i) == Listing(t, i)[..c] + [Item(Some(s), s + Parts(name))] + Listing(t, i)[c..]
    decreases s - i
  {
    hide Encodes, Next, Parts, FreeRun, Tidy, Listing;
    ScanFindsName(t, t', i, s, name, sfn, FRESH);
    ListingGoesOn(t, i);
    ListingGoesOn(t', i);
    var next := Next(t, i, FRESH);
    if next.Some? && next.value.at < s {
      var rest := NameIsListed(t, t', next.value.at + 1, s, name, sfn);
      c := rest + 1;
    } else {
      var m := Parts(name) + 1;
      ScanPassesFree(t, i, s, m, FRESH);
      ListingGoesOn(t, s + m);
      ListingSame(t, t', s + m);
      c := 0;
    }
  }

  // The directory has got further, blank entries.
  ghost predicate Stretched(t: seq<Entry>, t': seq<Entry>) {
    t <= t' && forall j | |t| <= j < |t'| :: t'[j] == BLANK
  }

  // No block of n free entries starts before place b.
  ghost predicate NoRun(t: seq<Entry>, b: int, n: nat) {
    forall i | 0 <= i < b :: !FreeRun(t, i, n)
  }

  lemma {:induction false} BlanksUnlisted(t: seq<Entry>, t': seq<Entry>, i: nat)
    requires Stretched(t, t')
    ensures Listing(t', i) == Listing(t, i)
    decreases |t| - i
  {
    BlanksUnseen(t, t', i, FRESH);
    match Next(t, i, FRESH)
    case None =>
    case Some(item) => BlanksUnlisted(t, t', item.at + 1);
  }

  lemma {:induction false} BlanksUnseen(t: seq<Entry>, t': seq<Entry>, i: nat, st: Scan)
    requires Stretched(t, t')
    ensures Next(t', i, st) == Next(t, i, st)
    decreases |t| - i
  {
    if i < |t| && t[i][0] != 0 {
      if Skipped(t[i]) {
        BlanksUnseen(t, t', i + 1, st.(ord := NO_ORDER));
      } else if IsLfn(t[i]) {
        BlanksUnseen(t, t', i + 1, Met(st, t[i], i));
      }
    }
  }

  // The first block of free entries is not behind an entry that was never used.
  lemma UsedBefore(t: seq<Entry>, s: nat, n: nat)
    requires Tidy(t) && FreeRun(t, s, n) && NoRun(t, s, n)
    ensures forall j | 0 <= j < s :: t[j][0] != 0
  {
    forall j | 0 <= j < s
      ensures t[j][0] != 0
    {
      if t[j][0] == 0 {
        assert FreeRun(t, j, n);
      }
    }
  }

  // What dir_register does to the listing of a directory in use: one more object, the others as
  // they were.
  lemma Registered(t: seq<Entry>, room: seq<Entry>, t': seq<Entry>, s: nat, name: seq<word>, sfn: Entry)
    returns (c: nat)
    requires Tidy(t) && Stretched(t, room) && Encodes(t', s, name, sfn) && Replaced(room, t', s, Parts(name) + 1)
    requires FreeRun(room, s, Parts(name) + 1) && NoRun(room, s, Parts(name) + 1)
    ensures Tidy(t') && c <= |Listing(t, 0)|
    ensures Listing(t', 0) == Listing(t, 0)[..c] + [Item(Some(s), s + Parts(name))] + Listing(t, 0)[c..]
  {
    BlanksUnlisted(t, room, 0);
    UsedBefore(room, s, Parts(name) + 1);
    c := NameIsListed(room, t', 0, s, name, sfn);
    NamesAreUsed(t', s, name, sfn);
  }

  lemma NamesAreUsed(t: seq<Entry>, s: nat, name: seq<word>, sfn: Entry)
    requires Encodes(t, s, name, sfn)
    ensures forall j | s <= j <= s + Parts(name) :: !Free(t[j])
  {
  }

  // The names stored before are still there.
  lemma OtherNamesKept(t: seq<Entry>, t': seq<Entry>, s: nat, m: nat, b: nat, name: seq<word>, sfn: Entry)
    requires FreeRun(t, s, m) && Replaced(t, t', s, m) && Encodes(t, b, name, sfn)
    ensures Encodes(t', b, name, sfn)
  {
  }

  // ----- What dir_read has collected -----

  // While the parts met so far fit together, the buffer holds the end of the name they belong to,
  // if the directory holds a name there at all.
  ghost predicate Collected(t: seq<Entry>, st: Scan, i: nat, buf: seq<word>) {
    st.ord != NO_ORDER && st.block.Some? ==>
      forall name, sfn | Encodes(t, st.block.value, name, sfn) :: Behind(st, i, buf, name, sfn)
  }

  ghost predicate Behind(st: Scan, i: nat, buf: seq<word>, name: seq<word>, sfn: Entry)
    requires st.block.Some?
  {
    && |name| < |buf| && st.sum == SumOf(sfn[..11])
    && i + st.ord == st.block.value + Parts(name) && st.ord < Parts(name)
    && forall k | 13 * st.ord <= k <= |name| :: buf[k] == Stored(name, k)
  }

  lemma PartCollected(t: seq<Entry>, st: Scan, i: nat, buf: seq<word>, r: seq<word>)
    requires i < |t| && IsLfn(t[i]) && |buf| == MAX_LFN + 1 && Collected(t, st, i, buf)
    requires Met(st, t[i], i).ord != NO_ORDER ==> Picked(buf, t[i], r)
    ensures Collected(t, Met(st, t[i], i), i + 1, r)
  {
    var st' := Met(st, t[i], i);
    if st'.ord != NO_ORDER && st'.block.Some? {
      forall name, sfn | Encodes(t, st'.block.value, name, sfn)
        ensures Behind(st', i + 1, r, name, sfn)
      {
        var ord := Parts(name) - (i - st'.block.value);
        assert Marked(t[i]) || Behind(st, i, buf, name, sfn);
        PartIsOk(t[i], name, ord, SumOf(sfn[..11]));
        PartRoundTrip(t[i], name, ord, SumOf(sfn[..11]), buf, r);
      }
    }
  }

  // ----- The directory -----

  datatype DirResult = Ok | NoFile | Denied

  // dir_register: the short entry with its NT flags.
  function ShortEntry(fn: seq<byte>, ntres: byte): (e: Entry)
    requires |fn| == 11
    ensures e[..11] == fn
  {
    (fn + BLANK[11..])[NTRES := ntres]
  }

  lemma NoRunKept(t: seq<Entry>, t': seq<Entry>, b: int, n: nat)
    requires t <= t' && NoRun(t, b, n) && b + n <= |t| + 1
    ensures NoRun(t', b, n)
  {
    forall i | 0 <= i < b
      ensures !FreeRun(t', i, n)
    {
      assert !FreeRun(t, i, n);
    }
  }

  // Fewer than n free entries end at place e.
  lemma NoRunEndsHere(t: seq<Entry>, e: nat, n: nat, cnt: nat)
    requires e < |t| && 0 < n && cnt < n && NoRun(t, e + 1 - n, n)
    requires cnt == e + 1 || (cnt <= e && !Free(t[e - cnt]))
    ensures NoRun(t, e + 2 - n, n)
  {
  }

  // The short entry completes the name.
  lemma NameStored(t: seq<Entry>, s: nat, name: seq<word>, sfn: Entry)
    requires IsName(name) && IsObject(sfn) && s + Parts(name) < |t|
    requires forall j | s <= j < s + Parts(name) :: IsPart(t[j], name, Parts(name) - (j - s), SumOf(sfn[..11]))
    ensures Encodes(t[s + Parts(name) := sfn], s, name, sfn)
  {
  }

  class Directory {
    var table: seq<Entry>
    const lfnbuf: array<word>
    const perCluster: nat          // entries that a further cluster adds
    var spare: nat                 // how many clusters can still be had
    var dptr: nat                  // the current entry
    var blkOfs: Option<nat>        // where its long name begins

    ghost predicate Valid()
      reads this
    {
      table != [] && 0 < perCluster && lfnbuf.Length == MAX_LFN + 1
    }

    constructor (table: seq<Entry>, perCluster: nat, spare: nat)
      requires table != [] && 0 < perCluster
      ensures Valid() && fresh(lfnbuf) && this.table == table
    {
      this.table, this.perCluster, this.spare := table, perCluster, spare;
      lfnbuf := new word[MAX_LFN + 1];
      dptr, blkOfs := 0, None;
    }

    // dir_next without stretching
    method DirNext() returns (res: DirResult)
      requires Valid() && dptr < |table|
      modifies this`dptr
      ensures res == (if old(dptr) + 1 < |table| then Ok else NoFile)
      ensures dptr == if res == Ok then old(dptr) + 1 else old(dptr)
    {
      if dptr + 1 == |table| { return NoFile; }
      dptr := dptr + 1;
      res := Ok;
    }

    // dir_next with stretching
    method DirNextStretch() returns (res: DirResult)
      requires Valid() && dptr < |table|
      modifies this`table, this`spare, this`dptr
      ensures Valid() && Stretched(old(table), table) && res != NoFile
      ensures spare < old(spare) || (spare == old(spare) && table == old(table))
      ensures res == Ok ==> dptr == old(dptr) + 1 < |table|
      ensures res == Denied ==> table == old(table) && dptr == old(dptr) && dptr + 1 == |table| && spare == 0
    {
      res := DirNext();
      if res == Ok { return; }
      if spare == 0 { return Denied; }
      spare := spare - 1;
      table := table + seq(perCluster, _ => BLANK);
      dptr := dptr + 1;
      res := Ok;
    }

    // dir_alloc: the first block of n free entries; the last of them becomes the current one.
    method DirAlloc(n: nat) returns (res: DirResult)
      requires Valid() && 0 < n
      modifies this`table, this`spare, this`dptr
      ensures Valid() && Stretched(old(table), table) && res != NoFile
      ensures res == Ok ==> n <= dptr + 1 <= |table| && FreeRun(table, dptr + 1 - n, n) && NoRun(table, dptr + 1 - n, n)
      ensures res == Denied ==> spare == 0 && NoRun(table, |table|, n)
    {
      dptr := 0;
      var cnt := 0;
      while true
        invariant Valid() && dptr < |table| && Stretched(old(table), table)
        invariant 0 <= cnt < n && cnt <= dptr && FreeRun(table, dptr - cnt, cnt)
        invariant (cnt == dptr || !Free(table[dptr - cnt - 1]))
        invariant NoRun(table, dptr + 1 - n, n)
        decreases spare, |table| - dptr
      {
        ghost var t := table;
        if Free(table[dptr]) {
          cnt := cnt + 1;
          if cnt == n { return Ok; }
        } else {
          cnt := 0;
        }
        NoRunEndsHere(table, dptr, n, cnt);
        res := DirNextStretch();
        if res != Ok { return Denied; }
        NoRunKept(t, table, dptr + 1 - n, n);
      }
    }

    // dir_register, for a long name: the name is in the buffer, fn is the short name for it.
    method DirRegister(fn: seq<byte>, ntres: byte, ghost name: seq<word>)
      returns (res: DirResult, ghost s: nat, ghost room: seq<Entry>)
      requires Valid() && IsName(name) && lfnbuf[..|name|] == name && lfnbuf[|name|] == 0
      requires |fn| == 11 && IsObject(ShortEntry(fn, ntres))
      modifies this
      ensures Valid() && Stretched(old(table), room) && res != NoFile
      ensures res == Denied ==> spare == 0 && table == room && NoRun(room, |room|, Parts(name) + 1)
      ensures res == Ok ==> FreeRun(room, s, Parts(name) + 1) && Replaced(room, table, s, Parts(name) + 1)
      ensures res == Ok ==> Encodes(table, s, name, ShortEntry(fn, ntres)) && dptr == s + Parts(name)
      ensures res == Ok ==> NoRun(room, s, Parts(name) + 1)
    {
      hide IsPart, Encodes, NoRun;
      var len := NameLength(name);
      var nEnt := (len + 12) / 13 + 1;
      res := DirAlloc(nEnt);
      room, s := table, 0;
      if res != Ok { return; }
      nEnt := nEnt - 1;
      dptr := dptr - nEnt;
      s := dptr;
      var sum := SumSfn(fn);
      assert sum == SumOf(ShortEntry(fn, ntres)[..11]) by { assert fn[..11] == fn; }
      StoreParts(nEnt, sum, name);
      NameStored(table, s, name, ShortEntry(fn, ntres));
      table := table[dptr := ShortEntry(fn, ntres)];
    }

    // The length of the name in the buffer.
    method NameLength(ghost name: seq<word>) returns (len: nat)
      requires Valid() && IsName(name) && lfnbuf[..|name|] == name && lfnbuf[|name|] == 0
      ensures len == |name|
    {
      len := 0;
      assert forall i | 0 <= i < |name| :: lfnbuf[i] == name[i];
      while lfnbuf[len] != 0
        invariant 0 <= len <= |name|
        decreases |name| - len
      {
        len := len + 1;
      }
    }

    // The loop that stores the parts, the last one first.
    method StoreParts(parts: nat, sum: byte, ghost name: seq<word>)
      requires Valid() && IsName(name) && lfnbuf[..|name|] == name && lfnbuf[|name|] == 0
      requires parts == Parts(name) && dptr + parts < |table|
      modifies this`table, this`dptr
      ensures Valid() && dptr == old(dptr) + parts && |table| == |old(table)|
      ensures forall j | old(dptr) <= j < dptr :: IsPart(table[j], name, parts - (j - old(dptr)), sum)
      ensures forall j | 0 <= j < |table| && !(old(dptr) <= j < dptr) :: table[j] == old(table)[j]
    {
      hide IsPart;
      var nEnt := parts;
      ghost var s, room := dptr, table;
      while nEnt != 0
        invariant 0 <= nEnt <= parts && dptr == s + parts - nEnt && Valid() && |table| == |room|
        invariant forall j | s <= j < dptr :: IsPart(table[j], name, parts - (j - s), sum)
        invariant forall j | 0 <= j < |room| && !(s <= j < dptr) :: table[j] == room[j]
        decreases nEnt
      {
        var part := PutLfn(lfnbuf, table[dptr], nEnt, sum, name);
        table := table[dptr := part];
        var next := DirNext();
        nEnt := nEnt - 1;
      }
    }

    // dir_read on an entry that holds a part of a name
    method TakePart(dir: Entry, ord0: byte, sum0: byte) returns (ord: byte, sum: byte)
      requires Valid() && dptr < |table| && dir == table[dptr] && IsLfn(dir)
      requires Collected(table, Scan(ord0, sum0, blkOfs), dptr, lfnbuf[..])
      modifies this`blkOfs, lfnbuf
      ensures Scan(ord, sum, blkOfs) == Met(Scan(ord0, sum0, old(blkOfs)), dir, dptr)
      ensures Collected(table, Scan(ord, sum, blkOfs), dptr + 1, lfnbuf[..])
    {
      hide Collected, Picked, IsPart;
      ghost var st, buf := Scan(ord0, sum0, blkOfs), lfnbuf[..];
      var b := dir[0];
      ord, sum := ord0, sum0;
      if Marked(dir) {
        sum := dir[CHKSUM];
        b := b - LAST;
        ord := b;
        blkOfs := Some(dptr);
      }
      var ok := false;
      if b == ord && sum == dir[CHKSUM] { ok := PickLfn(lfnbuf, dir); }
      ord := if ok then ord - 1 else NO_ORDER;
      PartCollected(table, st, dptr, buf, lfnbuf[..]);
    }

    // dir_read, for files and directories, from the current entry on.
    method DirRead() returns (res: DirResult)
      requires Valid() && dptr < |table|
      modifies this`dptr, this`blkOfs, lfnbuf
      ensures Valid() && res != Denied
      ensures match Next(table, old(dptr), FRESH)
              case None => res == NoFile
              case Some(item) => res == Ok && item == Item(blkOfs, dptr)
      ensures res == Ok && blkOfs.Some? ==> forall name, sfn | Encodes(table, blkOfs.value, name, sfn) ::
                |name| < lfnbuf.Length && lfnbuf[..|name|] == name && lfnbuf[|name|] == 0
    {
      hide Met, IsPart;
      var ord: byte, sum: byte := NO_ORDER, 0xFF;
      blkOfs := None;
      while true
        invariant Valid() && dptr < |table|
        invariant Next(table, old(dptr), FRESH) == Next(table, dptr, Scan(ord, sum, blkOfs))
        invariant Collected(table, Scan(ord, sum, blkOfs), dptr, lfnbuf[..])
        decreases |table| - dptr
      {
        var dir := table[dptr];
        var b := dir[0];
        if b == 0 { return NoFile; }
        if Skipped(dir) {
          ord := NO_ORDER;
        } else if IsLfn(dir) {
          ord, sum := TakePart(dir, ord, sum);
        } else {
          var own := SumSfn(dir);
          if ord != 0 || sum != own { blkOfs := None; }
          return Ok;
        }
        var next := DirNext();
        if next != Ok { return NoFile; }
      }
    }
  }
}
