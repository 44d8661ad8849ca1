// The File Allocation Table as packed bytes of sectors: FAT12, FAT16 and FAT32 entries.

module FatEntry {
  import opened Basics
  import opened FatTypes
  import opened Geometry

  // ----- The bytes of the first FAT, sector boundaries forgotten -----

  function Area(g: Geo, sectors: seq<Sector>): (a: seq<byte>)
    requires g.fatBase + g.fsize <= |sectors|
    ensures |a| == g.fsize * SS
  {
    seq(g.fsize * SS, i requires 0 <= i < g.fsize * SS => sectors[g.fatBase + i / SS][i % SS])
  }

  // Sector after sector they make up the area.
  lemma AreaInRow(g: Geo, sectors: seq<Sector>, k: nat)
    requires g.fatBase + g.fsize <= |sectors| && k < g.fsize
    ensures Area(g, sectors)[k * SS..(k + 1) * SS] == sectors[g.fatBase + k]
  {
    var part: seq<byte> := Area(g, sectors)[k * SS..(k + 1) * SS];
    forall i | 0 <= i < SS
      ensures part[i] == sectors[g.fatBase + k][i]
    {
      QuotientAndRemainder(k * SS + i, SS, k, i);
    }
  }

  function SetByte(sectors: seq<Sector>, s: nat, i: nat, v: byte): (r: seq<Sector>)
    requires s < |sectors| && i < SS
    ensures |r| == |sectors|
  {
    sectors[s := sectors[s][i := v]]
  }

  lemma AreaOfSetByte(g: Geo, sectors: seq<Sector>, i: nat, v: byte)
    requires g.fatBase + g.fsize <= |sectors| && i < g.fsize * SS
    ensures Area(g, SetByte(sectors, g.fatBase + i / SS, i % SS, v)) == Area(g, sectors)[i := v]
  {
  }

  lemma AreaOfSame(g: Geo, sectors: seq<Sector>, sectors': seq<Sector>)
    requires g.fatBase + g.fsize <= |sectors| == |sectors'|
    requires forall s | InFat(g, s) :: sectors'[s] == sectors[s]
    ensures Area(g, sectors') == Area(g, sectors)
  {
  }

  // ----- Entries -----

  predicate Holds(kind: FatKind, a: seq<byte>, n: nat) {
    TableFits(kind, n, |a|)
  }

  function Unpack12(c: nat, b0: byte, b1: byte): (v: nat)
    ensures v < 0x1000
  {
    if c % 2 == 1 then Word(b0, b1) / 0x10 else Word(b0, b1) % 0x1000
  }

  // The value of entry c, as get_fat unpacks it.
  function Entry(kind: FatKind, a: seq<byte>, c: nat): (v: nat)
    requires Holds(kind, a, c + 1)
    ensures v < EntryModulus(kind)
  {
    match kind
    case FAT12 => Unpack12(c, a[c + c / 2], a[c + c / 2 + 1])
    case FAT16 => Word(a[2 * c], a[2 * c + 1])
    case FAT32 => Dword(a[4 * c], a[4 * c + 1], a[4 * c + 2], a[4 * c + 3]) % 0x1000_0000
  }

  // The first and the second byte of a FAT12 entry after val is put into it; the other
  // entry sharing the byte keeps its nibble.
  function FirstByte12(c: nat, old0: byte, val: nat): byte {
    if c % 2 == 1 then old0 % 0x10 + 0x10 * (val % 0x10) else val % 0x100
  }

  function SecondByte12(c: nat, old1: byte, val: nat): byte {
    if c % 2 == 1 then val / 0x10 % 0x100 else old1 - old1 % 0x10 + val / 0x100 % 0x10
  }

  function PutFirst12(a: seq<byte>, c: nat, val: nat): (r: seq<byte>)
    requires Holds(FAT12, a, c + 1)
    ensures |r| == |a|
  {
    a[c + c / 2 := FirstByte12(c, a[c + c / 2], val)]
  }

  function PutSecond12(a: seq<byte>, c: nat, val: nat): (r: seq<byte>)
    requires Holds(FAT12, a, c + 1)
    ensures |r| == |a|
  {
    a[c + c / 2 + 1 := SecondByte12(c, a[c + c / 2 + 1], val)]
  }

  // st_word
  function SetWord(a: seq<byte>, i: nat, lo: byte, hi: byte): (r: seq<byte>)
    requires i + 1 < |a|
    ensures |r| == |a|
  {
    a[i := lo][i + 1 := hi]
  }

  // The last byte of a FAT32 entry keeps its upper, reserved, nibble.
  function LastByte32(top: byte, val: nat): byte {
    val / 0x100_0000 % 0x10 + (top - top % 0x10)
  }

  // The bytes after put_fat(c, val).
  function PutEntry(kind: FatKind, a: seq<byte>, c: nat, val: nat): (r: seq<byte>)
    requires Holds(kind, a, c + 1)
    ensures |r| == |a|
  {
    match kind
    case FAT12 =>
      PutSecond12(PutFirst12(a, c, val), c, val)
    case FAT16 =>
      SetWord(a, 2 * c, val % 0x100, val / 0x100 % 0x100)
    case FAT32 =>
      var top := a[4 * c + 3];
      var half := SetWord(a, 4 * c, val % 0x100, val / 0x100 % 0x100);
      SetWord(half, 4 * c + 2, val / 0x1_0000 % 0x100, LastByte32(top, val))
  }

  // Read over write: the entry put holds val cut to its width, every other entry is as it was.
  lemma ReadOverWrite(kind: FatKind, a: seq<byte>, c: nat, val: nat, d: nat)
    requires Holds(kind, a, c + 1) && Holds(kind, a, d + 1)
    ensures Entry(kind, PutEntry(kind, a, c, val), d) == if d == c then Masked(kind, val) else Entry(kind, a, d)
  {
    match kind
    case FAT12 => ReadOverWrite12(a, c, val, d);
    case FAT16 => ReadOverWrite16(a, c, val, d);
    case FAT32 => ReadOverWrite32(a, c, val, d);
  }

  lemma ReadOverWrite16(a: seq<byte>, c: nat, val: nat, d: nat)
    requires Holds(FAT16, a, c + 1) && Holds(FAT16, a, d + 1)
    ensures Entry(FAT16, PutEntry(FAT16, a, c, val), d) == if d == c then val % 0x1_0000 else Entry(FAT16, a, d)
  {
  }

  lemma ReadOverWrite32(a: seq<byte>, c: nat, val: nat, d: nat)
    requires Holds(FAT32, a, c + 1) && Holds(FAT32, a, d + 1)
    ensures Entry(FAT32, PutEntry(FAT32, a, c, val), d) == if d == c then val % 0x1000_0000 else Entry(FAT32, a, d)
  {
    if d == c { Digits32(a, c, val); }
  }

  // Two FAT12 entries share a byte only when they are an even one and the odd one after it.
  lemma Offsets12(c: nat, d: nat)
    requires c != d
    ensures c + c / 2 + 1 < d + d / 2 || d + d / 2 + 1 < c + c / 2
      || (d == c + 1 && c % 2 == 0 && d + d / 2 == c + c / 2 + 1)
      || (c == d + 1 && d % 2 == 0 && c + c / 2 == d + d / 2 + 1)
  {
  }

  lemma ReadOverWrite12(a: seq<byte>, c: nat, val: nat, d: nat)
    requires Holds(FAT12, a, c + 1) && Holds(FAT12, a, d + 1)
    ensures Entry(FAT12, PutEntry(FAT12, a, c, val), d) == if d == c then val % 0x1000 else Entry(FAT12, a, d)
  {
    var bc, bd := c + c / 2, d + d / 2;
    if d == c {
      Repack12(c, a[bc], a[bc + 1], val);
    } else if d == c + 1 && c % 2 == 0 {
      assert bd == bc + 1;
      SharedNibbles(c, a[bc + 1], a[bd + 1], val);
    } else if c == d + 1 && d % 2 == 0 {
      assert bc == bd + 1;
      SharedNibbles(c, a[bc], a[bd], val);
    } else {
      Offsets12(c, d);
    }
  }

  // An entry reads back from its own two bytes.
  lemma Repack12(c: nat, b0: byte, b1: byte, val: nat)
    ensures Unpack12(c, FirstByte12(c, b0, val), SecondByte12(c, b1, val)) == val % 0x1000
  {
    var d0, d1, d2 := val % 0x10, val / 0x10 % 0x10, val / 0x100 % 0x10;
    Nibbles(val);
    if c % 2 == 1 {
      Digit16(d0 + 0x10 * (d1 + 0x10 * d2), b0 % 0x10);
    } else {
      Digit4096(b1 / 0x10, d0 + 0x10 * d1 + 0x100 * d2);
    }
  }

  lemma Nibbles(val: nat)
    ensures val % 0x100 == val % 0x10 + 0x10 * (val / 0x10 % 0x10)
    ensures val / 0x10 % 0x100 == val / 0x10 % 0x10 + 0x10 * (val / 0x100 % 0x10)
    ensures val % 0x1000 == val % 0x10 + 0x10 * (val / 0x10 % 0x10) + 0x100 * (val / 0x100 % 0x10)
  {
    var q1 := val / 0x10;
    var q2 := q1 / 0x10;
    var q3 := q2 / 0x10;
    var d0, d1, d2 := val % 0x10, q1 % 0x10, q2 % 0x10;
    assert val == 0x1000 * q3 + 0x100 * d2 + 0x10 * d1 + d0;
    assert q2 == val / 0x100;
    Digit256(0x10 * q3 + d2, 0x10 * d1 + d0);
    Digit256(q3, 0x10 * d2 + d1);
    Digit4096(q3, 0x100 * d2 + 0x10 * d1 + d0);
  }

  lemma Digit16(q: nat, r: nat)
    requires r < 0x10
    ensures (0x10 * q + r) / 0x10 == q && (0x10 * q + r) % 0x10 == r
  {
  }

  lemma Digit256(q: nat, r: nat)
    requires r < 0x100
    ensures (0x100 * q + r) / 0x100 == q && (0x100 * q + r) % 0x100 == r
  {
  }

  lemma Digit4096(q: nat, r: nat)
    requires r < 0x1000
    ensures (0x1000 * q + r) % 0x1000 == r
  {
  }

  // The byte a put shares with a neighbouring entry keeps the neighbour's nibble.
  lemma SharedNibbles(c: nat, shared: byte, other: byte, val: nat)
    ensures c % 2 == 0 ==> Unpack12(c + 1, SecondByte12(c, shared, val), other) == Unpack12(c + 1, shared, other)
    ensures c % 2 == 1 ==> Unpack12(c - 1, other, FirstByte12(c, shared, val)) == Unpack12(c - 1, other, shared)
  {
    hide Word, FirstByte12, SecondByte12;
    NibblesKept(c, shared, val);
    if c % 2 == 0 {
      UpperNibbleKept(shared, other, SecondByte12(c, shared, val));
    } else {
      LowerNibbleKept(shared, other, FirstByte12(c, shared, val));
    }
  }

  lemma NibblesKept(c: nat, shared: byte, val: nat)
    ensures c % 2 == 0 ==> SecondByte12(c, shared, val) / 0x10 == shared / 0x10
    ensures c % 2 == 1 ==> FirstByte12(c, shared, val) % 0x10 == shared % 0x10
  {
    Digit16(shared / 0x10, val / 0x100 % 0x10);
    Digit16(val % 0x10, shared % 0x10);
  }

  lemma UpperNibbleKept(b: byte, other: byte, b': byte)
    requires b' / 0x10 == b / 0x10
    ensures Word(b', other) / 0x10 == Word(b, other) / 0x10
  {
  }

  lemma LowerNibbleKept(b: byte, other: byte, b': byte)
    requires b' % 0x10 == b % 0x10
    ensures Word(other, b') % 0x1000 == Word(other, b) % 0x1000
  {
    Digit4096(b / 0x10, other + 0x100 * (b % 0x10));
    Digit4096(b' / 0x10, other + 0x100 * (b % 0x10));
  }

  lemma Digits32(a: seq<byte>, c: nat, val: nat)
    requires Holds(FAT32, a, c + 1)
    ensures Entry(FAT32, PutEntry(FAT32, a, c, val), c) == val % 0x1000_0000
  {
    var top := a[4 * c + 3];
    Digits(val, top);
  }

  lemma Digits(val: nat, top: byte)
    ensures Dword(val % 0x100, val / 0x100 % 0x100, val / 0x1_0000 % 0x100, LastByte32(top, val)) % 0x1000_0000
      == val % 0x1000_0000
  {
    var q1, q2, q3 := val / 0x100, val / 0x1_0000, val / 0x100_0000;
    assert q2 == q1 / 0x100 && q3 == q2 / 0x100;
    assert val == val % 0x100 + 0x100 * (q1 % 0x100) + 0x1_0000 * (q2 % 0x100) + 0x100_0000 * q3;
    var low := val % 0x100 + 0x100 * (q1 % 0x100) + 0x1_0000 * (q2 % 0x100) + 0x100_0000 * (q3 % 0x10);
    CutTo28(low, q3 / 0x10, val);
    CutTo28(low, top / 0x10, low + 0x1000_0000 * (top / 0x10));
  }

  lemma CutTo28(low: nat, high: nat, x: nat)
    requires low < 0x1000_0000 && x == low + 0x1000_0000 * high
    ensures x % 0x1000_0000 == low
  {
  }

  // A FAT12 put that stops half way has changed nothing but its own entry.
  lemma HalfPut12(a: seq<byte>, c: nat, val: nat, d: nat)
    requires Holds(FAT12, a, c + 1) && Holds(FAT12, a, d + 1) && d != c
    ensures Entry(FAT12, PutFirst12(a, c, val), d) == Entry(FAT12, a, d)
  {
    hide FirstByte12, Unpack12;
    var bc, bd := c + c / 2, d + d / 2;
    Offsets12(c, d);
    if c == d + 1 && d % 2 == 0 {
      SharedNibbles(c, a[bc], a[bd], val);
    }
  }

  // The sector of the FAT that byte i lies in, as the window shows it.
  ghost predicate Shows(win: Sector, a: seq<byte>, i: nat) {
    forall j: nat | j < |a| && j / SS == i / SS :: win[j % SS] == a[j]
  }

  // A FAT16 or FAT32 entry lies within one sector.
  lemma EntryInSector16(win: Sector, a: seq<byte>, c: nat)
    requires Holds(FAT16, a, c + 1) && Shows(win, a, 2 * c)
    ensures var i := 2 * c % SS; i + 1 < SS && Word(win[i], win[i + 1]) == Entry(FAT16, a, c)
  {
    hide Word;
    Within2(c);
    assert win[(2 * c + 1) % SS] == a[2 * c + 1];
  }

  lemma Within2(c: nat)
    ensures (2 * c + 1) / SS == 2 * c / SS && (2 * c + 1) % SS == 2 * c % SS + 1
  {
  }

  lemma EntryInSector32(win: Sector, a: seq<byte>, c: nat)
    requires Holds(FAT32, a, c + 1) && Shows(win, a, 4 * c)
    ensures var i := 4 * c % SS;
      i + 3 < SS && Dword(win[i], win[i + 1], win[i + 2], win[i + 3]) % 0x1000_0000 == Entry(FAT32, a, c)
      && win[i + 3] == a[4 * c + 3]
  {
    var b := 4 * c;
    assert b + 3 < |a|;
    Within4(c, 1); Within4(c, 2); Within4(c, 3);
    assert win[(b + 1) % SS] == a[b + 1];
    assert win[(b + 2) % SS] == a[b + 2];
    assert win[(b + 3) % SS] == a[b + 3];
  }

  lemma Within4(c: nat, k: nat)
    requires k < 4
    ensures (4 * c + k) / SS == 4 * c / SS && (4 * c + k) % SS == 4 * c % SS + k
  {
  }

  // The first n entries.
  function Entries(kind: FatKind, a: seq<byte>, n: nat): (t: seq<nat>)
    requires Holds(kind, a, n)
    ensures |t| == n
    ensures forall c | 0 <= c < n :: t[c] < EntryModulus(kind)
  {
    if n == 0 then [] else Entries(kind, a, n - 1) + [Entry(kind, a, n - 1)]
  }

  lemma {:induction false} EntriesAt(kind: FatKind, a: seq<byte>, n: nat, c: nat)
    requires Holds(kind, a, n) && c < n
    ensures Entries(kind, a, n)[c] == Entry(kind, a, c)
  {
    if c < n - 1 {
      EntriesAt(kind, a, n - 1, c);
    }
  }

  // ----- The table as one number -----

  // The number that has these digits, the lowest first.
  function Number(base: nat, digits: seq<nat>): nat {
    if digits == [] then 0 else digits[0] + base * Number(base, digits[1..])
  }

  // A number has one row of so many digits only.
  lemma {:induction false} DigitsAreUnique(base: nat, s: seq<nat>, t: seq<nat>)
    requires |s| == |t| && Number(base, s) == Number(base, t)
    requires forall i | 0 <= i < |s| :: s[i] < base && t[i] < base
    ensures s == t
  {
    if s != [] {
      var m, n := Number(base, s[1..]), Number(base, t[1..]);
      assert s[0] + base * m == m * base + s[0] && t[0] + base * n == n * base + t[0];
      QuotientAndRemainder(s[0] + base * m, base, m, s[0]);
      QuotientAndRemainder(t[0] + base * n, base, n, t[0]);
      DigitsAreUnique(base, s[1..], t[1..]);
      assert s == [s[0]] + s[1..] && t == [t[0]] + t[1..];
    }
  }

  // How much a digit of the table counts up to, and how many bytes hold n of them.
  function DigitModulus(kind: FatKind): nat {
    match kind
    case FAT12 => 0x1000
    case FAT16 => 0x1_0000
    case FAT32 => 0x1_0000_0000
  }

  function BytesOf(kind: FatKind, n: nat): nat {
    match kind
    case FAT12 => n + (n + 1) / 2
    case FAT16 => 2 * n
    case FAT32 => 4 * n
  }

  // The first n digits: an entry is a digit or, on FAT32, the lower 28 bits of one.
  function TableDigits(kind: FatKind, a: seq<byte>, n: nat): (r: seq<nat>)
    requires Holds(kind, a, n)
    ensures |r| == n
    ensures forall c | 0 <= c < n :: r[c] < DigitModulus(kind) && Entry(kind, a, c) == r[c] % EntryModulus(kind)
  {
    seq(n, c requires 0 <= c < n =>
      if kind.FAT32? then Dword(a[4 * c], a[4 * c + 1], a[4 * c + 2], a[4 * c + 3]) else Entry(kind, a, c))
  }

  // Behind an odd number of FAT12 entries half a byte is left.
  function HalfByte(kind: FatKind, a: seq<byte>, n: nat): seq<nat>
    requires Holds(kind, a, n)
  {
    if kind.FAT12? && n % 2 == 1 then [a[n + n / 2] / 0x10] else []
  }

  // The bytes of a FAT and its entries are digits of the same number, the lowest first.
  lemma TableIsNumber(kind: FatKind, a: seq<byte>, n: nat)
    requires Holds(kind, a, n)
    ensures BytesOf(kind, n) <= |a|
    ensures Number(0x100, a[..BytesOf(kind, n)])
      == Number(DigitModulus(kind), TableDigits(kind, a, n) + HalfByte(kind, a, n))
  {
    match kind
    case FAT12 => NumberOf12(a, n);
    case FAT16 => NumberOf16(a, n);
    case FAT32 => NumberOf32(a, n);
  }

  lemma {:induction false} NumberOf16(a: seq<byte>, n: nat)
    requires Holds(FAT16, a, n)
    ensures Number(0x100, a[..2 * n]) == Number(0x1_0000, TableDigits(FAT16, a, n) + HalfByte(FAT16, a, n))
  {
    hide Number;
    if n == 0 {
      assert a[..0] == [] && TableDigits(FAT16, a, 0) + HalfByte(FAT16, a, 0) == [];
      NoDigits();
    } else {
      hide TableDigits, HalfByte;
      var rest := a[2..];
      NumberOf16(rest, n - 1);
      var tail, more := rest[..2 * (n - 1)], TableDigits(FAT16, rest, n - 1) + HalfByte(FAT16, rest, n - 1);
      assert a[..2 * n] == [a[0], a[1]] + tail;
      DigitInFront16(a, n);
      TwoDigits(0x100, a[0], a[1], tail);
      OneDigit(0x1_0000, Word(a[0], a[1]), more);
    }
  }

  lemma DigitInFront16(a: seq<byte>, n: nat)
    requires Holds(FAT16, a, n) && 1 <= n
    ensures TableDigits(FAT16, a, n) + HalfByte(FAT16, a, n) ==
      [Word(a[0], a[1])] + (TableDigits(FAT16, a[2..], n - 1) + HalfByte(FAT16, a[2..], n - 1))
  {
    hide Word;
    var all, rest := TableDigits(FAT16, a, n), TableDigits(FAT16, a[2..], n - 1);
    assert forall c | 0 <= c < |rest| :: all[1 + c] == rest[c];
  }

  lemma {:induction false} NumberOf32(a: seq<byte>, n: nat)
    requires Holds(FAT32, a, n)
    ensures Number(0x100, a[..4 * n]) == Number(0x1_0000_0000, TableDigits(FAT32, a, n) + HalfByte(FAT32, a, n))
  {
    hide Number;
    if n == 0 {
      assert a[..0] == [] && TableDigits(FAT32, a, 0) + HalfByte(FAT32, a, 0) == [];
      NoDigits();
    } else {
      hide TableDigits, HalfByte;
      var rest := a[4..];
      NumberOf32(rest, n - 1);
      var tail, more := rest[..4 * (n - 1)], TableDigits(FAT32, rest, n - 1) + HalfByte(FAT32, rest, n - 1);
      assert a[..4 * n] == [a[0], a[1]] + ([a[2], a[3]] + tail);
      DigitInFront32(a, n);
      TwoDigits(0x100, a[0], a[1], [a[2], a[3]] + tail);
      TwoDigits(0x100, a[2], a[3], tail);
      OneDigit(0x1_0000_0000, Dword(a[0], a[1], a[2], a[3]), more);
    }
  }

  lemma DigitInFront32(a: seq<byte>, n: nat)
    requires Holds(FAT32, a, n) && 1 <= n
    ensures TableDigits(FAT32, a, n) + HalfByte(FAT32, a, n) ==
      [Dword(a[0], a[1], a[2], a[3])] + (TableDigits(FAT32, a[4..], n - 1) + HalfByte(FAT32, a[4..], n - 1))
  {
    hide Entry, Dword;
    var all, rest := TableDigits(FAT32, a, n), TableDigits(FAT32, a[4..], n - 1);
    assert forall c | 0 <= c < |rest| :: all[1 + c] == rest[c];
  }

  lemma {:induction false} NumberOf12(a: seq<byte>, n: nat)
    requires Holds(FAT12, a, n)
    ensures Number(0x100, a[..n + (n + 1) / 2]) == Number(0x1000, TableDigits(FAT12, a, n) + HalfByte(FAT12, a, n))
  {
    hide Number, Unpack12;
    if n == 0 {
      assert a[..0] == [] && TableDigits(FAT12, a, 0) + HalfByte(FAT12, a, 0) == [];
      NoDigits();
    } else if n == 1 {
      hide TableDigits;
      OnlyEntry12(a);
      assert a[..2] == [a[0], a[1]] + [];
      TwoDigits(0x100, a[0], a[1], []);
      TwoDigits(0x1000, Entry(FAT12, a, 0), a[1] / 0x10, []);
      NoDigits();
      TwoBytes(a[0], a[1]);
    } else {
      hide TableDigits, HalfByte;
      var rest := a[3..];
      NumberOf12(rest, n - 2);
      var tail, more := rest[..n - 2 + (n - 1) / 2], TableDigits(FAT12, rest, n - 2) + HalfByte(FAT12, rest, n - 2);
      assert a[..n + (n + 1) / 2] == [a[0], a[1]] + ([a[2]] + tail);
      PairInFront12(a, n);
      TwoDigits(0x100, a[0], a[1], [a[2]] + tail);
      OneDigit(0x100, a[2], tail);
      TwoDigits(0x1000, Entry(FAT12, a, 0), Entry(FAT12, a, 1), more);
      ThreeBytes(a[0], a[1], a[2]);
    }
  }

  lemma OnlyEntry12(a: seq<byte>)
    requires Holds(FAT12, a, 1)
    ensures TableDigits(FAT12, a, 1) + HalfByte(FAT12, a, 1) == [Entry(FAT12, a, 0), a[1] / 0x10] + []
  {
  }

  lemma PairInFront12(a: seq<byte>, n: nat)
    requires Holds(FAT12, a, n) && 2 <= n
    ensures TableDigits(FAT12, a, n) + HalfByte(FAT12, a, n) ==
      [Entry(FAT12, a, 0), Entry(FAT12, a, 1)]
      + (TableDigits(FAT12, a[3..], n - 2) + HalfByte(FAT12, a[3..], n - 2))
  {
    hide Unpack12, HalfByte;
    var rest := a[3..];
    forall c | 0 <= c < n - 2
      ensures Entry(FAT12, rest, c) == Entry(FAT12, a, c + 2)
    {
      assert (c + 2) + (c + 2) / 2 == c + c / 2 + 3 && (c + 2) % 2 == c % 2;
      Parity12(c, rest[c + c / 2], rest[c + c / 2 + 1]);
    }
    HalfByteBehind(a, n);
    assert TableDigits(FAT12, a, n) ==
      [Entry(FAT12, a, 0), Entry(FAT12, a, 1)] + TableDigits(FAT12, rest, n - 2);
  }

  lemma HalfByteBehind(a: seq<byte>, n: nat)
    requires Holds(FAT12, a, n) && 2 <= n
    ensures HalfByte(FAT12, a, n) == HalfByte(FAT12, a[3..], n - 2)
  {
    var h := n / 2;
    assert (n - 2) / 2 == h - 1 && n % 2 == (n - 2) % 2;
  }

  lemma Parity12(c: nat, b0: byte, b1: byte)
    ensures Unpack12(c + 2, b0, b1) == Unpack12(c, b0, b1)
  {
    hide Word;
    assert (c + 2) % 2 == c % 2;
  }

  lemma NoDigits()
    ensures forall base :: Number(base, []) == 0
  {
  }

  lemma OneDigit(base: nat, x: nat, more: seq<nat>)
    ensures Number(base, [x] + more) == x + base * Number(base, more)
  {
    assert ([x] + more)[1..] == more;
  }

  lemma TwoDigits(base: nat, x: nat, y: nat, more: seq<nat>)
    ensures Number(base, [x, y] + more) == x + base * (y + base * Number(base, more))
  {
    assert ([x, y] + more)[1..] == [y] + more && ([y] + more)[1..] == more;
  }

  lemma TwoBytes(b0: byte, b1: byte)
    ensures Unpack12(0, b0, b1) + 0x1000 * (b1 / 0x10) == b0 + 0x100 * b1
  {
    Digit4096(b1 / 0x10, b0 + 0x100 * (b1 % 0x10));
  }

  // On FAT32 a put leaves the upper four bits of its digit and all other digits as they are.
  lemma ReservedBitsStay(a: seq<byte>, c: nat, val: nat, n: nat, d: nat)
    requires Holds(FAT32, a, n) && c < n && d < n
    ensures var was, now := TableDigits(FAT32, a, n)[d], TableDigits(FAT32, PutEntry(FAT32, a, c, val), n)[d];
      && (d != c ==> now == was)
      && (d == c ==> now / 0x1000_0000 == was / 0x1000_0000 && now % 0x1000_0000 == val % 0x1000_0000)
  {
    var i := 4 * d;
    if d == c {
      Digits32(a, c, val);
      UpperNibble(a[i], a[i + 1], a[i + 2], a[i + 3]);
      var b := PutEntry(FAT32, a, c, val);
      UpperNibble(b[i], b[i + 1], b[i + 2], b[i + 3]);
      assert b[i + 3] / 0x10 == a[i + 3] / 0x10;
    }
  }

  lemma UpperNibble(b0: byte, b1: byte, b2: byte, b3: byte)
    ensures Dword(b0, b1, b2, b3) / 0x1000_0000 == b3 / 0x10
  {
    QuotientAndRemainder(Dword(b0, b1, b2, b3), 0x1000_0000, b3 / 0x10,
                         b0 + 0x100 * b1 + 0x1_0000 * b2 + 0x100_0000 * (b3 % 0x10));
  }

  // A pair of FAT12 entries in its three bytes.
  lemma ThreeBytes(b0: byte, b1: byte, b2: byte)
    ensures Unpack12(0, b0, b1) + 0x1000 * Unpack12(1, b1, b2) == b0 + 0x100 * b1 + 0x1_0000 * b2
  {
    TwoBytes(b0, b1);
    Digit16(b1 / 0x10 + 0x10 * b2, b1 % 0x10);
  }

  // Where a FAT16 or FAT32 entry begins.
  function EntryOffset(kind: FatKind, c: nat): (b: nat)
    ensures c == 0 ==> b == 0
  {
    if kind == FAT16 then 2 * c else 4 * c
  }

  lemma EntryOffsetWithin(g: Geo, c: nat)
    requires WellFormed(g) && c < g.nFatent && g.kind != FAT12
    ensures EntryOffset(g.kind, c) < g.fsize * SS
  {
  }

  // From one entry to the next the offset in the sector goes up, and on to the next sector
  // when it has gone round.
  lemma EntryOffsetStep(kind: FatKind, c: nat)
    requires kind != FAT12
    ensures var b, n := EntryOffset(kind, c), EntryOffset(kind, c + 1);
      && n == b + (if kind == FAT16 then 2 else 4) && n % SS == (b % SS + n - b) % SS
      && n / SS == b / SS + (if n % SS == 0 then 1 else 0)
  {
    var b, n := EntryOffset(kind, c), EntryOffset(kind, c + 1);
    var q, r := b / SS, b % SS;
    if kind == FAT16 {
      QuotientAndRemainder(b, SS, c / 256, 2 * (c % 256));
    } else {
      QuotientAndRemainder(b, SS, c / 128, 4 * (c % 128));
    }
    if r + (n - b) < SS {
      QuotientAndRemainder(n, SS, q, r + (n - b));
      QuotientAndRemainder(r + (n - b), SS, 0, r + (n - b));
    } else {
      QuotientAndRemainder(n, SS, q + 1, 0);
      QuotientAndRemainder(r + (n - b), SS, 1, 0);
    }
  }

  // put_fat, seen on all entries.
  lemma EntriesOfPut(kind: FatKind, a: seq<byte>, n: nat, c: nat, val: nat)
    requires Holds(kind, a, n) && c < n
    ensures Entries(kind, PutEntry(kind, a, c, val), n) == Entries(kind, a, n)[c := Masked(kind, val)]
  {
    var t := Entries(kind, PutEntry(kind, a, c, val), n);
    forall d: nat | d < n
      ensures t[d] == Entries(kind, a, n)[c := Masked(kind, val)][d]
    {
      EntryOfPut(kind, a, n, c, val, d);
    }
  }

  lemma EntryOfPut(kind: FatKind, a: seq<byte>, n: nat, c: nat, val: nat, d: nat)
    requires Holds(kind, a, n) && c < n && d < n
    ensures Entries(kind, PutEntry(kind, a, c, val), n)[d] ==
      if d == c then Masked(kind, val) else Entries(kind, a, n)[d]
  {
    EntriesAt(kind, a, n, d);
    EntriesAt(kind, PutEntry(kind, a, c, val), n, d);
    ReadOverWrite(kind, a, c, val, d);
  }

  // A FAT12 put that stops half way, seen on all entries.
  lemma EntriesOfHalfPut(a: seq<byte>, n: nat, c: nat, val: nat)
    requires Holds(FAT12, a, n) && c < n
    ensures var half := Entries(FAT12, PutFirst12(a, c, val), n); half == Entries(FAT12, a, n)[c := half[c]]
  {
    forall d: nat | d < n && d != c
      ensures Entries(FAT12, PutFirst12(a, c, val), n)[d] == Entries(FAT12, a, n)[d]
    {
      EntriesAt(FAT12, a, n, d);
      EntriesAt(FAT12, PutFirst12(a, c, val), n, d);
      HalfPut12(a, c, val, d);
    }
  }
}
