// CRC-32 (IEEE 802.3, section 3.2.9) in the three forms the repository has.

module Crc {

  // ----- The register -----

  const POLYNOMIAL: bv32 := 0xEDB8_8320
  const ONES: bv32 := 0xFFFF_FFFF

  function Xor(a: bv32, b: bv32): bv32 { a ^ b }
  function Half(a: bv32): bv32 { a >> 1 }
  function Shr8(a: bv32): bv32 { a >> 8 }
  function Low(a: bv32): bv8 { (a & 0xFF) as bv8 }
  function Wide(b: bv8): bv32 { b as bv32 }
  predicate Odd(a: bv32) { a & 1 == 1 }

  // One step of the division: the register is shifted, low bit first.
  function Shift(r: bv32): bv32 {
    if Odd(r) then Xor(Half(r), POLYNOMIAL) else Half(r)
  }

  function Shift8(r: bv32): bv32 {
    Shift(Shift(Shift(Shift(Shift(Shift(Shift(Shift(r))))))))
  }

  // The register after the bytes of data.
  function Register(r: bv32, data: seq<bv8>): bv32 {
    if data == [] then r
    else Shift8(Xor(Register(r, data[..|data| - 1]), Wide(data[|data| - 1])))
  }

  // The check value: the register begins and ends complemented.
  function Crc32Of(data: seq<bv8>): bv32 {
    Xor(Register(ONES, data), ONES)
  }

  // The check value of the digits 1 to 9, the common test of CRC-32.
  lemma CheckOfDigits()
    ensures Crc32Of([0x31, 0x32, 0x33, 0x34, 0x35, 0x36, 0x37, 0x38, 0x39]) == 0xCBF4_3926
  {
    hide Register, Shift8, Xor, Wide;
    var d: seq<bv8> := [0x31, 0x32, 0x33, 0x34, 0x35, 0x36, 0x37, 0x38, 0x39];
    DigitSteps();
    NoByte(ONES);
    OneByte(ONES, d[..0], d[0]);
    assert d[..0] + [d[0]] == d[..1];
    OneByte(ONES, d[..1], d[1]);
    assert d[..1] + [d[1]] == d[..2];
    OneByte(ONES, d[..2], d[2]);
    assert d[..2] + [d[2]] == d[..3];
    OneByte(ONES, d[..3], d[3]);
    assert d[..3] + [d[3]] == d[..4];
    OneByte(ONES, d[..4], d[4]);
    assert d[..4] + [d[4]] == d[..5];
    OneByte(ONES, d[..5], d[5]);
    assert d[..5] + [d[5]] == d[..6];
    OneByte(ONES, d[..6], d[6]);
    assert d[..6] + [d[6]] == d[..7];
    OneByte(ONES, d[..7], d[7]);
    assert d[..7] + [d[7]] == d[..8];
    OneByte(ONES, d[..8], d[8]);
    assert d[..8] + [d[8]] == d[..9];
    assert d[..9] == d;
    Complement();
  }

  lemma NoByte(r: bv32)
    ensures Register(r, []) == r
  {
  }

  lemma OneByte(r: bv32, data: seq<bv8>, b: bv8)
    ensures Register(r, data + [b]) == Shift8(Xor(Register(r, data), Wide(b)))
  {
    assert (data + [b])[..|data|] == data;
  }

  lemma Complement()
    ensures Xor(0x340B_C6D9, ONES) == 0xCBF4_3926
  {
  }

  lemma DigitSteps()
    ensures Shift8(Xor(0xFFFF_FFFF, Wide(0x31))) == 0x7C23_1048
    ensures Shift8(Xor(0x7C23_1048, Wide(0x32))) == 0xB0AC_BB32
    ensures Shift8(Xor(0xB0AC_BB32, Wide(0x33))) == 0x77B7_9C2D
    ensures Shift8(Xor(0x77B7_9C2D, Wide(0x34))) == 0x641C_1F5C
    ensures Shift8(Xor(0x641C_1F5C, Wide(0x35))) == 0x340A_C5E3
    ensures Shift8(Xor(0x340A_C5E3, Wide(0x36))) == 0xF68D_2C9E
    ensures Shift8(Xor(0xF68D_2C9E, Wide(0x37))) == 0xAFFC_9660
    ensures Shift8(Xor(0xAFFC_9660, Wide(0x38))) == 0x651F_2550
    ensures Shift8(Xor(0x651F_2550, Wide(0x39))) == 0x340B_C6D9
  {
  }

  lemma {:induction false} RegisterChains(r: bv32, a: seq<bv8>, b: seq<bv8>)
    ensures Register(r, a + b) == Register(Register(r, a), b)
  {
    hide Shift8, Xor, Wide;
    if b == [] {
      assert a + b == a;
    } else {
      assert (a + b)[..|a + b| - 1] == a + b[..|b| - 1];
      RegisterChains(r, a, b[..|b| - 1]);
    }
  }

  // ----- Facts about bits -----

  lemma XorCommutes(a: bv32, b: bv32)
    ensures Xor(a, b) == Xor(b, a)
  {
  }

  lemma XorAssociates(a: bv32, b: bv32, c: bv32)
    ensures Xor(Xor(a, b), c) == Xor(a, Xor(b, c))
  {
  }

  lemma XorCancels(a: bv32, b: bv32)
    ensures Xor(Xor(a, b), b) == a
  {
  }

  lemma XorFacts(a: bv32, b: bv32, c: bv32)
    ensures Xor(a, b) == Xor(b, a)
    ensures Xor(Xor(a, b), c) == Xor(a, Xor(b, c)) == Xor(Xor(a, c), b)
    ensures Xor(Xor(a, c), Xor(b, c)) == Xor(a, b)
  {
    hide Xor;
    XorCommutes(a, b);
    XorCommutes(b, c);
    XorAssociates(a, b, c);
    XorAssociates(a, c, b);
    XorAssociates(a, c, Xor(b, c));
    XorCommutes(c, Xor(b, c));
    XorCancels(b, c);
  }

  lemma HalfOdd(x: bv32, y: bv32)
    ensures Half(Xor(x, y)) == Xor(Half(x), Half(y))
    ensures Odd(Xor(x, y)) <==> (Odd(x) != Odd(y))
  {
  }

  // ----- The step is linear -----

  lemma ShiftLinear(x: bv32, y: bv32)
    ensures Shift(Xor(x, y)) == Xor(Shift(x), Shift(y))
  {
    hide Xor, Half, Odd;
    HalfOdd(x, y);
    XorFacts(Half(x), Half(y), POLYNOMIAL);
  }

  lemma Shift8Linear(x: bv32, y: bv32)
    ensures Shift8(Xor(x, y)) == Xor(Shift8(x), Shift8(y))
  {
    hide Shift, Xor;
    var x1, y1 := Shift(x), Shift(y);
    ShiftLinear(x, y);
    var x2, y2 := Shift(x1), Shift(y1);
    ShiftLinear(x1, y1);
    var x3, y3 := Shift(x2), Shift(y2);
    ShiftLinear(x2, y2);
    var x4, y4 := Shift(x3), Shift(y3);
    ShiftLinear(x3, y3);
    var x5, y5 := Shift(x4), Shift(y4);
    ShiftLinear(x4, y4);
    var x6, y6 := Shift(x5), Shift(y5);
    ShiftLinear(x5, y5);
    var x7, y7 := Shift(x6), Shift(y6);
    ShiftLinear(x6, y6);
    ShiftLinear(x7, y7);
  }

  // Bits above the lowest byte are only moved.
  lemma HighBits(x: bv32)
    requires x & 0xFF == 0
    ensures Shift8(x) == Shr8(x)
  {
  }

  // So a byte of the register can be looked up and the rest be shifted.
  lemma ByTable(x: bv32)
    ensures Shift8(x) == Xor(Shift8(Wide(Low(x))), Shr8(x))
  {
    hide Shift8, Xor, Wide, Low, Shr8;
    var high := HighPart(x);
    SplitBits(x);
    HighBits(high);
    Shift8Linear(Wide(Low(x)), high);
  }

  function HighPart(x: bv32): bv32 {
    x & 0xFFFF_FF00
  }

  lemma SplitBits(x: bv32)
    ensures x == Xor(Wide(Low(x)), HighPart(x)) && HighPart(x) & 0xFF == 0 && Shr8(HighPart(x)) == Shr8(x)
  {
  }

  // A byte mixed into the register reaches only the low byte.
  lemma MixedByte(x: bv32, d: bv8)
    ensures Low(Xor(x, Wide(d))) == d ^ Low(x) && Shr8(Xor(x, Wide(d))) == Shr8(x)
  {
  }

  // One byte through a table.
  lemma TableStep(r: bv32, d: bv8)
    ensures Shift8(Xor(r, Wide(d))) == Xor(Shift8(Wide(d ^ Low(r))), Shr8(r))
  {
    hide Shift8, Xor, Wide, Low, Shr8;
    ByTable(Xor(r, Wide(d)));
    MixedByte(r, d);
  }

  // ----- crcdetail::compute -----

  const ROW0: seq<bv32> := [
    0x00000000, 0x77073096, 0xEE0E612C, 0x990951BA, 0x076DC419, 0x706AF48F, 0xE963A535, 0x9E6495A3,
    0x0EDB8832, 0x79DCB8A4, 0xE0D5E91E, 0x97D2D988, 0x09B64C2B, 0x7EB17CBD, 0xE7B82D07, 0x90BF1D91]
  const ROW1: seq<bv32> := [
    0x1DB71064, 0x6AB020F2, 0xF3B97148, 0x84BE41DE, 0x1ADAD47D, 0x6DDDE4EB, 0xF4D4B551, 0x83D385C7,
    0x136C9856, 0x646BA8C0, 0xFD62F97A, 0x8A65C9EC, 0x14015C4F, 0x63066CD9, 0xFA0F3D63, 0x8D080DF5]
  const ROW2: seq<bv32> := [
    0x3B6E20C8, 0x4C69105E, 0xD56041E4, 0xA2677172, 0x3C03E4D1, 0x4B04D447, 0xD20D85FD, 0xA50AB56B,
    0x35B5A8FA, 0x42B2986C, 0xDBBBC9D6, 0xACBCF940, 0x32D86CE3, 0x45DF5C75, 0xDCD60DCF, 0xABD13D59]
  const ROW3: seq<bv32> := [
    0x26D930AC, 0x51DE003A, 0xC8D75180, 0xBFD06116, 0x21B4F4B5, 0x56B3C423, 0xCFBA9599, 0xB8BDA50F,
    0x2802B89E, 0x5F058808, 0xC60CD9B2, 0xB10BE924, 0x2F6F7C87, 0x58684C11, 0xC1611DAB, 0xB6662D3D]
  const ROW4: seq<bv32> := [
    0x76DC4190, 0x01DB7106, 0x98D220BC, 0xEFD5102A, 0x71B18589, 0x06B6B51F, 0x9FBFE4A5, 0xE8B8D433,
    0x7807C9A2, 0x0F00F934, 0x9609A88E, 0xE10E9818, 0x7F6A0DBB, 0x086D3D2D, 0x91646C97, 0xE6635C01]
  const ROW5: seq<bv32> := [
    0x6B6B51F4, 0x1C6C6162, 0x856530D8, 0xF262004E, 0x6C0695ED, 0x1B01A57B, 0x8208F4C1, 0xF50FC457,
    0x65B0D9C6, 0x12B7E950, 0x8BBEB8EA, 0xFCB9887C, 0x62DD1DDF, 0x15DA2D49, 0x8CD37CF3, 0xFBD44C65]
  const ROW6: seq<bv32> := [
    0x4DB26158, 0x3AB551CE, 0xA3BC0074, 0xD4BB30E2, 0x4ADFA541, 0x3DD895D7, 0xA4D1C46D, 0xD3D6F4FB,
    0x4369E96A, 0x346ED9FC, 0xAD678846, 0xDA60B8D0, 0x44042D73, 0x33031DE5, 0xAA0A4C5F, 0xDD0D7CC9]
  const ROW7: seq<bv32> := [
    0x5005713C, 0x270241AA, 0xBE0B1010, 0xC90C2086, 0x5768B525, 0x206F85B3, 0xB966D409, 0xCE61E49F,
    0x5EDEF90E, 0x29D9C998, 0xB0D09822, 0xC7D7A8B4, 0x59B33D17, 0x2EB40D81, 0xB7BD5C3B, 0xC0BA6CAD]
  const ROW8: seq<bv32> := [
    0xEDB88320, 0x9ABFB3B6, 0x03B6E20C, 0x74B1D29A, 0xEAD54739, 0x9DD277AF, 0x04DB2615, 0x73DC1683,
    0xE3630B12, 0x94643B84, 0x0D6D6A3E, 0x7A6A5AA8, 0xE40ECF0B, 0x9309FF9D, 0x0A00AE27, 0x7D079EB1]
  const ROW9: seq<bv32> := [
    0xF00F9344, 0x8708A3D2, 0x1E01F268, 0x6906C2FE, 0xF762575D, 0x806567CB, 0x196C3671, 0x6E6B06E7,
    0xFED41B76, 0x89D32BE0, 0x10DA7A5A, 0x67DD4ACC, 0xF9B9DF6F, 0x8EBEEFF9, 0x17B7BE43, 0x60B08ED5]
  const ROW10: seq<bv32> := [
    0xD6D6A3E8, 0xA1D1937E, 0x38D8C2C4, 0x4FDFF252, 0xD1BB67F1, 0xA6BC5767, 0x3FB506DD, 0x48B2364B,
    0xD80D2BDA, 0xAF0A1B4C, 0x36034AF6, 0x41047A60, 0xDF60EFC3, 0xA867DF55, 0x316E8EEF, 0x4669BE79]
  const ROW11: seq<bv32> := [
    0xCB61B38C, 0xBC66831A, 0x256FD2A0, 0x5268E236, 0xCC0C7795, 0xBB0B4703, 0x220216B9, 0x5505262F,
    0xC5BA3BBE, 0xB2BD0B28, 0x2BB45A92, 0x5CB36A04, 0xC2D7FFA7, 0xB5D0CF31, 0x2CD99E8B, 0x5BDEAE1D]
  const ROW12: seq<bv32> := [
    0x9B64C2B0, 0xEC63F226, 0x756AA39C, 0x026D930A, 0x9C0906A9, 0xEB0E363F, 0x72076785, 0x05005713,
    0x95BF4A82, 0xE2B87A14, 0x7BB12BAE, 0x0CB61B38, 0x92D28E9B, 0xE5D5BE0D, 0x7CDCEFB7, 0x0BDBDF21]
  const ROW13: seq<bv32> := [
    0x86D3D2D4, 0xF1D4E242, 0x68DDB3F8, 0x1FDA836E, 0x81BE16CD, 0xF6B9265B, 0x6FB077E1, 0x18B74777,
    0x88085AE6, 0xFF0F6A70, 0x66063BCA, 0x11010B5C, 0x8F659EFF, 0xF862AE69, 0x616BFFD3, 0x166CCF45]
  const ROW14: seq<bv32> := [
    0xA00AE278, 0xD70DD2EE, 0x4E048354, 0x3903B3C2, 0xA7672661, 0xD06016F7, 0x4969474D, 0x3E6E77DB,
    0xAED16A4A, 0xD9D65ADC, 0x40DF0B66, 0x37D83BF0, 0xA9BCAE53, 0xDEBB9EC5, 0x47B2CF7F, 0x30B5FFE9]
  const ROW15: seq<bv32> := [
    0xBDBDF21C, 0xCABAC28A, 0x53B39330, 0x24B4A3A6, 0xBAD03605, 0xCDD70693, 0x54DE5729, 0x23D967BF,
    0xB3667A2E, 0xC4614AB8, 0x5D681B02, 0x2A6F2B94, 0xB40BBE37, 0xC30C8EA1, 0x5A05DF1B, 0x2D02EF8D]

  // Row h of the table.
  function Row(h: bv8): (row: seq<bv32>)
    ensures |row| == 16
  {
    if h == 0 then ROW0 else
    if h == 1 then ROW1 else
    if h == 2 then ROW2 else
    if h == 3 then ROW3 else
    if h == 4 then ROW4 else
    if h == 5 then ROW5 else
    if h == 6 then ROW6 else
    if h == 7 then ROW7 else
    if h == 8 then ROW8 else
    if h == 9 then ROW9 else
    if h == 10 then ROW10 else
    if h == 11 then ROW11 else
    if h == 12 then ROW12 else
    if h == 13 then ROW13 else
    if h == 14 then ROW14 else
    ROW15
  }

  // The table of the polynomial: an entry for every byte.
  function Table(b: bv8): bv32 {
    LowNibble(b);
    Row(b >> 4)[(b & 0xF) as int]
  }

  lemma LowNibble(b: bv8)
    ensures 0 <= (b & 0xF) as int < 16
  {
  }

  // ----- Its entries -----

  // Eight steps from a sum are the sum of eight steps each.
  lemma Sum(x: bv32, y: bv32, z: bv32, tx: bv32, ty: bv32, tz: bv32)
    requires Shift8(x) == tx && Shift8(y) == ty && Xor(x, y) == z && Xor(tx, ty) == tz
    ensures Shift8(z) == tz
  {
    Shift8Linear(x, y);
  }

  lemma Bit0()
    ensures Shift8(0x1) == 0x77073096
  {
  }

  lemma Bit1()
    ensures Shift8(0x2) == 0xEE0E612C
  {
  }

  lemma Bit2()
    ensures Shift8(0x4) == 0x076DC419
  {
  }

  lemma Bit3()
    ensures Shift8(0x8) == 0x0EDB8832
  {
  }

  lemma Zero()
    ensures Shift8(0) == 0
  {
  }

  // The first row.
  lemma FirstRow()
    ensures Shift8(0x0) == 0x00000000 && Shift8(0x1) == 0x77073096 && Shift8(0x2) == 0xEE0E612C
    ensures Shift8(0x3) == 0x990951BA
    ensures Shift8(0x4) == 0x076DC419 && Shift8(0x5) == 0x706AF48F && Shift8(0x6) == 0xE963A535
    ensures Shift8(0x7) == 0x9E6495A3
    ensures Shift8(0x8) == 0x0EDB8832 && Shift8(0x9) == 0x79DCB8A4 && Shift8(0xa) == 0xE0D5E91E
    ensures Shift8(0xb) == 0x97D2D988
    ensures Shift8(0xc) == 0x09B64C2B && Shift8(0xd) == 0x7EB17CBD && Shift8(0xe) == 0xE7B82D07
    ensures Shift8(0xf) == 0x90BF1D91
  {
    hide Shift8;
    Zero();
    Bit0(); Bit1(); Bit2(); Bit3();
    Sum(0x2, 0x1, 0x3, 0xEE0E612C, 0x77073096, 0x990951BA);
    Sum(0x4, 0x1, 0x5, 0x076DC419, 0x77073096, 0x706AF48F);
    Sum(0x4, 0x2, 0x6, 0x076DC419, 0xEE0E612C, 0xE963A535);
    Sum(0x4, 0x3, 0x7, 0x076DC419, 0x990951BA, 0x9E6495A3);
    Sum(0x8, 0x1, 0x9, 0x0EDB8832, 0x77073096, 0x79DCB8A4);
    Sum(0x8, 0x2, 0xa, 0x0EDB8832, 0xEE0E612C, 0xE0D5E91E);
    Sum(0x8, 0x3, 0xb, 0x0EDB8832, 0x990951BA, 0x97D2D988);
    Sum(0x8, 0x4, 0xc, 0x0EDB8832, 0x076DC419, 0x09B64C2B);
    Sum(0x8, 0x5, 0xd, 0x0EDB8832, 0x706AF48F, 0x7EB17CBD);
    Sum(0x8, 0x6, 0xe, 0x0EDB8832, 0xE963A535, 0xE7B82D07);
    Sum(0x8, 0x7, 0xf, 0x0EDB8832, 0x9E6495A3, 0x90BF1D91);
  }

  // A row is the first one, moved by its first entry.
  predicate Moved(row: seq<bv32>) {
    |row| == 16 && forall c | 0 <= c < 16 :: row[c] == Xor(row[0], ROW0[c])
  }

  lemma Moved1()
    ensures Moved(ROW1)
  {
  }

  lemma Moved2()
    ensures Moved(ROW2)
  {
  }

  lemma Moved3()
    ensures Moved(ROW3)
  {
  }

  lemma Moved4()
    ensures Moved(ROW4)
  {
  }

  lemma Moved5()
    ensures Moved(ROW5)
  {
  }

  lemma Moved6()
    ensures Moved(ROW6)
  {
  }

  lemma Moved7()
    ensures Moved(ROW7)
  {
  }

  lemma Moved8()
    ensures Moved(ROW8)
  {
  }

  lemma Moved9()
    ensures Moved(ROW9)
  {
  }

  lemma Moved10()
    ensures Moved(ROW10)
  {
  }

  lemma Moved11()
    ensures Moved(ROW11)
  {
  }

  lemma Moved12()
    ensures Moved(ROW12)
  {
  }

  lemma Moved13()
    ensures Moved(ROW13)
  {
  }

  lemma Moved14()
    ensures Moved(ROW14)
  {
  }

  lemma Moved15()
    ensures Moved(ROW15)
  {
  }

  lemma Moved0()
    ensures Moved(ROW0)
  {
  }

  lemma XorZero()
    ensures forall x :: Xor(0, x) == x
  {
  }

  lemma RowMoved(h: bv8)
    ensures Moved(Row(h))
  {
    hide Moved;
    Moved0(); Moved1(); Moved2(); Moved3(); Moved4(); Moved5(); Moved6(); Moved7();
    Moved8(); Moved9(); Moved10(); Moved11(); Moved12(); Moved13(); Moved14(); Moved15();
  }

  // Byte 16 * h.
  function High(h: bv8): bv32 {
    Wide(h) << 4
  }

  lemma ColumnIsRight(h: bv8)
    requires h < 16
    ensures Row(h)[0] == Shift8(High(h))
  {
  }

  lemma FirstRowIsRight(b: bv8)
    requires b < 16
    ensures 0 <= b as int < 16 && ROW0[b as int] == Shift8(Wide(b))
  {
    hide Shift8;
    FirstRow();
  }

  // An entry of the table is what eight steps make of its byte.
  lemma TableIsRight(b: bv8)
    ensures Table(b) == Shift8(Wide(b))
  {
    hide Shift8, Moved, Xor, Wide, High;
    LowNibble(b);
    Nibbles(b);
    RowMoved(b >> 4);
    ColumnIsRight(b >> 4);
    FirstRowIsRight(b & 0xF);
    MovedEntry(Row(b >> 4), (b & 0xF) as int);
    Shift8Linear(High(b >> 4), Wide(b & 0xF));
  }

  lemma MovedEntry(row: seq<bv32>, c: int)
    requires Moved(row) && 0 <= c < 16
    ensures row[c] == Xor(row[0], ROW0[c])
  {
  }

  lemma Nibbles(b: bv8)
    ensures b >> 4 < 16 && b & 0xF < 16 && Xor(High(b >> 4), Wide(b & 0xF)) == Wide(b)
  {
  }

  // What compute makes of data when it goes on from an earlier check value.
  function Continued(crc: bv32, data: seq<bv8>): bv32 {
    Xor(Register(Xor(crc, ONES), data), ONES)
  }

  method Compute(data: seq<bv8>, crc0: bv32) returns (crc: bv32)
    ensures crc == Continued(crc0, data)
    ensures crc0 == 0 ==> crc == Crc32Of(data)
  {
    hide Xor, Shift8, Low, Shr8, Table, Wide;
    crc := Xor(crc0, ONES);
    for i := 0 to |data|
      invariant crc == Register(Xor(crc0, ONES), data[..i])
    {
      assert data[..i + 1][..i] == data[..i];
      TableStep(crc, data[i]);
      TableIsRight(data[i] ^ Low(crc));
      crc := Xor(Table(data[i] ^ Low(crc)), Shr8(crc));
    }
    assert data[..|data|] == data;
    crc := Xor(crc, ONES);
    XorZero();
  }

  // The check value of a whole is that of its second part, begun with that of the first.
  lemma ContinuedChains(crc: bv32, a: seq<bv8>, b: seq<bv8>)
    ensures Continued(crc, a + b) == Continued(Continued(crc, a), b)
  {
    hide Xor, Register;
    RegisterChains(Xor(crc, ONES), a, b);
    XorCancels(Register(Xor(crc, ONES), a), ONES);
  }

  // ----- crc32.cpp: the register is kept complemented -----

  // The step of crc32_for_byte takes the polynomial when the low bit is not set.
  function ShiftBack(r: bv32): bv32 {
    Xor(if Odd(r) then 0 else POLYNOMIAL, Half(r))
  }

  function ShiftsBack(r: bv32, k: nat): bv32 {
    if k == 0 then r else ShiftBack(ShiftsBack(r, k - 1))
  }

  method CrcForByte(r0: bv32) returns (r: bv32)
    ensures r == Xor(Shift8(r0), BYTE_ZERO)
  {
    hide Xor, Shift8, Half, Odd;
    r := r0;
    for j := 0 to 8
      invariant r == ShiftsBack(r0, j)
    {
      assert ShiftsBack(r0, j + 1) == ShiftBack(ShiftsBack(r0, j));
      r := Xor(if Odd(r) then 0 else POLYNOMIAL, Half(r));
    }
    ShiftsBackAre(r0, 8);
    ShiftsAre8(r0);
    ForByteZero();
    XorAssociates(Shift8(r0), ShiftsBack(0, 8), 0xFF00_0000);
    r := Xor(r, 0xFF00_0000);
  }

  // What crc32_for_byte makes of 0.
  const BYTE_ZERO: bv32 := 0xD202_EF8D

  // A step is the plain one with the polynomial added, so all of it differs by a constant.
  lemma {:induction false} ShiftsBackAre(r: bv32, k: nat)
    ensures ShiftsBack(r, k) == Xor(Shifts(r, k), ShiftsBack(0, k))
  {
    hide Xor, Shift, ShiftBack;
    if k == 0 {
      XorZero();
      XorCommutes(r, 0);
    } else {
      var x, y := Shifts(r, k - 1), ShiftsBack(0, k - 1);
      ShiftsBackAre(r, k - 1);
      ShiftBackIs(Xor(x, y));
      ShiftBackIs(y);
      ShiftLinear(x, y);
      XorAssociates(Shift(x), Shift(y), POLYNOMIAL);
    }
  }

  lemma ShiftBackIs(r: bv32)
    ensures ShiftBack(r) == Xor(Shift(r), POLYNOMIAL)
  {
    hide Xor, Half, Odd;
    if Odd(r) {
      XorCancels(Half(r), POLYNOMIAL);
      XorZero();
    } else {
      XorCommutes(Half(r), POLYNOMIAL);
    }
  }

  lemma ForByteZero()
    ensures Xor(ShiftsBack(0, 8), 0xFF00_0000) == BYTE_ZERO
  {
    ZeroSteps();
  }

  lemma ZeroSteps()
    ensures ShiftsBack(0, 8) == BYTE_ZERO ^ 0xFF00_0000
  {
    hide ShiftBack;
    BackValues();
    assert ShiftsBack(0, 0) == 0 && ShiftsBack(0, 1) == ShiftBack(ShiftsBack(0, 0));
    assert ShiftsBack(0, 2) == ShiftBack(ShiftsBack(0, 1));
    assert ShiftsBack(0, 3) == ShiftBack(ShiftsBack(0, 2)) && ShiftsBack(0, 4) == ShiftBack(ShiftsBack(0, 3));
    assert ShiftsBack(0, 5) == ShiftBack(ShiftsBack(0, 4)) && ShiftsBack(0, 6) == ShiftBack(ShiftsBack(0, 5));
    assert ShiftsBack(0, 7) == ShiftBack(ShiftsBack(0, 6)) && ShiftsBack(0, 8) == ShiftBack(ShiftsBack(0, 7));
  }

  lemma BackValues()
    ensures ShiftBack(0x0) == 0xEDB88320
    ensures ShiftBack(0xEDB88320) == 0x9B64C2B0
    ensures ShiftBack(0x9B64C2B0) == 0xA00AE278
    ensures ShiftBack(0xA00AE278) == 0xBDBDF21C
    ensures ShiftBack(0xBDBDF21C) == 0xB3667A2E
    ensures ShiftBack(0xB3667A2E) == 0xB40BBE37
    ensures ShiftBack(0xB40BBE37) == 0x5A05DF1B
    ensures ShiftBack(0x5A05DF1B) == 0x2D02EF8D
  {
  }

  // The table has been filled.
  ghost predicate Filled(t: seq<bv32>) {
    |t| == 256 && forall i | 0 <= i < 256 :: t[i] == Xor(Shift8(i as bv32), BYTE_ZERO)
  }

  // crc32: the table is filled when its first entry is still 0.
  method Crc32(table: array<bv32>, data: seq<bv8>) returns (crc: bv32)
    requires table.Length == 256 && (table[0] == 0 || Filled(table[..]))
    modifies table
    ensures Filled(table[..]) && crc == Crc32Of(data)
  {
    hide Xor, Shift8, Low, Shr8, Wide, Filled;
    crc := 0;
    if table[0] == 0 { FillTable(table); }
    OnesCancel();
    for i := 0 to |data|
      invariant Filled(table[..]) && crc == Xor(Register(ONES, data[..i]), ONES)
    {
      assert data[..i + 1][..i] == data[..i];
      crc := NextComplemented(table, crc, data[i], Register(ONES, data[..i]));
    }
    assert data[..|data|] == data;
  }

  method FillTable(table: array<bv32>)
    requires table.Length == 256
    modifies table
    ensures Filled(table[..])
  {
    hide Xor, Shift8, Wide;
    for i := 0 to 256
      invariant forall k | 0 <= k < i :: table[k] == Xor(Shift8(k as bv32), BYTE_ZERO)
    {
      table[i] := CrcForByte(i as bv32);
    }
  }

  // One byte more; r is the register that crc is the complement of.
  method NextComplemented(table: array<bv32>, crc0: bv32, d: bv8, ghost r: bv32) returns (crc: bv32)
    requires table.Length == 256 && Filled(table[..]) && crc0 == Xor(r, ONES)
    ensures crc == Xor(Shift8(Xor(r, Wide(d))), ONES)
  {
    hide Xor, Shift8, Low, Shr8, Wide, Filled;
    var b := Low(crc0) ^ d;
    TableAt(table[..], b);
    ComplementedStep(r, d);
    crc := Xor(table[b as int], Shr8(crc0));
  }

  lemma TableAt(t: seq<bv32>, b: bv8)
    requires |t| == 256 && Filled(t)
    ensures 0 <= b as int < 256 && t[b as int] == Xor(Shift8(Wide(b)), BYTE_ZERO)
  {
    hide Xor, Shift8, Wide;
    ByteIndex(b);
  }

  lemma OnesCancel()
    ensures Xor(ONES, ONES) == 0
  {
  }

  // A step on the complemented register gives the complement of the next one.
  lemma ComplementedStep(r: bv32, d: bv8)
    ensures var c := Xor(r, ONES);
      Xor(Xor(Shift8(Wide(Low(c) ^ d)), BYTE_ZERO), Shr8(c)) == Xor(Shift8(Xor(r, Wide(d))), ONES)
  {
    hide Xor, Shift8, Low, Shr8, Wide;
    var w, s := Wide(d ^ Low(r)), Shr8(r);
    TableStep(r, d);
    Complemented(r, d);
    Shift8Linear(w, 0xFF);
    Constants();
    XorShuffle(Shift8(w), Shift8(0xFF), BYTE_ZERO, s, 0x00FF_FFFF);
  }

  lemma Complemented(r: bv32, d: bv8)
    ensures Wide(Low(Xor(r, ONES)) ^ d) == Xor(Wide(d ^ Low(r)), 0xFF)
    ensures Shr8(Xor(r, ONES)) == Xor(Shr8(r), 0x00FF_FFFF)
  {
  }

  lemma Constants()
    ensures Xor(Xor(Shift8(0xFF), BYTE_ZERO), 0x00FF_FFFF) == ONES
  {
  }

  lemma XorShuffle(a: bv32, b: bv32, c: bv32, d: bv32, e: bv32)
    ensures Xor(Xor(Xor(a, b), c), Xor(d, e)) == Xor(Xor(a, d), Xor(Xor(b, c), e))
  {
    hide Xor;
    XorAssociates(a, b, c);
    XorAssociates(a, Xor(b, c), Xor(d, e));
    XorAssociates(a, d, Xor(Xor(b, c), e));
    XorAssociates(Xor(b, c), d, e);
    XorAssociates(d, Xor(b, c), e);
    XorCommutes(Xor(b, c), d);
  }

  // Bytes as indices.
  lemma ByteIndex(b: bv8)
    ensures 0 <= b as int < 256 && (b as int) as bv32 == Wide(b)
  {
    IndexBits(b as int);
    assert (b as int) as bv8 == b;
  }

  lemma IndexBits(i: int)
    requires 0 <= i < 256
    ensures (i as bv8) as bv32 == i as bv32
  {
  }

  // ----- crc32 of ff.c, bit by bit -----

  method NextCrc(crc0: bv32, d: bv8) returns (crc: bv32)
    ensures crc == Shift8(Xor(crc0, Wide(d)))
  {
    hide Xor, Half, Odd, Wide;
    crc := crc0;
    var b: bv8 := 1;
    ghost var k, rest := 0, Wide(d);
    ghost var all := Xor(crc0, Wide(d));
    while b != 0
      invariant 0 <= k <= 8 && MaskIs(b, k) && rest == Left(d, b)
      invariant Xor(crc, rest) == Shifts(all, k)
      decreases 8 - k
    {
      NextBit(d, b, k);
      ghost var bit: bv32 := if d & b != 0 then 1 else 0;
      SerialStep(crc, rest, bit);
      assert Shifts(all, k + 1) == Shift(Shifts(all, k));
      crc := Xor(crc, if d & b != 0 then 1 else 0);
      crc := if Odd(crc) then Xor(Half(crc), POLYNOMIAL) else Half(crc);
      b := b << 1;
      rest := Half(rest);
      k := k + 1;
    }
    NothingLeft(d, b, k);
    XorZero();
    XorCommutes(crc, 0);
    ShiftsAre8(all);
  }

  // The mask after k rounds, and the bits of d not yet mixed in.
  predicate MaskIs(b: bv8, k: nat) {
    b == if k == 0 then 1 else if k == 1 then 2 else if k == 2 then 4 else if k == 3 then 8
         else if k == 4 then 16 else if k == 5 then 32 else if k == 6 then 64 else if k == 7 then 128 else 0
  }

  function Left(d: bv8, b: bv8): bv32 {
    if b == 0 then 0 else Wide(d / b)
  }

  function Shifts(r: bv32, k: nat): bv32 {
    if k == 0 then r else Shift(Shifts(r, k - 1))
  }

  lemma NextBit(d: bv8, b: bv8, k: nat)
    requires MaskIs(b, k) && k < 8
    ensures MaskIs(b << 1, k + 1) && Left(d, b << 1) == Half(Left(d, b))
    ensures Odd(Left(d, b)) <==> d & b != 0
  {
  }

  lemma NothingLeft(d: bv8, b: bv8, k: nat)
    requires MaskIs(b, k) && b == 0
    ensures k >= 8 && Left(d, b) == 0
  {
  }

  lemma ShiftsAre8(r: bv32)
    ensures Shifts(r, 8) == Shift8(r)
  {
    hide Shift;
    assert Shifts(r, 0) == r && Shifts(r, 1) == Shift(Shifts(r, 0)) && Shifts(r, 2) == Shift(Shifts(r, 1));
    assert Shifts(r, 3) == Shift(Shifts(r, 2)) && Shifts(r, 4) == Shift(Shifts(r, 3));
    assert Shifts(r, 5) == Shift(Shifts(r, 4));
    assert Shifts(r, 6) == Shift(Shifts(r, 5)) && Shifts(r, 7) == Shift(Shifts(r, 6));
    assert Shifts(r, 8) == Shift(Shifts(r, 7));
  }

  // Mixing in one bit and shifting does to the whole what shifting it all would.
  lemma SerialStep(crc: bv32, rest: bv32, bit: bv32)
    requires bit == if Odd(rest) then 1 else 0
    ensures Xor(Shift(Xor(crc, bit)), Half(rest)) == Shift(Xor(crc, rest))
  {
    hide Xor, Half, Shift, Odd;
    var even := Xor(rest, bit);
    EvenPart(rest, bit);
    XorFacts(crc, bit, even);
    XorCommutes(bit, even);
    XorCancels(rest, bit);
    ShiftLinear(Xor(crc, bit), even);
  }

  lemma EvenPart(rest: bv32, bit: bv32)
    requires bit == if Odd(rest) then 1 else 0
    ensures Shift(Xor(rest, bit)) == Half(rest)
  {
    hide Xor, Half, Odd;
    HalfOdd(rest, bit);
    OneBit(bit);
    XorZero();
    XorCommutes(Half(rest), 0);
  }

  lemma OneBit(bit: bv32)
    requires bit == 0 || bit == 1
    ensures Half(bit) == 0 && (Odd(bit) <==> bit == 1)
  {
  }

  // The check value as test_gpt_header computes it.
  method CheckValue(data: seq<bv8>) returns (crc: bv32)
    ensures crc == Crc32Of(data)
  {
    hide Xor, Shift8, Wide;
    crc := ONES;
    for i := 0 to |data|
      invariant crc == Register(ONES, data[..i])
    {
      assert data[..i + 1][..i] == data[..i];
      crc := NextCrc(crc, data[i]);
    }
    assert data[..|data|] == data;
    crc := Xor(crc, ONES);
  }
}
