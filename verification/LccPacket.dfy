// The packets sent to the machine: the switches they carry and the test they must pass.

module LccPacket {

  datatype Parsed = Parsed(
    pumpOn: bool, waterLineSolenoidOpen: bool, serviceBoilerSsrOn: bool, serviceBoilerSolenoidOpen: bool,
    brewBoilerSsrOn: bool, minusButton: bool, plusButton: bool)

  datatype Raw = Raw(header: bv8, shiftRegister2: bv8, shiftRegister1: bv8, byte3: bv8, checksum: bv8)

  const SAFE := Raw(0x80, 0, 0, 0, 0)
  const NOTHING := Parsed(false, false, false, false, false, false, false)

  // calculate_checksum over the three bytes in the middle: the sum is 16 bits wide.
  function Checksum(a: bv8, b: bv8, c: bv8): bv8 {
    ((a as bv16 + b as bv16 + c as bv16) & 0x7F) as bv8
  }

  function Flag(on: bool, mask: bv8): bv8 {
    if on then mask else 0
  }

  function ToRaw(p: Parsed): Raw {
    var s2 := Flag(p.pumpOn, 0x10) | Flag(p.serviceBoilerSsrOn, 0x01);
    var s1 := Flag(p.waterLineSolenoidOpen, 0x20) | Flag(p.serviceBoilerSolenoidOpen, 0x10) | Flag(p.brewBoilerSsrOn,
      0x08);
    var b3 := Flag(p.minusButton, 0x08) | Flag(p.plusButton, 0x04);
    Raw(0x80, s2, s1, b3, Checksum(s2, s1, b3))
  }

  function ToParsed(r: Raw): Parsed {
    Parsed(r.shiftRegister2 & 0x10 != 0, r.shiftRegister1 & 0x20 != 0, r.shiftRegister2 & 0x01 != 0,
           r.shiftRegister1 & 0x10 != 0, r.shiftRegister1 & 0x08 != 0, r.byte3 & 0x08 != 0, r.byte3 & 0x04 != 0)
  }

  // Which bit of which byte of a packet switches what.
  predicate Carries(r: Raw, p: Parsed) {
    && (r.shiftRegister2 & 0x10 != 0 <==> p.pumpOn)
    && (r.shiftRegister2 & 0x01 != 0 <==> p.serviceBoilerSsrOn)
    && (r.shiftRegister1 & 0x20 != 0 <==> p.waterLineSolenoidOpen)
    && (r.shiftRegister1 & 0x10 != 0 <==> p.serviceBoilerSolenoidOpen)
    && (r.shiftRegister1 & 0x08 != 0 <==> p.brewBoilerSsrOn)
    && (r.byte3 & 0x08 != 0 <==> p.minusButton)
    && (r.byte3 & 0x04 != 0 <==> p.plusButton)
  }

  // The packet made of switches is the only one with these and no other bits set, and with header and
  // checksum in place.
  lemma SwitchBits(p: Parsed)
    ensures Carries(ToRaw(p), p)
  {
  }

  lemma PacketIsUnique(r: Raw, p: Parsed)
    requires Carries(r, p) && r.header == 0x80
    requires r.shiftRegister2 & 0xEE == 0 && r.shiftRegister1 & 0xC7 == 0 && r.byte3 & 0xF3 == 0
    requires r.checksum == Checksum(r.shiftRegister2, r.shiftRegister1, r.byte3)
    ensures r == ToRaw(p)
  {
    hide ToRaw, Checksum;
    SwitchBits(p);
    OnlySwitches(p);
    SameBits(r, ToRaw(p), p);
  }

  lemma OnlySwitches(p: Parsed)
    ensures var r := ToRaw(p);
      && r.header == 0x80 && r.checksum == Checksum(r.shiftRegister2, r.shiftRegister1, r.byte3)
      && r.shiftRegister2 & 0xEE == 0 && r.shiftRegister1 & 0xC7 == 0 && r.byte3 & 0xF3 == 0
  {
  }

  lemma SameBits(r: Raw, q: Raw, p: Parsed)
    requires Carries(r, p) && Carries(q, p)
    requires r.shiftRegister2 & 0xEE == q.shiftRegister2 & 0xEE == 0
    requires r.shiftRegister1 & 0xC7 == q.shiftRegister1 & 0xC7 == 0 && r.byte3 & 0xF3 == q.byte3 & 0xF3 == 0
    ensures r.shiftRegister2 == q.shiftRegister2 && r.shiftRegister1 == q.shiftRegister1 && r.byte3 == q.byte3
  {
  }

  // The safe packet has everything switched off.
  lemma SafeIsOff()
    ensures Carries(SAFE, Parsed(false, false, false, false, false, false, false)) && Validates(SAFE)
  {
  }

  // The packet that heats the brew boiler and does nothing else.
  lemma BrewHeaterPacket()
    ensures ToRaw(NOTHING.(brewBoilerSsrOn := true)) == Raw(0x80, 0, 0x08, 0, 0x08)
  {
  }

  // validate_lcc_raw_packet finds no error.
  predicate Validates(r: Raw) {
    && r.header == 0x80
    && Checksum(r.shiftRegister2, r.shiftRegister1, r.byte3) == r.checksum
    && r.shiftRegister2 & 0xEE == 0 && r.shiftRegister1 & 0xC7 == 0 && r.byte3 & 0xF3 == 0
    && !(r.shiftRegister2 & 0x01 != 0 && r.shiftRegister1 & 0x08 != 0)
    && !(r.shiftRegister1 & 0x10 != 0 && r.shiftRegister2 & 0x10 == 0)
  }

  // At most one heater is on, and the service boiler is filled only with the pump on.
  predicate Allowed(p: Parsed) {
    !(p.serviceBoilerSsrOn && p.brewBoilerSsrOn) && (p.serviceBoilerSolenoidOpen ==> p.pumpOn)
  }

  // A packet passes the test exactly if it may be sent, and it is read as what it was made of.
  lemma ValidatesAllowed(p: Parsed)
    ensures Validates(ToRaw(p)) <==> Allowed(p)
    ensures Validates(ToRaw(p)) <==>
      !(p.brewBoilerSsrOn && p.serviceBoilerSsrOn) && !(p.serviceBoilerSolenoidOpen && !p.pumpOn)
    ensures ToParsed(ToRaw(p)) == p
  {
  }

  // ... and a packet that passes the test is read as something that may be sent, which makes the
  // same packet.
  lemma ValidatedIsAllowed(r: Raw)
    requires Validates(r)
    ensures Allowed(ToParsed(r)) && ToRaw(ToParsed(r)) == r
  {
  }
}
