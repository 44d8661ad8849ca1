// SLIP framing, RFC 1055, section "PROTOCOL".

module Slip {
  import opened Basics

  const END: byte := 0xC0
  const ESC: byte := 0xDB
  const ESC_END: byte := 0xDC
  const ESC_ESC: byte := 0xDD

  const MAX_LENGTH := 0xFFFF      // lengths and indices are 16 bits wide

  // ----- Frames -----

  predicate Special(b: byte) {
    b == END || b == ESC
  }

  // The bytes that stand for b.
  function Escaped(b: byte): seq<byte> {
    if b == END then [ESC, ESC_END] else if b == ESC then [ESC, ESC_ESC] else [b]
  }

  function Body(pkg: seq<byte>): seq<byte> {
    if pkg == [] then [] else Escaped(pkg[0]) + Body(pkg[1..])
  }

  function Frame(pkg: seq<byte>): seq<byte> {
    [END] + Body(pkg) + [END]
  }

  // A frame with both escapes, byte by byte.
  lemma FrameOfSpecials()
    ensures Frame([0xC0, 0x01, 0xDB]) == [0xC0, 0xDB, 0xDC, 0x01, 0xDB, 0xDD, 0xC0]
  {
    var pkg: seq<byte> := [0xC0, 0x01, 0xDB];
    assert pkg[1..] == [0x01, 0xDB] && pkg[1..][1..] == [0xDB] && pkg[1..][1..][1..] == [];
    assert Body(pkg[1..][1..]) == [0xDB, 0xDD];
    assert Body(pkg[1..]) == [0x01, 0xDB, 0xDD];
  }

  function Specials(pkg: seq<byte>): nat {
    if pkg == [] then 0 else (if Special(pkg[0]) then 1 else 0) + Specials(pkg[1..])
  }

  lemma {:induction false} BodyLength(pkg: seq<byte>)
    ensures |Body(pkg)| == |pkg| + Specials(pkg)
    ensures |Frame(pkg)| == |pkg| + Specials(pkg) + 2
  {
    if pkg != [] { BodyLength(pkg[1..]); }
  }

  // A body is free of END.
  lemma {:induction false} NoEndWithin(pkg: seq<byte>)
    ensures END !in Body(pkg)
  {
    if pkg != [] { NoEndWithin(pkg[1..]); }
  }

  // getFrameLength
  method GetFrameLength(pkg: seq<byte>) returns (len: nat)
    requires |Frame(pkg)| <= MAX_LENGTH
    ensures len == |Frame(pkg)|
  {
    var count := 0;
    for i := 0 to |pkg|
      invariant count + Specials(pkg[i..]) == Specials(pkg)
    {
      assert pkg[i..][1..] == pkg[i + 1..];
      if pkg[i] == END || pkg[i] == ESC { count := count + 1; }
    }
    BodyLength(pkg);
    len := |pkg| + count + 2;
  }

  lemma MoreWritten(done: seq<byte>, part: seq<byte>, rest: seq<byte>, now: seq<byte>)
    requires now == done + part
    ensures now + rest == done + (part + rest)
  {
  }

  // encode, one byte
  method EncodeByte(frm: array<byte>, j0: nat, b: byte) returns (j: nat)
    requires j0 + |Escaped(b)| <= frm.Length
    modifies frm
    ensures j == j0 + |Escaped(b)| && frm[..j] == old(frm[..j0]) + Escaped(b) && frm[j..] == old(frm[j..])
  {
    j := j0;
    frm[j] := b;
    if b == END {
      frm[j] := ESC;
      j := j + 1;
      frm[j] := ESC_END;
    } else if b == ESC {
      j := j + 1;
      frm[j] := ESC_ESC;
    }
    j := j + 1;
  }

  // encode
  method Encode(frm: array<byte>, pkg: seq<byte>) returns (len: nat)
    requires |Frame(pkg)| <= frm.Length && |Frame(pkg)| <= MAX_LENGTH
    modifies frm
    ensures len == |Frame(pkg)| && frm[..len] == Frame(pkg) && frm[len..] == old(frm[len..])
  {
    hide Escaped;
    var j := 0;
    frm[j] := END;
    j := j + 1;
    for i := 0 to |pkg|
      invariant 0 <= j < |Frame(pkg)| && frm[..j] + Body(pkg[i..]) == [END] + Body(pkg)
      invariant frm[|Frame(pkg)|..] == old(frm[|Frame(pkg)|..])
    {
      ghost var done: seq<byte>, b, rest := frm[..j], pkg[i], Body(pkg[i + 1..]);
      assert pkg[i..][1..] == pkg[i + 1..];
      assert |done + (Escaped(b) + rest)| == |[END] + Body(pkg)|;
      ghost var tail: seq<byte> := frm[j + |Escaped(b)|..];
      j := EncodeByte(frm, j, pkg[i]);
      assert frm[|Frame(pkg)|..] == tail[|Frame(pkg)| - j..];
      MoreWritten(done, Escaped(b), rest, frm[..j]);
    }
    assert pkg[|pkg|..] == [];
    frm[j] := END;
    j := j + 1;
    len := j;
  }

  // ----- Decoding -----

  // What a frame is decoded to: a look at the next byte decides on an escape; END characters and
  // escapes of anything else are skipped.
  function Decoded(frm: seq<byte>): seq<byte> {
    if frm == [] then []
    else if !Special(frm[0]) then [frm[0]] + Decoded(frm[1..])
    else if frm[0] == ESC && 1 < |frm| && frm[1] == ESC_END then [END] + Decoded(frm[2..])
    else if frm[0] == ESC && 1 < |frm| && frm[1] == ESC_ESC then [ESC] + Decoded(frm[2..])
    else Decoded(frm[1..])
  }

  // The frame ends in an escape that is complete.
  predicate EndsEscaped(frm: seq<byte>) {
    if |frm| < 2 then false
    else if frm[0] == ESC && (frm[1] == ESC_END || frm[1] == ESC_ESC) then |frm| == 2 || EndsEscaped(frm[2..])
    else EndsEscaped(frm[1..])
  }

  // One turn of the loop of decode, on byte i0 - 1; an escape takes byte i0 as well.
  method DecodeByte(pkg: array<byte>, j0: nat, frm: seq<byte>, i0: nat) returns (j: nat, i: nat)
    requires 1 <= i0 < |frm| <= pkg.Length && j0 < i0
    modifies pkg
    ensures i0 <= i <= i0 + 1 && j <= j0 + 1
    ensures pkg[..j] + Decoded(frm[i..]) == old(pkg[..j0]) + Decoded(frm[i0 - 1..])
    ensures EndsEscaped(frm[i0 - 1..]) <==> (i == i0 + 1 == |frm|) || EndsEscaped(frm[i..])
    ensures i == i0 + 1 ==> frm[i0] == ESC_END || frm[i0] == ESC_ESC
  {
    j, i := j0, i0;
    ghost var done: seq<byte>, s := pkg[..j], frm[i - 1..];
    assert s[1..] == frm[i..] && s[2..] == frm[i + 1..] && s[0] == frm[i - 1] && s[1] == frm[i];
    if frm[i - 1] != END && frm[i - 1] != ESC {
      j := PutByte(pkg, j, frm[i - 1]);
      MoreWritten(done, [s[0]], Decoded(s[1..]), pkg[..j]);
    } else if frm[i - 1] == ESC && frm[i] == ESC_END {
      j := PutByte(pkg, j, END);
      i := i + 1;
      MoreWritten(done, [END], Decoded(s[2..]), pkg[..j]);
    } else if frm[i - 1] == ESC && frm[i] == ESC_ESC {
      j := PutByte(pkg, j, ESC);
      i := i + 1;
      MoreWritten(done, [ESC], Decoded(s[2..]), pkg[..j]);
    }
  }

  // decode. The last byte of a complete escape at the very end is decoded once more, and in a frame
  // of the largest length the 16-bit index wraps around there, so that the byte before the frame is
  // read (then `inside` is false). A frame that ends with END has no such escape.
  method Decode(pkg: array<byte>, frm: seq<byte>) returns (inside: bool, len: nat)
    requires 0 < |frm| <= MAX_LENGTH && |frm| <= pkg.Length
    modifies pkg
    ensures inside <==> |frm| < MAX_LENGTH || !EndsEscaped(frm)
    ensures inside ==> len <= |frm| && pkg[..len] == Decoded(frm) + if EndsEscaped(frm) then [frm[|frm| - 1]] else []
  {
    hide Decoded, EndsEscaped;
    var j := 0;
    var i := 1;
    assert frm[0..] == frm;
    while i < |frm|
      invariant 1 <= i <= |frm| + 1 && 0 <= j < i <= MAX_LENGTH && (i == |frm| + 1 ==> j < |frm|)
      invariant pkg[..j] + Decoded(frm[i - 1..]) == Decoded(frm)
      invariant EndsEscaped(frm) <==> i == |frm| + 1 || EndsEscaped(frm[i - 1..])
      invariant i == |frm| + 1 ==> frm[|frm| - 1] == ESC_END || frm[|frm| - 1] == ESC_ESC
      decreases |frm| + 1 - i
    {
      j, i := DecodeByte(pkg, j, frm, i);
      if i == |frm| { LastByte(frm, i); }
      i := if i == MAX_LENGTH then 0 else i + 1;      // 16 bits
      if i == 0 { return false, j; }
    }
    inside, len := true, j;
    ghost var done: seq<byte> := pkg[..j];
    LastByte(frm, i - 1);
    if frm[|frm| - 1] != END && frm[|frm| - 1] != ESC {
      len := PutByte(pkg, j, frm[|frm| - 1]);
    }
  }

  // A complete escape at the end of a frame ...
  lemma RepeatsLastByte()
    ensures var frm := [ESC, ESC_END]; EndsEscaped(frm) && Decoded(frm) + [frm[1]] == [END, ESC_END]
  {
    assert [ESC, ESC_END][2..] == [] && Decoded([]) == [];
  }

  // ... and one at the end of a frame of the largest length, which decode reads out of bounds.
  lemma LongestFrameOverruns()
    ensures var frm := seq(MAX_LENGTH - 2, _ => 0) + [ESC, ESC_END]; |frm| == MAX_LENGTH && EndsEscaped(frm)
  {
    EscapeAtEnd(seq(MAX_LENGTH - 2, _ => 0));
  }

  lemma {:induction false} EscapeAtEnd(plain: seq<byte>)
    requires ESC !in plain
    ensures EndsEscaped(plain + [ESC, ESC_END])
  {
    if plain != [] {
      EscapeAtEnd(plain[1..]);
      assert (plain + [ESC, ESC_END])[1..] == plain[1..] + [ESC, ESC_END];
    }
  }

  method PutByte(pkg: array<byte>, j: nat, b: byte) returns (next: nat)
    requires j < pkg.Length
    modifies pkg
    ensures next == j + 1 && pkg[..next] == old(pkg[..j]) + [b]
  {
    pkg[j] := b;
    next := j + 1;
  }

  // What is left when the loop of decode ends.
  lemma LastByte(frm: seq<byte>, i: nat)
    requires 0 < |frm| && |frm| - 1 <= i <= |frm|
    ensures i == |frm| ==> Decoded(frm[i..]) == []
    ensures i == |frm| - 1 ==> !EndsEscaped(frm[i..])
    ensures i == |frm| - 1 ==> Decoded(frm[i..]) == if Special(frm[i]) then [] else [frm[i]]
  {
  }

  // ----- Round trips -----

  lemma {:induction false} DecodedBody(pkg: seq<byte>, after: seq<byte>)
    ensures Decoded(Body(pkg) + after) == pkg + Decoded(after)
  {
    hide Decoded, Escaped;
    if pkg == [] {
      assert [] + after == after;
    } else {
      var b, rest := pkg[0], Body(pkg[1..]) + after;
      DecodedBody(pkg[1..], after);
      assert Body(pkg) + after == Escaped(b) + rest;
      DecodedEscape(b, rest);
      assert [b] + (pkg[1..] + Decoded(after)) == pkg + Decoded(after);
    }
  }

  lemma DecodedEscape(b: byte, rest: seq<byte>)
    ensures Decoded(Escaped(b) + rest) == [b] + Decoded(rest)
  {
  }

  // decode undoes encode, with or without the leading END.
  lemma DecodedFrame(pkg: seq<byte>)
    ensures Decoded(Frame(pkg)) == pkg && !EndsEscaped(Frame(pkg))
    ensures Decoded(Body(pkg) + [END]) == pkg
  {
    DecodedBody(pkg, [END]);
    assert [END][1..] == [] && Decoded([END]) == Decoded([]) == [];
    assert Frame(pkg)[1..] == Body(pkg) + [END];
    NotEscapedAtEnd(Frame(pkg));
  }

  lemma {:induction false} NotEscapedAtEnd(frm: seq<byte>)
    requires frm != [] && frm[|frm| - 1] == END
    ensures !EndsEscaped(frm)
  {
    if |frm| >= 2 {
      NotEscapedAtEnd(frm[1..]);
      if |frm| > 2 { NotEscapedAtEnd(frm[2..]); }
    }
  }

  // The length of the frame that getFrame finds, 0 if there is none.
  function FirstFrame(fifo: seq<byte>, i: nat): (len: nat)
    ensures len == 0 || i < len <= |fifo|
    decreases |fifo| - i
  {
    if |fifo| <= i then 0 else if fifo[i] == END then i + 1 else FirstFrame(fifo, i + 1)
  }

  // getFrame
  method GetFrame(frm: array<byte>, fifo: seq<byte>) returns (len: nat)
    requires |fifo| <= MAX_LENGTH && |fifo| <= frm.Length
    modifies frm
    ensures len == FirstFrame(fifo, 1) <= |fifo| && frm[..len] == fifo[..len] && frm[len..] == old(frm[len..])
  {
    len := 0;
    var i := 1;
    while i < |fifo|
      invariant 1 <= i && FirstFrame(fifo, 1) == FirstFrame(fifo, i)
    {
      if fifo[i] == END {
        len := i + 1;
        break;
      }
      i := i + 1;
    }
    for k := 0 to len
      invariant frm[..k] == fifo[..k] && forall m | k <= m < frm.Length :: frm[m] == old(frm[m])
    {
      frm[k] := fifo[k];
    }
  }

  // Taking frame after frame from a fifo and decoding it.
  function Packets(fifo: seq<byte>): seq<seq<byte>> {
    var len := FirstFrame(fifo, 1);
    if len == 0 then [] else [Decoded(fifo[..len])] + Packets(fifo[len..])
  }

  function Stream(pkgs: seq<seq<byte>>): seq<byte> {
    if pkgs == [] then [] else Frame(pkgs[0]) + Stream(pkgs[1..])
  }

  lemma {:induction false} EndIsFound(fifo: seq<byte>, i: nat, e: nat)
    requires i <= e < |fifo| && fifo[e] == END && forall k | i <= k < e :: fifo[k] != END
    ensures FirstFrame(fifo, i) == e + 1
    decreases e - i
  {
    if i < e { EndIsFound(fifo, i + 1, e); }
  }

  // A frame at the head of a fifo is found whole.
  lemma FrameIsFound(pkg: seq<byte>, more: seq<byte>)
    ensures FirstFrame(Frame(pkg) + more, 1) == |Frame(pkg)|
    ensures pkg != [] ==> FirstFrame(Body(pkg) + [END] + more, 1) == |Body(pkg)| + 1
  {
    NoEndWithin(pkg);
    BodyLength(pkg);
    EndIsFound(Frame(pkg) + more, 1, |Body(pkg)| + 1);
    if pkg != [] { EndIsFound(Body(pkg) + [END] + more, 1, |Body(pkg)|); }
  }

  // Any packets that went out one after the other come back the same.
  lemma {:induction false} StreamRoundTrip(pkgs: seq<seq<byte>>)
    ensures Packets(Stream(pkgs)) == pkgs
  {
    if pkgs != [] {
      var pkg, more := pkgs[0], Stream(pkgs[1..]);
      FrameIsFound(pkg, more);
      DecodedFrame(pkg);
      StreamRoundTrip(pkgs[1..]);
      assert (Frame(pkg) + more)[..|Frame(pkg)|] == Frame(pkg) && (Frame(pkg) + more)[|Frame(pkg)|..] == more;
    }
  }

  // A frame whose leading END was lost is still found, unless it is empty.
  lemma LostStart(pkg: seq<byte>, pkgs: seq<seq<byte>>)
    requires pkg != []
    ensures Packets(Body(pkg) + [END] + Stream(pkgs)) == [pkg] + pkgs
  {
    hide Decoded, FirstFrame, Packets, Body;
    var rest := Body(pkg) + [END] + Stream(pkgs);
    FrameIsFound(pkg, Stream(pkgs));
    DecodedFrame(pkg);
    PacketsStep(rest);
    assert rest[..|Body(pkg)| + 1] == Body(pkg) + [END] && rest[|Body(pkg)| + 1..] == Stream(pkgs);
    StreamRoundTrip(pkgs);
  }

  // A stray END in front only adds an empty packet; nothing is lost.
  lemma StrayEnd(pkgs: seq<seq<byte>>)
    requires pkgs != [] && pkgs[0] != []
    ensures Packets([END] + Stream(pkgs)) == [[]] + pkgs
  {
    hide Decoded, Packets, Body;
    var fifo, rest := [END] + Stream(pkgs), Body(pkgs[0]) + [END] + Stream(pkgs[1..]);
    assert fifo == [END, END] + rest;
    EmptyFrame();
    PacketsStep(fifo);
    assert fifo[..2] == [END, END] && fifo[2..] == rest;
    LostStart(pkgs[0], pkgs[1..]);
    assert [pkgs[0]] + pkgs[1..] == pkgs;
  }

  lemma EmptyFrame()
    ensures Decoded([END, END]) == []
  {
    assert Frame([]) == [END, END];
    DecodedFrame([]);
  }

  lemma PacketsStep(fifo: seq<byte>)
    requires FirstFrame(fifo, 1) != 0
    ensures var len := FirstFrame(fifo, 1); Packets(fifo) == [Decoded(fifo[..len])] + Packets(fifo[len..])
  {
  }
}
