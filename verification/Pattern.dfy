// Wildcard matching of file names: pattern_match on strings of decoded, case-folded characters.

module Pattern {

  const ONE: nat := 0x3F      // '?'
  const ANY: nat := 0x2A      // '*'

  predicate Wild(c: nat) {
    c == ONE || c == ANY
  }

  // ----- What a pattern means -----

  // '?' stands for one character, '*' for any run of characters.
  ghost predicate Matches(p: seq<nat>, n: seq<nat>) {
    if p == [] then n == []
    else if p[0] == ANY then exists k | 0 <= k <= |n| :: Matches(p[1..], n[k..])
    else n != [] && (p[0] == ONE || p[0] == n[0]) && Matches(p[1..], n[1..])
  }

  // "a*b?" matches "axxbc" and does not match "axxb".
  lemma MatchExample()
    ensures Matches([0x61, 0x2A, 0x62, 0x3F], [0x61, 0x78, 0x78, 0x62, 0x63])
    ensures !Matches([0x61, 0x2A, 0x62, 0x3F], [0x61, 0x78, 0x78, 0x62])
  {
    var end, name: seq<nat> := [0x62, 0x3F], [0x78, 0x78, 0x62, 0x63];
    assert [0x61, 0x2A, 0x62, 0x3F][1..] == [0x2A] + end && ([0x2A] + end)[1..] == end;
    assert [0x61, 0x78, 0x78, 0x62, 0x63][1..] == name;
    EndsInB(name[2..]);
    assert Matches(end, name[2..]);
    var short: seq<nat> := [0x78, 0x78, 0x62];
    assert [0x61, 0x78, 0x78, 0x62][1..] == short;
    forall k | 0 <= k <= 3
      ensures !Matches(end, short[k..])
    {
      EndsInB(short[k..]);
    }
  }

  lemma EndsInB(n: seq<nat>)
    ensures Matches([0x62, 0x3F], n) <==> |n| == 2 && n[0] == 0x62
  {
    var p: seq<nat> := [0x62, 0x3F];
    assert p[1..] == [0x3F] && p[1..][1..] == [];
    if n != [] { assert Matches([0x3F], n[1..]) <==> |n| == 2; }
  }

  // The length of the term of wildcards a pattern begins with.
  function TermLength(p: seq<nat>): (w: nat)
    ensures w <= |p| && (forall i | 0 <= i < w :: Wild(p[i])) && (w < |p| ==> !Wild(p[w]))
    ensures p != [] && Wild(p[0]) ==> 0 < w
  {
    if p == [] || !Wild(p[0]) then 0 else 1 + TermLength(p[1..])
  }

  // How many characters a term stands for at least, and whether it stands for more as well.
  function Marks(t: seq<nat>): nat {
    if t == [] then 0 else (if t[0] == ONE then 1 else 0) + Marks(t[1..])
  }

  predicate Stretches(t: seq<nat>) {
    ANY in t
  }

  // The number of terms of wildcards.
  function Terms(p: seq<nat>): nat {
    if p == [] then 0
    else if Wild(p[0]) then 1 + Terms(p[TermLength(p)..])
    else Terms(p[1..])
  }

  // The meaning of a pattern taken term by term. A term of 256 or more '?' overflows into the bit
  // for '*': that is the only difference.
  ghost predicate ByTerms(p: seq<nat>, n: seq<nat>)
    decreases |p|, 0
  {
    if p == [] then n == []
    else if Wild(p[0]) then
      var w := TermLength(p);
      From(Marks(p[..w]) % 0x100, Stretches(p[..w]) || Marks(p[..w]) >= 0x100, p[w..], n)
    else n != [] && p[0] == n[0] && ByTerms(p[1..], n[1..])
  }

  // The rest of a pattern matches behind `least` characters, or further on if need be.
  ghost predicate From(least: nat, more: bool, p: seq<nat>, n: seq<nat>)
    decreases |p|, 1
  {
    least <= |n| && if more then exists k | least <= k <= |n| :: ByTerms(p, n[k..]) else ByTerms(p, n[least..])
  }

  // Literal characters before the first term are matched one by one.
  lemma {:induction false} Literals(p: seq<nat>, n: seq<nat>, d: nat)
    requires d <= |p| && forall i | 0 <= i < d :: !Wild(p[i])
    ensures ByTerms(p, n) <==> d <= |n| && p[..d] == n[..d] && ByTerms(p[d..], n[d..])
    ensures Terms(p) == Terms(p[d..])
  {
    hide ByTerms, Terms, Wild;
    if d == 0 {
      assert p[0..] == p && n[0..] == n;
    } else {
      OneLiteral(p, n);
      assert p[1..][d - 1..] == p[d..];
      if n == [] {
        Literals(p[1..], [], d - 1);
      } else {
        Literals(p[1..], n[1..], d - 1);
        if d <= |n| { LiteralAhead(p, n, d); }
      }
    }
  }

  lemma OneLiteral(p: seq<nat>, n: seq<nat>)
    requires p != [] && !Wild(p[0])
    ensures ByTerms(p, n) <==> n != [] && p[0] == n[0] && ByTerms(p[1..], n[1..])
    ensures Terms(p) == Terms(p[1..])
  {
  }

  lemma LiteralAhead(p: seq<nat>, n: seq<nat>, d: nat)
    requires 0 < d <= |p| && d <= |n|
    ensures n[1..][d - 1..] == n[d..]
    ensures p[..d] == n[..d] <==> p[0] == n[0] && p[1..][..d - 1] == n[1..][..d - 1]
  {
    assert p[..d] == [p[0]] + p[1..][..d - 1] && n[..d] == [n[0]] + n[1..][..d - 1];
  }

  // ----- pattern_match -----

  // The characters left at a pointer; get_achar delivers 0 behind the last one.
  function CharAt(s: seq<nat>, i: nat): nat {
    if i < |s| then s[i] else 0
  }

  predicate IsString(s: seq<nat>) {
    forall i | 0 <= i < |s| :: s[i] != 0
  }

  // The loop that analyses a wildcard term: the low byte counts the '?', bit 8 stands for '*'.
  method AnalyzeTerm(pat: seq<nat>, p: nat) returns (next: nat, sk: nat)
    requires p < |pat| && Wild(pat[p])
    ensures next == p + TermLength(pat[p..])
    ensures sk % 0x100 == Marks(pat[p..next]) % 0x100
    ensures sk >= 0x100 <==> Stretches(pat[p..next]) || Marks(pat[p..next]) >= 0x100
  {
    hide Tallied, Marks, Stretches;
    next, sk := p, 0;
    NothingTallied(pat[p..p]);
    while next == p || Wild(CharAt(pat, next))
      invariant p <= next <= |pat|
      invariant TermLength(pat[p..]) == next - p + TermLength(pat[next..])
      invariant Tallied(sk, pat[p..next])
      decreases |pat| - next
    {
      TermGrows(sk, pat[p..next], pat[next]);
      assert pat[p..next + 1] == pat[p..next] + [pat[next]];
      assert pat[next..][1..] == pat[next + 1..];
      if pat[next] == ONE {
        sk := sk + 1;
      } else if sk / 0x100 % 2 == 0 {
        sk := sk + 0x100;
      }
      next := next + 1;
    }
    TalliedBits(sk, pat[p..next]);
  }

  // What sk holds of the part of a term read so far.
  predicate Tallied(sk: nat, t: seq<nat>) {
    sk % 0x100 == Marks(t) % 0x100 && if Stretches(t) then 0x100 <= sk else sk == Marks(t)
  }

  lemma NothingTallied(t: seq<nat>)
    requires t == []
    ensures Tallied(0, t)
  {
  }

  lemma TalliedBits(sk: nat, t: seq<nat>)
    requires Tallied(sk, t)
    ensures sk % 0x100 == Marks(t) % 0x100
    ensures sk >= 0x100 <==> Stretches(t) || Marks(t) >= 0x100
  {
  }

  lemma TermGrows(sk: nat, t: seq<nat>, c: nat)
    requires Tallied(sk, t)
    ensures c == ONE ==> Tallied(sk + 1, t + [c])
    ensures c == ANY ==> Tallied(if sk / 0x100 % 2 == 0 then sk + 0x100 else sk, t + [c])
  {
    MarksOfMore(t, c);
    LowByte(sk, Marks(t));
    assert Stretches(t + [c]) <==> Stretches(t) || c == ANY;
  }

  lemma LowByte(sk: nat, marks: nat)
    requires sk % 0x100 == marks % 0x100
    ensures (sk + 1) % 0x100 == (marks + 1) % 0x100 && (sk + 0x100) % 0x100 == marks % 0x100
  {
  }

  lemma {:induction false} MarksOfMore(t: seq<nat>, c: nat)
    ensures Marks(t + [c]) == Marks(t) + if c == ONE then 1 else 0
  {
    if t == [] {
      assert [c][1..] == [];
    } else {
      assert (t + [c])[1..] == t[1..] + [c];
      MarksOfMore(t[1..], c);
    }
  }

  // The matches of q behind place n, as places of the whole name.
  ghost predicate FromPlace(q: seq<nat>, nam: seq<nat>, first: nat, more: bool) {
    first <= |nam| && if more then exists k | first <= k <= |nam| :: ByTerms(q, nam[k..]) else ByTerms(q, nam[first..])
  }

  lemma FromAtPlace(q: seq<nat>, nam: seq<nat>, n: nat, least: nat, more: bool)
    requires n <= |nam|
    ensures From(least, more, q, nam[n..]) <==> FromPlace(q, nam, n + least, more)
  {
    var rest := nam[n..];
    assert forall k | 0 <= k <= |rest| :: rest[k..] == nam[n + k..];
    if FromPlace(q, nam, n + least, more) && more {
      var k :| n + least <= k <= |nam| && ByTerms(q, nam[k..]);
      assert ByTerms(q, rest[k - n..]);
    }
  }

  // From here on the name is too short for the literal characters that the pattern begins with.
  lemma TooShort(q: seq<nat>, n: seq<nat>, d: nat)
    requires |n| < d <= |q| && forall i | 0 <= i < d :: !Wild(q[i])
    ensures !ByTerms(q, n)
  {
    Literals(q, n, d);
  }

  lemma FirstCharacters(q: seq<nat>, m: seq<nat>, pchr: nat, nchr: nat)
    requires IsString(q) && IsString(m) && pchr == CharAt(q, 0) && nchr == CharAt(m, 0) && !Wild(pchr)
    ensures pchr != nchr ==> !ByTerms(q, m)
    ensures pchr == nchr == 0 ==> ByTerms(q, m) && Terms(q) == 0
  {
  }

  // The name ended while literal characters were compared: the early stop loses no match.
  lemma NoLaterMatch(pat: seq<nat>, p: nat, nam: seq<nat>, n: nat, d: nat)
    requires p + d <= |pat| && n + d == |nam| && forall i | p <= i < p + d :: !Wild(pat[i])
    ensures forall k | n < k <= |nam| :: !ByTerms(pat[p..], nam[k..])
  {
    forall k | n < k <= |nam|
      ensures !ByTerms(pat[p..], nam[k..])
    {
      TooShort(pat[p..], nam[k..], d);
    }
  }

  lemma TermFirst(pat: seq<nat>, p: nat, next: nat, m: seq<nat>)
    requires p < |pat| && Wild(pat[p]) && next == p + TermLength(pat[p..])
    ensures var t := pat[p..next];
      ByTerms(pat[p..], m) <==> From(Marks(t) % 0x100, Stretches(t) || Marks(t) >= 0x100, pat[next..], m)
    ensures Terms(pat[p..]) == 1 + Terms(pat[next..])
  {
    var w := TermLength(pat[p..]);
    assert pat[p..][..w] == pat[p..next] && pat[p..][w..] == pat[next..];
  }

  // One attempt, the inner loop: the pattern from p on against the name from n on.
  method MatchHere(pat: seq<nat>, p: nat, nam: seq<nat>, n: nat, recur: nat) returns (r: bool, nchr: nat)
    requires p <= |pat| && n <= |nam| && IsString(pat) && IsString(nam)
    ensures r <==> Terms(pat[p..]) <= recur && ByTerms(pat[p..], nam[n..])
    ensures !r && nchr == 0 ==> Terms(pat[p..]) > recur || forall k | n < k <= |nam| :: !ByTerms(pat[p..], nam[k..])
    ensures !r && nchr != 0 ==> n < |nam|
    decreases recur, 0
  {
    hide Matches, Marks, Stretches, ByTerms, Terms, TermLength, From;
    var pptr, nptr := p, n;
    while true
      invariant p <= pptr <= |pat| && n <= nptr <= |nam| && pptr - p == nptr - n
      invariant pat[p..pptr] == nam[n..nptr] && forall i | p <= i < pptr :: !Wild(pat[i])
      decreases |pat| - pptr
    {
      ghost var d := pptr - p;
      LiteralsMatch(pat, p, nam, n, d);
      if nptr == |nam| { NoLaterMatch(pat, p, nam, n, d); }
      if Wild(CharAt(pat, pptr)) {
        TermFirst(pat, pptr, pptr + TermLength(pat[pptr..]), nam[nptr..]);
        if recur == 0 { return false, 0; }
        var next, sk := AnalyzeTerm(pat, pptr);
        r := PatternMatch(pat, next, nam, nptr, sk, recur - 1);
        return r, CharAt(nam, nptr);
      }
      var pchr := CharAt(pat, pptr);
      nchr := CharAt(nam, nptr);
      FirstCharacters(pat[pptr..], nam[nptr..], pchr, nchr);
      if pchr != nchr { return false, nchr; }
      if pchr == 0 { return true, nchr; }
      assert pat[p..pptr + 1] == pat[p..pptr] + [pchr] && nam[n..nptr + 1] == nam[n..nptr] + [nchr];
      pptr, nptr := pptr + 1, nptr + 1;
    }
  }

  method PatternMatch(pat: seq<nat>, p: nat, nam: seq<nat>, n0: nat, skip: nat, recur: nat) returns (r: bool)
    requires p <= |pat| && n0 <= |nam| && IsString(pat) && IsString(nam)
    ensures r <==> Terms(pat[p..]) <= recur && From(skip % 0x100, skip >= 0x100, pat[p..], nam[n0..])
    decreases recur, 1
  {
    FromAtPlace(pat[p..], nam, n0, skip % 0x100, skip >= 0x100);
    ghost var first := n0 + skip % 0x100;
    var n, sk := n0, skip;
    while sk % 0x100 != 0
      invariant n0 <= n <= |nam| && sk / 0x100 == skip / 0x100 && n + sk % 0x100 == first
      decreases sk
    {
      if CharAt(nam, n) == 0 { return false; }
      n, sk := n + 1, sk - 1;
    }
    if p == |pat| && sk != 0 {
      assert ByTerms(pat[p..], nam[|nam|..]);
      return true;
    }
    while true
      invariant first <= n <= |nam| && (sk == 0 ==> n == first)
      invariant Terms(pat[p..]) > recur || forall k | first <= k < n :: !ByTerms(pat[p..], nam[k..])
      decreases |nam| - n
    {
      var nchr;
      r, nchr := MatchHere(pat, p, nam, n, recur);
      if r { return; }
      n := n + 1;
      if sk == 0 || nchr == 0 { return; }
    }
  }

  // The characters before the pointers agree: the rest decides.
  lemma LiteralsMatch(pat: seq<nat>, p: nat, nam: seq<nat>, n: nat, d: nat)
    requires p + d <= |pat| && n + d <= |nam| && pat[p..p + d] == nam[n..n + d]
    requires forall i | p <= i < p + d :: !Wild(pat[i])
    ensures ByTerms(pat[p..], nam[n..]) <==> ByTerms(pat[p + d..], nam[n + d..])
    ensures Terms(pat[p..]) == Terms(pat[p + d..])
  {
    var q, m := pat[p..], nam[n..];
    Literals(q, m, d);
    assert q[d..] == pat[p + d..] && m[d..] == nam[n + d..] && q[..d] == pat[p..p + d] && m[..d] == nam[n..n + d];
  }

  // ----- The meaning of the result -----

  // Every term has fewer than 256 '?'.
  predicate FewMarks(p: seq<nat>) {
    if p == [] then true
    else if Wild(p[0]) then Marks(p[..TermLength(p)]) < 0x100 && FewMarks(p[TermLength(p)..])
    else FewMarks(p[1..])
  }

  // f_findfirst and f_findnext test names this way.
  method TestName(pat: seq<nat>, nam: seq<nat>) returns (r: bool)
    requires IsString(pat) && IsString(nam)
    ensures FewMarks(pat) ==> (r <==> Terms(pat) <= 4 && Matches(pat, nam))
    ensures r <==> Terms(pat) <= 4 && ByTerms(pat, nam)
  {
    assert pat[0..] == pat && nam[0..] == nam && nam[0..][0..] == nam;
    if FewMarks(pat) { TermsMean(pat, nam); }
    r := PatternMatch(pat, 0, nam, 0, 0, 4);
  }

  // What a term of wildcards in front of q stands for.
  ghost predicate TermThen(t: seq<nat>, q: seq<nat>, n: seq<nat>) {
    Marks(t) <= |n| &&
    if Stretches(t) then exists k | Marks(t) <= k <= |n| :: Matches(q, n[k..]) else Matches(q, n[Marks(t)..])
  }

  lemma {:induction false} TermMeans(t: seq<nat>, q: seq<nat>, n: seq<nat>)
    requires forall i | 0 <= i < |t| :: Wild(t[i])
    ensures Matches(t + q, n) <==> TermThen(t, q, n)
  {
    if t == [] {
      assert t + q == q && n[0..] == n;
    } else {
      assert (t + q)[1..] == t[1..] + q;
      if t[0] == ONE {
        if n != [] {
          TermMeans(t[1..], q, n[1..]);
          OneFirst(t, q, n);
        }
      } else {
        forall j | 0 <= j <= |n|
          ensures Matches(t[1..] + q, n[j..]) <==> TermThen(t[1..], q, n[j..])
        {
          TermMeans(t[1..], q, n[j..]);
        }
        AnyFirst(t, q, n);
      }
    }
  }

  lemma OneFirst(t: seq<nat>, q: seq<nat>, n: seq<nat>)
    requires t != [] && t[0] == ONE && n != []
    ensures TermThen(t, q, n) <==> TermThen(t[1..], q, n[1..])
  {
    var m := n[1..];
    assert forall k | 1 <= k <= |n| :: n[k..] == m[k - 1..];
    assert Stretches(t) <==> Stretches(t[1..]);
    if TermThen(t, q, n) && Stretches(t) {
      var k :| Marks(t) <= k <= |n| && Matches(q, n[k..]);
      assert Matches(q, m[k - 1..]);
    }
    if TermThen(t[1..], q, m) && Stretches(t) {
      var k :| Marks(t[1..]) <= k <= |m| && Matches(q, m[k..]);
      assert m[k..] == n[k + 1..];
    }
  }

  lemma AnyFirst(t: seq<nat>, q: seq<nat>, n: seq<nat>)
    requires t != [] && t[0] == ANY
    ensures TermThen(t, q, n) <==> exists j | 0 <= j <= |n| :: TermThen(t[1..], q, n[j..])
  {
    hide Matches, Marks, TermThen, Stretches;
    if TermThen(t, q, n) { AnySkips(t, q, n); }
    if j :| 0 <= j <= |n| && TermThen(t[1..], q, n[j..]) { AnyAbsorbs(t, q, n, j); }
  }

  lemma AnySkips(t: seq<nat>, q: seq<nat>, n: seq<nat>)
    requires t != [] && t[0] == ANY && TermThen(t, q, n)
    ensures exists j | 0 <= j <= |n| :: TermThen(t[1..], q, n[j..])
  {
    var k := KeyOf(t, q, n);
    var m := Marks(t[1..]);
    assert Marks(t) == m;
    var rest := n[k - m..];
    assert rest[m..] == n[k..];
    assert TermThen(t[1..], q, rest);
  }

  lemma AnyAbsorbs(t: seq<nat>, q: seq<nat>, n: seq<nat>, j: nat)
    requires t != [] && t[0] == ANY && j <= |n| && TermThen(t[1..], q, n[j..])
    ensures TermThen(t, q, n)
  {
  }

  ghost function KeyOf(t: seq<nat>, q: seq<nat>, n: seq<nat>): (k: nat)
    requires TermThen(t, q, n) && Stretches(t)
    ensures Marks(t) <= k <= |n| && Matches(q, n[k..])
  {
    var k :| Marks(t) <= k <= |n| && Matches(q, n[k..]);
    k
  }

  // Taken term by term the pattern means the same, if no term overflows.
  lemma {:induction false} TermsMean(p: seq<nat>, n: seq<nat>)
    requires FewMarks(p)
    ensures ByTerms(p, n) <==> Matches(p, n)
    decreases |p|
  {
    if p != [] && Wild(p[0]) {
      var w := TermLength(p);
      forall k | 0 <= k <= |n|
        ensures ByTerms(p[w..], n[k..]) <==> Matches(p[w..], n[k..])
      {
        TermsMean(p[w..], n[k..]);
      }
      TermMeans(p[..w], p[w..], n);
      assert p == p[..w] + p[w..];
    } else if p != [] && n != [] {
      TermsMean(p[1..], n[1..]);
    }
  }

  // ----- Exactly when the result is right -----

  // The pattern without its '*', which is a name it matches; none that it matches is shorter.
  function Plain(p: seq<nat>): (n: seq<nat>) {
    if p == [] then [] else (if p[0] == ANY then [] else [p[0]]) + Plain(p[1..])
  }

  lemma {:induction false} PlainMatches(p: seq<nat>)
    requires IsString(p)
    ensures Matches(p, Plain(p)) && IsString(Plain(p))
  {
    if p != [] {
      PlainMatches(p[1..]);
      if p[0] == ANY {
        assert Plain(p)[0..] == Plain(p[1..]);
      } else {
        assert Plain(p)[1..] == Plain(p[1..]);
      }
    }
  }

  lemma {:induction false} PlainIsShortest(p: seq<nat>, n: seq<nat>)
    requires Matches(p, n)
    ensures |Plain(p)| <= |n|
  {
    if p != [] {
      if p[0] == ANY {
        var k :| 0 <= k <= |n| && Matches(p[1..], n[k..]);
        PlainIsShortest(p[1..], n[k..]);
      } else {
        PlainIsShortest(p[1..], n[1..]);
      }
    }
  }

  // A name that the pattern matches term by term: terms that overflow shrink.
  function Shrunk(p: seq<nat>): (n: seq<nat>)
    requires IsString(p)
    ensures IsString(n)
  {
    if p == [] then []
    else if Wild(p[0]) then seq(Marks(p[..TermLength(p)]) % 0x100, _ => ONE) + Shrunk(p[TermLength(p)..])
    else [p[0]] + Shrunk(p[1..])
  }

  lemma {:induction false} ShrunkMatches(p: seq<nat>)
    requires IsString(p)
    ensures ByTerms(p, Shrunk(p))
  {
    if p != [] && Wild(p[0]) {
      var w := TermLength(p);
      ShrunkMatches(p[w..]);
      assert Shrunk(p)[Marks(p[..w]) % 0x100..] == Shrunk(p[w..]);
    } else if p != [] {
      ShrunkMatches(p[1..]);
      assert Shrunk(p)[1..] == Shrunk(p[1..]);
    }
  }

  lemma {:induction false} ShrunkIsShorter(p: seq<nat>)
    requires IsString(p)
    ensures |Shrunk(p)| <= |Plain(p)|
    ensures !FewMarks(p) ==> |Shrunk(p)| < |Plain(p)|
  {
    if p != [] && Wild(p[0]) {
      var w := TermLength(p);
      ShrunkIsShorter(p[w..]);
      PlainOfTerm(p[..w], p[w..]);
      assert p == p[..w] + p[w..];
    } else if p != [] {
      ShrunkIsShorter(p[1..]);
    }
  }

  lemma {:induction false} PlainOfTerm(t: seq<nat>, q: seq<nat>)
    requires forall i | 0 <= i < |t| :: Wild(t[i])
    ensures |Plain(t + q)| == Marks(t) + |Plain(q)|
  {
    if t == [] {
      assert t + q == q;
    } else {
      assert (t + q)[1..] == t[1..] + q;
      PlainOfTerm(t[1..], q);
    }
  }

  // pattern_match tells for every name whether the pattern matches it, if and only if the
  // pattern has at most 4 terms of wildcards, each with fewer than 256 '?'.
  lemma ExactlyWhen(pat: seq<nat>)
    requires IsString(pat)
    ensures (forall nam | IsString(nam) :: (Terms(pat) <= 4 && ByTerms(pat, nam)) <==> Matches(pat, nam))
      <==> (Terms(pat) <= 4 && FewMarks(pat))
  {
    PlainMatches(pat);
    ShrunkMatches(pat);
    ShrunkIsShorter(pat);
    if FewMarks(pat) {
      forall nam | IsString(nam) { TermsMean(pat, nam); }
    } else if Matches(pat, Shrunk(pat)) {
      PlainIsShortest(pat, Shrunk(pat));
    }
  }
}
