/**
Bech32 (src/bech32.cpp; BIP 173, with a limit of 1023 characters).  Characters and
five-bit values are bytes, as in the source; the checksum is the remainder of Gf32.
*/
module Bech32 {
  import opened Common
  import opened Gf32
  import Bch

  //
  // The 30-bit register of PolyMod holds the six coefficients of a remainder.
  //

  function Shifted(c: bv32, v: bv8): bv32 { ((c & 0x1ffffff) << 5) ^ (v as bv32) }

  function XorIf(b: bool, c: bv32, k: bv32): bv32 { if b then c ^ k else c }

  predicate Top(c: bv32, m: bv32) { (c >> 25) & m != 0 }

  function Step(c: bv32, v: bv8): bv32 {
    var x0 := Shifted(c, v);
    var x1 := XorIf(Top(c, 1), x0, 0x3b6a57b2);
    var x2 := XorIf(Top(c, 2), x1, 0x26508e6d);
    var x3 := XorIf(Top(c, 4), x2, 0x1ea119fa);
    var x4 := XorIf(Top(c, 8), x3, 0x3d4233dd);
    XorIf(Top(c, 16), x4, 0x2a1462b3)
  }

  function Five(x: bv32): bv5 { (x & 31) as bv5 }

  function Down(c: bv32, shift: bv6): bv32
    requires shift <= 25
  {
    c >> shift
  }

  function Group(c: bv32, shift: bv6): Gf
    requires shift <= 25
  {
    Gf(Five(Down(c, shift)))
  }

  function Rep(c: bv32): Poly {
    Poly(Group(c, 25), Group(c, 20), Group(c, 15), Group(c, 10), Group(c, 5), Group(c, 0))
  }

  function Sym(v: bv8): Gf { Gf((v & 31) as bv5) }

  lemma RepShifted(c: bv32, v: bv8)
    requires v < 32
    ensures Rep(Shifted(c, v)) == Poly(Group(c, 20), Group(c, 15), Group(c, 10), Group(c, 5), Group(c, 0), Sym(v))
  {
  }

  function SelectPoly(b: bool, k: Poly): Poly {
    Poly(Select(b, k.c0), Select(b, k.c1), Select(b, k.c2), Select(b, k.c3), Select(b, k.c4), Select(b, k.c5))
  }

  lemma GroupXor(c: bv32, k: bv32)
    ensures Group(c ^ k, 25) == Add(Group(c, 25), Group(k, 25))
    ensures Group(c ^ k, 20) == Add(Group(c, 20), Group(k, 20))
    ensures Group(c ^ k, 15) == Add(Group(c, 15), Group(k, 15))
    ensures Group(c ^ k, 10) == Add(Group(c, 10), Group(k, 10))
    ensures Group(c ^ k, 5) == Add(Group(c, 5), Group(k, 5))
    ensures Group(c ^ k, 0) == Add(Group(c, 0), Group(k, 0))
  {
  }

  lemma RepXorIf(b: bool, c: bv32, k: bv32)
    ensures Rep(XorIf(b, c, k)) == Sum(Rep(c), SelectPoly(b, Rep(k)))
  {
    hide Group;
    hide Add;
    if b {
      GroupXor(c, k);
    } else {
      AddSelf(Group(c, 25));
      AddSelf(Group(c, 20));
      AddSelf(Group(c, 15));
      AddSelf(Group(c, 10));
      AddSelf(Group(c, 5));
      AddSelf(Group(c, 0));
    }
  }

  /** The five constants of the source are the generator's remainder times 1, a, a^2, a^3 and a^4. */
  lemma Constants()
    ensures Rep(0x3b6a57b2) == Poly(Gf(29), Gf(22), Gf(20), Gf(21), Gf(29), Gf(18))
    ensures Rep(0x26508e6d) == Doubled(Rep(0x3b6a57b2))
    ensures Rep(0x1ea119fa) == Doubled(Rep(0x26508e6d))
    ensures Rep(0x3d4233dd) == Doubled(Rep(0x1ea119fa))
    ensures Rep(0x2a1462b3) == Doubled(Rep(0x3d4233dd))
  {
  }

  lemma TopBits(c: bv32)
    ensures Top(c, 1) == Bit(Group(c, 25), 1) && Top(c, 2) == Bit(Group(c, 25), 2) && Top(c, 4) == Bit(Group(c, 25), 4)
    ensures Top(c, 8) == Bit(Group(c, 25), 8) && Top(c, 16) == Bit(Group(c, 25), 16)
  {
  }

  /** One pass of the loop multiplies the remainder by x and adds the next value. */
  lemma RepStep(c: bv32, v: bv8)
    requires v < 32
    ensures Rep(Step(c, v)) == Next(Rep(c), Sym(v))
  {
    hide Shifted;
    hide XorIf;
    hide Top;
    hide Group;
    hide Sym;
    hide Twice;
    hide Add;
    hide Select;
    hide Bit;
    RepShifted(c, v);
    Constants();
    TopBits(c);
    var x0 := Shifted(c, v);
    var x1 := XorIf(Top(c, 1), x0, 0x3b6a57b2);
    var x2 := XorIf(Top(c, 2), x1, 0x26508e6d);
    var x3 := XorIf(Top(c, 4), x2, 0x1ea119fa);
    var x4 := XorIf(Top(c, 8), x3, 0x3d4233dd);
    RepXorIf(Top(c, 1), x0, 0x3b6a57b2);
    RepXorIf(Top(c, 2), x1, 0x26508e6d);
    RepXorIf(Top(c, 4), x2, 0x1ea119fa);
    RepXorIf(Top(c, 8), x3, 0x3d4233dd);
    RepXorIf(Top(c, 16), x4, 0x2a1462b3);
  }

  lemma StepBounded(c: bv32, v: bv8)
    ensures Step(c, v) < 0x4000_0000
  {
  }

  lemma RepInjective(c: bv32, d: bv32)
    requires c < 0x4000_0000 && d < 0x4000_0000 && Rep(c) == Rep(d)
    ensures c == d
  {
  }

  //
  // The checksum.
  //

  predicate Symbols(vs: seq<bv8>) {
    forall i :: 0 <= i < |vs| ==> vs[i] < 32
  }

  function Syms(vs: seq<bv8>): (r: seq<Gf>)
    ensures |r| == |vs|
  {
    seq(|vs|, i requires 0 <= i < |vs| => Sym(vs[i]))
  }

  lemma SymsCat(u: seq<bv8>, v: seq<bv8>)
    ensures Syms(u + v) == Syms(u) + Syms(v)
  {
  }

  lemma SymInjective(v: bv8, w: bv8)
    requires v < 32 && w < 32 && Sym(v) == Sym(w)
    ensures v == w
  {
  }

  lemma SymsInjective(u: seq<bv8>, v: seq<bv8>)
    requires Symbols(u) && Symbols(v) && Syms(u) == Syms(v)
    ensures u == v
  {
    hide Sym;
    assert |Syms(u)| == |u| && |Syms(v)| == |v|;
    forall i | 0 <= i < |u| ensures u[i] == v[i] {
      assert Syms(u)[i] == Sym(u[i]) && Syms(v)[i] == Sym(v[i]);
      SymInjective(u[i], v[i]);
    }
  }

  function Fold(c: bv32, vs: seq<bv8>): bv32
    decreases |vs|
  {
    if vs == [] then c else Fold(Step(c, vs[0]), vs[1..])
  }

  lemma {:induction false} FoldLast(c: bv32, vs: seq<bv8>, v: bv8)
    ensures Fold(c, vs + [v]) == Step(Fold(c, vs), v)
    decreases |vs|
  {
    hide Step;
    if vs == [] {
      assert vs + [v] == [v];
    } else {
      assert (vs + [v])[0] == vs[0] && (vs + [v])[1..] == vs[1..] + [v];
      FoldLast(Step(c, vs[0]), vs[1..], v);
    }
  }

  lemma {:induction false} FoldRep(c: bv32, vs: seq<bv8>)
    requires Symbols(vs) && c < 0x4000_0000
    ensures Rep(Fold(c, vs)) == Rem(Rep(c), Syms(vs)) && Fold(c, vs) < 0x4000_0000
    decreases |vs|
  {
    hide Step;
    hide Rep;
    hide Next;
    hide Sym;
    if vs != [] {
      RepStep(c, vs[0]);
      StepBounded(c, vs[0]);
      assert Syms(vs)[1..] == Syms(vs[1..]);
      FoldRep(Step(c, vs[0]), vs[1..]);
    }
  }

  /** Lines 37-94: the register after every value, starting from 1. */
  method PolyMod(v: seq<bv8>) returns (c: bv32)
    ensures c == Fold(1, v)
  {
    hide Step;
    c := 1;
    for i := 0 to |v|
      invariant c == Fold(1, v[..i])
    {
      FoldLast(1, v[..i], v[i]);
      assert v[..i + 1] == v[..i] + [v[i]];
      c := StepInPlace(c, v[i]);
    }
    assert v[..|v|] == v;
  }

  /** Lines 81-91. */
  method StepInPlace(before: bv32, v_i: bv8) returns (c: bv32)
    ensures c == Step(before, v_i)
  {
    hide Shifted;
    hide XorIf;
    var c0 := before >> 25;
    c := Shifted(before, v_i);
    c := XorIf(c0 & 1 != 0, c, 0x3b6a57b2);
    c := XorIf(c0 & 2 != 0, c, 0x26508e6d);
    c := XorIf(c0 & 4 != 0, c, 0x1ea119fa);
    c := XorIf(c0 & 8 != 0, c, 0x3d4233dd);
    c := XorIf(c0 & 16 != 0, c, 0x2a1462b3);
  }

  function High(c: bv8): bv8 { c >> 5 }

  function Low(c: bv8): bv8 { c & 0x1f }

  /** The high bits of every character, a zero, and the low bits of every character. */
  function Expand(hrp: seq<bv8>): (r: seq<bv8>)
    ensures |r| == 2 * |hrp| + 1
  {
    seq(|hrp|, i requires 0 <= i < |hrp| => High(hrp[i])) + [0] + seq(|hrp|, i requires 0 <= i < |hrp| => Low(hrp[i]))
  }

  lemma ExpandSymbols(hrp: seq<bv8>)
    ensures Symbols(Expand(hrp))
  {
    forall i | 0 <= i < |hrp| ensures High(hrp[i]) < 32 && Low(hrp[i]) < 32 {
      Halves(hrp[i]);
    }
  }

  lemma Halves(c: bv8)
    ensures High(c) < 32 && Low(c) < 32
  {
  }

  /** Lines 103-115. */
  method ExpandHRP(hrp: seq<bv8>) returns (r: seq<bv8>)
    ensures r == Expand(hrp)
  {
    hide High;
    hide Low;
    var ret := new bv8[|hrp| * 2 + 1](i => 0);
    for i := 0 to |hrp|
      invariant forall j :: 0 <= j < i ==> ret[j] == Expand(hrp)[j]
      invariant forall j :: |hrp| < j < |hrp| + 1 + i ==> ret[j] == Expand(hrp)[j]
    {
      var c := hrp[i];
      ret[i] := High(c);
      ret[i + |hrp| + 1] := Low(c);
    }
    ret[|hrp|] := 0;
    r := ret[..];
  }

  predicate Verified(hrp: seq<bv8>, values: seq<bv8>) {
    Fold(1, Expand(hrp) + values) == 1
  }

  lemma RepOne()
    ensures Rep(1) == ONE
  {
  }

  /** The checksum is right exactly when the remainder is one. */
  lemma VerifiedIff(hrp: seq<bv8>, values: seq<bv8>)
    requires Symbols(values)
    ensures Verified(hrp, values) <==> Rem(ONE, Syms(Expand(hrp) + values)) == ONE
  {
    hide Rep;
    hide Next;
    hide Sym;
    hide Expand;
    ExpandSymbols(hrp);
    var all := Expand(hrp) + values;
    FoldRep(1, all);
    RepOne();
    if Rep(Fold(1, all)) == ONE {
      RepInjective(Fold(1, all), 1);
    }
  }

  /** Lines 118-125. */
  method VerifyChecksum(hrp: seq<bv8>, values: seq<bv8>) returns (ok: bool)
    ensures ok == Verified(hrp, values)
  {
    var enc := ExpandHRP(hrp);
    var c := PolyMod(enc + values);
    ok := c == 1;
  }

  const ZEROS: seq<bv8> := [0, 0, 0, 0, 0, 0]

  function LowByte(x: bv32): bv8 { (x & 31) as bv8 }

  lemma SymLowByte(x: bv32)
    ensures LowByte(x) < 32 && Sym(LowByte(x)) == Gf(Five(x))
  {
  }

  function FlipOne(m: bv32): bv32 { m ^ 1 }

  /** Value i of a register, counted from the top: 5 * (5 - i) bits up. */
  function GroupByte(m: bv32, i: nat): bv8
    requires i < 6
  {
    LowByte(Down(m, ShiftOf(i)))
  }

  function ShiftOf(i: nat): (r: bv6)
    requires i < 6
    ensures r <= 25
  {
    if i == 0 then 25 else if i == 1 then 20 else if i == 2 then 15 else if i == 3 then 10 else if i == 4 then 5 else 0
  }

  lemma Shifts()
    ensures ShiftOf(0) == 25 && ShiftOf(1) == 20 && ShiftOf(2) == 15
    ensures ShiftOf(3) == 10 && ShiftOf(4) == 5 && ShiftOf(5) == 0
  {
  }

  function Groups(m: bv32): (r: seq<bv8>)
    ensures |r| == 6
  {
    [GroupByte(m, 0), GroupByte(m, 1), GroupByte(m, 2), GroupByte(m, 3), GroupByte(m, 4), GroupByte(m, 5)]
  }

  function Checksum(hrp: seq<bv8>, values: seq<bv8>): (r: seq<bv8>)
    ensures |r| == 6
  {
    Groups(FlipOne(Fold(1, Expand(hrp) + values + ZEROS)))
  }

  lemma GroupsAreRep(m: bv32)
    ensures Symbols(Groups(m)) && Six(Syms(Groups(m))) == Rep(m)
  {
    hide GroupByte;
    hide Sym;
    hide Group;
    hide ShiftOf;
    Shifts();
    GroupIsSym(m, 0, 25);
    GroupIsSym(m, 1, 20);
    GroupIsSym(m, 2, 15);
    GroupIsSym(m, 3, 10);
    GroupIsSym(m, 4, 5);
    GroupIsSym(m, 5, 0);
  }

  lemma GroupIsSym(m: bv32, i: nat, shift: bv6)
    requires i < 6 && shift == ShiftOf(i)
    ensures Sym(GroupByte(m, i)) == Group(m, shift) && GroupByte(m, i) < 32
  {
    hide LowByte;
    hide Sym;
    hide Five;
    hide Down;
    SymLowByte(Down(m, shift));
  }

  /** Lines 128-139. */
  method CreateChecksum(hrp: seq<bv8>, values: seq<bv8>) returns (r: seq<bv8>)
    ensures r == Checksum(hrp, values)
  {
    hide GroupByte;
    hide Fold;
    hide Expand;
    hide FlipOne;
    var enc := ExpandHRP(hrp);
    enc := enc + values;
    enc := enc + ZEROS;
    var mod := PolyMod(enc);
    mod := FlipOne(mod);
    r := [];
    for i := 0 to 6
      invariant r == Groups(mod)[..i]
    {
      r := r + [GroupByte(mod, i)];
    }
  }

  /** The remainder with a checksum appended, from the remainder with zeros appended. */
  lemma VerifiedSum(hrp: seq<bv8>, values: seq<bv8>, sum: seq<bv8>, m: bv32)
    requires Symbols(values) && Symbols(sum) && |sum| == 6 && m == Fold(1, Expand(hrp) + values + ZEROS)
    ensures Verified(hrp, values + sum) <==> Six(Syms(sum)) == Sum(Rep(m), ONE)
  {
    hide Rep;
    hide Rem;
    hide Fold;
    hide Sym;
    hide Sum;
    hide Expand;
    var head := Expand(hrp) + values;
    ExpandSymbols(hrp);
    var q := Rem(ONE, Syms(head));
    ZerosAreZero();
    FoldRep(1, head + ZEROS);
    RepOne();
    SymsCat(head, ZEROS);
    RemCat(ONE, Syms(head), Syms(ZEROS));
    VerifiedIff(hrp, values + sum);
    assert Expand(hrp) + (values + sum) == head + sum;
    SymsCat(head, sum);
    RemCat(ONE, Syms(head), Syms(sum));
    RemTrailing(q, Syms(sum));
    SumCancels(Rep(m), Six(Syms(sum)), ONE);
  }

  /** For every prefix and values exactly one checksum is accepted: the one created. */
  lemma ChecksumIff(hrp: seq<bv8>, values: seq<bv8>, sum: seq<bv8>)
    requires Symbols(values) && Symbols(sum) && |sum| == 6
    ensures Verified(hrp, values + sum) <==> sum == Checksum(hrp, values)
  {
    hide Rep;
    hide Fold;
    hide Verified;
    hide Sym;
    hide Sum;
    hide Groups;
    var m := Fold(1, Expand(hrp) + values + ZEROS);
    VerifiedSum(hrp, values, sum, m);
    hide FlipOne;
    RepXorOne(m);
    GroupsAreRep(FlipOne(m));
    var g := Groups(FlipOne(m));
    if Six(Syms(sum)) == Six(Syms(g)) {
      SixInjective(Syms(sum), Syms(g));
      SymsInjective(sum, g);
    }
  }

  lemma ZerosAreZero()
    ensures Syms(ZEROS) == Zeros(6) && Symbols(ZEROS)
  {
  }

  lemma RepXorOne(m: bv32)
    ensures Rep(FlipOne(m)) == Sum(Rep(m), ONE)
  {
    hide Group;
    hide Add;
    GroupXor(m, 1);
    RepOne();
  }

  lemma SixInjective(u: seq<Gf>, v: seq<Gf>)
    requires |u| == |v| == 6 && Six(u) == Six(v)
    ensures u == v
  {
  }

  /** Two accepted strings of values with one prefix that differ only in a window of six are equal. */
  lemma BurstRejected(hrp: seq<bv8>, before: seq<bv8>, w: seq<bv8>, w': seq<bv8>, after: seq<bv8>)
    requires Symbols(before) && Symbols(w) && Symbols(w') && Symbols(after) && |w| == |w'| <= 6
    requires Verified(hrp, before + w + after) && Verified(hrp, before + w' + after)
    ensures w == w'
  {
    hide Next;
    hide Sym;
    hide Expand;
    var e := Expand(hrp);
    VerifiedIff(hrp, before + w + after);
    VerifiedIff(hrp, before + w' + after);
    SymsOfParts(e, before, w, after);
    SymsOfParts(e, before, w', after);
    BurstDetected(ONE, Syms(e + before), Syms(w), Syms(w'), Syms(after));
    SymsInjective(w, w');
  }

  lemma SymsOfParts(e: seq<bv8>, before: seq<bv8>, w: seq<bv8>, after: seq<bv8>)
    ensures Syms(e + (before + w + after)) == Syms(e + before) + Syms(w) + Syms(after)
  {
    assert e + (before + w + after) == (e + before + w) + after;
    SymsCat(e + before + w, after);
    SymsCat(e + before, w);
  }

  //
  // Characters.
  //

  const SEPARATOR: bv8 := 49

  const NOT_A_SYMBOL: bv8 := 0xff

  /** CHARSET (line 13): "qpzry9x8gf2tvdw0s3jn54khce6mua7l". */
  function CharOf(v: bv8): bv8
    requires v < 32
  {
    if v < 16 then LowChar(v) else HighChar(v)
  }

  function LowChar(v: bv8): bv8 {
    if v == 0 then 113 else if v == 1 then 112 else if v == 2 then 122 else if v == 3 then 114
    else if v == 4 then 121 else if v == 5 then 57 else if v == 6 then 120 else if v == 7 then 56
    else if v == 8 then 103 else if v == 9 then 102 else if v == 10 then 50 else if v == 11 then 116
    else if v == 12 then 118 else if v == 13 then 100 else if v == 14 then 119
    else 48
  }

  function HighChar(v: bv8): bv8 {
    if v == 16 then 115 else if v == 17 then 51 else if v == 18 then 106 else if v == 19 then 110
    else if v == 20 then 53 else if v == 21 then 52 else if v == 22 then 107 else if v == 23 then 104
    else if v == 24 then 99 else if v == 25 then 101 else if v == 26 then 54 else if v == 27 then 109
    else if v == 28 then 117 else if v == 29 then 97 else if v == 30 then 55
    else 108
  }

  /** The characters of the values 0 to 15, in their order: "qpzry9x8gf2tvdw0". */
  lemma LowCharset()
    ensures CharOf(0) as char == 'q' && CharOf(1) as char == 'p' && CharOf(2) as char == 'z' && CharOf(3) as char == 'r'
    ensures CharOf(4) as char == 'y' && CharOf(5) as char == '9' && CharOf(6) as char == 'x' && CharOf(7) as char == '8'
    ensures CharOf(8) as char == 'g' && CharOf(9) as char == 'f' && CharOf(10) as char == '2' && CharOf(11) as char == 't'
    ensures CharOf(12) as char == 'v' && CharOf(13) as char == 'd' && CharOf(14) as char == 'w' && CharOf(15) as char == '0'
  {
  }

  /** And those of the values 16 to 31: "s3jn54khce6mua7l". */
  lemma HighCharset()
    ensures CharOf(16) as char == 's' && CharOf(17) as char == '3' && CharOf(18) as char == 'j' && CharOf(19) as char == 'n'
    ensures CharOf(20) as char == '5' && CharOf(21) as char == '4' && CharOf(22) as char == 'k' && CharOf(23) as char == 'h'
    ensures CharOf(24) as char == 'c' && CharOf(25) as char == 'e' && CharOf(26) as char == '6' && CharOf(27) as char == 'm'
    ensures CharOf(28) as char == 'u' && CharOf(29) as char == 'a' && CharOf(30) as char == '7' && CharOf(31) as char == 'l'
  {
  }

  /** CHARSET_REV (lines 16-25): its rows for capitals repeat those for small letters. */
  function ValueOf(c: bv8): bv8 {
    SmallValue(LowerCase(c))
  }

  function SmallValue(c: bv8): bv8 {
    if c <= 57 then DigitValue(c) else if c <= 109 then EarlyValue(c) else LateValue(c)
  }

  function DigitValue(c: bv8): bv8 {
    if c == 48 then 15 else if c == 50 then 10 else if c == 51 then 17 else if c == 52 then 21
    else if c == 53 then 20 else if c == 54 then 26 else if c == 55 then 30 else if c == 56 then 7
    else if c == 57 then 5
    else NOT_A_SYMBOL
  }

  function EarlyValue(c: bv8): bv8 {
    if c == 97 then 29 else if c == 99 then 24 else if c == 100 then 13 else if c == 101 then 25
    else if c == 102 then 9 else if c == 103 then 8 else if c == 104 then 23 else if c == 106 then 18
    else if c == 107 then 22 else if c == 108 then 31 else if c == 109 then 27
    else NOT_A_SYMBOL
  }

  function LateValue(c: bv8): bv8 {
    if c == 110 then 19 else if c == 112 then 1 else if c == 113 then 0 else if c == 114 then 3
    else if c == 115 then 16 else if c == 116 then 11 else if c == 117 then 28 else if c == 118 then 12
    else if c == 119 then 14 else if c == 120 then 6 else if c == 121 then 4 else if c == 122 then 2
    else NOT_A_SYMBOL
  }

  predicate Printable(c: bv8) { 33 <= c <= 126 }

  predicate IsLower(c: bv8) { 97 <= c <= 122 }

  predicate IsUpper(c: bv8) { 65 <= c <= 90 }

  function LowerCase(c: bv8): bv8 { if 65 <= c <= 90 then (c - 65) + 97 else c }

  /** Capitals become the small letters with one more bit, from A and a to Z and z; all else stays. */
  lemma LowerCaseIs(c: bv8)
    ensures LowerCase(c) == if 'A' <= c as char <= 'Z' then c | 0x20 else c
    ensures LowerCase('A' as bv8) as char == 'a' && LowerCase('Z' as bv8) as char == 'z'
  {
  }

  lemma LowerFixed(c: bv8)
    ensures LowerCase(c) == c <==> !IsUpper(c)
  {
  }

  /** Every value has a lower-case character of its own, which is not the separator. */
  lemma CharThenValue(v: bv8)
    requires v < 32
    ensures var c := CharOf(v); ValueOf(c) == v && Printable(c) && c != SEPARATOR && !IsUpper(c)
  {
    hide SmallValue;
    hide LowChar;
    hide HighChar;
    CharClass(v);
    if v < 16 {
      LowCharThenValue(v);
    } else {
      HighCharThenValue(v);
    }
    LowerFixed(CharOf(v));
  }

  lemma CharClass(v: bv8)
    requires v < 32
    ensures var c := CharOf(v); Printable(c) && c != SEPARATOR && !IsUpper(c)
  {
  }

  lemma LowCharThenValue(v: bv8)
    requires v < 16
    ensures SmallValue(LowChar(v)) == v
  {
  }

  lemma HighCharThenValue(v: bv8)
    requires 16 <= v < 32
    ensures SmallValue(HighChar(v)) == v
  {
  }

  /** Every character with a value is that value's character up to case. */
  lemma ValueThenChar(c: bv8)
    requires ValueOf(c) != NOT_A_SYMBOL
    ensures ValueOf(c) < 32 && CharOf(ValueOf(c)) == LowerCase(c)
  {
    hide CharOf;
    hide DigitValue;
    hide EarlyValue;
    hide LateValue;
    var d := LowerCase(c);
    if d <= 57 {
      DigitThenChar(d);
    } else if d <= 109 {
      EarlyThenChar(d);
    } else {
      LateThenChar(d);
    }
  }

  lemma DigitThenChar(c: bv8)
    requires DigitValue(c) != NOT_A_SYMBOL
    ensures DigitValue(c) < 32 && CharOf(DigitValue(c)) == c
  {
  }

  lemma EarlyThenChar(c: bv8)
    requires EarlyValue(c) != NOT_A_SYMBOL
    ensures EarlyValue(c) < 32 && CharOf(EarlyValue(c)) == c
  {
  }

  lemma LateThenChar(c: bv8)
    requires LateValue(c) != NOT_A_SYMBOL
    ensures LateValue(c) < 32 && CharOf(LateValue(c)) == c
  {
  }

  function Chars(vs: seq<bv8>): (r: seq<bv8>)
    requires Symbols(vs)
    ensures |r| == |vs|
  {
    seq(|vs|, i requires 0 <= i < |vs| => CharOf(vs[i]))
  }

  function Values(cs: seq<bv8>): (r: seq<bv8>)
    ensures |r| == |cs|
  {
    seq(|cs|, i requires 0 <= i < |cs| => ValueOf(cs[i]))
  }

  function Lower(cs: seq<bv8>): (r: seq<bv8>)
    ensures |r| == |cs|
  {
    seq(|cs|, i requires 0 <= i < |cs| => LowerCase(cs[i]))
  }

  predicate AllPrintable(s: seq<bv8>) { forall i :: 0 <= i < |s| ==> Printable(s[i]) }

  predicate HasLower(s: seq<bv8>) { exists i :: 0 <= i < |s| && IsLower(s[i]) }

  predicate HasUpper(s: seq<bv8>) { exists i :: 0 <= i < |s| && IsUpper(s[i]) }

  predicate AllValues(s: seq<bv8>) { forall i :: 0 <= i < |s| ==> ValueOf(s[i]) != NOT_A_SYMBOL }

  /** The last separator, or -1. */
  function LastSeparator(s: seq<bv8>): (r: int)
    ensures -1 <= r < |s|
    ensures r >= 0 ==> s[r] == SEPARATOR
    ensures forall j :: r < j < |s| ==> s[j] != SEPARATOR
  {
    if s == [] then -1
    else if s[|s| - 1] == SEPARATOR then |s| - 1
    else LastSeparator(s[..|s| - 1])
  }

  //
  // Strings.
  //

  const MAX_LENGTH := 1023

  /** The string, or the empty string when a value is not a symbol (lines 147-159). */
  function Encoded(hrp: seq<bv8>, values: seq<bv8>): seq<bv8> {
    if !Symbols(values) then []
    else
      var sum := Checksum(hrp, values);
      ChecksumSymbols(hrp, values);
      hrp + [SEPARATOR] + Chars(values + sum)
  }

  /** The prefix and values of a string, if it has them (lines 162-192). */
  function Decoded(s: seq<bv8>): Option<(seq<bv8>, seq<bv8>)> {
    if !AllPrintable(s) || (HasLower(s) && HasUpper(s)) then None
    else
      var pos := LastSeparator(s);
      if |s| > MAX_LENGTH || pos == -1 || pos == 0 || pos + 7 > |s| then None
      else if !AllValues(s[pos + 1..]) then None
      else
        var hrp, values := Lower(s[..pos]), Values(s[pos + 1..]);
        if Verified(hrp, values) then Some((hrp, values[..|values| - 6])) else None
  }

  lemma ChecksumSymbols(hrp: seq<bv8>, values: seq<bv8>)
    ensures Symbols(Checksum(hrp, values))
  {
    hide Groups;
    GroupsAreRep(FlipOne(Fold(1, Expand(hrp) + values + ZEROS)));
  }

  /** What the format takes: a printable prefix without capitals, five-bit values, at most 1023 characters. */
  predicate Encodable(hrp: seq<bv8>, values: seq<bv8>) {
    && hrp != [] && |hrp| + 1 + |values| + 6 <= 1023
    && (forall i :: 0 <= i < |hrp| ==> 33 <= hrp[i] <= 126 && !(65 <= hrp[i] <= 90))
    && (forall i :: 0 <= i < |values| ==> values[i] < 32)
  }

  lemma EncodableIff(hrp: seq<bv8>, values: seq<bv8>)
    ensures Encodable(hrp, values) <==>
            hrp != [] && AllPrintable(hrp) && !HasUpper(hrp) && Symbols(values) && |hrp| + 1 + |values| + 6 <= MAX_LENGTH
  {
  }

  lemma CharsFacts(vs: seq<bv8>)
    requires Symbols(vs)
    ensures Values(Chars(vs)) == vs && AllPrintable(Chars(vs)) && !HasUpper(Chars(vs)) && AllValues(Chars(vs))
    ensures forall i :: 0 <= i < |vs| ==> Chars(vs)[i] != SEPARATOR
  {
    hide CharOf;
    hide ValueOf;
    hide Printable;
    hide IsUpper;
    var cs := Chars(vs);
    forall i | 0 <= i < |vs|
      ensures ValueOf(cs[i]) == vs[i] && Printable(cs[i]) && cs[i] != SEPARATOR && !IsUpper(cs[i]) && ValueOf(cs[i]) != NOT_A_SYMBOL
    {
      CharThenValue(vs[i]);
      Distinct(vs[i]);
    }
  }

  lemma Distinct(v: bv8)
    requires v < 32
    ensures v != NOT_A_SYMBOL
  {
  }

  lemma LowerFacts(hrp: seq<bv8>)
    ensures Lower(hrp) == hrp <==> !HasUpper(hrp)
  {
    hide IsUpper;
    hide LowerCase;
    forall i | 0 <= i < |hrp|
      ensures Lower(hrp)[i] == hrp[i] <==> !IsUpper(hrp[i])
    {
      LowerFixed(hrp[i]);
    }
    if Lower(hrp) == hrp {
      forall i | 0 <= i < |hrp| ensures !IsUpper(hrp[i]) {
        assert Lower(hrp)[i] == hrp[i];
      }
    }
  }

  lemma SeparatorAt(s: seq<bv8>, pos: nat)
    requires pos < |s| && s[pos] == SEPARATOR && forall j :: pos < j < |s| ==> s[j] != SEPARATOR
    ensures LastSeparator(s) == pos
  {
  }

  /** Decoding inverts encoding exactly on what the format takes. */
  lemma DecodeEncode(hrp: seq<bv8>, values: seq<bv8>)
    ensures Decoded(Encoded(hrp, values)) == Some((hrp, values)) <==> Encodable(hrp, values)
  {
    hide Checksum;
    hide Verified;
    EncodableIff(hrp, values);
    hide Encodable;
    if Symbols(values) {
      DecodeOfEncoded(hrp, values);
      LowerFacts(hrp);
    }
  }

  /** An encoding: the prefix, the last separator, and the characters of values and checksum. */
  lemma EncodedShape(hrp: seq<bv8>, values: seq<bv8>)
    requires Symbols(values)
    ensures Symbols(values + Checksum(hrp, values))
    ensures var s, vs := Encoded(hrp, values), values + Checksum(hrp, values);
            && |s| == |hrp| + 1 + |values| + 6 && LastSeparator(s) == |hrp|
            && s[..|hrp|] == hrp && AllValues(s[|hrp| + 1..]) && Values(s[|hrp| + 1..]) == vs
            && (AllPrintable(s) <==> AllPrintable(hrp)) && (HasUpper(s) <==> HasUpper(hrp))
  {
    hide Checksum;
    hide Values;
    hide Chars;
    hide Printable;
    hide IsUpper;
    hide ValueOf;
    ChecksumSymbols(hrp, values);
    SymbolsCat(values, Checksum(hrp, values));
    var vs := values + Checksum(hrp, values);
    var s := Encoded(hrp, values);
    CharsFacts(vs);
    SeparatorAt(s, |hrp|);
    assert s[..|hrp|] == hrp && s[|hrp| + 1..] == Chars(vs);
    SeparatorClass();
    ClassesOf(hrp, Chars(vs));
  }

  lemma SeparatorClass()
    ensures Printable(SEPARATOR) && !IsUpper(SEPARATOR)
  {
  }

  lemma ClassesOf(hrp: seq<bv8>, cs: seq<bv8>)
    requires AllPrintable(cs) && !HasUpper(cs)
    ensures var s := hrp + [SEPARATOR] + cs; (AllPrintable(s) <==> AllPrintable(hrp)) && (HasUpper(s) <==> HasUpper(hrp))
  {
    hide Printable;
    hide IsUpper;
    SeparatorClass();
    var s := hrp + [SEPARATOR] + cs;
    forall i | 0 <= i < |s|
      ensures s[i] == if i < |hrp| then hrp[i] else if i == |hrp| then SEPARATOR else cs[i - |hrp| - 1]
    {
    }
    if HasUpper(s) {
      var i :| 0 <= i < |s| && IsUpper(s[i]);
      assert IsUpper(hrp[i]);
    }
    if HasUpper(hrp) {
      var i :| 0 <= i < |hrp| && IsUpper(hrp[i]);
      assert IsUpper(s[i]);
    }
    if AllPrintable(s) {
      forall i | 0 <= i < |hrp| ensures Printable(hrp[i]) {
        assert s[i] == hrp[i];
      }
    }
  }

  /** Decoding an encoding succeeds, up to the case of the prefix, when its length and characters allow. */
  lemma DecodeOfEncoded(hrp: seq<bv8>, values: seq<bv8>)
    requires Symbols(values)
    ensures var r := Decoded(Encoded(hrp, values));
            && (r.Some? ==> hrp != [] && AllPrintable(hrp) && |hrp| + 1 + |values| + 6 <= MAX_LENGTH && r.value.0 == Lower(hrp))
            && (Encodable(hrp, values) ==> r == Some((hrp, values)))
  {
    hide Checksum;
    hide Verified;
    hide Lower;
    hide Values;
    hide Encoded;
    hide AllPrintable;
    hide HasUpper;
    hide HasLower;
    hide AllValues;
    hide Symbols;
    hide LastSeparator;
    hide Encodable;
    EncodableIff(hrp, values);
    EncodedShape(hrp, values);
    ChecksumSymbols(hrp, values);
    if Encodable(hrp, values) {
      var vs := values + Checksum(hrp, values);
      ChecksumIff(hrp, values, Checksum(hrp, values));
      LowerFacts(hrp);
      assert vs[..|vs| - 6] == values;
    }
  }

  lemma ValuesFacts(cs: seq<bv8>)
    requires AllValues(cs)
    ensures Symbols(Values(cs)) && Chars(Values(cs)) == Lower(cs)
  {
    hide CharOf;
    hide ValueOf;
    hide LowerCase;
    forall i | 0 <= i < |cs|
      ensures ValueOf(cs[i]) < 32 && CharOf(ValueOf(cs[i])) == LowerCase(cs[i])
    {
      ValueThenChar(cs[i]);
    }
  }

  /** Encoding what a string decodes to gives the string back in lower case. */
  lemma EncodeDecode(s: seq<bv8>)
    requires Decoded(s).Some?
    ensures var (hrp, values) := Decoded(s).value; Encoded(hrp, values) == Lower(s)
  {
    hide Checksum;
    hide Verified;
    var pos := LastSeparator(s);
    var cs := s[pos + 1..];
    var vs := Values(cs);
    ValuesFacts(cs);
    var hrp, values, sum := Lower(s[..pos]), vs[..|vs| - 6], vs[|vs| - 6..];
    assert vs == values + sum;
    ChecksumIff(hrp, values, sum);
    LowerSplit(s, pos);
  }

  lemma LowerSplit(s: seq<bv8>, pos: nat)
    requires pos < |s| && s[pos] == SEPARATOR
    ensures Lower(s) == Lower(s[..pos]) + [SEPARATOR] + Lower(s[pos + 1..])
  {
    hide LowerCase;
    SeparatorLower();
    var parts := Lower(s[..pos]) + [SEPARATOR] + Lower(s[pos + 1..]);
    forall i | 0 <= i < |s| ensures Lower(s)[i] == parts[i] {
      if i > pos {
        assert s[pos + 1..][i - pos - 1] == s[i];
      }
    }
  }

  lemma SeparatorLower()
    ensures LowerCase(SEPARATOR) == SEPARATOR
  {
  }

  lemma LowerClass(c: bv8)
    ensures var d := LowerCase(c);
            && LowerCase(d) == d && !IsUpper(d) && (Printable(d) <==> Printable(c)) && (d == SEPARATOR <==> c == SEPARATOR)
  {
  }

  lemma LowerValue(c: bv8)
    ensures ValueOf(LowerCase(c)) == ValueOf(c)
  {
    hide SmallValue;
    LowerClass(c);
  }

  /** Capitals do not matter to any part of decoding but the test for mixed case. */
  lemma LowerAlike(s: seq<bv8>)
    ensures (AllPrintable(Lower(s)) <==> AllPrintable(s)) && !HasUpper(Lower(s)) && LastSeparator(Lower(s)) == LastSeparator(s)
    ensures Lower(Lower(s)) == Lower(s) && (AllValues(Lower(s)) <==> AllValues(s)) && Values(Lower(s)) == Values(s)
  {
    hide LowerCase;
    hide Printable;
    hide IsUpper;
    hide ValueOf;
    var t := Lower(s);
    forall i | 0 <= i < |s|
      ensures LowerCase(t[i]) == t[i] && !IsUpper(t[i]) && (Printable(t[i]) <==> Printable(s[i]))
      ensures (t[i] == SEPARATOR <==> s[i] == SEPARATOR) && ValueOf(t[i]) == ValueOf(s[i])
    {
      LowerClass(s[i]);
      LowerValue(s[i]);
    }
    assert Values(t) == Values(s);
    assert Lower(t) == t;
    assert AllPrintable(t) <==> AllPrintable(s) by {
      if AllPrintable(t) {
        forall i | 0 <= i < |s| ensures Printable(s[i]) { assert Printable(t[i]); }
      }
    }
    assert AllValues(t) <==> AllValues(s) by {
      if AllValues(t) {
        forall i | 0 <= i < |s| ensures ValueOf(s[i]) != NOT_A_SYMBOL { assert ValueOf(t[i]) != NOT_A_SYMBOL; }
      }
    }
    var p := LastSeparator(s);
    if p >= 0 {
      SeparatorAt(t, p);
    }
  }

  lemma LowerSlices(s: seq<bv8>, pos: nat)
    requires pos < |s|
    ensures Lower(s)[..pos] == Lower(s[..pos]) && Lower(s)[pos + 1..] == Lower(s[pos + 1..])
  {
  }

  /** A string that is not of mixed case decodes as its lower-case form does. */
  lemma DecodedLower(s: seq<bv8>)
    requires !(HasLower(s) && HasUpper(s))
    ensures Decoded(s) == Decoded(Lower(s))
  {
    hide Verified;
    hide Lower;
    hide Values;
    hide AllValues;
    hide AllPrintable;
    hide HasLower;
    hide HasUpper;
    LowerAlike(s);
    var pos := LastSeparator(s);
    assert |Lower(s)| == |s|;
    if pos >= 0 {
      LowerSlices(s, pos);
      LowerAlike(s[..pos]);
      LowerAlike(s[pos + 1..]);
    }
  }

  ghost predicate MixedCase(s: seq<bv8>) {
    exists i, j :: 0 <= i < |s| && 0 <= j < |s| && 97 <= s[i] <= 122 && 65 <= s[j] <= 90
  }

  lemma MixedIff(s: seq<bv8>)
    ensures MixedCase(s) <==> HasLower(s) && HasUpper(s)
  {
    if HasLower(s) && HasUpper(s) {
      var i :| 0 <= i < |s| && IsLower(s[i]);
      var j :| 0 <= j < |s| && IsUpper(s[j]);
    }
    if MixedCase(s) {
      var i, j :| 0 <= i < |s| && 0 <= j < |s| && 97 <= s[i] <= 122 && 65 <= s[j] <= 90;
      assert IsLower(s[i]) && IsUpper(s[j]);
    }
  }

  /**
  A string decodes to a prefix and values exactly if it is not of mixed case and its lower-case form is the
  encoding of them, and the format takes them.
  */
  lemma DecodedIff(s: seq<bv8>, hrp: seq<bv8>, values: seq<bv8>)
    ensures Decoded(s) == Some((hrp, values)) <==>
            !MixedCase(s) && Encodable(hrp, values) && Encoded(hrp, values) == Lower(s)
  {
    MixedIff(s);
    hide MixedCase;
    hide Verified;
    hide Checksum;
    hide Encodable;
    hide Encoded;
    if Decoded(s) == Some((hrp, values)) {
      EncodeDecode(s);
      DecodedTaken(s);
    }
    if !MixedCase(s) && Encodable(hrp, values) && Encoded(hrp, values) == Lower(s) {
      hide Decoded;
      DecodeEncode(hrp, values);
      DecodedLower(s);
    }
  }

  lemma DecodedTaken(s: seq<bv8>)
    requires Decoded(s).Some?
    ensures var (hrp, values) := Decoded(s).value; Encodable(hrp, values)
  {
    hide Verified;
    hide Encodable;
    hide Lower;
    hide Values;
    hide Printable;
    hide IsUpper;
    var pos := LastSeparator(s);
    var hrp, vs := Lower(s[..pos]), Values(s[pos + 1..]);
    ValuesFacts(s[pos + 1..]);
    assert AllPrintable(s[..pos]);
    LowerAlike(s[..pos]);
    assert |hrp| == pos && |vs| == |s| - pos - 1;
    EncodableIff(hrp, vs[..|vs| - 6]);
  }

  /** Two accepted strings of values that agree outside a window of six are equal. */
  lemma WindowRejected(hrp: seq<bv8>, vs: seq<bv8>, vt: seq<bv8>, a: nat, b: nat)
    requires Symbols(vs) && Symbols(vt) && |vs| == |vt| && a <= b <= |vs| && b - a <= 6
    requires Verified(hrp, vs) && Verified(hrp, vt)
    requires forall j :: 0 <= j < |vs| && !(a <= j < b) ==> vs[j] == vt[j]
    ensures vs == vt
  {
    hide Verified;
    assert vs == vs[..a] + vs[a..b] + vs[b..];
    assert vt[..a] == vs[..a] && vt[b..] == vs[b..];
    assert vt == vs[..a] + vt[a..b] + vs[b..];
    BurstRejected(hrp, vs[..a], vs[a..b], vt[a..b], vs[b..]);
  }

  /**
  No accepted string turns into another accepted string by replacing data characters in a
  window of six, a single one included, whatever the length.
  */
  lemma SubstitutionRejected(s: seq<bv8>, t: seq<bv8>, i: nat)
    requires |s| == |t| && Decoded(s).Some? && Decoded(t).Some?
    requires LastSeparator(s) == LastSeparator(t) < i <= |s|
    requires forall j :: 0 <= j < |s| && !(i <= j < i + 6) ==> s[j] == t[j]
    ensures Lower(s) == Lower(t)
  {
    hide Verified;
    hide Decoded;
    hide Encoded;
    hide Lower;
    hide Values;
    hide AllValues;
    hide Symbols;
    hide LastSeparator;
    var pos, hrp, vs := Parts(s);
    var _, hrp', vt := Parts(t);
    SamePrefix(s, t, pos);
    var k := if i + 6 <= |s| then i + 6 else |s|;
    SameValues(s, t, pos + 1, i, k);
    WindowRejected(hrp, vs, vt, i - pos - 1, k - pos - 1);
  }

  lemma SamePrefix(s: seq<bv8>, t: seq<bv8>, pos: nat)
    requires |s| == |t| && pos <= |s| && forall j :: 0 <= j < pos ==> s[j] == t[j]
    ensures s[..pos] == t[..pos]
  {
  }

  /** What an accepted string consists of. */
  lemma Parts(s: seq<bv8>) returns (pos: nat, hrp: seq<bv8>, vs: seq<bv8>)
    requires Decoded(s).Some?
    ensures pos == LastSeparator(s) < |s| <= MAX_LENGTH && hrp == Lower(s[..pos]) && vs == Values(s[pos + 1..])
    ensures Symbols(vs) && Verified(hrp, vs) && |vs| == |s| - pos - 1 >= 6
    ensures Lower(s) == Encoded(hrp, vs[..|vs| - 6])
  {
    hide Verified;
    hide Encoded;
    hide Lower;
    hide Values;
    hide AllValues;
    hide Symbols;
    DecodedParts(s);
    assert |s| <= MAX_LENGTH;
    hide Decoded;
    pos := LastSeparator(s);
    hrp, vs := Lower(s[..pos]), Values(s[pos + 1..]);
    ValuesFacts(s[pos + 1..]);
    EncodeDecode(s);
  }

  lemma DecodedParts(s: seq<bv8>)
    requires Decoded(s).Some?
    ensures var pos := LastSeparator(s);
            && pos > 0 && AllValues(s[pos + 1..]) && Verified(Lower(s[..pos]), Values(s[pos + 1..]))
            && |s| >= pos + 7 && Decoded(s).value == (Lower(s[..pos]), Values(s[pos + 1..])[..|s| - pos - 7])
  {
    hide Verified;
  }

  lemma SameValues(s: seq<bv8>, t: seq<bv8>, from: nat, i: nat, k: nat)
    requires |s| == |t| && from <= i <= k <= |s|
    requires forall j :: 0 <= j < |s| && !(i <= j < k) ==> s[j] == t[j]
    ensures forall j :: 0 <= j < |s| - from && !(i - from <= j < k - from) ==> Values(s[from..])[j] == Values(t[from..])[j]
  {
    hide ValueOf;
    forall j | 0 <= j < |s| - from && !(i - from <= j < k - from) ensures Values(s[from..])[j] == Values(t[from..])[j] {
      assert s[from..][j] == s[j + from] && t[from..][j] == t[j + from];
    }
  }

  /** Two accepted strings of values with one prefix that differ in at most three places are equal. */
  lemma ThreeValuesRejected(hrp: seq<bv8>, vs: seq<bv8>, vt: seq<bv8>, i: nat, j: nat, k: nat)
    requires Symbols(vs) && Symbols(vt) && |vs| == |vt| && i < j < k < |vs| && k - i < MAX_LENGTH
    requires Verified(hrp, vs) && Verified(hrp, vt)
    requires forall l :: 0 <= l < |vs| && l != i && l != j && l != k ==> vs[l] == vt[l]
    ensures vs == vt
  {
    hide Rem;
    hide Sym;
    hide Expand;
    hide Verified;
    var e := Expand(hrp);
    VerifiedIff(hrp, vs);
    VerifiedIff(hrp, vt);
    SymsCat(e, vs);
    SymsCat(e, vt);
    RemCat(ONE, Syms(e), Syms(vs));
    RemCat(ONE, Syms(e), Syms(vt));
    Bch.ThreeErrors(Rem(ONE, Syms(e)), Syms(vs), Syms(vt), i, j, k);
    SymsInjective(vs, vt);
  }

  /**
  No accepted string turns into another accepted string by replacing up to three data characters,
  wherever they are.  (For fewer than three, any further positions serve as j and k.)
  */
  lemma ThreeErrorsRejected(s: seq<bv8>, t: seq<bv8>, i: nat, j: nat, k: nat)
    requires |s| == |t| && Decoded(s).Some? && Decoded(t).Some?
    requires LastSeparator(s) == LastSeparator(t) < i < j < k < |s|
    requires forall l :: 0 <= l < |s| && l != i && l != j && l != k ==> s[l] == t[l]
    ensures Lower(s) == Lower(t)
  {
    hide Verified;
    hide Decoded;
    hide Encoded;
    hide Lower;
    hide Values;
    hide AllValues;
    hide Symbols;
    hide LastSeparator;
    var pos, hrp, vs := Parts(s);
    var _, hrp', vt := Parts(t);
    SamePrefix(s, t, pos);
    SameValuesBut(s, t, pos + 1, i, j, k);
    ThreeValuesRejected(hrp, vs, vt, i - pos - 1, j - pos - 1, k - pos - 1);
  }

  //
  // Errors in the prefix: one character of it is two symbols.
  //

  lemma ExpandAt(hrp: seq<bv8>, l: nat)
    requires l < 2 * |hrp| + 1
    ensures |Expand(hrp)| == 2 * |hrp| + 1
    ensures Expand(hrp)[l] == if l < |hrp| then High(hrp[l]) else if l == |hrp| then 0 else Low(hrp[l - |hrp| - 1])
  {
  }

  lemma HighLowInjective(c: bv8, d: bv8)
    requires High(c) == High(d) && Low(c) == Low(d)
    ensures c == d
  {
    assert c == (High(c) << 5) | Low(c);
    assert d == (High(d) << 5) | Low(d);
  }

  lemma ExpandInjective(hrp: seq<bv8>, hrp': seq<bv8>)
    requires |hrp| == |hrp'| && Expand(hrp) == Expand(hrp')
    ensures hrp == hrp'
  {
    hide Expand;
    hide High;
    hide Low;
    forall i | 0 <= i < |hrp| ensures hrp[i] == hrp'[i] {
      ExpandAt(hrp, i);
      ExpandAt(hrp', i);
      ExpandAt(hrp, |hrp| + 1 + i);
      ExpandAt(hrp', |hrp| + 1 + i);
      HighLowInjective(hrp[i], hrp'[i]);
    }
  }

  /** Expanded prefixes and values that agree but at three symbols, and are both accepted, are equal. */
  lemma ThreeSymbolsRejected(hrp: seq<bv8>, vs: seq<bv8>, hrp': seq<bv8>, vt: seq<bv8>, i: nat, j: nat, k: nat)
    requires Symbols(vs) && Symbols(vt) && |hrp| == |hrp'| && |vs| == |vt|
    requires Verified(hrp, vs) && Verified(hrp', vt)
    requires i < j < k < |Expand(hrp)| + |vs| && |Expand(hrp)| == |Expand(hrp')| && k - i < MAX_LENGTH
    requires forall l :: 0 <= l < |Expand(hrp)| + |vs| && l != i && l != j && l != k ==>
               (Expand(hrp) + vs)[l] == (Expand(hrp') + vt)[l]
    ensures hrp == hrp' && vs == vt
  {
    hide Rem;
    hide Sym;
    hide Expand;
    hide Verified;
    hide Symbols;
    var x, y := Expand(hrp) + vs, Expand(hrp') + vt;
    VerifiedIff(hrp, vs);
    VerifiedIff(hrp', vt);
    Bch.ThreeErrors(ONE, Syms(x), Syms(y), i, j, k);
    ExpandSymbols(hrp);
    ExpandSymbols(hrp');
    SymbolsCat(Expand(hrp), vs);
    SymbolsCat(Expand(hrp'), vt);
    SymsInjective(x, y);
    assert x[..|Expand(hrp)|] == Expand(hrp) && y[..|Expand(hrp)|] == Expand(hrp');
    assert x[|Expand(hrp)|..] == vs && y[|Expand(hrp)|..] == vt;
    ExpandInjective(hrp, hrp');
  }

  lemma ExpandedBut(hrp: seq<bv8>, vs: seq<bv8>, hrp': seq<bv8>, vt: seq<bv8>, i: nat, l: nat)
    requires |hrp| == |hrp'| && |vs| == |vt| && i < |hrp| && l < 2 * |hrp| + 1 + |vs| && l != i && l != |hrp| + 1 + i
    requires forall j :: 0 <= j < |hrp| && j != i ==> hrp[j] == hrp'[j]
    requires l >= 2 * |hrp| + 1 ==> vs[l - 2 * |hrp| - 1] == vt[l - 2 * |hrp| - 1]
    ensures |Expand(hrp)| == |Expand(hrp')| == 2 * |hrp| + 1 && (Expand(hrp) + vs)[l] == (Expand(hrp') + vt)[l]
  {
    hide Expand;
    hide High;
    hide Low;
    ExpandAt(hrp, i);
    ExpandAt(hrp', i);
    if l < 2 * |hrp| + 1 {
      ExpandAt(hrp, l);
      ExpandAt(hrp', l);
    }
  }

  /** One wrong character in the prefix is always detected. */
  lemma PrefixErrorRejected(s: seq<bv8>, t: seq<bv8>, i: nat)
    requires |s| == |t| && Decoded(s).Some? && Decoded(t).Some?
    requires i < LastSeparator(s) == LastSeparator(t)
    requires forall l :: 0 <= l < |s| && l != i ==> s[l] == t[l]
    ensures Lower(s) == Lower(t)
  {
    hide Verified;
    hide Decoded;
    hide Encoded;
    hide Values;
    hide AllValues;
    hide Symbols;
    hide LastSeparator;
    hide Expand;
    var pos, hrp, vs := Parts(s);
    var _, hrp', vt := Parts(t);
    assert s[pos + 1..] == t[pos + 1..];
    SamePrefixBut(s, t, pos, i);
    hide Lower;
    ExpandAt(hrp, i);
    ExpandAt(hrp', i);
    forall l | 0 <= l < |Expand(hrp)| + |vs| && l != i && l != |hrp| + 1 + i ensures (Expand(hrp) + vs)[l] == (Expand(hrp') + vt)[l] {
      ExpandedBut(hrp, vs, hrp', vt, i, l);
    }
    ThreeSymbolsRejected(hrp, vs, hrp', vt, i, i + 1, |hrp| + 1 + i);
  }

  /** So are one wrong character in the prefix and one in the data, within 1023 symbols of each other. */
  lemma PrefixAndDataRejected(s: seq<bv8>, t: seq<bv8>, i: nat, k: nat)
    requires |s| == |t| && Decoded(s).Some? && Decoded(t).Some?
    requires i < LastSeparator(s) == LastSeparator(t) < k < |s| && LastSeparator(s) + k - i < MAX_LENGTH
    requires forall l :: 0 <= l < |s| && l != i && l != k ==> s[l] == t[l]
    ensures Lower(s) == Lower(t)
  {
    hide Verified;
    hide Decoded;
    hide Encoded;
    hide AllValues;
    hide Symbols;
    hide LastSeparator;
    hide Expand;
    var pos, hrp, vs := Parts(s);
    var _, hrp', vt := Parts(t);
    DataValuesBut(s, t, pos + 1, k);
    SamePrefixBut(s, t, pos, i);
    hide Values;
    hide Lower;
    ExpandAt(hrp, i);
    ExpandAt(hrp', i);
    forall l | 0 <= l < |Expand(hrp)| + |vs| && l != i && l != |hrp| + 1 + i && l != pos + k
      ensures (Expand(hrp) + vs)[l] == (Expand(hrp') + vt)[l]
    {
      ExpandedBut(hrp, vs, hrp', vt, i, l);
    }
    ThreeSymbolsRejected(hrp, vs, hrp', vt, i, |hrp| + 1 + i, pos + k);
  }

  lemma DataValuesBut(s: seq<bv8>, t: seq<bv8>, from: nat, k: nat)
    requires |s| == |t| && from <= k < |s| && forall l :: from <= l < |s| && l != k ==> s[l] == t[l]
    ensures forall l :: 0 <= l < |s| - from && l != k - from ==> Values(s[from..])[l] == Values(t[from..])[l]
  {
    hide ValueOf;
    forall l | 0 <= l < |s| - from && l != k - from ensures Values(s[from..])[l] == Values(t[from..])[l] {
      assert s[from..][l] == s[l + from] && t[from..][l] == t[l + from];
    }
  }

  lemma SamePrefixBut(s: seq<bv8>, t: seq<bv8>, pos: nat, i: nat)
    requires |s| == |t| && i < pos <= |s| && forall l :: 0 <= l < pos && l != i ==> s[l] == t[l]
    ensures |Lower(s[..pos])| == |Lower(t[..pos])| == pos
    ensures forall l :: 0 <= l < pos && l != i ==> Lower(s[..pos])[l] == Lower(t[..pos])[l]
  {
    hide LowerCase;
  }

  lemma SameValuesBut(s: seq<bv8>, t: seq<bv8>, from: nat, i: nat, j: nat, k: nat)
    requires |s| == |t| && from <= i < j < k < |s|
    requires forall l :: 0 <= l < |s| && l != i && l != j && l != k ==> s[l] == t[l]
    ensures forall l :: 0 <= l < |s| - from && l != i - from && l != j - from && l != k - from ==> Values(s[from..])[l] == Values(t[from..])[l]
  {
    hide ValueOf;
    forall l | 0 <= l < |s| - from && l != i - from && l != j - from && l != k - from
      ensures Values(s[from..])[l] == Values(t[from..])[l]
    {
      assert s[from..][l] == s[l + from] && t[from..][l] == t[l + from];
    }
  }

  //
  // The methods.
  //

  /** Lines 147-159. */
  method Encode(hrp: seq<bv8>, values: seq<bv8>) returns (ret: seq<bv8>)
    ensures ret == Encoded(hrp, values)
  {
    hide CharOf;
    hide Checksum;
    var checksum := CreateChecksum(hrp, values);
    ChecksumSymbols(hrp, values);
    SymbolsCat(values, checksum);
    var combined := values + checksum;
    ret := hrp + [SEPARATOR];
    for i := 0 to |combined|
      invariant Symbols(combined[..i])
      invariant ret == hrp + [SEPARATOR] + Chars(combined[..i])
    {
      var c := combined[i];
      if c >= 32 {
        return [];
      }
      var next := combined[..i + 1];
      assert next == combined[..i] + [c];
      assert Chars(next) == Chars(combined[..i]) + [CharOf(c)];
      ret := ret + [CharOf(c)];
    }
    assert combined[..|combined|] == combined;
  }

  lemma SymbolsCat(u: seq<bv8>, v: seq<bv8>)
    ensures Symbols(u + v) <==> Symbols(u) && Symbols(v)
  {
    if Symbols(u + v) {
      forall i | 0 <= i < |u| ensures u[i] < 32 {
        assert (u + v)[i] == u[i];
      }
      forall i | 0 <= i < |v| ensures v[i] < 32 {
        assert (u + v)[|u| + i] == v[i];
      }
    }
  }

  /** The checks of lines 163-170. */
  method CheckCharacters(str: seq<bv8>) returns (ok: bool)
    ensures ok == (AllPrintable(str) && !(HasLower(str) && HasUpper(str)))
  {
    hide IsLower;
    hide IsUpper;
    hide Printable;
    var lower, upper := false, false;
    for i := 0 to |str|
      invariant forall j :: 0 <= j < i ==> Printable(str[j])
      invariant lower <==> exists j :: 0 <= j < i && IsLower(str[j])
      invariant upper <==> exists j :: 0 <= j < i && IsUpper(str[j])
    {
      var c := str[i];
      if !Printable(c) {
        return false;
      }
      if IsLower(c) { lower := true; }
      if IsUpper(c) { upper := true; }
    }
    ok := !(lower && upper);
  }

  /** rfind. */
  method FindSeparator(str: seq<bv8>) returns (pos: int)
    ensures pos == LastSeparator(str)
  {
    pos := |str| - 1;
    while pos >= 0 && str[pos] != SEPARATOR
      invariant -1 <= pos < |str|
      invariant forall j :: pos < j < |str| ==> str[j] != SEPARATOR
    {
      pos := pos - 1;
    }
  }

  /** The values of the data part (lines 175-183). */
  method ReadValues(cs: seq<bv8>) returns (ok: bool, values: seq<bv8>)
    ensures ok == AllValues(cs)
    ensures ok ==> values == Values(cs)
  {
    hide ValueOf;
    values := [];
    for i := 0 to |cs|
      invariant AllValues(cs[..i])
      invariant values == Values(cs[..i])
    {
      var rev := ValueOf(cs[i]);
      assert cs[..i + 1] == cs[..i] + [cs[i]];
      if rev == NOT_A_SYMBOL {
        return false, [];
      }
      values := values + [rev];
    }
    assert cs[..|cs|] == cs;
    ok := true;
  }

  /** Lines 184-187. */
  method LowerPrefix(cs: seq<bv8>) returns (hrp: seq<bv8>)
    ensures hrp == Lower(cs)
  {
    hide LowerCase;
    hrp := [];
    for i := 0 to |cs|
      invariant hrp == Lower(cs[..i])
    {
      assert cs[..i + 1] == cs[..i] + [cs[i]];
      hrp := hrp + [LowerCase(cs[i])];
    }
    assert cs[..|cs|] == cs;
  }

  /** Lines 162-192. */
  method Decode(str: seq<bv8>) returns (r: Option<(seq<bv8>, seq<bv8>)>)
    ensures r == Decoded(str)
  {
    hide Verified;
    var fine := CheckCharacters(str);
    if !fine {
      return None;
    }
    var pos := FindSeparator(str);
    if |str| > MAX_LENGTH || pos == -1 || pos == 0 || pos + 7 > |str| {
      return None;
    }
    var known, values := ReadValues(str[pos + 1..]);
    if !known {
      return None;
    }
    var hrp := LowerPrefix(str[..pos]);
    var ok := VerifyChecksum(hrp, values);
    if !ok {
      return None;
    }
    return Some((hrp, values[..|values| - 6]));
  }
}
