/**
The stored form of coins (src/coins.h:157-218, src/coins.cpp:19-35): a code, a bit mask of the
unspent outputs from the third on, the unspent outputs in compact form, and the height.
*/
module CoinsCodec {
  import opened Common
  import opened Arith
  import opened Coins
  import opened Compressor
  import CoinsCache

  //
  // The mask.
  //

  predicate Avail(vout: seq<TxOut>, i: nat) {
    i < |vout| && vout[i].Unspent?
  }

  /** Bits, least significant first. */
  function FromBits(bits: seq<bool>): nat {
    if bits == [] then 0 else (if bits[0] then 1 else 0) + 2 * FromBits(bits[1..])
  }

  function ToBits(x: nat, n: nat): (r: seq<bool>)
    ensures |r| == n
    decreases n
  {
    if n == 0 then [] else [x % 2 == 1] + ToBits(x / 2, n - 1)
  }

  lemma {:induction false} BitsRoundTrip(bits: seq<bool>)
    ensures ToBits(FromBits(bits), |bits|) == bits
  {
    if bits != [] {
      BitsRoundTrip(bits[1..]);
    }
  }

  lemma {:induction false} FromBitsBound(bits: seq<bool>)
    ensures FromBits(bits) < Pow2(|bits|)
  {
    if bits != [] {
      FromBitsBound(bits[1..]);
    }
  }

  lemma {:induction false} FromBitsZero(bits: seq<bool>)
    ensures FromBits(bits) == 0 <==> forall i :: 0 <= i < |bits| ==> !bits[i]
  {
    if bits != [] {
      var t := bits[1..];
      FromBitsZero(t);
      if FromBits(bits) == 0 {
        forall i | 0 <= i < |bits| ensures !bits[i] {
          if i > 0 {
            assert bits[i] == t[i - 1];
          }
        }
      } else if FromBits(t) != 0 {
        var i :| 0 <= i < |t| && t[i];
        assert bits[i + 1];
      }
    }
  }

  /** The eight outputs of mask byte b. */
  function Bits(vout: seq<TxOut>, b: nat): (r: seq<bool>)
    ensures |r| == 8
  {
    seq(8, i requires 0 <= i < 8 => Avail(vout, 2 + 8 * b + i))
  }

  function MaskByte(vout: seq<TxOut>, b: nat): (r: byte)
    ensures r != 0 <==> Used(vout, b)
  {
    ByteFits(vout, b);
    FromBits(Bits(vout, b))
  }

  predicate Used(vout: seq<TxOut>, b: nat) {
    exists i :: 0 <= i < 8 && Bits(vout, b)[i]
  }

  lemma ByteFits(vout: seq<TxOut>, b: nat)
    ensures FromBits(Bits(vout, b)) < 256
    ensures FromBits(Bits(vout, b)) != 0 <==> Used(vout, b)
  {
    var bits := Bits(vout, b);
    FromBitsBound(bits);
    Pow2Is16();
    FromBitsZero(bits);
  }

  lemma {:induction false} BitOf(bits: seq<bool>, i: nat)
    requires i < |bits|
    ensures (FromBits(bits) / Pow2(i)) % 2 == 1 <==> bits[i]
  {
    var x, y := FromBits(bits), FromBits(bits[1..]);
    if i > 0 {
      BitOf(bits[1..], i - 1);
      HalfFirst(x, Pow2(i - 1));
      assert x / 2 == y;
    }
  }

  lemma HalfFirst(x: nat, d: nat)
    requires d >= 1
    ensures x / (2 * d) == (x / 2) / d
  {
    var q, r := (x / 2) / d, (x / 2) % d;
    Euclid(x / 2, d);
    DivAtMost(x / 2, d);
    assert x == 2 * (x / 2) + x % 2;
    assert q * (2 * d) == 2 * (q * d);
    DivUnique(q, 2 * r + x % 2, 2 * d, x);
  }

  /** Bit i of byte b of the mask, least significant first, stands for output 2 + 8*b + i. */
  lemma MaskBit(vout: seq<TxOut>, b: nat, i: nat)
    requires i < 8
    ensures (MaskByte(vout, b) / Pow2(i)) % 2 == 1 <==> 2 + 8 * b + i < |vout| && vout[2 + 8 * b + i].Unspent?
  {
    BitOf(Bits(vout, b), i);
  }

  /** The mask bytes k up to n. */
  function Mask(vout: seq<TxOut>, k: nat, n: nat): seq<byte>
    requires k <= n
    decreases n - k
  {
    if k == n then [] else [MaskByte(vout, k)] + Mask(vout, k + 1, n)
  }

  function Count(vout: seq<TxOut>, k: nat, n: nat): nat
    requires k <= n
    decreases n - k
  {
    if k == n then 0 else (if Used(vout, k) then 1 else 0) + Count(vout, k + 1, n)
  }

  function MaskBits(vout: seq<TxOut>, k: nat, n: nat): (r: seq<bool>)
    requires k <= n
  {
    seq(8 * (n - k), j requires 0 <= j => Avail(vout, 2 + 8 * k + j))
  }

  /** The mask is read until as many non-zero bytes have come as the code says. */
  function ReadMask(code: nat, s: seq<byte>): Read<seq<bool>>
    decreases |s|
  {
    if code == 0 then Got([], s)
    else if s == [] then Short
    else
      match ReadMask(if s[0] != 0 then code - 1 else code, s[1..])
      case Short => Short
      case Got(bits, rest) => Got(ToBits(s[0], 8) + bits, rest)
  }

  lemma {:induction false} CountPositive(vout: seq<TxOut>, k: nat, n: nat)
    requires k < n && Used(vout, n - 1)
    ensures Count(vout, k, n) > 0
    decreases n - k
  {
    if k + 1 < n {
      CountPositive(vout, k + 1, n);
    }
  }

  lemma ReadMaskByte(code: nat, x: byte, s: seq<byte>)
    requires code > 0
    ensures ReadMask(code, [x] + s) ==
            match ReadMask(if x != 0 then code - 1 else code, s)
            case Short => Short
            case Got(bits, rest) => Got(ToBits(x, 8) + bits, rest)
  {
    assert ([x] + s)[1..] == s;
  }

  lemma ReadMaskNone(code: nat, s: seq<byte>)
    requires code == 0
    ensures ReadMask(code, s) == Got([], s)
  {
  }

  lemma ByteRoundTrip(vout: seq<TxOut>, b: nat)
    ensures ToBits(MaskByte(vout, b), 8) == Bits(vout, b)
  {
    BitsRoundTrip(Bits(vout, b));
  }

  lemma MaskBitsStep(vout: seq<TxOut>, k: nat, n: nat)
    requires k < n
    ensures MaskBits(vout, k, n) == Bits(vout, k) + MaskBits(vout, k + 1, n)
  {
  }

  /** The reader stops after exactly the bytes written, because the last of them is not zero. */
  lemma {:induction false} MaskRoundTrip(vout: seq<TxOut>, k: nat, n: nat, t: seq<byte>)
    requires k <= n && (k < n ==> Used(vout, n - 1))
    ensures ReadMask(Count(vout, k, n), Mask(vout, k, n) + t) == Got(MaskBits(vout, k, n), t)
    decreases n - k
  {
    hide ReadMask;
    hide MaskByte;
    hide Used;
    hide Bits;
    if k == n {
      assert Mask(vout, k, n) + t == t && MaskBits(vout, k, n) == [];
      ReadMaskNone(Count(vout, k, n), t);
    } else {
      CountPositive(vout, k, n);
      var x := MaskByte(vout, k);
      assert Mask(vout, k, n) + t == [x] + (Mask(vout, k + 1, n) + t);
      MaskRoundTrip(vout, k + 1, n, t);
      ReadMaskByte(Count(vout, k, n), x, Mask(vout, k + 1, n) + t);
      ByteRoundTrip(vout, k);
      MaskBitsStep(vout, k, n);
    }
  }

  /** The number of mask bytes that the outputs span. */
  function Span(vout: seq<TxOut>): nat {
    if |vout| <= 2 then 0 else (|vout| - 2 + 7) / 8
  }

  /** Bytes up to the last one used. */
  function LastUsed(vout: seq<TxOut>, n: nat): (r: nat)
    ensures r <= n && (r > 0 ==> Used(vout, r - 1)) && forall b :: r <= b < n ==> !Used(vout, b)
  {
    if n == 0 then 0 else if Used(vout, n - 1) then n else LastUsed(vout, n - 1)
  }

  /** With the last output unspent the whole span is used. */
  lemma CleanSpan(c: CCoins)
    requires IsClean(c)
    ensures LastUsed(c.vout, Span(c.vout)) == Span(c.vout)
  {
    if |c.vout| > 2 {
      var last := |c.vout| - 1;
      var b := Span(c.vout) - 1;
      var i := last - 2 - 8 * b;
      assert 0 <= i < 8 && 2 + 8 * b + i == last;
      assert Bits(c.vout, b)[i] == Avail(c.vout, 2 + 8 * b + i);
      assert Used(c.vout, b);
    }
  }

  //
  // The outputs.
  //

  function WriteOut(curve: Curve, o: TxOut): seq<byte>
    requires o.Unspent?
  {
    VarInt(Compressed(o.nValue) % TWO64) + WriteScript(curve, o.script)
  }

  function ReadOut(curve: Curve, s: seq<byte>): Read<TxOut> {
    match ReadVarInt(s)
    case Short => Short
    case Got(code, rest) =>
      match ReadScript(curve, rest)
      case Short => Short
      case Got(script, rest') => Got(Unspent(Decompressed(code % TWO64) % TWO64, script), rest')
  }

  /** What comes back for an output. */
  function RestoredOut(curve: Curve, o: TxOut): TxOut {
    if o.Spent? then Spent else Unspent(o.nValue, Restored(curve, o.script))
  }

  predicate MoneyRange(o: TxOut) {
    o.Unspent? ==> o.nValue <= MAX_MONEY
  }

  lemma OutRoundTrip(curve: Curve, o: TxOut, t: seq<byte>)
    requires CurveOk(curve) && o.Unspent? && MoneyRange(o)
    ensures ReadOut(curve, WriteOut(curve, o) + t) == Got(RestoredOut(curve, o), t)
  {
    hide VarInt;
    hide WriteScript;
    hide Compressed;
    hide Decompressed;
    hide ReadVarInt;
    hide ReadScript;
    var code := Compressed(o.nValue) % TWO64;
    var w := WriteScript(curve, o.script);
    assert WriteOut(curve, o) + t == VarInt(code) + (w + t);
    VarIntRoundTrip(code, w + t);
    ScriptRoundTrip(curve, o.script, t);
    AmountFits64(o.nValue);
  }

  function WriteOuts(curve: Curve, vout: seq<TxOut>): seq<byte> {
    if vout == [] then []
    else (if vout[0].Unspent? then WriteOut(curve, vout[0]) else []) + WriteOuts(curve, vout[1..])
  }

  function ReadOuts(curve: Curve, avail: seq<bool>, s: seq<byte>): Read<seq<TxOut>>
    decreases |avail|
  {
    if avail == [] then Got([], s)
    else if !avail[0] then Prepend(Spent, ReadOuts(curve, avail[1..], s))
    else
      match ReadOut(curve, s)
      case Short => Short
      case Got(o, rest) => Prepend(o, ReadOuts(curve, avail[1..], rest))
  }

  function Prepend(o: TxOut, r: Read<seq<TxOut>>): Read<seq<TxOut>> {
    match r
    case Short => Short
    case Got(os, rest) => Got([o] + os, rest)
  }

  function AvailBits(vout: seq<TxOut>, n: nat): (r: seq<bool>)
    ensures |r| == n
  {
    seq(n, i requires 0 <= i => Avail(vout, i))
  }

  /** Outputs and then spent ones up to n. */
  function RestoredOuts(curve: Curve, vout: seq<TxOut>, n: nat): (r: seq<TxOut>)
    requires |vout| <= n
    ensures |r| == n
  {
    seq(n, i requires 0 <= i => if i < |vout| then RestoredOut(curve, vout[i]) else Spent)
  }

  lemma {:induction false} OutsRoundTrip(curve: Curve, vout: seq<TxOut>, n: nat, t: seq<byte>)
    requires CurveOk(curve) && |vout| <= n && forall i :: 0 <= i < |vout| ==> MoneyRange(vout[i])
    ensures ReadOuts(curve, AvailBits(vout, n), WriteOuts(curve, vout) + t) == Got(RestoredOuts(curve, vout, n), t)
    decreases n
  {
    hide ReadOut;
    hide WriteOut;
    hide RestoredOut;
    hide CurveOk;
    if n == 0 {
      assert WriteOuts(curve, vout) + t == t;
    } else if vout == [] {
      OutsRoundTrip(curve, vout, n - 1, t);
      assert AvailBits(vout, n)[1..] == AvailBits(vout, n - 1);
      assert RestoredOuts(curve, vout, n) == [Spent] + RestoredOuts(curve, vout, n - 1);
    } else {
      var rest := vout[1..];
      OutsRoundTrip(curve, rest, n - 1, t);
      assert AvailBits(vout, n)[1..] == AvailBits(rest, n - 1);
      var o := vout[0];
      RestoredFirst(curve, vout, n);
      if o.Unspent? {
        assert MoneyRange(o);
        var more := WriteOuts(curve, rest) + t;
        assert WriteOuts(curve, vout) + t == WriteOut(curve, o) + more;
        OutRoundTrip(curve, o, more);
      } else {
        assert WriteOuts(curve, vout) + t == WriteOuts(curve, rest) + t;
      }
    }
  }

  lemma RestoredFirst(curve: Curve, vout: seq<TxOut>, n: nat)
    requires 0 < |vout| <= n
    ensures RestoredOuts(curve, vout, n) == [RestoredOut(curve, vout[0])] + RestoredOuts(curve, vout[1..], n - 1)
    ensures vout[0].Spent? ==> RestoredOut(curve, vout[0]) == Spent
  {
  }

  //
  // Whole coins.
  //

  function Flag(b: bool, n: nat): nat { if b then n else 0 }

  function MaskSize(vout: seq<TxOut>): nat { LastUsed(vout, Span(vout)) }

  /** The code: coinbase, the first two outputs, and how many mask bytes are not zero, less one if neither is unspent. */
  function Code(c: CCoins): nat
    requires !IsPruned(c)
  {
    var first, second, used := Avail(c.vout, 0), Avail(c.vout, 1), Count(c.vout, 0, MaskSize(c.vout));
    MaskNeeded(c);
    8 * (used - Flag(!first && !second, 1)) + Flag(c.fCoinBase, 1) + Flag(first, 2) + Flag(second, 4)
  }

  /** The assertion of Serialize (line 163): coins that are not pruned have something to mark. */
  lemma MaskNeeded(c: CCoins)
    requires !IsPruned(c)
    ensures Avail(c.vout, 0) || Avail(c.vout, 1) || Count(c.vout, 0, MaskSize(c.vout)) > 0
  {
    var i :| 0 <= i < |c.vout| && c.vout[i].Unspent?;
    if i >= 2 {
      UsedAt(c.vout, i);
      assert (i - 2) / 8 < Span(c.vout);
      CountPositive(c.vout, 0, MaskSize(c.vout));
    } else {
      assert Avail(c.vout, i);
    }
  }

  lemma UsedAt(vout: seq<TxOut>, i: nat)
    requires i >= 2 && Avail(vout, i)
    ensures Used(vout, (i - 2) / 8)
  {
    var b, j := (i - 2) / 8, (i - 2) % 8;
    assert 2 + 8 * b + j == i;
    assert Bits(vout, b)[j] == Avail(vout, 2 + 8 * b + j);
  }

  function Written(curve: Curve, c: CCoins): seq<byte>
    requires !IsPruned(c)
  {
    VarInt(c.nVersion) + (VarInt(Code(c)) + (Mask(c.vout, 0, MaskSize(c.vout)) + (WriteOuts(curve, c.vout) + VarInt(c.nHeight))))
  }

  //
  // The two examples of src/coins.h:41-73.
  //

  function PayToKeyHash(h: seq<byte>): seq<byte> { [0x76, 0xa9, 20] + h + [0x88, 0xac] }

  lemma KeyHashForm(curve: Curve, h: seq<byte>)
    requires |h| == 20
    ensures WriteScript(curve, PayToKeyHash(h)) == [0] + h
  {
    var a := PayToKeyHash(h);
    assert a[3..23] == h;
  }

  lemma ExampleNumbers()
    ensures VarInt(1) == [0x01] && VarInt(4) == [0x04] && VarInt(9) == [0x09]
    ensures VarInt(203998) == [0x8b, 0xb8, 0x5e]
    ensures VarInt(120891) == [0x86, 0xaf, 0x3b]
  {
    assert Continued(11) == [0x8b] && Continued(1592) == [0x8b, 0xb8];
    assert Continued(6) == [0x86] && Continued(943) == [0x86, 0xaf];
  }

  lemma FirstAmount()
    ensures VarInt(Compressed(60000000000) % TWO64) == [0x83, 0x58]
  {
    assert Strip(60000000000, 0) == Strip(6000000000, 1) == Strip(600000000, 2) == Strip(60000000, 3) == Strip(6000000, 4)
        == Strip(600000, 5) == Strip(60000, 6) == Strip(6000, 7) == Strip(600, 8) == Strip(60, 9) == (60, 9);
    assert Compressed(60000000000) == 600;
    assert Continued(3) == [0x83];
  }

  lemma SecondAmount()
    ensures VarInt(Compressed(234925952) % TWO64) == [0x86, 0xef, 0x97, 0xd5, 0x79]
  {
    assert Compressed(234925952) == 2114333561;
    assert Continued(6) == [0x86] && Continued(1007) == [0x86, 0xef] && Continued(129047) == [0x86, 0xef, 0x97];
    assert Continued(16518229) == [0x86, 0xef, 0x97, 0xd5];
  }

  lemma ThirdAmount()
    ensures VarInt(Compressed(110397) % TWO64) == [0xbb, 0xd1, 0x23]
  {
    assert Compressed(110397) == 993571;
    assert Continued(59) == [0xbb] && Continued(7761) == [0xbb, 0xd1];
  }

  /** 0104835800...8bb85e: the second output of a transaction of version 1, worth 600 coins, at height 203998. */
  lemma FirstExample(curve: Curve, h: seq<byte>)
    requires |h| == 20
    ensures var c := CCoins(false, [Spent, Unspent(60000000000, PayToKeyHash(h))], 203998, 1);
            && !IsPruned(c)
            && Written(curve, c) == [0x01] + ([0x04] + ([] + (([0x83, 0x58, 0x00] + h) + [0x8b, 0xb8, 0x5e])))
  {
    var o := Unspent(60000000000, PayToKeyHash(h));
    var c := CCoins(false, [Spent, o], 203998, 1);
    hide PayToKeyHash;
    hide MaskSize;
    hide WriteOut;
    hide WriteOuts;
    hide Code;
    hide VarInt;
    hide IsPruned;
    ExampleNumbers();
    SecondOnly(curve, o);
    FirstOut(curve, h);
  }

  lemma SecondOnly(curve: Curve, o: TxOut)
    requires o.Unspent?
    ensures var c := CCoins(false, [Spent, o], 203998, 1);
            !IsPruned(c) && MaskSize(c.vout) == 0 && Code(c) == 4 && WriteOuts(curve, c.vout) == WriteOut(curve, o)
  {
    hide WriteOut;
    var c := CCoins(false, [Spent, o], 203998, 1);
    assert c.vout[1].Unspent?;
    assert c.vout[1..] == [o] && [o][1..] == [];
    assert WriteOuts(curve, [o]) == WriteOut(curve, o) + [] == WriteOut(curve, o);
  }

  lemma FirstOut(curve: Curve, h: seq<byte>)
    requires |h| == 20
    ensures WriteOut(curve, Unspent(60000000000, PayToKeyHash(h))) == [0x83, 0x58, 0x00] + h
  {
    FirstAmount();
    KeyHashForm(curve, h);
    hide VarInt;
    hide Compressed;
    hide WriteScript;
    hide PayToKeyHash;
    assert [0x83, 0x58] + ([0] + h) == [0x83, 0x58, 0x00] + h;
  }

  /** Outputs of which two are unspent, the fifth and the last of seventeen. */
  function FifthAndLast(o: TxOut, p: TxOut): (r: seq<TxOut>)
    ensures |r| == 17 && r[4] == o && r[16] == p && forall i :: 0 <= i < 17 && i != 4 && i != 16 ==> r[i] == Spent
  {
    [Spent, Spent, Spent, Spent, o, Spent, Spent, Spent, Spent, Spent, Spent, Spent, Spent, Spent, Spent, Spent, p]
  }

  lemma ExampleMask(o: TxOut, p: TxOut)
    requires o.Unspent? && p.Unspent?
    ensures var vout := FifthAndLast(o, p); MaskSize(vout) == 2 && Mask(vout, 0, 2) == [0x04, 0x40] && Count(vout, 0, 2) == 2
  {
    var vout := FifthAndLast(o, p);
    hide FifthAndLast;
    forall i | 0 <= i < 8 ensures Bits(vout, 0)[i] == (i == 2) && Bits(vout, 1)[i] == (i == 6) {
      assert Avail(vout, 2 + 8 * 0 + i) <==> i == 2;
      assert Avail(vout, 2 + 8 * 1 + i) <==> i == 6;
      assert Bits(vout, 0)[i] == Avail(vout, 2 + 8 * 0 + i) && Bits(vout, 1)[i] == Avail(vout, 2 + 8 * 1 + i);
    }
    OneBit([false, false, false, false, false], 2);
    OneBit([false], 6);
    assert Bits(vout, 0) == [false, false] + [true] + [false, false, false, false, false];
    assert Bits(vout, 1) == [false, false, false, false, false, false] + [true] + [false];
    assert seq(2, i => false) == [false, false] && seq(6, i => false) == [false, false, false, false, false, false];
    assert MaskByte(vout, 0) == 4 && MaskByte(vout, 1) == 64;
    hide MaskByte;
    hide Used;
    assert Span(vout) == 2;
    assert Mask(vout, 2, 2) == [] && Mask(vout, 1, 2) == [0x40];
    assert Count(vout, 2, 2) == 0 && Count(vout, 1, 2) == 1;
  }

  /** A single set bit is a power of two. */
  lemma {:induction false} OneBit(zeros: seq<bool>, n: nat)
    requires forall i :: 0 <= i < |zeros| ==> !zeros[i]
    ensures FromBits(seq(n, i => false) + [true] + zeros) == Pow2(n)
    ensures n == 2 ==> Pow2(n) == 4
    ensures n == 6 ==> Pow2(n) == 64
  {
    var bits := seq(n, i => false) + [true] + zeros;
    if n == 0 {
      FromBitsZero(zeros);
      assert bits[1..] == zeros;
    } else {
      OneBit(zeros, n - 1);
      assert bits[1..] == seq(n - 1, i => false) + [true] + zeros;
    }
  }

  lemma {:induction false} SpentFirst(curve: Curve, n: nat, rest: seq<TxOut>)
    ensures WriteOuts(curve, seq(n, i => Spent) + rest) == WriteOuts(curve, rest)
  {
    var all := seq(n, i => Spent) + rest;
    if n == 0 {
      assert all == rest;
    } else {
      SpentFirst(curve, n - 1, rest);
      assert all[1..] == seq(n - 1, i => Spent) + rest;
    }
  }

  lemma ExampleOuts(curve: Curve, o: TxOut, p: TxOut)
    requires o.Unspent? && p.Unspent?
    ensures WriteOuts(curve, FifthAndLast(o, p)) == WriteOut(curve, o) + WriteOut(curve, p)
  {
    hide WriteOut;
    var vout := FifthAndLast(o, p);
    var rest := vout[5..];
    assert vout == seq(4, i => Spent) + ([o] + rest);
    SpentFirst(curve, 4, [o] + rest);
    assert ([o] + rest)[1..] == rest;
    assert rest == seq(11, i => Spent) + [p];
    SpentFirst(curve, 11, [p]);
    assert [p][1..] == [];
    assert WriteOuts(curve, [p]) == WriteOut(curve, p) + [];
  }

  /** 0109044086ef97d57900...bbd12300...86af3b: two outputs of a coinbase of version 1, at height 120891. */
  lemma SecondExample(curve: Curve, g: seq<byte>, h: seq<byte>)
    requires |g| == 20 && |h| == 20
    ensures var o, p := Unspent(234925952, PayToKeyHash(g)), Unspent(110397, PayToKeyHash(h));
            var c := CCoins(true, FifthAndLast(o, p), 120891, 1);
            && !IsPruned(c)
            && Written(curve, c) == [0x01] + ([0x09] + ([0x04, 0x40]
                                    + (([0x86, 0xef, 0x97, 0xd5, 0x79, 0x00] + g) + ([0xbb, 0xd1, 0x23, 0x00] + h) + [0x86, 0xaf, 0x3b])))
  {
    var o, p := Unspent(234925952, PayToKeyHash(g)), Unspent(110397, PayToKeyHash(h));
    var c := CCoins(true, FifthAndLast(o, p), 120891, 1);
    hide FifthAndLast;
    hide PayToKeyHash;
    hide Mask;
    hide Count;
    hide MaskSize;
    hide WriteOut;
    hide WriteOuts;
    hide Code;
    hide VarInt;
    hide IsPruned;
    ExampleNumbers();
    ExampleMask(o, p);
    ExampleOuts(curve, o, p);
    ExampleCode(o, p);
    ExampleOut(curve, g, h);
  }

  lemma ExampleCode(o: TxOut, p: TxOut)
    requires o.Unspent? && p.Unspent?
    ensures var c := CCoins(true, FifthAndLast(o, p), 120891, 1); !IsPruned(c) && Code(c) == 9
  {
    var c := CCoins(true, FifthAndLast(o, p), 120891, 1);
    ExampleMask(o, p);
    assert c.vout[4].Unspent? && c.vout[0] == Spent && c.vout[1] == Spent;
    hide FifthAndLast;
    hide Mask;
    hide Count;
    hide MaskSize;
  }

  lemma ExampleOut(curve: Curve, g: seq<byte>, h: seq<byte>)
    requires |g| == 20 && |h| == 20
    ensures WriteOut(curve, Unspent(234925952, PayToKeyHash(g))) == [0x86, 0xef, 0x97, 0xd5, 0x79, 0x00] + g
    ensures WriteOut(curve, Unspent(110397, PayToKeyHash(h))) == [0xbb, 0xd1, 0x23, 0x00] + h
  {
    SecondAmount();
    ThirdAmount();
    KeyHashForm(curve, g);
    KeyHashForm(curve, h);
    hide VarInt;
    hide Compressed;
    hide WriteScript;
    hide PayToKeyHash;
    assert [0x86, 0xef, 0x97, 0xd5, 0x79] + ([0] + g) == [0x86, 0xef, 0x97, 0xd5, 0x79, 0x00] + g;
    assert [0xbb, 0xd1, 0x23] + ([0] + h) == [0xbb, 0xd1, 0x23, 0x00] + h;
  }

  function ReadCoins(curve: Curve, s: seq<byte>): Read<CCoins> {
    match ReadVarInt(s)
    case Short => Short
    case Got(version, s1) =>
      match ReadVarInt(s1)
      case Short => Short
      case Got(code, s2) => ReadBody(curve, version, code % BASE, s2)
  }

  function MaskCode(code: nat): nat {
    code / 8 + Flag((code / 2) % 4 == 0, 1)
  }

  function ReadBody(curve: Curve, version: nat, code: nat, s: seq<byte>): Read<CCoins> {
    match ReadMask(MaskCode(code), s)
    case Short => Short
    case Got(bits, s1) =>
      match ReadOuts(curve, [(code / 2) % 2 == 1, (code / 4) % 2 == 1] + bits, s1)
      case Short => Short
      case Got(vout, s2) =>
        match ReadVarInt(s2)
        case Short => Short
        case Got(height, rest) => Got(Cleaned(CCoins(code % 2 == 1, vout, height, version)), rest)
  }

  /** The fields of the code. */
  lemma CodeFields(used: nat, base: bool, first: bool, second: bool, code: nat)
    requires first || second || used > 0
    requires code == 8 * (used - Flag(!first && !second, 1)) + Flag(base, 1) + Flag(first, 2) + Flag(second, 4)
    ensures (code % 2 == 1) == base && ((code / 2) % 2 == 1) == first && ((code / 4) % 2 == 1) == second
    ensures MaskCode(code) == used
  {
  }

  lemma CodeSays(c: CCoins)
    requires !IsPruned(c)
    ensures var code := Code(c);
            && (code % 2 == 1) == c.fCoinBase
            && ((code / 2) % 2 == 1) == Avail(c.vout, 0) && ((code / 4) % 2 == 1) == Avail(c.vout, 1)
            && MaskCode(code) == Count(c.vout, 0, MaskSize(c.vout))
  {
    hide MaskCode;
    MaskNeeded(c);
    CodeFields(Count(c.vout, 0, MaskSize(c.vout)), c.fCoinBase, Avail(c.vout, 0), Avail(c.vout, 1), Code(c));
  }

  function RestoredCoins(curve: Curve, c: CCoins): CCoins {
    c.(vout := RestoredOuts(curve, c.vout, |c.vout|))
  }

  lemma CountBound(vout: seq<TxOut>, k: nat, n: nat)
    requires k <= n
    ensures Count(vout, k, n) <= n - k
    decreases n - k
  {
  }

  /** Padding with spent outputs is taken off again. */
  lemma PaddingTrimmed(curve: Curve, c: CCoins, n: nat)
    requires IsClean(c) && |c.vout| <= n
    ensures Trim(RestoredOuts(curve, c.vout, n)) == RestoredOuts(curve, c.vout, |c.vout|)
  {
    hide Restored;
    var v, k := RestoredOuts(curve, c.vout, n), |c.vout|;
    var r := Trim(v);
    assert k > 0 ==> v[k - 1].Unspent?;
    assert r == v[..|r|];
    assert |r| > 0 ==> r[|r| - 1] == v[|r| - 1];
    assert |r| == k;
    assert v[..k] == RestoredOuts(curve, c.vout, k);
  }

  lemma BodyRoundTrip(curve: Curve, c: CCoins, t: seq<byte>)
    requires CurveOk(curve) && IsClean(c) && !IsPruned(c)
    requires forall i :: 0 <= i < |c.vout| ==> MoneyRange(c.vout[i])
    ensures ReadBody(curve, c.nVersion, Code(c), Mask(c.vout, 0, MaskSize(c.vout)) + (WriteOuts(curve, c.vout) + (VarInt(c.nHeight) + t)))
            == Got(RestoredCoins(curve, c), t)
  {
    hide ReadMask;
    hide ReadOuts;
    hide ReadVarInt;
    hide VarInt;
    hide Mask;
    hide WriteOuts;
    hide Trim;
    hide CurveOk;
    hide Count;
    hide Code;
    hide MaskCode;
    hide MaskBits;
    hide AvailBits;
    var n := MaskSize(c.vout);
    CodeSays(c);
    CleanSpan(c);
    var tail := VarInt(c.nHeight) + t;
    MaskRoundTrip(c.vout, 0, n, WriteOuts(curve, c.vout) + tail);
    AllBits(c.vout, n);
    SpanCovers(c.vout);
    OutsRoundTrip(curve, c.vout, 2 + 8 * n, tail);
    VarIntRoundTrip(c.nHeight, t);
    PaddingTrimmed(curve, c, 2 + 8 * n);
  }

  lemma AllBits(vout: seq<TxOut>, n: nat)
    ensures [Avail(vout, 0), Avail(vout, 1)] + MaskBits(vout, 0, n) == AvailBits(vout, 2 + 8 * n)
  {
  }

  lemma SpanCovers(vout: seq<TxOut>)
    ensures |vout| <= 2 + 8 * Span(vout)
  {
  }

  /** Clean coins come back from their stored form, up to scripts that are too long. */
  lemma CleanRoundTrip(curve: Curve, c: CCoins, t: seq<byte>)
    requires CurveOk(curve) && IsClean(c) && !IsPruned(c) && |c.vout| < 0x8000_0000
    requires forall i :: 0 <= i < |c.vout| ==> MoneyRange(c.vout[i])
    ensures ReadCoins(curve, Written(curve, c) + t) == Got(RestoredCoins(curve, c), t)
  {
    hide ReadBody;
    hide VarInt;
    hide ReadVarInt;
    hide Mask;
    hide WriteOuts;
    hide CurveOk;
    var body := Mask(c.vout, 0, MaskSize(c.vout)) + (WriteOuts(curve, c.vout) + (VarInt(c.nHeight) + t));
    var s1 := VarInt(Code(c)) + body;
    assert Written(curve, c) + t == VarInt(c.nVersion) + s1;
    VarIntRoundTrip(c.nVersion, s1);
    VarIntRoundTrip(Code(c), body);
    CodeSmall(c);
    BodyRoundTrip(curve, c, t);
  }

  lemma CodeSmall(c: CCoins)
    requires IsClean(c) && !IsPruned(c) && |c.vout| < 0x8000_0000
    ensures Code(c) % BASE == Code(c)
  {
    CountBound(c.vout, 0, MaskSize(c.vout));
  }

  /** Spent outputs at the end leave no trace in the stored form. */
  lemma WrittenCleaned(curve: Curve, c: CCoins)
    requires !IsPruned(c)
    ensures !IsPruned(Cleaned(c)) && Written(curve, c) == Written(curve, Cleaned(c))
  {
    hide VarInt;
    hide Mask;
    hide Count;
    hide MaskSize;
    hide WriteOuts;
    var v := Trim(c.vout);
    CleanedIsClean(c);
    TrimAvail(c.vout);
    SameMask(c.vout, v);
    OutsCleaned(curve, c.vout, v);
  }

  lemma TrimAvail(vout: seq<TxOut>)
    ensures forall i: nat :: Avail(vout, i) == Avail(Trim(vout), i)
  {
  }

  lemma SameUsed(u: seq<TxOut>, v: seq<TxOut>, b: nat)
    requires forall i: nat :: Avail(u, i) == Avail(v, i)
    ensures Bits(u, b) == Bits(v, b) && Used(u, b) == Used(v, b) && MaskByte(u, b) == MaskByte(v, b)
  {
    assert Bits(u, b) == Bits(v, b);
  }

  lemma {:induction false} SameMaskBytes(u: seq<TxOut>, v: seq<TxOut>, k: nat, n: nat)
    requires k <= n && forall i: nat :: Avail(u, i) == Avail(v, i)
    ensures Mask(u, k, n) == Mask(v, k, n) && Count(u, k, n) == Count(v, k, n)
    decreases n - k
  {
    if k < n {
      SameUsed(u, v, k);
      SameMaskBytes(u, v, k + 1, n);
    }
  }

  lemma UsedInSpan(vout: seq<TxOut>, b: nat)
    requires Used(vout, b)
    ensures b < Span(vout)
  {
    var i :| 0 <= i < 8 && Bits(vout, b)[i];
    assert Avail(vout, 2 + 8 * b + i);
  }

  lemma SameMask(u: seq<TxOut>, v: seq<TxOut>)
    requires forall i: nat :: Avail(u, i) == Avail(v, i)
    ensures MaskSize(u) == MaskSize(v)
    ensures Mask(u, 0, MaskSize(u)) == Mask(v, 0, MaskSize(v)) && Count(u, 0, MaskSize(u)) == Count(v, 0, MaskSize(v))
  {
    var m, n := MaskSize(u), MaskSize(v);
    if m > 0 {
      SameUsed(u, v, m - 1);
      UsedInSpan(v, m - 1);
    }
    if n > 0 {
      SameUsed(u, v, n - 1);
      UsedInSpan(u, n - 1);
    }
    SameMaskBytes(u, v, 0, m);
  }

  lemma {:induction false} OutsCleaned(curve: Curve, u: seq<TxOut>, v: seq<TxOut>)
    requires v <= u && forall i :: |v| <= i < |u| ==> u[i].Spent?
    ensures WriteOuts(curve, u) == WriteOuts(curve, v)
    decreases |u|
  {
    hide WriteOut;
    if u != [] {
      if v == [] {
        OutsCleaned(curve, u[1..], []);
      } else {
        OutsCleaned(curve, u[1..], v[1..]);
      }
    }
  }

  /** Unserialize after Serialize: the coins cleaned up, with scripts that are too long replaced. */
  lemma RoundTrip(curve: Curve, c: CCoins, t: seq<byte>)
    requires CurveOk(curve) && !IsPruned(c) && |c.vout| < 0x8000_0000
    requires forall i :: 0 <= i < |c.vout| ==> MoneyRange(c.vout[i])
    ensures ReadCoins(curve, Written(curve, c) + t) == Got(RestoredCoins(curve, Cleaned(c)), t)
  {
    hide Written;
    hide ReadCoins;
    hide RestoredCoins;
    WrittenCleaned(curve, c);
    CleanedIsClean(c);
    CleanRoundTrip(curve, Cleaned(c), t);
  }

  lemma RestoredIff(curve: Curve, c: CCoins)
    ensures RestoredCoins(curve, c) == c <==> AllStorable(curve, c)
  {
    hide Storable;
    var r := RestoredOuts(curve, c.vout, |c.vout|);
    if r == c.vout {
      forall i | 0 <= i < |c.vout| && c.vout[i].Unspent? ensures Storable(curve, c.vout[i].script) {
        assert r[i] == c.vout[i];
      }
    }
  }

  predicate AllStorable(curve: Curve, c: CCoins) {
    forall i :: 0 <= i < |c.vout| && c.vout[i].Unspent? ==> Storable(curve, c.vout[i].script)
  }

  /** So coins come back unchanged exactly when they are clean and every script may be stored. */
  lemma RoundTripIff(curve: Curve, c: CCoins, t: seq<byte>)
    requires CurveOk(curve) && !IsPruned(c) && |c.vout| < 0x8000_0000
    requires forall i :: 0 <= i < |c.vout| ==> MoneyRange(c.vout[i])
    ensures ReadCoins(curve, Written(curve, c) + t) == Got(c, t) <==> IsClean(c) && AllStorable(curve, c)
  {
    hide Written;
    hide ReadCoins;
    hide AllStorable;
    RoundTrip(curve, c, t);
    CleanedIsClean(c);
    RestoredIff(curve, c);
    assert |RestoredCoins(curve, Cleaned(c)).vout| == |Cleaned(c).vout|;
  }

  /** An output whose script is too long is lost: what comes back can not be spent. */
  lemma LongScriptIsLost(curve: Curve, script: seq<byte>, t: seq<byte>)
    requires CurveOk(curve) && |script| > MAX_SCRIPT_SIZE
    ensures ReadCoins(curve, Written(curve, CCoins(false, [Unspent(1, script)], 1, 1)) + t)
            == Got(CCoins(false, [Unspent(1, [OP_RETURN])], 1, 1), t)
  {
    hide Written;
    hide ReadCoins;
    var c := CCoins(false, [Unspent(1, script)], 1, 1);
    assert c.vout[0].Unspent?;
    assert Cleaned(c) == c;
    RoundTrip(curve, c, t);
    StorableIff(curve, script);
    hide Storable;
    assert RestoredCoins(curve, c).vout == [Unspent(1, [OP_RETURN])];
  }

  //
  // No such coins are ever written.
  //

  /** Spendable coins with amounts of money, of a transaction of any possible size. */
  predicate Sane(c: CCoins) {
    && Spendable(c) && |c.vout| < 0x8000_0000
    && forall i :: 0 <= i < |c.vout| ==> MoneyRange(c.vout[i])
  }

  lemma SaneComesBack(curve: Curve, c: CCoins, t: seq<byte>)
    requires CurveOk(curve) && Sane(c) && !IsPruned(c)
    ensures ReadCoins(curve, Written(curve, c) + t) == Got(c, t)
  {
    hide Written;
    hide ReadCoins;
    hide Storable;
    forall i | 0 <= i < |c.vout| && c.vout[i].Unspent? ensures Storable(curve, c.vout[i].script) {
      StorableIff(curve, c.vout[i].script);
    }
    RoundTripIff(curve, c, t);
  }

  /** How the program makes the coins that it leaves in a cache. */
  datatype Change =
    | Create(fCoinBase: bool, vout: seq<TxOut>, nHeight: nat, nVersion: nat)
    | SpendAt(n: nat)
    | UndoAt(n: nat, undo: TxInUndo)
    | Clear

  predicate ChangeOk(ch: Change) {
    match ch
    case Create(_, vout, _, _) => |vout| < 0x8000_0000 && forall i :: 0 <= i < |vout| ==> MoneyRange(vout[i])
    case UndoAt(n, u) => n < 0x7fff_ffff && u.txout.Unspent? && !IsUnspendable(u.txout.script) && MoneyRange(u.txout)
    case _ => true
  }

  function Apply(c: CCoins, ch: Change): CCoins {
    match ch
    case Create(fCoinBase, vout, nHeight, nVersion) => FromTx(fCoinBase, vout, nHeight, nVersion)
    case SpendAt(n) => Spend(c, n).0
    case UndoAt(n, u) => ApplyUndo(c, n, u)
    case Clear => CLEARED
  }

  lemma ApplySane(c: CCoins, ch: Change)
    requires Sane(c) && ChangeOk(ch)
    ensures Sane(Apply(c, ch))
  {
    match ch
    case Create(fCoinBase, vout, nHeight, nVersion) =>
      FromTxSpendable(fCoinBase, vout, nHeight, nVersion);
      MoneyIfAvailable(Apply(c, ch), CCoins(fCoinBase, vout, nHeight, nVersion));
    case SpendAt(n) =>
      SpendSpendable(c, n);
      MoneyIfAvailable(Apply(c, ch), c);
    case UndoAt(n, u) =>
      RestoreSpendable(if u.nHeight != 0 then CCoins(u.fCoinBase, [], u.nHeight, u.nVersion) else c, n, u.txout);
      var c' := Apply(c, ch);
      forall i | 0 <= i < |c'.vout| ensures MoneyRange(c'.vout[i]) {
        assert IsAvailable(c', i) <==> c'.vout[i].Unspent?;
      }
    case Clear =>
  }

  lemma MoneyIfAvailable(c': CCoins, c: CCoins)
    requires forall i :: 0 <= i < |c.vout| ==> MoneyRange(c.vout[i])
    requires forall n: nat :: IsAvailable(c', n) ==> n < |c.vout| && c'.vout[n] == c.vout[n]
    ensures forall i :: 0 <= i < |c'.vout| ==> MoneyRange(c'.vout[i])
  {
    forall i | 0 <= i < |c'.vout| ensures MoneyRange(c'.vout[i]) {
      assert IsAvailable(c', i) <==> c'.vout[i].Unspent?;
    }
  }

  function ApplyAll(c: CCoins, changes: seq<Change>): CCoins
    decreases |changes|
  {
    if changes == [] then c else Apply(ApplyAll(c, changes[..|changes| - 1]), changes[|changes| - 1])
  }

  lemma {:induction false} ApplyAllSane(c: CCoins, changes: seq<Change>)
    requires Sane(c) && forall i :: 0 <= i < |changes| ==> ChangeOk(changes[i])
    ensures Sane(ApplyAll(c, changes))
    decreases |changes|
  {
    hide Sane;
    if changes != [] {
      var n := |changes| - 1;
      ApplyAllSane(c, changes[..n]);
      ApplySane(ApplyAll(c, changes[..n]), changes[n]);
    }
  }

  /** A modification leaves what its changes make of the coins that the modifier gives access to. */
  ghost predicate MadeBy(s: CoinsCache.Stack, op: CoinsCache.Op, changes: seq<Change>) {
    && (forall i :: 0 <= i < |changes| ==> ChangeOk(changes[i]))
    && (op.Modify? ==> s.Cache? && op.modified == ApplyAll(CoinsCache.Open(s, op.txid).entries[op.txid].coins, changes))
    && (op.ModifyNew? ==> op.modified == ApplyAll(CLEARED, changes))
  }

  /** A run in which every modification is made of such changes. */
  ghost predicate RunByChanges(s: CoinsCache.Stack, ops: seq<CoinsCache.Op>, changes: seq<seq<Change>>)
    decreases |ops|
  {
    if ops == [] then changes == []
    else
      && changes != [] && MadeBy(s, ops[0], changes[0])
      && (s.Db? ==> ops[0].GetCoins? || ops[0].GetNullifier? || ops[0].PushCache?)
      && RunByChanges(CoinsCache.Step(s, ops[0]), ops[1..], changes[1..])
  }

  lemma OpenHeld(s: CoinsCache.Stack, id: CoinsCache.Txid, good: CCoins -> bool)
    requires s.Cache? && CoinsCache.AllHeld(s, good) && good(CLEARED)
    ensures good(CoinsCache.Open(s, id).entries[id].coins)
  {
    if id !in s.entries {
      CoinsCache.FetchHeld(s.below, id, good);
    }
  }

  lemma StepSane(s: CoinsCache.Stack, op: CoinsCache.Op, changes: seq<Change>)
    requires CoinsCache.AllHeld(s, c => Sane(c)) && MadeBy(s, op, changes)
    requires s.Db? ==> op.GetCoins? || op.GetNullifier? || op.PushCache?
    ensures CoinsCache.AllHeld(CoinsCache.Step(s, op), c => Sane(c))
  {
    var good := (c: CCoins) => Sane(c);
    if op.Modify? {
      OpenHeld(s, op.txid, good);
      ApplyAllSane(CoinsCache.Open(s, op.txid).entries[op.txid].coins, changes);
      CleanedIsClean(op.modified);
    } else if op.ModifyNew? {
      ApplyAllSane(CLEARED, changes);
      CleanedIsClean(op.modified);
    }
    hide Sane;
    CoinsCache.StepHeld(s, op, good);
  }

  lemma {:induction false} RunSane(s: CoinsCache.Stack, ops: seq<CoinsCache.Op>, changes: seq<seq<Change>>)
    requires CoinsCache.AllHeld(s, c => Sane(c)) && RunByChanges(s, ops, changes)
    ensures CoinsCache.Run(s, ops).Some? && CoinsCache.AllHeld(CoinsCache.Run(s, ops).value, c => Sane(c))
    decreases |ops|
  {
    hide Sane;
    hide MadeBy;
    if ops != [] {
      StepSane(s, ops[0], changes[0]);
      RunSane(CoinsCache.Step(s, ops[0]), ops[1..], changes[1..]);
    }
  }

  /** The coins that a view itself holds under an id. */
  function HeldUnder(s: CoinsCache.Stack, id: CoinsCache.Txid): Option<CCoins> {
    match s
    case Db(coins, _) => if id in coins then Some(coins[id]) else None
    case Cache(entries, _, _) => if id in entries then Some(entries[id].coins) else None
  }

  /**
  In every run over a database of sane coins, an empty one included, whose modifications create, spend, undo and
  clear, everything that any level holds and that is not pruned comes back from its stored form exactly.
  */
  lemma HeldComesBack(s: CoinsCache.Stack, ops: seq<CoinsCache.Op>, changes: seq<seq<Change>>,
                      curve: Curve, level: CoinsCache.Stack, id: CoinsCache.Txid, t: seq<byte>)
    requires CurveOk(curve) && CoinsCache.AllHeld(s, c => Sane(c)) && RunByChanges(s, ops, changes)
    ensures CoinsCache.Run(s, ops).Some?
    ensures Level(level, CoinsCache.Run(s, ops).value) && HeldUnder(level, id).Some? && !IsPruned(HeldUnder(level, id).value) ==>
              ReadCoins(curve, Written(curve, HeldUnder(level, id).value) + t) == Got(HeldUnder(level, id).value, t)
  {
    hide Written;
    hide ReadCoins;
    hide Sane;
    var good := (c: CCoins) => Sane(c);
    RunSane(s, ops, changes);
    if Level(level, CoinsCache.Run(s, ops).value) && HeldUnder(level, id).Some? && !IsPruned(HeldUnder(level, id).value) {
      LevelHeld(level, CoinsCache.Run(s, ops).value, good);
      SaneComesBack(curve, HeldUnder(level, id).value, t);
    }
  }

  /** The first stack is the second one or some view below it. */
  ghost predicate Level(below: CoinsCache.Stack, s: CoinsCache.Stack) {
    below == s || (s.Cache? && Level(below, s.below))
  }

  lemma {:induction false} LevelHeld(below: CoinsCache.Stack, s: CoinsCache.Stack, good: CCoins -> bool)
    requires Level(below, s) && CoinsCache.AllHeld(s, good)
    ensures CoinsCache.AllHeld(below, good)
  {
    if below != s {
      LevelHeld(below, s.below, good);
    }
  }

  //
  // The methods.
  //

  lemma {:induction false} CountLast(vout: seq<TxOut>, k: nat, n: nat)
    requires k <= n
    ensures Count(vout, k, n + 1) == Count(vout, k, n) + if Used(vout, n) then 1 else 0
    decreases n - k
  {
    if k < n {
      CountLast(vout, k + 1, n);
    }
  }

  lemma {:induction false} CountUnused(vout: seq<TxOut>, k: nat, n: nat)
    requires k <= n && forall b :: k <= b < n ==> !Used(vout, b)
    ensures Count(vout, 0, n) == Count(vout, 0, k)
    decreases n
  {
    if k < n {
      CountUnused(vout, k, n - 1);
      CountLast(vout, 0, n - 1);
    }
  }

  /** CalcMaskSize (src/coins.cpp:19-35). */
  method CalcMaskSize(vout: seq<TxOut>) returns (nBytes: nat, nNonzeroBytes: nat)
    ensures nBytes == MaskSize(vout) && nNonzeroBytes == Count(vout, 0, MaskSize(vout))
  {
    hide Used;
    nBytes, nNonzeroBytes := 0, 0;
    var b := 0;
    while 2 + b * 8 < |vout|
      invariant 0 <= b <= Span(vout)
      invariant nBytes == LastUsed(vout, b) && nNonzeroBytes == Count(vout, 0, b)
    {
      var fZero := ByteUnused(vout, b);
      CountLast(vout, 0, b);
      if !fZero {
        nBytes := b + 1;
        nNonzeroBytes := nNonzeroBytes + 1;
      }
      b := b + 1;
    }
    CountUnused(vout, nBytes, b);
  }

  /** The inner loop (lines 22-28). */
  method ByteUnused(vout: seq<TxOut>, b: nat) returns (fZero: bool)
    ensures fZero == !Used(vout, b)
  {
    fZero := true;
    ghost var bits := Bits(vout, b);
    var i := 0;
    while i < 8 && 2 + b * 8 + i < |vout|
      invariant 0 <= i <= 8
      invariant fZero <==> forall j :: 0 <= j < i ==> !bits[j]
    {
      assert bits[i] == Avail(vout, 2 + 8 * b + i);
      if vout[2 + b * 8 + i].Unspent? {
        fZero := false;
      }
      i := i + 1;
    }
    assert forall j :: i <= j < 8 ==> bits[j] == Avail(vout, 2 + 8 * b + j);
  }

  /** One byte of the mask (lines 171-175). */
  method BuildMaskByte(vout: seq<TxOut>, b: nat) returns (chAvail: byte)
    ensures chAvail == MaskByte(vout, b)
  {
    ghost var bits := Bits(vout, b);
    var x, i, weight := 0, 0, 1;
    assert bits[..0] == [];
    while i < 8 && 2 + b * 8 + i < |vout|
      invariant 0 <= i <= 8 && weight == Pow2(i) && x == FromBits(bits[..i])
    {
      assert bits[i] == Avail(vout, 2 + 8 * b + i);
      FromBitsLast(bits[..i], bits[i]);
      assert bits[..i + 1] == bits[..i] + [bits[i]];
      if vout[2 + b * 8 + i].Unspent? {
        x := x + weight;
      }
      weight := 2 * weight;
      i := i + 1;
    }
    assert forall j :: i <= j < 8 ==> bits[j] == Avail(vout, 2 + 8 * b + j);
    ClearAbove(bits, i);
    ByteFits(vout, b);
    chAvail := x;
  }

  lemma {:induction false} FromBitsLast(bits: seq<bool>, b: bool)
    ensures FromBits(bits + [b]) == FromBits(bits) + if b then Pow2(|bits|) else 0
  {
    if bits == [] {
      assert bits + [b] == [b] && [b][1..] == [];
    } else {
      assert (bits + [b])[1..] == bits[1..] + [b];
      FromBitsLast(bits[1..], b);
    }
  }

  lemma {:induction false} ClearAbove(bits: seq<bool>, i: nat)
    requires i <= |bits| && forall j :: i <= j < |bits| ==> !bits[j]
    ensures FromBits(bits) == FromBits(bits[..i])
    decreases |bits| - i
  {
    if i == |bits| {
      assert bits[..i] == bits;
    } else {
      ClearAbove(bits, i + 1);
      assert bits[..i + 1] == bits[..i] + [bits[i]];
      FromBitsLast(bits[..i], bits[i]);
    }
  }

  lemma {:induction false} MaskLast(vout: seq<TxOut>, k: nat, n: nat)
    requires k <= n
    ensures Mask(vout, k, n + 1) == Mask(vout, k, n) + [MaskByte(vout, n)]
    decreases n - k
  {
    if k < n {
      MaskLast(vout, k + 1, n);
    } else {
      assert Mask(vout, n + 1, n + 1) == [];
    }
  }

  lemma {:induction false} OutsLast(curve: Curve, vout: seq<TxOut>, o: TxOut)
    ensures WriteOuts(curve, vout + [o]) == WriteOuts(curve, vout) + if o.Unspent? then WriteOut(curve, o) else []
    decreases |vout|
  {
    hide WriteOut;
    if vout == [] {
      assert vout + [o] == [o] && [o][1..] == [];
    } else {
      assert (vout + [o])[0] == vout[0] && (vout + [o])[1..] == vout[1..] + [o];
      OutsLast(curve, vout[1..], o);
    }
  }

  /** Serialize (lines 157-184); the assertion is the source's. */
  method Serialize(curve: Curve, c: CCoins) returns (s: seq<byte>)
    requires !IsPruned(c)
    ensures s == Written(curve, c)
  {
    hide VarInt;
    hide Mask;
    hide Count;
    hide WriteOuts;
    hide WriteOut;
    hide MaskSize;
    var nMaskSize, nMaskCode := CalcMaskSize(c.vout);
    var fFirst := |c.vout| > 0 && c.vout[0].Unspent?;
    var fSecond := |c.vout| > 1 && c.vout[1].Unspent?;
    MaskNeeded(c);
    assert fFirst || fSecond || nMaskCode != 0;
    var nCode := 8 * (nMaskCode - Flag(!(fFirst || fSecond), 1)) + Flag(c.fCoinBase, 1) + Flag(fFirst, 2) + Flag(fSecond, 4);
    assert nCode == Code(c);
    var mask := WriteMask(c.vout, nMaskSize);
    var outs := WriteAll(curve, c.vout);
    s := VarInt(c.nVersion) + (VarInt(nCode) + (mask + (outs + VarInt(c.nHeight))));
  }

  method WriteMask(vout: seq<TxOut>, nMaskSize: nat) returns (mask: seq<byte>)
    ensures mask == Mask(vout, 0, nMaskSize)
  {
    hide MaskByte;
    mask := [];
    for b := 0 to nMaskSize
      invariant mask == Mask(vout, 0, b)
    {
      var chAvail := BuildMaskByte(vout, b);
      MaskLast(vout, 0, b);
      mask := mask + [chAvail];
    }
  }

  method WriteAll(curve: Curve, vout: seq<TxOut>) returns (outs: seq<byte>)
    ensures outs == WriteOuts(curve, vout)
  {
    hide WriteOut;
    outs := [];
    for i := 0 to |vout|
      invariant outs == WriteOuts(curve, vout[..i])
    {
      assert vout[..i + 1] == vout[..i] + [vout[i]];
      OutsLast(curve, vout[..i], vout[i]);
      if vout[i].Unspent? {
        outs := outs + WriteOut(curve, vout[i]);
      }
    }
    assert vout[..|vout|] == vout;
  }

  /** The mask loop of Unserialize (lines 198-208). */
  method ReadMaskBytes(code: nat, s: seq<byte>) returns (r: Read<seq<bool>>)
    ensures r == ReadMask(code, s)
  {
    hide ToBits;
    var nMaskCode, pos := code, 0;
    var vAvail: seq<bool> := [];
    assert s[0..] == s;
    BehindNone(ReadMask(code, s));
    while nMaskCode > 0
      invariant 0 <= pos <= |s| && nMaskCode >= 0
      invariant ReadMask(code, s) == Behind(vAvail, ReadMask(nMaskCode, s[pos..]))
      decreases |s| - pos
    {
      if pos == |s| {
        return Short;
      }
      var chAvail := s[pos];
      ghost var bits, after := vAvail, s[pos + 1..];
      assert s[pos..] == [chAvail] + after;
      ReadMaskByte(nMaskCode, chAvail, after);
      pos := pos + 1;
      BehindTwice(bits, ToBits(chAvail, 8), ReadMask(if chAvail != 0 then nMaskCode - 1 else nMaskCode, after));
      vAvail := vAvail + ToBits(chAvail, 8);
      if chAvail != 0 {
        nMaskCode := nMaskCode - 1;
      }
    }
    assert vAvail + [] == vAvail;
    r := Got(vAvail, s[pos..]);
  }

  function Behind(bits: seq<bool>, r: Read<seq<bool>>): Read<seq<bool>> {
    match r
    case Short => Short
    case Got(more, rest) => Got(bits + more, rest)
  }

  lemma BehindNone(r: Read<seq<bool>>)
    ensures Behind([], r) == r
  {
    if r.Got? {
      assert [] + r.value == r.value;
    }
  }

  lemma BehindTwice(a: seq<bool>, b: seq<bool>, r: Read<seq<bool>>)
    ensures Behind(a, Behind(b, r)) == Behind(a + b, r)
  {
    if r.Got? {
      assert a + (b + r.value) == (a + b) + r.value;
    }
  }

  /** The outputs of Unserialize (lines 209-214). */
  method ReadAll(curve: Curve, vAvail: seq<bool>, s: seq<byte>) returns (r: Read<seq<TxOut>>)
    ensures r == ReadOuts(curve, vAvail, s)
  {
    hide ReadOut;
    var vout: seq<TxOut> := [];
    var rest := s;
    assert vAvail[0..] == vAvail;
    JoinedNone(ReadOuts(curve, vAvail, s));
    for i := 0 to |vAvail|
      invariant ReadOuts(curve, vAvail, s) == Joined(vout, ReadOuts(curve, vAvail[i..], rest))
    {
      assert vAvail[i..][1..] == vAvail[i + 1..];
      if vAvail[i] {
        var o := ReadOut(curve, rest);
        if o == Short {
          return Short;
        }
        JoinedTwice(vout, o.value, ReadOuts(curve, vAvail[i + 1..], o.rest));
        vout := vout + [o.value];
        rest := o.rest;
      } else {
        JoinedTwice(vout, Spent, ReadOuts(curve, vAvail[i + 1..], rest));
        vout := vout + [Spent];
      }
    }
    assert vout + [] == vout;
    r := Got(vout, rest);
  }

  function Joined(vout: seq<TxOut>, r: Read<seq<TxOut>>): Read<seq<TxOut>> {
    match r
    case Short => Short
    case Got(more, rest) => Got(vout + more, rest)
  }

  lemma JoinedNone(r: Read<seq<TxOut>>)
    ensures Joined([], r) == r
  {
    if r.Got? {
      assert [] + r.value == r.value;
    }
  }

  lemma JoinedTwice(vout: seq<TxOut>, o: TxOut, r: Read<seq<TxOut>>)
    ensures Joined(vout, Prepend(o, r)) == Joined(vout + [o], r)
  {
    if r.Got? {
      assert vout + ([o] + r.value) == (vout + [o]) + r.value;
    }
  }

  /** Unserialize (lines 186-218). */
  method Unserialize(curve: Curve, s: seq<byte>) returns (r: Read<CCoins>)
    ensures r == ReadCoins(curve, s)
  {
    hide ReadVarInt;
    hide ReadMask;
    hide ReadOuts;
    hide Trim;
    var version := ReadVarInt(s);
    if version == Short {
      return Short;
    }
    var coded := ReadVarInt(version.rest);
    if coded == Short {
      return Short;
    }
    var nCode := coded.value % BASE;
    var fCoinBase := nCode % 2 == 1;
    var vAvail := [(nCode / 2) % 2 == 1, (nCode / 4) % 2 == 1];
    var nMaskCode := nCode / 8 + Flag((nCode / 2) % 4 == 0, 1);
    var mask := ReadMaskBytes(nMaskCode, coded.rest);
    if mask == Short {
      return Short;
    }
    var outs := ReadAll(curve, vAvail + mask.value, mask.rest);
    if outs == Short {
      return Short;
    }
    var height := ReadVarInt(outs.rest);
    if height == Short {
      return Short;
    }
    var c := Cleanup(CCoins(fCoinBase, outs.value, height.value, version.value));
    r := Got(c, height.rest);
  }
}
