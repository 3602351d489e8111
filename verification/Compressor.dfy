/**
Compact encodings: variable-length integers (src/serialize.h:319-388), amounts
(src/compressor.cpp:133-185) and scripts (src/compressor.cpp:12-131, src/compressor.h:28-93).
*/
module Compressor {
  import opened Arith
  import opened Common
  import opened Coins

  const TWO64: int := 0x1_0000_0000_0000_0000

  type uint64 = x: int | 0 <= x < 0x1_0000_0000_0000_0000

  //
  // Variable-length integers.
  //

  /** Seven bits a byte, most significant first; all but the last byte have the top bit and stand for one more. */
  function VarInt(n: nat): seq<byte> {
    if n <= 0x7f then [n] else Continued(n / 128 - 1) + [n % 128]
  }

  function Continued(n: nat): seq<byte> {
    if n <= 0x7f then [n + 128] else Continued(n / 128 - 1) + [n % 128 + 128]
  }

  datatype Read<T> = Short | Got(value: T, rest: seq<byte>)

  function ReadFrom(n: nat, s: seq<byte>): (r: Read<nat>)
    decreases |s|
  {
    if s == [] then Short
    else
      var c: int := s[0];
      if c >= 128 then ReadFrom(n * 128 + c % 128 + 1, s[1..]) else Got(n * 128 + c % 128, s[1..])
  }

  function ReadVarInt(s: seq<byte>): Read<nat> { ReadFrom(0, s) }

  lemma ReadByte(n: nat, c: byte, s: seq<byte>)
    ensures ReadFrom(n, [c] + s) == if c >= 128 then ReadFrom(n * 128 + c % 128 + 1, s) else Got(n * 128 + c % 128, s)
  {
    assert ([c] + s)[1..] == s;
  }

  lemma {:induction false} ContinuedRead(n: nat, s: seq<byte>)
    ensures ReadFrom(0, Continued(n) + s) == ReadFrom(n + 1, s)
    decreases n
  {
    hide ReadFrom;
    if n <= 0x7f {
      ReadByte(0, n + 128, s);
    } else {
      var c := n % 128 + 128;
      assert Continued(n) + s == Continued(n / 128 - 1) + ([c] + s);
      ContinuedRead(n / 128 - 1, [c] + s);
      ReadByte(n / 128, c, s);
    }
  }

  /** Every number is read back from its encoding, and nothing beyond it is read. */
  lemma VarIntRoundTrip(n: nat, s: seq<byte>)
    ensures ReadVarInt(VarInt(n) + s) == Got(n, s)
  {
    hide ReadFrom;
    if n <= 0x7f {
      ReadByte(0, n, s);
    } else {
      var c := n % 128;
      assert VarInt(n) + s == Continued(n / 128 - 1) + ([c] + s);
      ContinuedRead(n / 128 - 1, [c] + s);
      ReadByte(n / 128, c, s);
    }
  }

  /** One encoding for each number: what is read is the encoding of the number read. */
  lemma {:induction false} VarIntUnique(s: seq<byte>)
    requires ReadVarInt(s).Got?
    ensures s == VarInt(ReadVarInt(s).value) + ReadVarInt(s).rest
  {
    if s[0] < 128 {
      assert s == [s[0]] + s[1..];
    } else {
      var n: int := s[0] % 128;
      assert s == Continued(n) + s[1..];
      UniqueFrom(n, s[1..]);
      assert ReadFrom(0, s) == ReadFrom(n + 1, s[1..]);
    }
  }

  lemma ReadSome(n: nat, s: seq<byte>)
    requires ReadFrom(n, s).Got?
    ensures s != []
  {
  }

  lemma {:induction false} UniqueFrom(n: nat, s: seq<byte>)
    requires ReadFrom(n + 1, s).Got?
    ensures Continued(n) + s == VarInt(ReadFrom(n + 1, s).value) + ReadFrom(n + 1, s).rest
    decreases |s|
  {
    hide ReadFrom;
    hide VarInt;
    hide Continued;
    ReadSome(n + 1, s);
    var c, t := s[0], s[1..];
    assert s == [c] + t;
    ReadByte(n + 1, c, t);
    OneMore(n, c);
    assert Continued(n) + s == (Continued(n) + [c]) + t;
    if c >= 128 {
      UniqueFrom((n + 1) * 128 + c % 128, t);
    }
  }

  lemma OneMore(n: nat, c: byte)
    ensures var m := (n + 1) * 128 + c % 128; Continued(n) + [c] == if c < 128 then VarInt(m) else Continued(m)
  {
    Quotients(n, c % 128);
  }

  lemma Quotients(n: nat, r: nat)
    requires r < 128
    ensures ((n + 1) * 128 + r) / 128 - 1 == n && ((n + 1) * 128 + r) % 128 == r
  {
  }

  function Pow128(k: nat): (r: nat)
    ensures r >= 1
  {
    if k == 0 then 1 else 128 * Pow128(k - 1)
  }

  /** WriteVarInt (lines 359-374) for a type whose buffer of size bytes is large enough. */
  method WriteVarInt(value: nat, size: nat) returns (out: seq<byte>)
    requires size >= 1 && value < Pow128(size)
    ensures out == VarInt(value)
  {
    hide VarInt;
    var tmp := new byte[size](i => 0);
    var len := FillVarInt(tmp, value);
    out := [];
    while len >= 0
      invariant -1 <= len < size
      invariant VarInt(value) == out + Reversed(tmp[..len + 1])
    {
      ghost var here := tmp[..len + 1];
      assert here[..len] == tmp[..len];
      out := out + [tmp[len]];
      len := len - 1;
    }
  }

  /** Lines 362-370: seven bits at a time, least significant first. */
  method FillVarInt(tmp: array<byte>, value: nat) returns (len: int)
    requires tmp.Length >= 1 && value < Pow128(tmp.Length)
    modifies tmp
    ensures 0 <= len < tmp.Length && VarInt(value) == Reversed(tmp[..len + 1])
  {
    hide VarInt;
    hide Left;
    hide Reversed;
    var n: nat := value;
    len := 0;
    tmp[0] := n % 128;
    LeftStart(n);
    ReversedLast([], tmp[0]);
    assert tmp[..1] == [] + [tmp[0]];
    while n > 0x7f
      invariant 0 <= len < tmp.Length && n < Pow128(tmp.Length - len)
      invariant VarInt(value) == Left(n) + Reversed(tmp[..len + 1])
      decreases n
    {
      Narrower(n, tmp.Length - len);
      LeftStep(n);
      ghost var before := tmp[..len + 1];
      n := n / 128 - 1;
      len := len + 1;
      tmp[len] := n % 128 + 128;
      assert tmp[..len + 1] == before + [tmp[len]];
      ReversedLast(before, tmp[len]);
    }
    LeftNone(n);
  }

  lemma ReversedLast(s: seq<byte>, b: byte)
    ensures Reversed(s + [b]) == [b] + Reversed(s) && Reversed([]) == []
  {
    assert (s + [b])[..|s|] == s;
  }

  lemma LeftNone(n: nat)
    requires n <= 0x7f
    ensures Left(n) == []
  {
  }

  /** The bytes still to come above those in the buffer. */
  function Left(n: nat): seq<byte> {
    if n <= 0x7f then [] else Continued(n / 128 - 1)
  }

  lemma LeftStart(n: nat)
    ensures VarInt(n) == Left(n) + [n % 128]
  {
  }

  lemma LeftStep(n: nat)
    requires n > 0x7f
    ensures Left(n) == Left(n / 128 - 1) + [(n / 128 - 1) % 128 + 128]
  {
  }

  /** The buffer, last byte first. */
  function Reversed(tmp: seq<byte>): seq<byte> {
    if tmp == [] then [] else [tmp[|tmp| - 1]] + Reversed(tmp[..|tmp| - 1])
  }

  lemma Narrower(n: nat, k: nat)
    requires k >= 1 && 0x7f < n < Pow128(k)
    ensures k >= 2 && n / 128 - 1 < Pow128(k - 1)
  {
    assert Pow128(1) == 128 * Pow128(0);
  }

  /** What a reader of an unsigned type makes of a number: it keeps the low bits. */
  function Reduced(r: Read<nat>, modulus: nat): Read<nat>
    requires modulus > 0
  {
    match r
    case Short => Short
    case Got(v, rest) => Got(v % modulus, rest)
  }

  lemma StepReduced(n: nat, m: nat, d: nat, modulus: nat)
    requires modulus > 0 && modulus % 128 == 0 && d < 128 && m == n % modulus
    ensures 0 <= (m * 128) % modulus && (m * 128) % modulus + d < modulus
    ensures (m * 128) % modulus + d == (n * 128 + d) % modulus
    ensures ((m * 128) % modulus + d + 1) % modulus == (n * 128 + d + 1) % modulus
  {
    Euclid(n, modulus);
    Euclid(m * 128, modulus);
    var q, p, y := n / modulus, (m * 128) / modulus, (m * 128) % modulus;
    DivAtMost(n, modulus);
    DivAtMost(m * 128, modulus);
    LowZero(m, p, modulus / 128, y);
    Gather(n, q, m, p, y, modulus);
    SameRest(n * 128 + d, q * 128 + p, y + d, modulus);
  }

  lemma SameRest(x: nat, z: nat, y: nat, modulus: nat)
    requires x == z * modulus + y && y < modulus
    ensures x % modulus == y && (x + 1) % modulus == (y + 1) % modulus
  {
    DivUnique(z, y, modulus, x);
    if y + 1 < modulus {
      DivUnique(z, y + 1, modulus, x + 1);
      DivUnique(0, y + 1, modulus, y + 1);
    } else {
      Distribute(z, 1, 1, modulus);
      DivUnique(z + 1, 0, modulus, x + 1);
      DivUnique(1, 0, modulus, modulus);
    }
  }

  lemma LowZero(m: nat, p: int, k: nat, y: nat)
    requires m * 128 == p * (128 * k) + y && y < 128 * k
    ensures y + 128 <= 128 * k
  {
    assert y == 128 * (m - p * k);
  }

  lemma Gather(n: nat, q: int, m: nat, p: int, y: nat, modulus: nat)
    requires n == q * modulus + m && m * 128 == p * modulus + y
    ensures n * 128 == (q * 128 + p) * modulus + y
  {
  }

  /** ReadVarInt (lines 376-388) into an unsigned type of at least eight bits, on the bytes from pos on. */
  method ReadVarIntAt(s: seq<byte>, modulus: nat) returns (r: Read<nat>)
    requires modulus > 0 && modulus % 128 == 0
    ensures r == Reduced(ReadVarInt(s), modulus)
  {
    var n, pos := 0, 0;
    ghost var exact: nat := 0;
    assert s[0..] == s;
    while true
      invariant n == exact % modulus && pos <= |s| && ReadFrom(0, s) == ReadFrom(exact, s[pos..])
      decreases |s| - pos
    {
      if pos == |s| {
        return Short;
      }
      var chData: int := s[pos];
      assert s[pos..][1..] == s[pos + 1..];
      pos := pos + 1;
      StepReduced(exact, n, chData % 128, modulus);
      n := (n * 128) % modulus + chData % 128;
      exact := exact * 128 + chData % 128;
      if chData >= 128 {
        n := (n + 1) % modulus;
        exact := exact + 1;
      } else {
        return Got(n, s[pos..]);
      }
    }
  }

  //
  // Amounts.
  //

  function Pow10(e: nat): (r: nat)
    ensures r >= 1
  {
    if e == 0 then 1 else 10 * Pow10(e - 1)
  }

  /** Trailing decimal zeroes taken off, up to nine in all. */
  function Strip(n: nat, e: nat): (nat, nat)
    requires e <= 9
  {
    if n > 0 && n % 10 == 0 && e < 9 then Strip(n / 10, e + 1) else (n, e)
  }

  function Compressed(n: nat): nat {
    if n == 0 then 0 else CompressedDigits(Strip(n, 0).0, Strip(n, 0).1)
  }

  /** The code of m * 10^e. */
  function CompressedDigits(m: nat, e: nat): nat {
    if e < 9 && m % 10 != 0 then 1 + (m / 10 * 9 + m % 10 - 1) * 10 + e
    else if m > 0 then 1 + (m - 1) * 10 + 9
    else 0
  }

  function Decompressed(x: nat): nat {
    if x == 0 then 0
    else
      var (m, e) := DecompressedDigits(x);
      Times(m, Pow10(e))
  }

  function DecompressedDigits(x: nat): (r: (nat, nat))
    requires x > 0
    ensures r.0 > 0 && r.1 <= 9 && (r.1 == 9 || r.0 % 10 != 0)
  {
    var e, z := (x - 1) % 10, (x - 1) / 10;
    (if e < 9 then z / 9 * 10 + z % 9 + 1 else z + 1, e)
  }

  lemma {:induction false} StripFacts(n: nat, e: nat)
    requires e <= 9 && n > 0
    ensures var (m, k) := Strip(n, e); m > 0 && e <= k <= 9 && n == m * Pow10(k - e) && (k == 9 || m % 10 != 0)
    decreases 9 - e
  {
    if n % 10 == 0 && e < 9 {
      StripFacts(n / 10, e + 1);
      var (m, k) := Strip(n / 10, e + 1);
      Tens(m, Pow10(k - e - 1));
    }
  }

  lemma Tens(m: nat, p: nat)
    ensures 10 * (m * p) == m * (10 * p)
  {
  }

  lemma {:induction false} StripOf(m: nat, k: nat, e: nat)
    requires m > 0 && e + k <= 9 && (e + k == 9 || m % 10 != 0)
    ensures m * Pow10(k) > 0 && Strip(m * Pow10(k), e) == (m, e + k)
    decreases k
  {
    if k > 0 {
      StripOf(m, k - 1, e + 1);
      var x := Times(m, Pow10(k - 1));
      Tens(m, Pow10(k - 1));
      StripTen(x, e);
    } else {
      Plain(m);
    }
  }

  lemma StripTen(x: nat, e: nat)
    requires x > 0 && e < 9
    ensures Strip(10 * x, e) == Strip(x, e + 1)
  {
    assert (10 * x) / 10 == x && (10 * x) % 10 == 0;
  }

  lemma DigitsRoundTrip(m: nat, e: nat)
    requires m > 0 && e <= 9 && (e == 9 || m % 10 != 0)
    ensures CompressedDigits(m, e) > 0 && DecompressedDigits(CompressedDigits(m, e)) == (m, e)
  {
    if e < 9 {
      NineDigits(m / 10, m % 10);
      LastDigit(m / 10 * 9 + m % 10 - 1, e);
    } else {
      LastDigit(m - 1, e);
    }
  }

  lemma NineDigits(q: nat, r: nat)
    requires 1 <= r < 10
    ensures (q * 9 + r - 1) / 9 == q && (q * 9 + r - 1) % 9 == r - 1
  {
  }

  lemma LastDigit(z: nat, e: nat)
    requires e < 10
    ensures (z * 10 + e) / 10 == z && (z * 10 + e) % 10 == e
  {
  }

  lemma DigitsBack(x: nat)
    requires x > 0
    ensures var (m, e) := DecompressedDigits(x); CompressedDigits(m, e) == x
  {
  }

  /** Compression of amounts is one-to-one and onto: each direction undoes the other. */
  lemma AmountRoundTrip(n: nat)
    ensures Decompressed(Compressed(n)) == n && Compressed(Decompressed(n)) == n
  {
    if n > 0 {
      StripFacts(n, 0);
      var (m, e) := Strip(n, 0);
      DigitsRoundTrip(m, e);
      DigitsBack(n);
      var (m', e') := DecompressedDigits(n);
      StripOf(m', e', 0);
    }
  }

  const MAX_MONEY: nat := 21_000_000 * 100_000_000

  lemma CompressedBound(n: nat)
    ensures Compressed(n) <= 10 * n
  {
    if n > 0 {
      StripFacts(n, 0);
      var (m, e) := Strip(n, 0);
      if e == 0 {
        assert Pow10(0) == 1;
      } else {
        assert Pow10(e) == 10 * Pow10(e - 1);
        Tens(m, Pow10(e - 1));
        MulMono(1, Pow10(e - 1), m);
      }
    }
  }

  /** In 64 bits both round trips hold wherever the intermediate result fits, and so for every amount of money. */
  lemma AmountFits64(n: uint64)
    ensures Compressed(n) < TWO64 ==> Decompressed(Compressed(n) % TWO64) % TWO64 == n
    ensures Decompressed(n) < TWO64 ==> Compressed(Decompressed(n) % TWO64) % TWO64 == n
    ensures n <= 2_100_000_000_000_000 ==> Compressed(n) < TWO64
  {
    hide Compressed;
    hide Decompressed;
    AmountRoundTrip(n);
    CompressedBound(n);
    var c, d := Compressed(n), Decompressed(n);
    if c < TWO64 {
      assert c % TWO64 == c;
    }
    if d < TWO64 {
      assert d % TWO64 == d;
    }
  }

  /** Lines 142-159, in 64-bit arithmetic. */
  method CompressAmount(amount: uint64) returns (x: uint64)
    ensures x == Compressed(amount) % TWO64
  {
    var n: nat := amount;
    if n == 0 {
      return 0;
    }
    var e := 0;
    while n % 10 == 0 && e < 9
      invariant 0 < n && 0 <= e <= 9 && Strip(amount, 0) == Strip(n, e)
    {
      n := n / 10;
      e := e + 1;
    }
    if e < 9 {
      var d := n % 10;
      assert 1 <= d <= 9;
      n := n / 10;
      return (1 + (n * 9 + d - 1) * 10 + e) % TWO64;
    } else {
      return (1 + (n - 1) * 10 + 9) % TWO64;
    }
  }

  /** Lines 161-185, in 64-bit arithmetic. */
  method DecompressAmount(code: uint64) returns (amount: uint64)
    ensures amount == Decompressed(code) % TWO64
  {
    if code == 0 {
      return 0;
    }
    var x := code - 1;
    var e := x % 10;
    x := x / 10;
    var n: nat;
    if e < 9 {
      var d := x % 9 + 1;
      x := x / 9;
      n := x * 10 + d;
    } else {
      n := x + 1;
    }
    assert DecompressedDigits(code) == (n, e);
    amount := TimesPow10(n, e);
  }

  /** Lines 180-183. */
  method TimesPow10(m: nat, e0: nat) returns (n: uint64)
    ensures n == (m * Pow10(e0)) % TWO64
  {
    n := m % TWO64;
    var e := e0;
    ghost var p := Times(m, Pow10(0));
    Plain(m);
    while e > 0
      invariant 0 <= e <= e0 && p == m * Pow10(e0 - e) && n == p % TWO64
    {
      Tens(m, Pow10(e0 - e));
      TenMod(p);
      n := (n * 10) % TWO64;
      e := e - 1;
      p := 10 * p;
    }
  }

  lemma Plain(m: nat)
    ensures m * Pow10(0) == m
  {
  }

  lemma TenMod(x: nat)
    ensures ((x % TWO64) * 10) % TWO64 == (10 * x) % TWO64
  {
  }

  //
  // Scripts.
  //

  const OP_DUP: byte := 0x76

  const OP_EQUAL: byte := 0x87

  const OP_EQUALVERIFY: byte := 0x88

  const OP_HASH160: byte := 0xa9

  const OP_CHECKSIG: byte := 0xac

  const SPECIAL_SCRIPTS := 6

  /** Public keys: which uncompressed keys are on the curve, and decompression. */
  datatype Curve = Curve(fullyValid: seq<byte> -> bool, decompress: seq<byte> -> Option<seq<byte>>)

  /** A key on the curve is recovered from its first coordinate and the parity of its second. */
  ghost predicate CurveOk(curve: Curve) {
    forall key :: |key| == 65 && key[0] == 4 && curve.fullyValid(key)
      ==> curve.decompress([2 + key[64] % 2] + key[1..33]) == Some(key)
  }

  predicate IsToKeyID(s: seq<byte>) {
    |s| == 25 && s[0] == OP_DUP && s[1] == OP_HASH160 && s[2] == 20 && s[23] == OP_EQUALVERIFY && s[24] == OP_CHECKSIG
  }

  predicate IsToScriptID(s: seq<byte>) {
    |s| == 23 && s[0] == OP_HASH160 && s[1] == 20 && s[22] == OP_EQUAL
  }

  predicate IsToShortPubKey(s: seq<byte>) {
    |s| == 35 && s[0] == 33 && s[34] == OP_CHECKSIG && (s[1] == 2 || s[1] == 3)
  }

  predicate IsToLongPubKey(curve: Curve, s: seq<byte>) {
    |s| == 67 && s[0] == 65 && s[66] == OP_CHECKSIG && s[1] == 4 && curve.fullyValid(s[1..66])
  }

  predicate IsSpecial(curve: Curve, s: seq<byte>) {
    IsToKeyID(s) || IsToScriptID(s) || IsToShortPubKey(s) || IsToLongPubKey(curve, s)
  }

  /** Compress (src/compressor.cpp:48-77): a kind and the bytes that vary. */
  function CompressScript(curve: Curve, s: seq<byte>): (r: (byte, seq<byte>))
    requires IsSpecial(curve, s)
    ensures r.0 < SPECIAL_SCRIPTS && |r.1| == SpecialSize(r.0)
  {
    if IsToKeyID(s) then (0, s[3..23])
    else if IsToScriptID(s) then (1, s[2..22])
    else if IsToShortPubKey(s) then (s[1], s[2..34])
    else (4 + s[65] % 2, s[2..34])
  }

  function SpecialSize(kind: nat): nat {
    if kind <= 1 then 20 else if kind <= 5 then 32 else 0
  }

  /** Decompress (src/compressor.cpp:88-131); a key that is not on the curve leaves the script empty. */
  function DecompressScript(curve: Curve, kind: nat, b: seq<byte>): seq<byte>
    requires kind < SPECIAL_SCRIPTS
  {
    if kind == 0 then [OP_DUP, OP_HASH160, 20] + b + [OP_EQUALVERIFY, OP_CHECKSIG]
    else if kind == 1 then [OP_HASH160, 20] + b + [OP_EQUAL]
    else if kind <= 3 then [33, kind] + b + [OP_CHECKSIG]
    else
      var key := curve.decompress([kind - 2] + b);
      if key == None then [] else [65] + key.value + [OP_CHECKSIG]
  }

  function WriteScript(curve: Curve, s: seq<byte>): seq<byte> {
    if IsSpecial(curve, s) then [CompressScript(curve, s).0] + CompressScript(curve, s).1
    else VarInt(|s| + SPECIAL_SCRIPTS) + s
  }

  /** The stored forms: a hash, or the first coordinate of a key, after a byte that says which; else the length plus six. */
  lemma StoredForms(curve: Curve, h: seq<byte>, x: seq<byte>, parity: byte, key: seq<byte>)
    requires |h| == 20 && |x| == 32 && parity in [2, 3] && |key| == 65 && key[0] == 4 && curve.fullyValid(key)
    ensures WriteScript(curve, [0x76, 0xa9, 20] + h + [0x88, 0xac]) == [0] + h
    ensures WriteScript(curve, [0xa9, 20] + h + [0x87]) == [1] + h
    ensures WriteScript(curve, [33, parity] + x + [0xac]) == [parity] + x
    ensures WriteScript(curve, [65] + key + [0xac]) == [4 + key[64] % 2] + key[1..33]
  {
    var a, b, c, d := [0x76, 0xa9, 20] + h + [0x88, 0xac], [0xa9, 20] + h + [0x87], [33, parity] + x + [0xac], [65] + key + [0xac];
    assert a[3..23] == h && b[2..22] == h && c[2..34] == x;
    assert d[1..66] == key && d[2..34] == key[1..33] && d[65] == key[64];
  }

  /** Any other script is stored as it is, after its length plus six. */
  lemma OtherForm(curve: Curve, s: seq<byte>)
    requires |s| !in {23, 25, 35, 67}
    ensures WriteScript(curve, s) == VarInt(|s| + 6) + s
  {
  }

  function Take(s: seq<byte>, n: nat): Read<seq<byte>> {
    if |s| < n then Short else Got(s[..n], s[n..])
  }

  function ReadScript(curve: Curve, s: seq<byte>): Read<seq<byte>> {
    match ReadVarInt(s)
    case Short => Short
    case Got(nSize, rest) =>
      if nSize < SPECIAL_SCRIPTS then
        match Take(rest, SpecialSize(nSize))
        case Short => Short
        case Got(b, rest') => Got(DecompressScript(curve, nSize, b), rest')
      else
        match Take(rest, nSize - SPECIAL_SCRIPTS)
        case Short => Short
        case Got(b, rest') => Got(if |b| > MAX_SCRIPT_SIZE then [OP_RETURN] else b, rest')
  }

  /** Decompression undoes compression of the special scripts. */
  lemma SpecialRoundTrip(curve: Curve, s: seq<byte>)
    requires CurveOk(curve) && IsSpecial(curve, s)
    ensures var (kind, b) := CompressScript(curve, s); DecompressScript(curve, kind, b) == s
  {
    if IsToKeyID(s) {
      KeyIDParts(s);
    } else if IsToScriptID(s) {
      ScriptIDParts(s);
    } else if IsToShortPubKey(s) {
      PubKeyParts(s);
    } else {
      LongPubKeyParts(s);
      var key := s[1..66];
      assert curve.fullyValid(key);
    }
  }

  lemma KeyIDParts(s: seq<byte>)
    requires IsToKeyID(s)
    ensures s == [OP_DUP, OP_HASH160, 20] + s[3..23] + [OP_EQUALVERIFY, OP_CHECKSIG]
  {
  }

  lemma ScriptIDParts(s: seq<byte>)
    requires IsToScriptID(s)
    ensures s == [OP_HASH160, 20] + s[2..22] + [OP_EQUAL]
  {
  }

  lemma PubKeyParts(s: seq<byte>)
    requires IsToShortPubKey(s)
    ensures s == [33, s[1]] + s[2..34] + [OP_CHECKSIG]
  {
  }

  lemma LongPubKeyParts(s: seq<byte>)
    requires |s| == 67 && s[0] == 65 && s[66] == OP_CHECKSIG
    ensures var key := s[1..66]; s == [65] + key + [OP_CHECKSIG] && key[1..33] == s[2..34] && key[64] == s[65]
  {
  }

  predicate Storable(curve: Curve, s: seq<byte>) {
    IsSpecial(curve, s) || |s| <= MAX_SCRIPT_SIZE
  }

  /** Special scripts are short, so these are exactly the scripts of allowed size. */
  lemma StorableIff(curve: Curve, s: seq<byte>)
    ensures Storable(curve, s) <==> |s| <= MAX_SCRIPT_SIZE
  {
  }

  /** What comes back for a script: itself, or a short unspendable one if it is too long. */
  function Restored(curve: Curve, s: seq<byte>): (r: seq<byte>)
    ensures r == s <==> Storable(curve, s)
  {
    if Storable(curve, s) then s else [OP_RETURN]
  }

  lemma ScriptRoundTrip(curve: Curve, s: seq<byte>, t: seq<byte>)
    requires CurveOk(curve)
    ensures ReadScript(curve, WriteScript(curve, s) + t) == Got(Restored(curve, s), t)
  {
    hide IsSpecial;
    hide ReadScript;
    hide WriteScript;
    if IsSpecial(curve, s) {
      SpecialScriptRead(curve, s, t);
    } else {
      PlainScriptRead(curve, s, t);
    }
  }

  lemma PlainScriptRead(curve: Curve, s: seq<byte>, t: seq<byte>)
    requires !IsSpecial(curve, s)
    ensures ReadScript(curve, WriteScript(curve, s) + t) == Got(if |s| > MAX_SCRIPT_SIZE then [OP_RETURN] else s, t)
  {
    hide IsSpecial;
    hide VarInt;
    hide ReadVarInt;
    var w := VarInt(|s| + SPECIAL_SCRIPTS);
    assert WriteScript(curve, s) + t == w + (s + t);
    VarIntRoundTrip(|s| + SPECIAL_SCRIPTS, s + t);
    TakeFirst(s, t);
    hide Take;
  }

  lemma TakeFirst(s: seq<byte>, t: seq<byte>)
    ensures Take(s + t, |s|) == Got(s, t)
  {
    assert (s + t)[..|s|] == s && (s + t)[|s|..] == t;
  }

  lemma SpecialScriptRead(curve: Curve, s: seq<byte>, t: seq<byte>)
    requires CurveOk(curve) && IsSpecial(curve, s)
    ensures ReadScript(curve, WriteScript(curve, s) + t) == Got(s, t)
  {
    hide CompressScript;
    hide IsSpecial;
    hide DecompressScript;
    var (kind, b) := CompressScript(curve, s);
    SpecialRoundTrip(curve, s);
    var all := WriteScript(curve, s) + t;
    assert WriteScript(curve, s) == [kind] + b;
    assert all == [kind] + (b + t);
    SmallVarInt(kind, b + t);
    TakeFirst(b, t);
    hide Take;
  }

  lemma SmallVarInt(k: byte, s: seq<byte>)
    requires k < 128
    ensures ReadVarInt([k] + s) == Got(k, s)
  {
    VarIntRoundTrip(k, s);
  }
}
