/** The order-preserving 8-byte key codec for integers and doubles.

    A `uint64_t` is a natural number below 2^64: a shift is a division or a multiplication
    modulo 2^64, `~x` is `2^64 - 1 - x` and the sign bit is set exactly from 2^63 on. */
module KeyCodec {
  import opened Bytes

  const TWO31 := 0x8000_0000
  const TWO32 := 0x1_0000_0000
  const TWO63 := 0x8000_0000_0000_0000
  const TWO64 := 0x1_0000_0000_0000_0000
  const INT64_MAX := 0x7FFF_FFFF_FFFF_FFFF

  type word = x: int | 0 <= x < TWO64
  type int32 = x: int | -TWO31 <= x < TWO31
  type int64 = x: int | -TWO63 <= x < TWO63

  // ---------- big-endian numbers ----------

  function Pow256(n: nat): (p: int)
    ensures p > 0
  {
    if n == 0 then 1 else 256 * Pow256(n - 1)
  }

  function BigEndian(n: nat, v: nat): (s: Str)
    ensures |s| == n
  {
    if n == 0 then [] else BigEndian(n - 1, v / 256) + [(v % 256) as byte]
  }

  function FromBigEndian(s: Str): nat {
    if s == [] then 0 else FromBigEndian(s[..|s| - 1]) * 256 + s[|s| - 1] as int
  }

  lemma {:induction false} FromBigEndianBound(s: Str)
    ensures FromBigEndian(s) < Pow256(|s|)
    decreases |s|
  {
    if s != [] {
      FromBigEndianBound(s[..|s| - 1]);
    }
  }

  lemma {:induction false} FromBigEndianInverts(n: nat, v: nat)
    requires v < Pow256(n)
    ensures FromBigEndian(BigEndian(n, v)) == v
    decreases n
  {
    if n != 0 {
      FromBigEndianInverts(n - 1, v / 256);
      var s := BigEndian(n, v);
      assert s[..n - 1] == BigEndian(n - 1, v / 256);
    }
  }

  lemma {:induction false} BigEndianInverts(s: Str)
    ensures BigEndian(|s|, FromBigEndian(s)) == s
    decreases |s|
  {
    if s != [] {
      var front := s[..|s| - 1];
      BigEndianInverts(front);
      assert FromBigEndian(s) / 256 == FromBigEndian(front);
      assert s == front + [s[|s| - 1]];
    }
  }

  /** Byte order of equal-length strings is the order of the numbers they spell. */
  lemma {:induction false} BigEndianOrder(s: Str, t: Str)
    requires |s| == |t|
    ensures Less(s, t) <==> FromBigEndian(s) < FromBigEndian(t)
    decreases |s|
  {
    if s != [] {
      var n := |s| - 1;
      BigEndianOrder(s[..n], t[..n]);
      LessSnoc(s[..n], t[..n], s[n], t[n]);
      assert s == s[..n] + [s[n]] && t == t[..n] + [t[n]];
      BigEndianInverts(s[..n]);
      BigEndianInverts(t[..n]);
    }
  }

  lemma DivDiv(v: nat, b: nat)
    requires b > 0
    ensures v / 256 / b == v / (256 * b)
  {
    var q, r2, r1 := v / 256 / b, v / 256 % b, v % 256;
    assert v == 256 * b * q + (256 * r2 + r1);
    assert 256 * r2 + r1 < 256 * b;
    DivUnique(v, 256 * b, q, 256 * r2 + r1);
  }

  lemma MultiplesApart(d: nat, m: int, n: int)
    requires m < n
    ensures d * m + d <= d * n
  {
    assert d * n == d * m + d + d * (n - m - 1);
  }

  lemma DivUnique(v: int, d: int, q: int, r: int)
    requires 0 <= r < d && v == d * q + r
    ensures v / d == q
  {
    var q', r' := v / d, v % d;
    assert v == d * q' + r';
    if q > q' {
      MultiplesApart(d, q', q);
    } else if q < q' {
      MultiplesApart(d, q, q');
    }
  }

  /** Byte `i` of the big-endian form is what shifting right by the bytes behind it leaves. */
  lemma {:induction false} BigEndianByte(n: nat, v: nat, i: nat)
    requires i < n
    ensures BigEndian(n, v)[i] as int == v / Pow256(n - 1 - i) % 256
    decreases n
  {
    if i < n - 1 {
      BigEndianByte(n - 1, v / 256, i);
      DivDiv(v, Pow256(n - 2 - i));
    }
  }

  lemma Pow256Table()
    ensures Pow256(0) == 1 && Pow256(1) == 0x100 && Pow256(2) == 0x1_0000 && Pow256(3) == 0x100_0000
    ensures Pow256(4) == 0x1_0000_0000 && Pow256(5) == 0x100_0000_0000 && Pow256(6) == 0x1_0000_0000_0000
    ensures Pow256(7) == 0x100_0000_0000_0000 && Pow256(8) == TWO64
  {
    assert Pow256(2) == 256 * Pow256(1);
    assert Pow256(4) == 256 * Pow256(3);
    assert Pow256(6) == 256 * Pow256(5);
    assert Pow256(8) == 256 * Pow256(7);
  }

  lemma {:induction false} Pow256Monotone(m: nat, n: nat)
    requires m <= n
    ensures Pow256(m) <= Pow256(n)
    decreases n
  {
    if m < n {
      Pow256Monotone(m, n - 1);
    }
  }

  /** Eight big-endian bytes are ordered as the words they hold. */
  lemma WordKeyOrder(v: word, w: word)
    ensures Less(BigEndian(8, v), BigEndian(8, w)) <==> v < w
    ensures BigEndian(8, v) == BigEndian(8, w) <==> v == w
  {
    Pow256Table();
    FromBigEndianInverts(8, v);
    FromBigEndianInverts(8, w);
    BigEndianOrder(BigEndian(8, v), BigEndian(8, w));
  }

  // ---------- integers ----------

  /** The key of an integer: its offset from the smallest `int64_t`, big-endian. */
  function IntKey(value: int64): (key: Str)
    ensures |key| == 8
  {
    BigEndian(8, value + TWO63)
  }

  /** `get<int>()` on a JSON integer keeps its low 32 bits as a signed number. */
  function Narrow(n: int): (r: int32)
    ensures (n - r) % TWO32 == 0
    ensures -TWO31 <= n < TWO31 ==> r == n
  {
    (n + TWO31) % TWO32 - TWO31
  }

  /** A byte of a word, by the power of two that the source shifts away. */
  function ByteAt(v: nat, unit: nat): byte
    requires unit > 0
  {
    (v / unit % 256) as byte
  }

  lemma EightBytes(v: word)
    ensures BigEndian(8, v) ==
            [ByteAt(v, 0x100_0000_0000_0000), ByteAt(v, 0x1_0000_0000_0000), ByteAt(v, 0x100_0000_0000),
             ByteAt(v, 0x1_0000_0000), ByteAt(v, 0x100_0000), ByteAt(v, 0x1_0000), ByteAt(v, 0x100), ByteAt(v, 1)]
  {
    Pow256Table();
    forall i | 0 <= i < 8
      ensures BigEndian(8, v)[i] == ByteAt(v, Pow256(7 - i))
    {
      BigEndianByte(8, v, i);
    }
  }

  method EncodeIntKey(value: int32) returns (key: Str)
    ensures key == IntKey(value)
  {
    var shifted := (value + INT64_MAX + 1) % TWO64;
    var bytes := new byte[8];
    bytes[0] := ByteAt(shifted, 0x100_0000_0000_0000);
    bytes[1] := ByteAt(shifted, 0x1_0000_0000_0000);
    bytes[2] := ByteAt(shifted, 0x100_0000_0000);
    bytes[3] := ByteAt(shifted, 0x1_0000_0000);
    bytes[4] := ByteAt(shifted, 0x100_0000);
    bytes[5] := ByteAt(shifted, 0x1_0000);
    bytes[6] := ByteAt(shifted, 0x100);
    bytes[7] := ByteAt(shifted, 1);
    key := bytes[..];
    EightBytes(shifted);
  }

  /** One step of the decoders' shift-and-or loop never drops a bit within eight bytes. */
  lemma ShiftInByte(s: Str, i: nat)
    requires i < |s| <= 8
    ensures (FromBigEndian(s[..i]) * 256) % TWO64 + s[i] as int == FromBigEndian(s[..i + 1]) < TWO64
  {
    FromBigEndianBound(s[..i + 1]);
    Pow256Monotone(i + 1, 8);
    Pow256Table();
    assert s[..i + 1][..i] == s[..i];
  }

  /** `Collection::decodeIntKey`: the sign bit is flipped with an exclusive or. */
  method DecodeIntKey(encoded: Str) returns (result: int64)
    requires |encoded| == 8
    ensures result == FromBigEndian(encoded) - TWO63
    ensures IntKey(result) == encoded
  {
    var value: word := 0;
    for i := 0 to 8
      invariant value == FromBigEndian(encoded[..i])
    {
      ShiftInByte(encoded, i);
      value := (value * 256) % TWO64 + encoded[i] as int;
    }
    assert encoded[..8] == encoded;
    BigEndianInverts(encoded);
    var flipped := if value >= TWO63 then value - TWO63 else value + TWO63;
    result := if flipped >= TWO63 then flipped - TWO64 else flipped;
  }

  /** `StorageEngine::DecodeIntKey`: the offset is subtracted modulo 2^64, and a string of any
      other length decodes to 0. */
  method EngineDecodeIntKey(encoded: Str) returns (result: int64)
    ensures |encoded| == 8 ==> result == FromBigEndian(encoded) - TWO63
    ensures |encoded| != 8 ==> result == 0
  {
    if |encoded| != 8 {
      return 0;
    }
    var value: word := 0;
    for i := 0 to 8
      invariant value == FromBigEndian(encoded[..i])
    {
      ShiftInByte(encoded, i);
      value := (value * 256) % TWO64 + encoded[i] as int;
    }
    assert encoded[..8] == encoded;
    var difference := (value - (-TWO63)) % TWO64;
    result := if difference >= TWO63 then difference - TWO64 else difference;
  }

  /** Integer keys are in strict byte order exactly when the integers are, and decode back. */
  lemma IntKeyOrder(a: int64, b: int64)
    ensures Less(IntKey(a), IntKey(b)) <==> a < b
    ensures IntKey(a) == IntKey(b) <==> a == b
    ensures FromBigEndian(IntKey(a)) - TWO63 == a
  {
    WordKeyOrder(a + TWO63, b + TWO63);
    Pow256Table();
    FromBigEndianInverts(8, a + TWO63);
  }

  // ---------- doubles, given by their IEEE 754 bit patterns ----------

  /** Negative patterns are complemented, the others get the sign bit. */
  function DoubleKeyWord(bits: word): word {
    if bits >= TWO63 then TWO64 - 1 - bits else bits + TWO63
  }

  function DoubleKey(bits: word): (key: Str)
    ensures |key| == 8
  {
    BigEndian(8, DoubleKeyWord(bits))
  }

  method EncodeDoubleKey(value: word) returns (key: Str)
    ensures key == DoubleKey(value)
  {
    var bits := value;
    if bits >= TWO63 {
      bits := TWO64 - 1 - bits;
    } else {
      bits := bits + TWO63;
    }
    var bytes := new byte[8];
    for i := 0 to 8
      invariant forall j :: 0 <= j < i ==> bytes[j] == BigEndian(8, bits)[j]
    {
      BigEndianByte(8, bits, i);
      bytes[i] := (bits / Pow256(7 - i) % 256) as byte;
    }
    key := bytes[..];
    assert key == BigEndian(8, bits);
  }

  /** The decoder inverts the encoder: whatever it returns encodes to its argument. */
  method DecodeDoubleKey(encoded: Str) returns (bits: word)
    requires |encoded| == 8
    ensures DoubleKey(bits) == encoded
  {
    var value: word := 0;
    for i := 0 to 8
      invariant value == FromBigEndian(encoded[..i])
    {
      ShiftInByte(encoded, i);
      value := (value * 256) % TWO64 + encoded[i] as int;
    }
    assert encoded[..8] == encoded;
    BigEndianInverts(encoded);
    if value < TWO63 {
      bits := TWO64 - 1 - value;
    } else {
      bits := value - TWO63;
    }
  }

  /** Distinct patterns have distinct keys, so decoding after encoding is the identity. */
  lemma DoubleKeyInjective(x: word, y: word)
    requires DoubleKey(x) == DoubleKey(y)
    ensures x == y
  {
    WordKeyOrder(DoubleKeyWord(x), DoubleKeyWord(y));
  }

  // ---------- the arithmetic reading of `~` ----------

  function Pow2(n: nat): (p: int)
    ensures p > 0
  {
    if n == 0 then 1 else 2 * Pow2(n - 1)
  }

  function Bit(v: nat, i: nat): nat {
    if i == 0 then v % 2 else Bit(v / 2, i - 1)
  }

  /** `2^n - 1 - v` is the complement of `v`: it has exactly the bits that `v` lacks. */
  lemma {:induction false} ComplementFlipsEveryBit(n: nat, v: nat, i: nat)
    requires v < Pow2(n) && i < n
    ensures Bit(Pow2(n) - 1 - v, i) == 1 - Bit(v, i)
    decreases i
  {
    if i > 0 {
      assert (Pow2(n) - 1 - v) / 2 == Pow2(n - 1) - 1 - v / 2;
      ComplementFlipsEveryBit(n - 1, v / 2, i - 1);
    }
  }
}
