/** Machine integers, byte order and C strings, as the 32-bit little-endian target has them. */
module Bytes {

  datatype Option<+T> = None | Some(value: T)

  type byte = x: int | 0 <= x < 0x100
  type u16 = x: int | 0 <= x < 0x1_0000
  type u32 = x: int | 0 <= x < 0x1_0000_0000

  const U32_MOD := 0x1_0000_0000
  const OFF_T_LIMIT := 0x8000_0000

  /** Addition on uint32_t and on the target's 32-bit size_t. */
  function Add32(a: u32, b: u32): u32 {
    if a + b < U32_MOD then a + b else a + b - U32_MOD
  }

  /** The conversion of a size_t argument to a signed 32-bit off_t parameter. */
  function AsOffT(a: u32): int {
    if a < OFF_T_LIMIT then a else a - U32_MOD
  }

  // Bitwise OR and left shift on unsigned values

  function Pow2(k: nat): (p: nat)
    ensures p > 0
  {
    if k == 0 then 1 else 2 * Pow2(k - 1)
  }

  function BitOr(a: nat, b: nat): nat {
    if a == 0 && b == 0 then 0
    else (if a % 2 == 1 || b % 2 == 1 then 1 else 0) + 2 * BitOr(a / 2, b / 2)
  }

  function Shl32(a: u32, k: nat): u32 {
    a * Pow2(k) % U32_MOD
  }

  lemma BitOrZero(a: nat)
    ensures BitOr(a, 0) == a
  {
    if a > 0 {
      BitOrZero(a / 2);
    }
  }

  /** OR adds when the low operand fits below the high operand's trailing zeros. */
  lemma {:induction false} BitOrDisjoint(h: nat, b: nat, k: nat)
    requires b < Pow2(k)
    ensures h * Pow2(k) >= 0 && BitOr(h * Pow2(k), b) == h * Pow2(k) + b
  {
    if k == 0 {
      BitOrZero(h);
    } else {
      var a := h * Pow2(k - 1);
      assert h * Pow2(k) == 2 * a;
      BitOrDisjoint(h, b / 2, k - 1);
      assert BitOr(2 * a, b) == b % 2 + 2 * BitOr(a, b / 2);
    }
  }

  // Byte order

  function Be32(s: seq<byte>): u32
    requires |s| == 4
  {
    s[0] as int * 0x100_0000 + s[1] as int * 0x1_0000 + s[2] as int * 0x100 + s[3] as int
  }

  function Be32Bytes(n: u32): (s: seq<byte>)
    ensures |s| == 4 && Be32(s) == n
  {
    var high, low := n / 0x1_0000, n % 0x1_0000;
    [high / 0x100, high % 0x100, low / 0x100, low % 0x100]
  }

  function Le16(s: seq<byte>): u16
    requires |s| == 2
  {
    s[0] as int + s[1] as int * 0x100
  }

  function Le16Bytes(n: u16): (s: seq<byte>)
    ensures |s| == 2 && Le16(s) == n
  {
    [n % 0x100, n / 0x100]
  }

  function Le32(s: seq<byte>): u32
    requires |s| == 4
  {
    s[0] as int + s[1] as int * 0x100 + s[2] as int * 0x1_0000 + s[3] as int * 0x100_0000
  }

  /** The first i bytes in their final places, the others zero. */
  function Be32Prefix(s: seq<byte>, i: nat): nat
    requires |s| == 4 && i <= 4
  {
    Be32([if i > 0 then s[0] else 0, if i > 1 then s[1] else 0, if i > 2 then s[2] else 0, if i > 3 then s[3] else 0])
  }

  /** One round of the loop: the new byte lands below the bytes already in place. */
  lemma OrByte(s: seq<byte>, i: nat)
    requires |s| == 4 && i < 4
    ensures BitOr(Be32Prefix(s, i), Shl32(s[i], 24 - i * 8)) == Be32Prefix(s, i + 1)
  {
    Pow2Values();
    if i == 0 {
      OrShifted(0, s[0], 24, 0x100_0000);
      assert Be32Prefix(s, 0) == 0;
      assert BitOr(0, Shl32(s[0], 24)) == Be32Prefix(s, 1);
    } else if i == 1 {
      OrShifted(s[0], s[1], 16, 0x1_0000);
      assert Be32Prefix(s, 1) == s[0] as int * 0x100_0000;
      assert BitOr(Be32Prefix(s, 1), Shl32(s[1], 16)) == Be32Prefix(s, 2);
    } else if i == 2 {
      OrShifted(s[0] as int * 0x100 + s[1] as int, s[2], 8, 0x100);
      assert BitOr(Be32Prefix(s, 2), Shl32(s[2], 8)) == Be32Prefix(s, 3);
    } else {
      OrShifted(s[0] as int * 0x1_0000 + s[1] as int * 0x100 + s[2] as int, s[3], 0, 1);
      assert BitOr(Be32Prefix(s, 3), Shl32(s[3], 0)) == Be32Prefix(s, 4);
    }
  }

  lemma OrShifted(h: nat, b: byte, k: nat, unit: nat)
    requires unit == Pow2(k) <= 0x100_0000
    ensures h * (0x100 * unit) >= 0
    ensures BitOr(h * (0x100 * unit), Shl32(b, k)) == h * (0x100 * unit) + b * unit
  {
    Pow2Sum(k);
    var shifted := b * unit;
    assert 0 <= shifted <= 0xFF * unit;
    assert Shl32(b, k) == shifted % U32_MOD == shifted;
    BitOrDisjoint(h, shifted, k + 8);
  }

  lemma Pow2Sum(k: nat)
    ensures Pow2(k + 8) == 0x100 * Pow2(k)
  {
    assert Pow2(k + 2) == 4 * Pow2(k);
    assert Pow2(k + 4) == 4 * Pow2(k + 2);
    assert Pow2(k + 6) == 4 * Pow2(k + 4);
    assert Pow2(k + 8) == 4 * Pow2(k + 6);
  }

  /** The loop that ORs shifted bytes reads the buffer as a big-endian number. */
  method U32FromBytesBe(buf: array<byte>) returns (res: u32)
    requires buf.Length == 4
    ensures res == Be32(buf[..])
  {
    res := 0;
    for i := 0 to 4
      invariant res == Be32Prefix(buf[..], i)
    {
      OrByte(buf[..], i);
      res := BitOr(res, Shl32(buf[i], 24 - i * 8));
    }
  }

  lemma Pow2Values()
    ensures Pow2(0) == 1 && Pow2(8) == 0x100 && Pow2(16) == 0x1_0000 && Pow2(24) == 0x100_0000
    ensures Pow2(32) == U32_MOD
  {
    assert Pow2(4) == 16;
    assert Pow2(8) == 0x100;
    assert Pow2(12) == 0x1000;
    assert Pow2(16) == 0x1_0000;
    assert Pow2(20) == 0x10_0000;
    assert Pow2(24) == 0x100_0000;
    assert Pow2(28) == 0x1000_0000;
  }

  // C strings

  /** The string a NUL-terminated buffer holds: its bytes before the first NUL. */
  function CStr(s: seq<byte>): (r: seq<byte>)
    ensures 0 !in r
  {
    if s == [] || s[0] == 0 then [] else [s[0]] + CStr(s[1..])
  }

  lemma {:induction false} CStrOfTerminated(s: seq<byte>, rest: seq<byte>)
    ensures CStr(s + [0] + rest) == CStr(s)
  {
    if s == [] {
      assert ([] + [0] + rest)[0] == 0;
    } else {
      assert (s + [0] + rest)[1..] == s[1..] + [0] + rest;
      CStrOfTerminated(s[1..], rest);
    }
  }

  lemma {:induction false} CStrOfNulFree(s: seq<byte>)
    requires 0 !in s
    ensures CStr(s) == s
  {
    if s != [] {
      CStrOfNulFree(s[1..]);
    }
  }

  /** snprintf: at most size - 1 characters, then the NUL. */
  function SnPrintF(text: string, size: nat): (r: string)
    requires size > 0
    ensures r <= text && |r| == if |text| < size then |text| else size - 1
  {
    if |text| < size then text else text[..size - 1]
  }
}
