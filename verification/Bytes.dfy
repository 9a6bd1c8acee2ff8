/** Fixed-width integers and little-endian words, as the kernel's C code lays them out. */
module Bytes {
  type byte = x: int | 0 <= x < 256
  type u16 = x: int | 0 <= x < 0x1_0000
  type u32 = x: int | 0 <= x < 0x1_0000_0000

  /** The value a `uint32_t` keeps of a mathematical result. */
  function U32(x: int): (r: u32)
    ensures 0 <= x < 0x1_0000_0000 ==> r == x
  {
    x % 0x1_0000_0000
  }

  function Le16(v: u16): (b: seq<byte>)
    ensures |b| == 2
  {
    [v % 0x100, v / 0x100]
  }

  function Rd16(b: seq<byte>, off: nat): u16
    requires off + 2 <= |b|
  {
    (b[off] as int) + 0x100 * (b[off + 1] as int)
  }

  function Le32(v: u32): (b: seq<byte>)
    ensures |b| == 4
  {
    var q1 := v / 0x100;
    var q2 := q1 / 0x100;
    [v % 0x100, q1 % 0x100, q2 % 0x100, q2 / 0x100]
  }

  function Rd32(b: seq<byte>, off: nat): u32
    requires off + 4 <= |b|
  {
    (b[off] as int) + 0x100 * (b[off + 1] as int) + 0x1_0000 * (b[off + 2] as int) + 0x100_0000 * (b[off + 3] as int)
  }

  lemma Le32RoundTrip(v: u32)
    ensures Rd32(Le32(v), 0) == v
  {
  }

  function Zeros(n: nat): (z: seq<byte>)
    ensures |z| == n
  {
    seq(n, _ => 0)
  }

  /** The characters of a NUL-terminated field: everything before the first zero byte. */
  function CStr(s: seq<byte>): (r: seq<byte>)
    ensures r <= s && 0 !in r
    ensures |r| < |s| ==> s[|r|] == 0
  {
    if |s| == 0 || s[0] == 0 then [] else [s[0]] + CStr(s[1..])
  }

  lemma {:induction false} CStrTerminated(n: seq<byte>, rest: seq<byte>)
    requires 0 !in n
    ensures CStr(n + [0] + rest) == n
  {
    if n != [] {
      assert (n + [0] + rest)[1..] == n[1..] + [0] + rest;
      CStrTerminated(n[1..], rest);
    }
  }

  lemma CStrIs(s: seq<byte>, n: nat)
    requires n < |s| && s[n] == 0 && 0 !in s[..n]
    ensures CStr(s) == s[..n]
  {
    assert s == s[..n] + [0] + s[n + 1..];
    CStrTerminated(s[..n], s[n + 1..]);
  }
}
