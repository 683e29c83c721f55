// Machine words as bounded integers.
module Words {
  const TWO16: int := 0x1_0000
  const TWO31: int := 0x8000_0000
  const TWO32: int := 0x1_0000_0000
  const TWO63: int := 0x8000_0000_0000_0000
  const TWO64: int := 0x1_0000_0000_0000_0000

  type byte = x: int | 0 <= x < 256
  type i32 = x: int | -0x8000_0000 <= x < 0x8000_0000
  type u32 = x: int | 0 <= x < 0x1_0000_0000
  type u64 = x: int | 0 <= x < 0x1_0000_0000_0000_0000

  datatype Option<T> = None | Some(value: T)

  predicate InI32(x: int) { -0x8000_0000 <= x < 0x8000_0000 }

  function Not32(x: u32): u32 { 0xffff_ffff - x }
  function Not64(x: u64): u64 { TWO64 - 1 - x }

  function Signed(x: u32): i32 { if x < TWO31 then x else x - TWO32 }

  // The low 32 or 64 bits of x as a signed number.
  function Signed32(x: int): i32 {
    var u := x % TWO32;
    if u < TWO31 then u else u - TWO32
  }

  function Signed64(x: int): int {
    var u := x % TWO64;
    if u < TWO63 then u else u - TWO64
  }

  function Pow2(n: nat): nat { if n == 0 then 1 else 2 * Pow2(n - 1) }

  lemma Pow2Values()
    ensures Pow2(32) == TWO32 && Pow2(64) == TWO64
  {
    assert Pow2(8) == 256;
    assert Pow2(16) == TWO16;
    assert Pow2(24) == 0x100_0000;
    assert Pow2(32) == TWO32;
    assert Pow2(40) == 0x100_0000_0000;
    assert Pow2(48) == 0x1_0000_0000_0000;
    assert Pow2(56) == 0x100_0000_0000_0000;
  }
}
