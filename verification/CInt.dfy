/**
The fixed-width integers of C, as conversions on unbounded ones.
*/
module CInt {
  const P15: nat := 0x8000
  const P16: nat := 0x1_0000
  const P31: nat := 0x8000_0000
  const P32: nat := 0x1_0000_0000

  type Uint32 = n: nat | n < P32

  /* The conversions to uint32_t, int32_t and int16_t. */
  function ToUint32(n: int): Uint32 {
    n % P32
  }

  function ToInt32(n: int): int {
    if n % P32 < P31 then n % P32 else n % P32 - P32
  }

  function ToInt16(n: int): int {
    if n % P16 < P15 then n % P16 else n % P16 - P16
  }

  lemma WrapAdd(m: nat, n: nat)
    ensures ToUint32(ToUint32(m) + n) == ToUint32(m + n)
  {
  }
}
