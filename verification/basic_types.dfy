/** Fixed-width integers of the runtime and the host's pointer width.
    The runtime's U32/I32/U64/I64 are C++ integer types; here each is a newtype
    over its exact range, and Uptr (whose width depends on the host) is an
    integer checked against the host's pointer width. */
module BasicTypes {

  newtype U32 = x: int | 0 <= x < 0x1_0000_0000
  newtype I32 = x: int | -0x8000_0000 <= x < 0x8000_0000
  newtype U64 = x: int | 0 <= x < 0x1_0000_0000_0000_0000
  newtype I64 = x: int | -0x8000_0000_0000_0000 <= x < 0x8000_0000_0000_0000

  /** 2 to the power n. */
  function Pow2(n: nat): (r: nat)
    ensures r >= 1
    ensures n >= 1 ==> r >= 2
  {
    if n == 0 then 1 else 2 * Pow2(n - 1)
  }

  lemma {:induction false} Pow2Add(a: nat, b: nat)
    ensures Pow2(a + b) == Pow2(a) * Pow2(b)
  {
    if a > 0 {
      Pow2Add(a - 1, b);
      assert Pow2(a + b) == 2 * Pow2(a - 1 + b);
    }
  }

  /** The powers of two that the integer widths of the runtime need. */
  lemma Pow2Widths()
    ensures Pow2(1) == 2
    ensures Pow2(31) == 0x8000_0000
    ensures Pow2(32) == 0x1_0000_0000
    ensures Pow2(63) == 0x8000_0000_0000_0000
    ensures Pow2(64) == 0x1_0000_0000_0000_0000
  {
    assert Pow2(1) == 2;
    assert Pow2(2) == 4;
    assert Pow2(3) == 8;
    assert Pow2(4) == 16;
    Pow2Add(4, 4);
    assert Pow2(8) == 256;
    Pow2Add(8, 8);
    assert Pow2(16) == 0x1_0000;
    Pow2Add(16, 16);
    assert Pow2(32) == 0x1_0000_0000;
    Pow2Add(32, 32);
    assert Pow2(64) == 0x1_0000_0000_0000_0000;
    Pow2Add(31, 1);
    Pow2Add(63, 1);
  }

  /** The host the runtime is built for: 32-bit or 64-bit. */
  datatype Platform = Host32 | Host64

  /** sizeof(Uptr) on the host. */
  function PointerBytes(p: Platform): nat {
    if p.Host64? then 8 else 4
  }

  /** Bit width of Uptr on the host. */
  function UptrBits(p: Platform): nat {
    8 * PointerBytes(p)
  }

  /** How many values a Uptr can hold on the host. */
  function UptrRange(p: Platform): nat {
    if p.Host64? then 0x1_0000_0000_0000_0000 else 0x1_0000_0000
  }

  /** UptrRange is 2 to the power of the Uptr width. */
  lemma UptrRangeIsPow2(p: Platform)
    ensures Pow2(UptrBits(p)) == UptrRange(p)
  {
    Pow2Widths();
  }

  /** A value of type Uptr on the host. */
  predicate IsUptr(p: Platform, v: int) {
    0 <= v < UptrRange(p)
  }
}
